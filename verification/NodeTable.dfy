/**
 * The walks of the subscription map over its node table. Each method takes the table, changes it step by
 * step and returns it; the ghost arguments name the tree it represents.
 */
module NodeTable {
  import opened TopicFilter
  import opened TrieModel
  import opened TreeCounts

  ghost function PathKeys<X>(tree: map<Path, Cell<X>>, f: Path): seq<Key> {
    if f == [] then [] else PathKeys(tree, Init(f)) + [KeyOf(tree, f)]
  }

  /** The child of `p` at level `l` is looked up under (id of p, l). */
  lemma ChildKey<X>(nodes: map<Key, Node<X>>, tree: map<Path, Cell<X>>, denote: map<Id, Path>, next: Id, p: Path,
                    l: Level)
    requires Represents(nodes, tree, denote, next) && p in tree
    ensures KeyOf(tree, p + [l]) == Key(tree[p].id, l)
    ensures Key(tree[p].id, l) in nodes <==> p + [l] in tree
    ensures p + [l] in tree ==> nodes[Key(tree[p].id, l)] == NodeAt(tree, p + [l])
  {
    assert Init(p + [l]) == p && Last(p + [l]) == l;
    var k := Key(tree[p].id, l);
    if k in nodes {
      assert KnownKey(tree, denote, k);
    }
  }

  lemma OwnKey<X>(nodes: map<Key, Node<X>>, tree: map<Path, Cell<X>>, denote: map<Id, Path>, next: Id, p: Path)
    requires Represents(nodes, tree, denote, next) && p in tree
    ensures KeyOf(tree, p) in nodes && nodes[KeyOf(tree, p)] == NodeAt(tree, p) && Shaped(tree, denote, next)
    ensures nodes[KeyOf(tree, p)].count == tree[p].count && nodes[KeyOf(tree, p)].value == tree[p].value
  {
  }

  lemma PrefixClosed<X>(tree: map<Path, Cell<X>>, denote: map<Id, Path>, next: Id, f: Path, i: nat)
    requires Shaped(tree, denote, next) && f in tree && i <= |f|
    ensures f[..i] in tree
  {
    PrefixesIn(tree, f, i);
  }

  lemma PathKeysSnoc<X>(tree: map<Path, Cell<X>>, f: Path, i: nat)
    requires i < |f|
    ensures PathKeys(tree, f[..i + 1]) == PathKeys(tree, f[..i]) + [KeyOf(tree, f[..i + 1])]
  {
    assert Init(f[..i + 1]) == f[..i];
  }

  lemma {:induction false} PathKeysAt<X>(tree: map<Path, Cell<X>>, f: Path, i: nat)
    requires i < |f|
    ensures |PathKeys(tree, f)| == |f| && PathKeys(tree, f)[i] == KeyOf(tree, f[..i + 1])
    decreases |f|
  {
    if i + 1 < |f| {
      PathKeysAt(tree, Init(f), i);
      assert Init(f)[..i + 1] == f[..i + 1];
    } else {
      if |f| > 1 {
        PathKeysAt(tree, Init(f), 0);
      }
      assert f[..i + 1] == f;
    }
  }

  /** Keys depend on ids only, so as long as ids are kept the keys along a path are kept. */
  lemma {:induction false} SameIdsSameKeys<X>(t: map<Path, Cell<X>>, t': map<Path, Cell<X>>, denote: map<Id, Path>,
                                              next: Id, f: Path)
    requires forall p | p in t :: p in t' && t'[p].id == t[p].id
    requires Shaped(t, denote, next) && f in t
    ensures PathKeys(t', f) == PathKeys(t, f)
    ensures KeyOf(t', f) == KeyOf(t, f)
    decreases |f|
  {
    if f != [] {
      SameIdsSameKeys(t, t', denote, next, Init(f));
    }
  }

  /** The table keys along `f`, or nothing when some level is missing. */
  method FindTopicFilter<X>(nodes: map<Key, Node<X>>, f: Filter, ghost tree: map<Path, Cell<X>>,
                            ghost denote: map<Id, Path>, ghost next: Id)
    returns (path: seq<Key>)
    requires Represents(nodes, tree, denote, next)
    ensures path == if f in tree then PathKeys(tree, f) else []
  {
    assert KeyOf(tree, []) == ROOT_KEY;
    var parentId := nodes[ROOT_KEY].id;
    path := [];
    var i := 0;
    while i < |f|
      invariant 0 <= i <= |f|
      invariant f[..i] in tree && parentId == tree[f[..i]].id
      invariant path == PathKeys(tree, f[..i])
    {
      var k := Key(parentId, f[i]);
      TakeSnoc(f, i);
      ChildKey(nodes, tree, denote, next, f[..i], f[i]);
      if k !in nodes {
        assert f !in tree by {
          if f in tree {
            PrefixClosed(tree, denote, next, f, i + 1);
          }
        }
        return [];
      }
      PathKeysSnoc(tree, f, i);
      path := path + [k];
      parentId := nodes[k].id;
      i := i + 1;
    }
    assert f[..i] == f;
  }

  /** The tree after one more level has been entered below `p`. */
  ghost function Raised<X>(tree: map<Path, Cell<X>>, p: Path): map<Path, Cell<X>>
    requires p in tree
  {
    WithCell(tree, p, tree[p].count + 1, tree[p].value)
  }

  method CountUp<X>(nodes0: map<Key, Node<X>>, k: Key, ghost p: Path, ghost tree: map<Path, Cell<X>>,
                    ghost denote: map<Id, Path>, ghost next: Id)
    returns (nodes: map<Key, Node<X>>)
    requires Represents(nodes0, tree, denote, next) && p in tree && k == KeyOf(tree, p)
    ensures Represents(nodes, Raised(tree, p), denote, next)
  {
    OwnKey(nodes0, tree, denote, next, p);
    hide Represents;
    var n := nodes0[k];
    SetNode(nodes0, tree, denote, next, p, n.count + 1, n.value);
    nodes := nodes0[k := n.(count := n.count + 1)];
  }

  ghost function Entered<X>(t: map<Path, Cell<X>>, next: Id, p: Path, l: Level, empty: X): map<Path, Cell<X>> {
    var q := p + [l];
    if q in t then Raised(t, q) else WithLeaf(t, next, p, l, empty)
  }

  /** A child with the next id and count 1, and the parent's flags set where the child is a wildcard. */
  method AddChild<X>(nodes0: map<Key, Node<X>>, next: Id, parent: Key, l: Level, empty: X,
                     ghost tree: map<Path, Cell<X>>, ghost denote: map<Id, Path>, ghost p: Path)
    returns (nodes: map<Key, Node<X>>)
    requires Represents(nodes0, tree, denote, next) && p in tree && parent == KeyOf(tree, p) && p + [l] !in tree
    ensures Represents(nodes, WithLeaf(tree, next, p, l, empty), denote[next + 1 := p + [l]], next + 1)
  {
    OwnKey(nodes0, tree, denote, next, p);
    AddNode(nodes0, tree, denote, next, p, l, empty);
    hide Represents;
    hide WithLeaf;
    var up := nodes0[parent];
    nodes := nodes0[Key(up.id, l) := Node(next + 1, parent, 1, false, false, empty)];
    nodes := nodes[parent := up.(hasPlus := up.hasPlus || l == Plus, hasHash := up.hasHash || l == Hash)];
  }

  lemma EnteredKey<X>(tree: map<Path, Cell<X>>, denote: map<Id, Path>, next: Id, p: Path, l: Level, empty: X)
    requires Shaped(tree, denote, next) && p in tree
    ensures var t := Entered(tree, next, p, l, empty); p + [l] in t && KeyOf(t, p + [l]) == Key(tree[p].id, l)
  {
    assert Init(p + [l]) == p && Last(p + [l]) == l;
    if p + [l] in tree {
      SameKey(tree, p + [l], tree[p + [l]].count + 1, tree[p + [l]].value, p + [l]);
    } else {
      AddKey(tree, denote, next, p, l, empty, p);
    }
  }

  /** One level of the walk: the child of `p` is created with count 1, or its count is raised. */
  method EnterLevel<X>(nodes0: map<Key, Node<X>>, next0: Id, parent: Key, l: Level, empty: X,
                       ghost tree0: map<Path, Cell<X>>, ghost denote0: map<Id, Path>, ghost p: Path)
    returns (nodes: map<Key, Node<X>>, next: Id, k: Key, ghost tree: map<Path, Cell<X>>, ghost denote: map<Id, Path>)
    requires Represents(nodes0, tree0, denote0, next0)
    requires p in tree0 && parent == KeyOf(tree0, p)
    ensures Represents(nodes, tree, denote, next) && Extends(denote0, denote)
    ensures p + [l] in tree && k == KeyOf(tree, p + [l])
    ensures tree == Entered(tree0, next0, p, l, empty)
  {
    OwnKey(nodes0, tree0, denote0, next0, p);
    assert next0 + 1 !in denote0;
    hide Represents;
    hide Shaped;
    hide WithLeaf;
    hide Raised;
    nodes, next, denote := nodes0, next0, denote0;
    tree := Entered(tree0, next0, p, l, empty);
    k := Key(nodes[parent].id, l);
    ChildKey(nodes, tree0, denote, next, p, l);
    EnteredKey(tree0, denote, next, p, l, empty);
    if k !in nodes {
      nodes := AddChild(nodes, next, parent, l, empty, tree0, denote, p);
      next := next + 1;
      denote := denote[next := p + [l]];
    } else {
      nodes := CountUp(nodes, k, p + [l], tree0, denote, next);
    }
  }

  lemma EnterGrows<X>(t0: map<Path, Cell<X>>, t: map<Path, Cell<X>>, denote: map<Id, Path>, next: Id, f: Path, i: nat,
                      empty: X)
    requires i < |f| && Grown(t0, t, f, 0, i, empty)
    requires Shaped(t, denote, next) && f[..i] in t
    ensures f[..i] + [f[i]] == f[..i + 1]
    ensures var t' := Entered(t, next, f[..i], f[i], empty);
            && Grown(t0, t', f, 0, i + 1, empty)
            && PathKeys(t', f[..i + 1]) == PathKeys(t, f[..i]) + [KeyOf(t', f[..i + 1])]
  {
    TakeSnoc(f, i);
    var t' := Entered(t, next, f[..i], f[i], empty);
    if f[..i + 1] in t {
      GrowOld(t0, t, f, i, empty);
    } else {
      GrowNew(t0, t, f, i, empty, next);
    }
    SameIdsSameKeys(t, t', denote, next, f[..i]);
    PathKeysSnoc(t', f, i);
  }

  /** Walks down `f`, creating missing nodes with count 1 and raising the counts of present ones. */
  method CreateTopicFilter<X>(nodes0: map<Key, Node<X>>, next0: Id, f: Filter, empty: X,
                              ghost tree0: map<Path, Cell<X>>, ghost denote0: map<Id, Path>)
    returns (nodes: map<Key, Node<X>>, next: Id, path: seq<Key>, ghost tree: map<Path, Cell<X>>,
             ghost denote: map<Id, Path>)
    requires Represents(nodes0, tree0, denote0, next0)
    ensures Represents(nodes, tree, denote, next) && Extends(denote0, denote) && NewIds(denote0, tree0, tree)
    ensures Grown(tree0, tree, f, 0, |f|, empty)
    ensures path == PathKeys(tree, f)
  {
    nodes, next, tree, denote := nodes0, next0, tree0, denote0;
    var parent := ROOT_KEY;
    path := [];
    var i := 0;
    while i < |f|
      invariant 0 <= i <= |f|
      invariant Represents(nodes, tree, denote, next) && Extends(denote0, denote) && NewIds(denote0, tree0, tree)
      invariant Grown(tree0, tree, f, 0, i, empty)
      invariant f[..i] in tree && parent == KeyOf(tree, f[..i])
      invariant path == PathKeys(tree, f[..i])
    {
      EnterGrows(tree0, tree, denote, next, f, i, empty);
      EnterNewIds(tree0, denote0, tree, denote, next, f[..i], f[i], empty);
      nodes, next, parent, tree, denote := EnterLevel(nodes, next, parent, f[i], empty, tree, denote, f[..i]);
      path := path + [parent];
      i := i + 1;
    }
    assert f[..i] == f;
  }

  lemma EnterNewIds<X>(t0: map<Path, Cell<X>>, d0: map<Id, Path>, t: map<Path, Cell<X>>, denote: map<Id, Path>,
                       next: Id, p: Path, l: Level, empty: X)
    requires Shaped(t, denote, next) && Extends(d0, denote) && NewIds(d0, t0, t)
    ensures NewIds(d0, t0, Entered(t, next, p, l, empty))
  {
    assert next + 1 !in denote;
  }

  lemma GrowRaised<X>(t0: map<Path, Cell<X>>, t: map<Path, Cell<X>>, denote: map<Id, Path>, next: Id, f: Filter, i: nat,
                      empty: X)
    requires Shaped(t0, denote, next) && f in t0 && i < |PathKeys(t0, f)| && |f| == |PathKeys(t0, f)|
             && Grown(t0, t, f, 0, i, empty)
    ensures f[..i + 1] in t && PathKeys(t0, f)[i] == KeyOf(t, f[..i + 1])
    ensures Grown(t0, Raised(t, f[..i + 1]), f, 0, i + 1, empty)
  {
    PathKeysAt(t0, f, i);
    PrefixClosed(t0, denote, next, f, i + 1);
    SameIdsSameKeys(t0, t, denote, next, f[..i + 1]);
    GrowOld(t0, t, f, i, empty);
  }

  lemma StartGrown<X>(t: map<Path, Cell<X>>, f: Filter, empty: X)
    ensures Grown(t, t, f, 0, 0, empty)
  {
  }

  /** Raises the count of every node on a path that exists in full. */
  method IncreaseSubscriptions<X>(nodes0: map<Key, Node<X>>, path: seq<Key>, ghost f: Filter, ghost empty: X,
                                  ghost tree0: map<Path, Cell<X>>, ghost denote: map<Id, Path>, ghost next: Id)
    returns (nodes: map<Key, Node<X>>, ghost tree: map<Path, Cell<X>>)
    requires Represents(nodes0, tree0, denote, next)
    requires f in tree0 && path == PathKeys(tree0, f)
    ensures Represents(nodes, tree, denote, next)
    ensures Grown(tree0, tree, f, 0, |f|, empty)
  {
    OwnKey(nodes0, tree0, denote, next, f);
    PathKeysAt(tree0, f, 0);
    StartGrown(tree0, f, empty);
    hide Represents;
    hide Shaped;
    hide PathKeys;
    hide KeyOf;
    hide Grown;
    hide Raised;
    nodes, tree := nodes0, tree0;
    for i := 0 to |path|
      invariant Represents(nodes, tree, denote, next)
      invariant Grown(tree0, tree, f, 0, i, empty)
    {
      GrowRaised(tree0, tree, denote, next, f, i, empty);
      nodes := CountUp(nodes, path[i], f[..i + 1], tree, denote, next);
      tree := Raised(tree, f[..i + 1]);
    }
  }

  lemma LoweredNothing<X>(nodes: map<Key, Node<X>>, k: Key)
    ensures Lowered(nodes, k, false, false) == nodes
  {
  }

  /** Lowers the wildcard flags of a node whose wildcard child has just been erased. */
  method ClearFlags<X>(nodes0: map<Key, Node<X>>, k: Key, plus: bool, hash: bool) returns (nodes: map<Key, Node<X>>)
    requires k in nodes0
    ensures nodes == Lowered(nodes0, k, plus, hash)
  {
    nodes := nodes0;
    if plus {
      nodes := nodes[k := nodes[k].(hasPlus := false)];
    }
    if hash {
      nodes := nodes[k := nodes[k].(hasHash := false)];
    }
  }

  /** Keys of nodes that are still there do not change while other nodes are dropped. */
  lemma ShrunkKey<X>(t0: map<Path, Cell<X>>, t: map<Path, Cell<X>>, denote: map<Id, Path>, next: Id, f: Path, lo: nat,
                     p: Path)
    requires Shrunk(t0, t, f, lo) && Shaped(t, denote, next) && p in t
    ensures KeyOf(t, p) == KeyOf(t0, p)
  {
    if p != [] {
      assert Init(p) in t;
    }
  }

  /** The tree after the count of `q` has been lowered, and `q` dropped if that was its last entry. */
  ghost function Left<X>(t: map<Path, Cell<X>>, q: Path): map<Path, Cell<X>>
    requires q in t && t[q].count > 0
  {
    var lowered := WithCell(t, q, t[q].count - 1, t[q].value);
    if t[q].count == 1 then lowered - {q} else lowered
  }

  /** Lowers one count of the path and erases the node when nothing is left at or below it. */
  method LeaveLevel<K, X>(nodes0: map<Key, Node<X>>, k: Key, plus0: bool, hash0: bool, ghost above: Key,
                          ghost t0: map<Path, Cell<X>>, ghost tree0: map<Path, Cell<X>>, ghost denote: map<Id, Path>,
                          ghost next: Id, ghost entries: set<Entry<K>>, ghost e: Entry<K>, ghost i: nat)
    returns (nodes: map<Key, Node<X>>, plus: bool, hash: bool, ghost tree: map<Path, Cell<X>>)
    requires 0 < i <= |e.filter| && Counted(t0, entries) && e in entries
    requires Represents(Lowered(nodes0, k, plus0, hash0), tree0, denote, next)
    requires Shrunk(t0, tree0, e.filter, i)
    requires k == KeyOf(t0, e.filter[..i]) && above == KeyOf(t0, e.filter[..i - 1])
    ensures Represents(Lowered(nodes, above, plus, hash), tree, denote, next)
    ensures Shrunk(t0, tree, e.filter, i - 1)
  {
    ghost var q := e.filter[..i];
    LeaveFacts(t0, tree0, denote, next, entries, e, i);
    tree := Left(tree0, q);
    nodes := ClearFlags(nodes0, k, plus0, hash0);
    var n := nodes[k];
    SetNode(nodes, tree0, denote, next, q, n.count - 1, n.value);
    nodes := nodes[k := n.(count := n.count - 1)];
    if nodes[k].count == 0 {
      DropLast(nodes, t0, tree0, denote, next, entries, e, i);
      plus, hash := k.level == Plus, k.level == Hash;
      nodes := nodes - {k};
    } else {
      plus, hash := false, false;
      LoweredNothing(nodes, above);
    }
  }

  /** What is known of the node at length `i` of the path when its turn comes. */
  lemma LeaveFacts<K, X>(t0: map<Path, Cell<X>>, t: map<Path, Cell<X>>, denote: map<Id, Path>, next: Id,
                         entries: set<Entry<K>>, e: Entry<K>, i: nat)
    requires 0 < i <= |e.filter| && Counted(t0, entries) && e in entries
    requires Shaped(t, denote, next) && Shrunk(t0, t, e.filter, i)
    ensures var q := e.filter[..i];
            && q in t && t[q] == t0[q] && t[q].count == Count(entries, q) > 0
            && KeyOf(t, q) == KeyOf(t0, q)
            && Shrunk(t0, Left(t, q), e.filter, i - 1)
  {
    var q := e.filter[..i];
    CountPositive(entries, e, q);
    Shrink(t0, t, e.filter, i);
    ShrunkKey(t0, t, denote, next, e.filter, i, q);
  }

  /** Erasing the node whose count has just reached zero. */
  lemma DropLast<K, X>(nodes: map<Key, Node<X>>, t0: map<Path, Cell<X>>, t: map<Path, Cell<X>>, denote: map<Id, Path>,
                       next: Id, entries: set<Entry<K>>, e: Entry<K>, i: nat)
    requires 0 < i <= |e.filter| && Counted(t0, entries) && e in entries
    requires Shaped(t, denote, next) && Shrunk(t0, t, e.filter, i) && Count(entries, e.filter[..i]) == 1
    requires e.filter[..i] in t
    requires Represents(nodes, WithCell(t, e.filter[..i], 0, t[e.filter[..i]].value), denote, next)
    ensures var q := e.filter[..i]; var k := KeyOf(t0, q);
            Represents(Lowered(nodes - {k}, KeyOf(t0, e.filter[..i - 1]), k.level == Plus, k.level == Hash),
                       WithCell(t, q, 0, t[q].value) - {q}, denote, next)
  {
    var q := e.filter[..i];
    var x := t[q].value;
    assert Init(q) == e.filter[..i - 1];
    ShrunkKey(t0, t, denote, next, e.filter, i, q);
    ShrunkKey(t0, t, denote, next, e.filter, i, Init(q));
    SameKey(t, q, 0, x, q);
    SameKey(t, q, 0, x, Init(q));
    forall l: Level ensures q + [l] !in WithCell(t, q, 0, x) {
      LastIsChildless(t0, entries, t, e, i, l);
    }
    DropNode(nodes, WithCell(t, q, 0, x), denote, next, q);
  }

  /** Lowers the counts along a path from its leaf, erasing the nodes that reach zero and the flags kept for them. */
  method RemoveTopicFilter<K, X>(nodes0: map<Key, Node<X>>, path: seq<Key>, ghost tree0: map<Path, Cell<X>>,
                                 ghost denote: map<Id, Path>, ghost next: Id, ghost entries: set<Entry<K>>,
                                 ghost e: Entry<K>)
    returns (nodes: map<Key, Node<X>>, ghost tree: map<Path, Cell<X>>)
    requires Represents(nodes0, tree0, denote, next)
    requires Counted(tree0, entries) && e in entries && path == PathKeys(tree0, e.filter)
    ensures Represents(nodes, tree, denote, next)
    ensures Shrunk(tree0, tree, e.filter, 0)
  {
    nodes, tree := nodes0, tree0;
    ghost var f := e.filter;
    PathKeysAt(tree0, f, 0);
    var plus, hash := false, false;
    assert f[..|f|] == f;
    LoweredNothing(nodes, KeyOf(tree0, f));
    var i := |path|;
    while i > 0
      invariant 0 <= i <= |f|
      invariant Shrunk(tree0, tree, f, i)
      invariant Represents(Lowered(nodes, KeyOf(tree0, f[..i]), plus, hash), tree, denote, next)
    {
      PathKeysAt(tree0, f, i - 1);
      ghost var up := KeyOf(tree0, f[..i - 1]);
      nodes, plus, hash, tree :=
        LeaveLevel(nodes, path[i - 1], plus, hash, up, tree0, tree, denote, next, entries, e, i);
      i := i - 1;
    }
    assert KeyOf(tree, []) == ROOT_KEY;
    nodes := ClearFlags(nodes, ROOT_KEY, plus, hash);
  }
}
