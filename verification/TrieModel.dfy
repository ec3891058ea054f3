/**
 * The node table of the subscription map, and the two abstractions it is proved against:
 * a tree of paths, and below it a plain store of (filter, key) entries.
 */
module TrieModel {
  import opened TopicFilter

  type Path = seq<Level>
  type Id = nat

  /** Key of a node in the table: the id of its parent and its own level. */
  datatype Key = Key(parent: Id, level: Level)

  datatype Node<X> = Node(id: Id, parent: Key, count: nat, hasPlus: bool, hasHash: bool, value: X)

  /** What the tree of paths records for one node. */
  datatype Cell<X> = Cell(id: Id, count: nat, value: X)

  datatype Entry<K> = Entry(filter: Path, key: K)

  const ROOT_ID: Id := 1
  const ROOT_KEY: Key := Key(2, Name(""))
  const NO_PARENT: Key := Key(0, Name(""))

  ghost function KeyOf<X>(tree: map<Path, Cell<X>>, p: Path): Key {
    if p == [] || Init(p) !in tree then ROOT_KEY else Key(tree[Init(p)].id, Last(p))
  }

  /** The key a node keeps for its parent: KeyOf(tree, Init(p)), written out. */
  ghost function ParentKey<X>(tree: map<Path, Cell<X>>, p: Path): Key {
    if p == [] then NO_PARENT
    else if |p| == 1 || Init(Init(p)) !in tree then ROOT_KEY
    else Key(tree[Init(Init(p))].id, Last(Init(p)))
  }

  ghost function NodeAt<X>(tree: map<Path, Cell<X>>, p: Path): Node<X>
    requires p in tree
  {
    Node(tree[p].id, ParentKey(tree, p), tree[p].count, p + [Plus] in tree, p + [Hash] in tree, tree[p].value)
  }

  /** The tree is closed under prefixes, ids grow away from the root and name one path each. */
  ghost predicate Shaped<X>(tree: map<Path, Cell<X>>, denote: map<Id, Path>, next: Id) {
    && [] in tree && tree[[]].id == ROOT_ID && next >= 2
    && (forall p {:trigger Init(p)} | p in tree && p != [] :: Init(p) in tree && tree[Init(p)].id < tree[p].id)
    && (forall p | p in tree :: tree[p].id in denote && denote[tree[p].id] == p)
    && (forall i | i in denote :: i <= next && i != ROOT_KEY.parent)
  }

  /** A tree that holds the parent of every path holds all its prefixes. */
  lemma {:induction false} PrefixesIn<X>(tree: map<Path, Cell<X>>, f: Path, i: nat)
    requires (forall p {:trigger Init(p)} | p in tree && p != [] :: Init(p) in tree) && f in tree && i <= |f|
    ensures f[..i] in tree
    decreases |f|
  {
    if i < |f| {
      PrefixesIn(tree, Init(f), i);
      assert Init(f)[..i] == f[..i];
    } else {
      assert f[..i] == f;
    }
  }

  /** No id ever changes its path. */
  ghost predicate Extends(d0: map<Id, Path>, d: map<Id, Path>) {
    forall i | i in d0 :: i in d && d[i] == d0[i]
  }

  /** A path that enters the tree gets an id that was never given out before. */
  ghost predicate NewIds<X>(d0: map<Id, Path>, t0: map<Path, Cell<X>>, t: map<Path, Cell<X>>) {
    forall p | p in t && p !in t0 :: t[p].id !in d0
  }

  ghost predicate KnownKey<X>(tree: map<Path, Cell<X>>, denote: map<Id, Path>, k: Key) {
    && k.parent in denote
    && denote[k.parent] in tree
    && tree[denote[k.parent]].id == k.parent
    && denote[k.parent] + [k.level] in tree
  }

  /** The node table holds exactly the nodes of the tree, each under its own key. */
  ghost predicate Represents<X>(nodes: map<Key, Node<X>>, tree: map<Path, Cell<X>>, denote: map<Id, Path>, next: Id) {
    && Shaped(tree, denote, next)
    && (forall p {:trigger KeyOf(tree, p)} | p in tree ::
      KeyOf(tree, p) in nodes && nodes[KeyOf(tree, p)] == NodeAt(tree, p))
    && (forall k | k in nodes :: k == ROOT_KEY || KnownKey(tree, denote, k))
  }

  // ----- the store

  ghost function Below<K>(entries: set<Entry<K>>, p: Path): set<Entry<K>> {
    set e | e in entries && p <= e.filter
  }

  /** The number of keys stored at or below `p`. */
  ghost function Count<K>(entries: set<Entry<K>>, p: Path): nat {
    |Below(entries, p)|
  }

  ghost predicate ValuesAt<K, V>(store: map<Entry<K>, V>, p: Path, value: map<K, V>) {
    && (forall k | k in value :: Entry(p, k) in store && store[Entry(p, k)] == value[k])
    && (forall e | e in store && e.filter == p :: e.key in value)
  }

  /** A node exists exactly where something is stored at or below it, and counts how much. */
  ghost predicate Counted<K, X>(tree: map<Path, Cell<X>>, entries: set<Entry<K>>) {
    && (forall e | e in entries :: e.filter != [])
    && (forall p :: p in tree <==> p == [] || Count(entries, p) > 0)
    && (forall p | p in tree && p != [] :: tree[p].count == Count(entries, p))
  }

  /** The tree holds exactly the stored entries. */
  ghost predicate Holds<K, V>(tree: map<Path, Cell<map<K, V>>>, store: map<Entry<K>, V>) {
    && Counted(tree, store.Keys)
    && (forall p | p in tree :: ValuesAt(store, p, tree[p].value))
  }

  // ----- one step on the table is one step on the tree

  ghost function WithLeaf<X>(tree: map<Path, Cell<X>>, next: Id, p: Path, l: Level, x: X): map<Path, Cell<X>> {
    tree[p + [l] := Cell(next + 1, 1, x)]
  }

  /** The table after emplacing the leaf and raising its parent's flags. */
  ghost function NodesWithLeaf<X>(nodes: map<Key, Node<X>>, k: Key, next: Id, l: Level, x: X): map<Key, Node<X>>
    requires k in nodes
  {
    var n := nodes[k];
    nodes[Key(n.id, l) := Node(next + 1, k, 1, false, false, x)]
         [k := n.(hasPlus := n.hasPlus || l == Plus, hasHash := n.hasHash || l == Hash)]
  }

  lemma AddShaped<X>(tree: map<Path, Cell<X>>, denote: map<Id, Path>, next: Id, p: Path, l: Level, x: X)
    requires Shaped(tree, denote, next)
    requires p in tree && p + [l] !in tree
    ensures Shaped(WithLeaf(tree, next, p, l, x), denote[next + 1 := p + [l]], next + 1)
  {
    assert Init(p + [l]) == p;
    NoChildren(tree, denote, next, p + [l]);
  }

  lemma AddKey<X>(tree: map<Path, Cell<X>>, denote: map<Id, Path>, next: Id, p: Path, l: Level, x: X, r: Path)
    requires Shaped(tree, denote, next)
    requires p in tree && p + [l] !in tree
    ensures r in tree ==> KeyOf(WithLeaf(tree, next, p, l, x), r) == KeyOf(tree, r)
    ensures KeyOf(WithLeaf(tree, next, p, l, x), p + [l]) == Key(tree[p].id, l)
  {
    assert Init(p + [l]) == p && Last(p + [l]) == l;
  }

  /** A new leaf `p + [l]` with the next id, flags of its parent raised. */
  lemma AddNode<X>(nodes: map<Key, Node<X>>, tree: map<Path, Cell<X>>, denote: map<Id, Path>, next: Id, p: Path,
                   l: Level, x: X)
    requires Represents(nodes, tree, denote, next)
    requires p in tree && p + [l] !in tree
    ensures Key(tree[p].id, l) !in nodes
    ensures Represents(NodesWithLeaf(nodes, KeyOf(tree, p), next, l, x),
                       WithLeaf(tree, next, p, l, x), denote[next + 1 := p + [l]], next + 1)
  {
    var q := p + [l];
    var k, c := KeyOf(tree, p), Key(tree[p].id, l);
    assert c !in nodes by {
      assert c in nodes ==> KnownKey(tree, denote, c);
    }
    var nodes' := NodesWithLeaf(nodes, k, next, l, x);
    var tree' := WithLeaf(tree, next, p, l, x);
    var denote' := denote[next + 1 := q];
    AddShaped(tree, denote, next, p, l, x);
    forall r | r in tree'
      ensures KeyOf(tree', r) in nodes' && nodes'[KeyOf(tree', r)] == NodeAt(tree', r)
    {
      AddNodeAt(nodes, tree, denote, next, p, l, x, r);
    }
    forall k' | k' in nodes' && k' != ROOT_KEY ensures KnownKey(tree', denote', k') {
      AddKnown(nodes, tree, denote, next, p, l, x, k');
    }
  }

  lemma AddKnown<X>(nodes: map<Key, Node<X>>, tree: map<Path, Cell<X>>, denote: map<Id, Path>, next: Id, p: Path,
                    l: Level, x: X, k: Key)
    requires Represents(nodes, tree, denote, next)
    requires p in tree && p + [l] !in tree && k != ROOT_KEY
    requires k in nodes || k == Key(tree[p].id, l)
    ensures KnownKey(WithLeaf(tree, next, p, l, x), denote[next + 1 := p + [l]], k)
  {
    if k in nodes {
      assert KnownKey(tree, denote, k);
    }
  }

  lemma AddNodeAt<X>(nodes: map<Key, Node<X>>, tree: map<Path, Cell<X>>, denote: map<Id, Path>, next: Id, p: Path,
                     l: Level, x: X, r: Path)
    requires Represents(nodes, tree, denote, next)
    requires p in tree && p + [l] !in tree && r in WithLeaf(tree, next, p, l, x)
    ensures var nodes' := NodesWithLeaf(nodes, KeyOf(tree, p), next, l, x);
            var tree' := WithLeaf(tree, next, p, l, x);
            KeyOf(tree', r) in nodes' && nodes'[KeyOf(tree', r)] == NodeAt(tree', r)
  {
    AddKey(tree, denote, next, p, l, x, r);
    FreshKey(nodes, tree, denote, next, p, l, p);
    if r == p + [l] {
      NewCell(tree, denote, next, p, l, x);
    } else {
      OldCell(tree, denote, next, p, l, x, r);
      KeyInjective(nodes, tree, denote, next, r, p);
      FreshKey(nodes, tree, denote, next, p, l, r);
    }
  }

  lemma NewCell<X>(tree: map<Path, Cell<X>>, denote: map<Id, Path>, next: Id, p: Path, l: Level, x: X)
    requires Shaped(tree, denote, next)
    requires p in tree && p + [l] !in tree
    ensures NodeAt(WithLeaf(tree, next, p, l, x), p + [l]) == Node(next + 1, KeyOf(tree, p), 1, false, false, x)
  {
    var q := p + [l];
    NoChildren(tree, denote, next, q);
    AppendInjective(q, Plus, p, l);
    AppendInjective(q, Hash, p, l);
    assert Init(q) == p;
    AddKey(tree, denote, next, p, l, x, p);
  }

  lemma OldCell<X>(tree: map<Path, Cell<X>>, denote: map<Id, Path>, next: Id, p: Path, l: Level, x: X, r: Path)
    requires Shaped(tree, denote, next)
    requires p in tree && p + [l] !in tree && r in tree
    ensures var n := NodeAt(tree, r);
            NodeAt(WithLeaf(tree, next, p, l, x), r)
            == n.(hasPlus := n.hasPlus || (r == p && l == Plus), hasHash := n.hasHash || (r == p && l == Hash))
  {
    AppendInjective(r, Plus, p, l);
    AppendInjective(r, Hash, p, l);
    AddKey(tree, denote, next, p, l, x, Init(r));
  }

  lemma FreshKey<X>(nodes: map<Key, Node<X>>, tree: map<Path, Cell<X>>, denote: map<Id, Path>, next: Id, p: Path,
                    l: Level, r: Path)
    requires Represents(nodes, tree, denote, next)
    requires p in tree && p + [l] !in tree && r in tree
    ensures KeyOf(tree, r) != Key(tree[p].id, l)
  {
    if r != [] {
      assert r == Init(r) + [Last(r)];
    }
  }

  ghost function WithCell<X>(tree: map<Path, Cell<X>>, p: Path, count: nat, x: X): map<Path, Cell<X>>
    requires p in tree
  {
    tree[p := tree[p].(count := count, value := x)]
  }

  /** Changing the count or the value of one node changes that cell alone. */
  lemma SetNode<X>(nodes: map<Key, Node<X>>, tree: map<Path, Cell<X>>, denote: map<Id, Path>, next: Id, p: Path,
                   count: nat, x: X)
    requires Represents(nodes, tree, denote, next)
    requires p in tree
    ensures var k := KeyOf(tree, p);
            Represents(nodes[k := nodes[k].(count := count, value := x)], WithCell(tree, p, count, x), denote, next)
  {
    var k := KeyOf(tree, p);
    var nodes' := nodes[k := nodes[k].(count := count, value := x)];
    var tree' := WithCell(tree, p, count, x);
    SetShaped(tree, denote, next, p, count, x);
    forall r | r in tree'
      ensures KeyOf(tree', r) in nodes' && nodes'[KeyOf(tree', r)] == NodeAt(tree', r)
    {
      KeyInjective(nodes, tree, denote, next, r, p);
      SetCell(tree, p, count, x, r);
    }
    forall k' | k' in nodes' ensures k' == ROOT_KEY || KnownKey(tree', denote, k') {
      SetKnown(tree, denote, p, count, x, k');
    }
  }

  lemma SetShaped<X>(tree: map<Path, Cell<X>>, denote: map<Id, Path>, next: Id, p: Path, count: nat, x: X)
    requires Shaped(tree, denote, next) && p in tree
    ensures Shaped(WithCell(tree, p, count, x), denote, next)
  {
  }

  lemma SetKnown<X>(tree: map<Path, Cell<X>>, denote: map<Id, Path>, p: Path, count: nat, x: X, k: Key)
    requires p in tree
    ensures KnownKey(WithCell(tree, p, count, x), denote, k) == KnownKey(tree, denote, k)
  {
  }

  lemma SetCell<X>(tree: map<Path, Cell<X>>, p: Path, count: nat, x: X, r: Path)
    requires p in tree && r in tree
    ensures KeyOf(WithCell(tree, p, count, x), r) == KeyOf(tree, r)
    ensures NodeAt(WithCell(tree, p, count, x), r)
         == if r == p then NodeAt(tree, r).(count := count, value := x) else NodeAt(tree, r)
  {
    SameKey(tree, p, count, x, Init(r));
  }

  lemma SameKey<X>(tree: map<Path, Cell<X>>, p: Path, count: nat, x: X, r: Path)
    requires p in tree
    ensures KeyOf(WithCell(tree, p, count, x), r) == KeyOf(tree, r)
  {
  }

  ghost function Lowered<X>(nodes: map<Key, Node<X>>, k: Key, plus: bool, hash: bool): map<Key, Node<X>> {
    if k !in nodes then nodes
    else nodes[k := nodes[k].(hasPlus := nodes[k].hasPlus && !plus, hasHash := nodes[k].hasHash && !hash)]
  }

  /** Erasing a childless node, and lowering the flag its parent kept for it. */
  lemma DropNode<X>(nodes: map<Key, Node<X>>, tree: map<Path, Cell<X>>, denote: map<Id, Path>, next: Id, p: Path)
    requires Represents(nodes, tree, denote, next)
    requires p in tree && p != []
    requires forall l: Level :: p + [l] !in tree
    ensures Represents(Lowered(nodes - {KeyOf(tree, p)}, KeyOf(tree, Init(p)), Last(p) == Plus, Last(p) == Hash),
                       tree - {p}, denote, next)
  {
    var k, up := KeyOf(tree, p), KeyOf(tree, Init(p));
    KeyInjective(nodes, tree, denote, next, p, Init(p));
    var nodes' := Lowered(nodes - {k}, up, Last(p) == Plus, Last(p) == Hash);
    var tree' := tree - {p};
    DropShaped(tree, denote, next, p);
    forall r | r in tree'
      ensures KeyOf(tree', r) in nodes' && nodes'[KeyOf(tree', r)] == NodeAt(tree', r)
    {
      KeyInjective(nodes, tree, denote, next, r, p);
      KeyInjective(nodes, tree, denote, next, r, Init(p));
      DropNodeAt(nodes, tree, denote, next, p, r);
    }
    forall k' | k' in nodes' ensures k' == ROOT_KEY || KnownKey(tree', denote, k') {
      if k' != ROOT_KEY {
        DropKnown(tree, denote, next, p, k');
      }
    }
  }

  lemma DropNodeAt<X>(nodes: map<Key, Node<X>>, tree: map<Path, Cell<X>>, denote: map<Id, Path>, next: Id, p: Path,
                      r: Path)
    requires Shaped(tree, denote, next)
    requires p in tree && p != [] && r in tree && r != p
    requires forall l: Level :: p + [l] !in tree
    requires var k := KeyOf(tree, r);
             k in nodes && nodes[k] == NodeAt(tree, r) && k != KeyOf(tree, p)
               && (k == KeyOf(tree, Init(p)) <==> r == Init(p))
    ensures var nodes' := Lowered(nodes - {KeyOf(tree, p)}, KeyOf(tree, Init(p)), Last(p) == Plus, Last(p) == Hash);
            KeyOf(tree - {p}, r) in nodes' && nodes'[KeyOf(tree - {p}, r)] == NodeAt(tree - {p}, r)
  {
    DropCell(tree, denote, next, p, r);
  }

  lemma DropKnown<X>(tree: map<Path, Cell<X>>, denote: map<Id, Path>, next: Id, p: Path, k: Key)
    requires Shaped(tree, denote, next) && KnownKey(tree, denote, k)
    requires p in tree && p != [] && k != KeyOf(tree, p)
    requires forall l: Level :: p + [l] !in tree
    ensures KnownKey(tree - {p}, denote, k)
  {
    KnownPath(tree, denote, next, k);
  }

  lemma DropShaped<X>(tree: map<Path, Cell<X>>, denote: map<Id, Path>, next: Id, p: Path)
    requires Shaped(tree, denote, next)
    requires p in tree && p != []
    requires forall l: Level :: p + [l] !in tree
    ensures Shaped(tree - {p}, denote, next)
  {
    forall r | r in tree && r != p && r != [] ensures Init(r) != p {
      assert r == Init(r) + [Last(r)];
    }
  }

  lemma DropCell<X>(tree: map<Path, Cell<X>>, denote: map<Id, Path>, next: Id, p: Path, r: Path)
    requires Shaped(tree, denote, next)
    requires p in tree && p != []
    requires forall l: Level :: p + [l] !in tree
    requires r in tree && r != p
    ensures KeyOf(tree - {p}, r) == KeyOf(tree, r)
    ensures var n := NodeAt(tree, r); var above := r == Init(p);
            NodeAt(tree - {p}, r) == n.(hasPlus := n.hasPlus && !(above && Last(p) == Plus),
                                        hasHash := n.hasHash && !(above && Last(p) == Hash))
  {
    assert p == Init(p) + [Last(p)];
    AppendInjective(r, Plus, Init(p), Last(p));
    AppendInjective(r, Hash, Init(p), Last(p));
    DropKey(tree, denote, next, p, r);
    if r != [] {
      assert Init(r) != p by { assert r == Init(r) + [Last(r)]; }
      DropKey(tree, denote, next, p, Init(r));
    }
  }

  lemma DropKey<X>(tree: map<Path, Cell<X>>, denote: map<Id, Path>, next: Id, p: Path, r: Path)
    requires Shaped(tree, denote, next)
    requires forall l: Level :: p + [l] !in tree
    requires r in tree && r != p
    ensures KeyOf(tree - {p}, r) == KeyOf(tree, r)
  {
    if r != [] {
      assert r == Init(r) + [Last(r)];
    }
  }

  /** A table key other than the root's is the key of the path it spells. */
  lemma KnownPath<X>(tree: map<Path, Cell<X>>, denote: map<Id, Path>, next: Id, k: Key)
    requires Shaped(tree, denote, next) && KnownKey(tree, denote, k)
    ensures KeyOf(tree, denote[k.parent] + [k.level]) == k
  {
    assert Init(denote[k.parent] + [k.level]) == denote[k.parent];
  }

  lemma NoChildren<X>(tree: map<Path, Cell<X>>, denote: map<Id, Path>, next: Id, q: Path)
    requires Shaped(tree, denote, next) && q !in tree
    ensures forall l: Level :: q + [l] !in tree
  {
    forall l: Level ensures q + [l] !in tree {
      assert Init(q + [l]) == q;
    }
  }

  lemma AppendInjective(p: Path, l: Level, q: Path, m: Level)
    ensures p + [l] == q + [m] <==> p == q && l == m
  {
    if p + [l] == q + [m] {
      assert Init(p + [l]) == p && Init(q + [m]) == q;
      assert Last(p + [l]) == l && Last(q + [m]) == m;
    }
  }

  /** Every path is reached through exactly one key. */
  lemma KeyInjective<X>(nodes: map<Key, Node<X>>, tree: map<Path, Cell<X>>, denote: map<Id, Path>, next: Id, p: Path,
                        q: Path)
    requires Represents(nodes, tree, denote, next)
    requires p in tree && q in tree
    ensures KeyOf(tree, p) == KeyOf(tree, q) <==> p == q
  {
    if KeyOf(tree, p) == KeyOf(tree, q) {
      if p != [] && q != [] {
        assert Init(p) == Init(q);
        assert p == Init(p) + [Last(p)];
        assert q == Init(q) + [Last(q)];
      }
    }
  }
}
