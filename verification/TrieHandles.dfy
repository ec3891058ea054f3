/** Walks from a node to the root along the parent keys that every node carries. */
module TrieHandles {
  import opened Wrappers
  import opened TopicFilter
  import opened TrieModel
  import opened TreeCounts
  import opened NodeTable

  /** The filter a handle stands for; fixed for ever once its parent id has been given out. */
  ghost function PathOf(denote: map<Id, Path>, h: Key): Path {
    if h.parent in denote then denote[h.parent] + [h.level] else []
  }

  lemma HandlePath<X>(nodes: map<Key, Node<X>>, tree: map<Path, Cell<X>>, denote: map<Id, Path>, next: Id, h: Key)
    requires Represents(nodes, tree, denote, next) && h in nodes
    ensures PathOf(denote, h) in tree && KeyOf(tree, PathOf(denote, h)) == h
    ensures h == ROOT_KEY <==> PathOf(denote, h) == []
  {
    if h != ROOT_KEY {
      KnownPath(tree, denote, next, h);
    }
  }

  lemma PathHandle<X>(nodes: map<Key, Node<X>>, tree: map<Path, Cell<X>>, denote: map<Id, Path>, next: Id, p: Path)
    requires Represents(nodes, tree, denote, next) && p in tree
    ensures KeyOf(tree, p) in nodes && PathOf(denote, KeyOf(tree, p)) == p
    ensures nodes[KeyOf(tree, p)] == NodeAt(tree, p)
    ensures KeyOf(tree, p) == ROOT_KEY <==> p == []
  {
    if p != [] {
      assert p == Init(p) + [Last(p)];
    }
  }

  /** One step up: the parent key is the key of the shorter path, and its id is smaller. */
  lemma StepUp<X>(nodes: map<Key, Node<X>>, tree: map<Path, Cell<X>>, denote: map<Id, Path>, next: Id, p: Path)
    requires Represents(nodes, tree, denote, next) && p in tree && p != []
    ensures KeyOf(tree, p) in nodes
    ensures var up := nodes[KeyOf(tree, p)].parent;
            Init(p) in tree && up == KeyOf(tree, Init(p)) && up in nodes && nodes[up].id < nodes[KeyOf(tree, p)].id
  {
    PathHandle(nodes, tree, denote, next, p);
    PathHandle(nodes, tree, denote, next, Init(p));
    assert |p| > 1 ==> Init(Init(p)) in tree;
  }

  lemma PathKeysGrow<X>(tree: map<Path, Cell<X>>, p: Path, walked: seq<Key>)
    requires p != []
    ensures PathKeys(tree, Init(p)) + ([KeyOf(tree, p)] + walked) == PathKeys(tree, p) + walked
  {
  }

  /** The keys from the root down to `h`, or None where the code throws "invalid handle". */
  method HandleToIterators<X>(nodes: map<Key, Node<X>>, h: Key, ghost tree: map<Path, Cell<X>>,
                              ghost denote: map<Id, Path>, ghost next: Id)
    returns (path: Option<seq<Key>>)
    requires Represents(nodes, tree, denote, next)
    ensures path.Some? <==> h in nodes
    ensures path.Some? ==> path.value == PathKeys(tree, PathOf(denote, h))
  {
    assert KeyOf(tree, []) == ROOT_KEY;
    ghost var f := PathOf(denote, h);
    ghost var p := f;
    if h in nodes {
      HandlePath(nodes, tree, denote, next, h);
    }
    var i := h;
    var walked := [];
    while i != ROOT_KEY
      invariant h !in nodes ==> i == h != ROOT_KEY
      invariant h in nodes ==>
                  i in nodes && p in tree && i == KeyOf(tree, p) && PathKeys(tree, p) + walked == PathKeys(tree, f)
      decreases if i in nodes then nodes[i].id else 0
    {
      if i !in nodes {
        return None;
      }
      PathHandle(nodes, tree, denote, next, p);
      StepUp(nodes, tree, denote, next, p);
      assert PathKeys(tree, Init(p)) + ([i] + walked) == PathKeys(tree, p) + walked by {
        PathKeysGrow(tree, p, walked);
      }
      walked := [i] + walked;
      i := nodes[i].parent;
      p := Init(p);
    }
    PathHandle(nodes, tree, denote, next, p);
    path := Some(walked);
  }

  /** The text of a handle, built from the leaf upwards; None where the code throws "invalid handle". */
  method HandleToTopicFilter<X>(nodes: map<Key, Node<X>>, h: Key, ghost tree: map<Path, Cell<X>>,
                                ghost denote: map<Id, Path>, ghost next: Id)
    returns (text: Option<string>)
    requires Represents(nodes, tree, denote, next)
    ensures text.Some? <==> h in nodes
    ensures text.Some? ==> text.value == Rebuild(PathOf(denote, h))
  {
    assert KeyOf(tree, []) == ROOT_KEY;
    ghost var f := PathOf(denote, h);
    ghost var n: nat := |f|;
    if h in nodes {
      HandlePath(nodes, tree, denote, next, h);
      assert f[..n] == f;
    }
    var i := h;
    var result := "";
    while i != ROOT_KEY
      invariant n <= |f|
      invariant h !in nodes ==> i == h != ROOT_KEY
      invariant h in nodes ==> i in nodes && f[..n] in tree && i == KeyOf(tree, f[..n]) && result == Rebuild(f[n..])
      decreases if i in nodes then nodes[i].id else 0
    {
      if i !in nodes {
        return None;
      }
      PathHandle(nodes, tree, denote, next, f[..n]);
      StepUp(nodes, tree, denote, next, f[..n]);
      assert Init(f[..n]) == f[..n - 1] && Last(f[..n]) == f[n - 1];
      assert f[n - 1..][1..] == f[n..];
      if result == "" {
        result := Text(i.level);
      } else {
        result := Text(i.level) + [SEPARATOR] + result;
      }
      i := nodes[i].parent;
      n := n - 1;
    }
    PathHandle(nodes, tree, denote, next, f[..n]);
    text := Some(result);
  }

  /** Raises the count of every node from `h` up to the root. */
  method IncreaseByHandle<X>(nodes0: map<Key, Node<X>>, h: Key, ghost empty: X, ghost tree0: map<Path, Cell<X>>,
                             ghost denote: map<Id, Path>, ghost next: Id)
    returns (nodes: map<Key, Node<X>>, ghost tree: map<Path, Cell<X>>)
    requires Represents(nodes0, tree0, denote, next)
    requires h in nodes0
    ensures Represents(nodes, tree, denote, next)
    ensures var f := PathOf(denote, h); Grown(tree0, tree, f, 0, |f|, empty)
  {
    hide Represents;
    nodes, tree := nodes0, tree0;
    ghost var f := PathOf(denote, h);
    ghost var n: nat := |f|;
    HandlePath(nodes, tree, denote, next, h);
    assert f[..n] == f;
    assert KeyOf(tree, []) == ROOT_KEY;
    var i := h;
    while i != ROOT_KEY
      invariant n <= |f| && f[..n] in tree0
      invariant Represents(nodes, tree, denote, next)
      invariant Grown(tree0, tree, f, n, |f|, empty)
      invariant i == KeyOf(tree, f[..n])
      decreases n
    {
      PathHandle(nodes, tree, denote, next, f[..n]);
      StepUp(nodes, tree, denote, next, f[..n]);
      assert Init(f[..n]) == f[..n - 1];
      GrowAbove(tree0, tree, f, n, empty);
      var e := nodes[i];
      SetNode(nodes, tree, denote, next, f[..n], e.count + 1, e.value);
      SameKey(tree, f[..n], e.count + 1, e.value, f[..n - 1]);
      tree := WithCell(tree, f[..n], e.count + 1, e.value);
      nodes := nodes[i := e.(count := e.count + 1)];
      i := e.parent;
      n := n - 1;
    }
    PathHandle(nodes, tree, denote, next, f[..n]);
  }
}
