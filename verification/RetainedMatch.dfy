/** Finding the retained topics that match a filter. */
module RetainedMatch {
  import opened Wrappers
  import opened TopicFilter
  import opened TrieModel
  import opened TrieMatch
  import opened RetainedModel
  import opened RetainedTable
  import opened RetainedOrder
  import opened FilterAlgebra

  /** `keys` are the node keys of the paths `at`, position by position. */
  ghost predicate Placed<V>(keys: seq<Key>, at: seq<Path>, tree: Tree<V>) {
    |keys| == |at| && forall i | 0 <= i < |at| :: at[i] in tree && keys[i] == SlotOf(tree, at[i])
  }

  lemma PlacedConcat<V>(ks: seq<Key>, at: seq<Path>, ks': seq<Key>, at': seq<Path>, tree: Tree<V>)
    requires Placed(ks, at, tree) && Placed(ks', at', tree)
    ensures Placed(ks + ks', at + at', tree)
  {
  }

  /** The children of `parents` whose name passes the test, once each. */
  ghost predicate Kids<V>(at: seq<Path>, parents: seq<Path>, tree: Tree<V>, ok: Level -> bool) {
    Distinct(at) && forall q :: q in at <==> q in tree && q != [] && Init(q) in parents && ok(Last(q))
  }

  lemma KidsConcat<V>(a: seq<Path>, b: seq<Path>, ps: seq<Path>, p: Path, tree: Tree<V>, ok: Level -> bool)
    requires p !in ps && Kids(a, ps, tree, ok) && Kids(b, [p], tree, ok)
    ensures Kids(a + b, ps + [p], tree, ok)
  {
    DistinctConcat(a, b);
  }

  // ----- the children of one node

  /** Keys in the order of their ids, that is, of creation. */
  ghost predicate ByAge<V>(ks: seq<Key>, nodes: map<Key, Leaf<V>>) {
    && (forall i | 0 <= i < |ks| :: ks[i] in nodes)
    && forall i, j | 0 <= i < j < |ks| :: nodes[ks[i]].id <= nodes[ks[j]].id
  }

  /** The wildcard index: the children of a node, oldest first. */
  method ChildrenOf<V>(nodes: map<Key, Leaf<V>>, parent: Id) returns (ks: seq<Key>)
    ensures Distinct(ks) && ByAge(ks, nodes)
    ensures forall k :: k in ks <==> k in nodes && k.parent == parent
  {
    ks := [];
    var rest := set k | k in nodes && k.parent == parent;
    ghost var all := rest;
    while rest != {}
      invariant rest <= all
      invariant Distinct(ks) && ByAge(ks, nodes)
      invariant forall k :: k in ks <==> k in all && k !in rest
      invariant forall k, r | k in ks && r in rest :: nodes[k].id <= nodes[r].id
    {
      var oldest :| oldest in rest;
      var others := rest - {oldest};
      while others != {}
        invariant others <= rest && oldest in rest
        invariant forall k | k in rest && k !in others :: nodes[oldest].id <= nodes[k].id
      {
        var k :| k in others;
        if nodes[k].id < nodes[oldest].id {
          oldest := k;
        }
        others := others - {k};
      }
      DistinctConcat(ks, [oldest]);
      ks := ks + [oldest];
      rest := rest - {oldest};
    }
  }

  ghost function ChildPaths(p: Path, ks: seq<Key>): seq<Path> {
    seq(|ks|, i requires 0 <= i < |ks| => p + [ks[i].level])
  }

  lemma ChildrenPlaced<V>(nodes: map<Key, Leaf<V>>, tree: Tree<V>, denote: map<Id, Path>, next: Id, p: Path,
                          ks: seq<Key>)
    requires Depicts(nodes, tree, denote, next) && p in tree
    requires forall k | k in ks :: k in nodes && k.parent == tree[p].id
    ensures Placed(ks, ChildPaths(p, ks), tree)
  {
    forall i | 0 <= i < |ks| ensures p + [ks[i].level] in tree && ks[i] == SlotOf(tree, p + [ks[i].level]) {
      assert ks[i] in ks;
      ChildSlot(nodes, tree, denote, next, p, ks[i].level);
    }
  }

  lemma ChildrenAre<V>(nodes: map<Key, Leaf<V>>, tree: Tree<V>, denote: map<Id, Path>, next: Id, p: Path, ks: seq<Key>,
                       ok: Level -> bool)
    requires Depicts(nodes, tree, denote, next) && p in tree && Distinct(ks)
    requires forall k :: k in ks <==> k in nodes && k.parent == tree[p].id && ok(k.level)
    ensures Kids(ChildPaths(p, ks), [p], tree, ok)
  {
    hide Depicts;
    hide SlotOf;
    hide LeafAt;
    var at := ChildPaths(p, ks);
    forall i, j | 0 <= i < j < |at| ensures at[i] != at[j] {
      AppendInjective(p, ks[i].level, p, ks[j].level);
      assert ks[i] in ks && ks[j] in ks;
    }
    forall q ensures q in at <==> q in tree && q != [] && Init(q) == p && ok(Last(q)) {
      if q in at {
        var i :| 0 <= i < |at| && at[i] == q;
        assert ks[i] in ks;
        ChildSlot(nodes, tree, denote, next, p, ks[i].level);
        assert Init(q) == p && Last(q) == ks[i].level;
      }
      if q in tree && q != [] && Init(q) == p && ok(Last(q)) {
        assert q == p + [Last(q)];
        ChildSlot(nodes, tree, denote, next, p, Last(q));
        var k := Key(tree[p].id, Last(q));
        assert k in ks;
        var i :| 0 <= i < |ks| && ks[i] == k;
        assert at[i] == q;
      }
    }
  }

  lemma KidsInOrder<V>(nodes: map<Key, Leaf<V>>, at: seq<Path>, ks: seq<Key>, front: seq<Path>, j: nat, tree: Tree<V>,
                       denote: map<Id, Path>, next: Id, ok: Level -> bool)
    requires Depicts(nodes, tree, denote, next) && j < |front| && Kids(at, front[..j], tree, ok)
             && Kids(ChildPaths(front[j], ks), [front[j]], tree, ok)
    requires ByAge(ks, nodes) && Placed(ks, ChildPaths(front[j], ks), tree)
    requires Ordered(front, tree) ==> Ordered(at, tree)
    ensures Ordered(front, tree) ==> Ordered(at + ChildPaths(front[j], ks), tree)
  {
    hide Depicts;
    hide Earlier;
    var kids := ChildPaths(front[j], ks);
    forall i, m | 0 <= i < m < |kids| ensures Earlier(tree, kids[i], kids[m]) {
      SiblingsInOrder(nodes, front[j], ks, i, m, tree, denote, next);
    }
    if Ordered(front, tree) {
      OrderedConcat(tree, front, j, at, kids);
    }
  }

  lemma SiblingsInOrder<V>(nodes: map<Key, Leaf<V>>, p: Path, ks: seq<Key>, i: nat, j: nat, tree: Tree<V>,
                           denote: map<Id, Path>, next: Id)
    requires Depicts(nodes, tree, denote, next) && ByAge(ks, nodes) && i < j < |ks|
    requires Placed(ks, ChildPaths(p, ks), tree) && Distinct(ChildPaths(p, ks))
    ensures Earlier(tree, ChildPaths(p, ks)[i], ChildPaths(p, ks)[j])
  {
    hide Depicts;
    hide Earlier;
    var a, b := ChildPaths(p, ks)[i], ChildPaths(p, ks)[j];
    OwnSlot(nodes, tree, denote, next, a);
    OwnSlot(nodes, tree, denote, next, b);
    IdsDiffer(nodes, tree, denote, next, a, b);
    assert Init(a) == p && Init(b) == p;
    EarlierSibling(tree, a, b);
  }

  /** Names that a walk may not hide: everything, or everything but system names. */
  predicate Visible(l: Level, skipSystem: bool) {
    !(skipSystem && IsSystem(l))
  }

  method KeepVisible<V>(ks: seq<Key>, skipSystem: bool, ghost nodes: map<Key, Leaf<V>>) returns (kept: seq<Key>)
    requires Distinct(ks) && ByAge(ks, nodes)
    ensures ByAge(kept, nodes)
    ensures Distinct(kept) && forall k :: k in kept <==> k in ks && Visible(k.level, skipSystem)
  {
    kept := [];
    for i := 0 to |ks|
      invariant ByAge(kept, nodes)
      invariant Distinct(kept) && forall k :: k in kept <==> k in ks[..i] && Visible(k.level, skipSystem)
    {
      TakeSnoc(ks, i);
      assert ks[i] !in ks[..i];
      if !skipSystem || !IsSystem(ks[i].level) {
        DistinctConcat(kept, [ks[i]]);
        forall j | 0 <= j < |kept| ensures nodes[kept[j]].id <= nodes[ks[i]].id {
          assert kept[j] in kept;
        }
        kept := kept + [ks[i]];
      }
    }
    assert ks[..|ks|] == ks;
  }

  /** The children of every frontier node, those with system names left out where asked. */
  method AllKids<V>(nodes: map<Key, Leaf<V>>, entries: seq<Key>, skipSystem: bool, ghost front: seq<Path>,
                    ghost tree: Tree<V>, ghost denote: map<Id, Path>, ghost next: Id)
    returns (kids: seq<Key>, ghost at: seq<Path>)
    requires Depicts(nodes, tree, denote, next) && Placed(entries, front, tree) && Distinct(front)
    ensures Placed(kids, at, tree) && Kids(at, front, tree, l => Visible(l, skipSystem))
    ensures Ordered(front, tree) ==> Ordered(at, tree)
  {
    hide Depicts;
    hide Visible;
    kids, at := [], [];
    ghost var ok := l => Visible(l, skipSystem);
    for j := 0 to |entries|
      invariant Placed(kids, at, tree) && Kids(at, front[..j], tree, ok)
      invariant Ordered(front, tree) ==> Ordered(at, tree)
    {
      ghost var p := front[j];
      assert p !in front[..j];
      TakeSnoc(front, j);
      OwnSlot(nodes, tree, denote, next, p);
      var ks := ChildrenOf(nodes, nodes[entries[j]].id);
      var kept := KeepVisible(ks, skipSystem, nodes);
      ChildrenPlaced(nodes, tree, denote, next, p, kept);
      ChildrenAre(nodes, tree, denote, next, p, kept, ok);
      KidsInOrder(nodes, at, kept, front, j, tree, denote, next, ok);
      KidsConcat(at, ChildPaths(p, kept), front[..j], p, tree, ok);
      PlacedConcat(kids, at, kept, ChildPaths(p, kept), tree);
      kids, at := kids + kept, at + ChildPaths(p, kept);
    }
    assert front[..|entries|] == front;
  }

  /** The child with a given name of every frontier node that has one. */
  method NamedKids<V>(nodes: map<Key, Leaf<V>>, entries: seq<Key>, t: Level, ghost front: seq<Path>,
                      ghost tree: Tree<V>, ghost denote: map<Id, Path>, ghost next: Id)
    returns (kids: seq<Key>, ghost at: seq<Path>)
    requires Depicts(nodes, tree, denote, next) && Placed(entries, front, tree) && Distinct(front)
    ensures Placed(kids, at, tree) && Kids(at, front, tree, l => l == t)
    ensures Ordered(front, tree) ==> Ordered(at, tree)
  {
    hide Depicts;
    kids, at := [], [];
    ghost var ok := l => l == t;
    for j := 0 to |entries|
      invariant Placed(kids, at, tree) && Kids(at, front[..j], tree, ok)
      invariant Ordered(front, tree) ==> Ordered(at, tree)
    {
      ghost var p := front[j];
      assert p !in front[..j];
      TakeSnoc(front, j);
      OwnSlot(nodes, tree, denote, next, p);
      ChildSlot(nodes, tree, denote, next, p, t);
      var k := Key(nodes[entries[j]].id, t);
      var one: seq<Key> := if k in nodes then [k] else [];
      ChildrenPlaced(nodes, tree, denote, next, p, one);
      ChildrenAre(nodes, tree, denote, next, p, one, ok);
      KidsInOrder(nodes, at, one, front, j, tree, denote, next, ok);
      KidsConcat(at, ChildPaths(p, one), front[..j], p, tree, ok);
      PlacedConcat(kids, at, one, ChildPaths(p, one), tree);
      kids, at := kids + one, at + ChildPaths(p, one);
    }
    assert front[..|entries|] == front;
  }

  // ----- everything below a node

  /** `q` lies `d` levels below `p`, and not under a system name where those are skipped. */
  predicate UnderBy(q: Path, p: Path, d: nat, skipSystem: bool) {
    p <= q && |q| == |p| + d && (d > 0 ==> Visible(q[|p|], skipSystem))
  }

  predicate Under(q: Path, p: Path, skipSystem: bool) {
    p <= q && |q| > |p| && Visible(q[|p|], skipSystem)
  }

  ghost predicate Layer<V>(at: seq<Path>, tree: Tree<V>, p: Path, d: nat, skipSystem: bool) {
    Distinct(at) && forall q :: q in at <==> q in tree && UnderBy(q, p, d, skipSystem)
  }

  ghost predicate Layers<V>(at: seq<Path>, tree: Tree<V>, p: Path, d: nat, skipSystem: bool) {
    Distinct(at) && forall q :: q in at <==> q in tree && Under(q, p, skipSystem) && |q| <= |p| + d
  }

  lemma FirstLayer<V>(tree: Tree<V>, p: Path, skipSystem: bool)
    requires p in tree
    ensures Layer([p], tree, p, 0, skipSystem) && Layers([], tree, p, 0, skipSystem)
  {
    forall q | UnderBy(q, p, 0, skipSystem) ensures q == p {
    }
  }

  lemma NextLayer<V>(front: seq<Path>, kids: seq<Path>, tree: Tree<V>, denote: map<Id, Path>, next: Id, p: Path, d: nat,
                     skipSystem: bool)
    requires WellShaped(tree, denote, next) && Layer(front, tree, p, d, skipSystem)
    requires Kids(kids, front, tree, l => Visible(l, skipSystem && d == 0))
    ensures Layer(kids, tree, p, d + 1, skipSystem)
  {
    forall q ensures q in kids <==> q in tree && UnderBy(q, p, d + 1, skipSystem) {
      if q != [] && q in tree {
        assert Init(q) in tree;
        LayerStep(q, p, d, skipSystem);
      }
    }
  }

  lemma LayerStep(q: Path, p: Path, d: nat, skipSystem: bool)
    requires q != []
    ensures UnderBy(q, p, d + 1, skipSystem)
         <==> UnderBy(Init(q), p, d, skipSystem) && Visible(Last(q), skipSystem && d == 0)
  {
    if |q| == |p| + d + 1 {
      assert p <= Init(q) <==> p <= q;
      if d == 0 {
        assert q[|p|] == Last(q);
      } else {
        assert Init(q)[|p|] == q[|p|];
      }
    }
  }

  lemma MoreLayers<V>(at: seq<Path>, kids: seq<Path>, tree: Tree<V>, p: Path, d: nat, skipSystem: bool)
    requires Layers(at, tree, p, d, skipSystem) && Layer(kids, tree, p, d + 1, skipSystem)
    ensures Layers(at + kids, tree, p, d + 1, skipSystem)
  {
    DistinctConcat(at, kids);
  }

  lemma AllLayers<V>(at: seq<Path>, tree: Tree<V>, denote: map<Id, Path>, next: Id, p: Path, d: nat, skipSystem: bool)
    requires WellShaped(tree, denote, next) && Layers(at, tree, p, d, skipSystem) && Layer([], tree, p, d, skipSystem)
    ensures forall q :: q in at <==> q in tree && Under(q, p, skipSystem)
  {
    forall q | q in tree && Under(q, p, skipSystem) ensures |q| <= |p| + d {
      if |q| > |p| + d {
        var r := q[..|p| + d];
        PrefixIn(tree, denote, next, q, |p| + d);
        assert p <= r;
        assert UnderBy(r, p, d, skipSystem);
      }
    }
  }

  /** match_hash_entries: a breadth-first walk that visits every node below `p` once. */
  method MatchHash<V>(nodes: map<Key, Leaf<V>>, start: Key, skipSystem: bool, ghost p: Path, ghost tree: Tree<V>,
                      ghost denote: map<Id, Path>, ghost next: Id)
    returns (visited: seq<Key>, ghost at: seq<Path>)
    requires Depicts(nodes, tree, denote, next) && p in tree && start == SlotOf(tree, p)
    ensures Placed(visited, at, tree) && Distinct(at)
    ensures forall q :: q in at <==> q in tree && Under(q, p, skipSystem)
  {
    assert WellShaped(tree, denote, next);
    hide Depicts;
    hide WellShaped;
    hide Kids;
    hide Layer;
    hide Layers;
    visited, at := [], [];
    var entries := [start];
    ghost var front := [p];
    var skip := skipSystem;
    ghost var d := 0;
    DepthBound(tree, denote, next, p);
    FirstLayer(tree, p, skipSystem);
    while entries != []
      invariant Placed(entries, front, tree) && Layer(front, tree, p, d, skipSystem)
      invariant Placed(visited, at, tree) && Layers(at, tree, p, d, skipSystem)
      invariant skip == (skipSystem && d == 0) && |p| + d <= next
      decreases next - |p| - d
    {
      LayerDepth(front, tree, denote, next, p, d, skipSystem);
      var kids, kidsAt := AllKids(nodes, entries, skip, front, tree, denote, next);
      NextLayer(front, kidsAt, tree, denote, next, p, d, skipSystem);
      MoreLayers(at, kidsAt, tree, p, d, skipSystem);
      PlacedConcat(visited, at, kids, kidsAt, tree);
      visited, at := visited + kids, at + kidsAt;
      entries, front := kids, kidsAt;
      skip := false;
      d := d + 1;
    }
    LayersDistinct(at, tree, p, d, skipSystem);
    AllLayers(at, tree, denote, next, p, d, skipSystem);
  }

  lemma LayerDepth<V>(front: seq<Path>, tree: Tree<V>, denote: map<Id, Path>, next: Id, p: Path, d: nat,
                      skipSystem: bool)
    requires WellShaped(tree, denote, next) && Layer(front, tree, p, d, skipSystem) && front != []
    ensures Distinct(front) && |p| + d < next
  {
    assert front[0] in front;
    DepthBound(tree, denote, next, front[0]);
  }

  lemma LayersDistinct<V>(at: seq<Path>, tree: Tree<V>, p: Path, d: nat, skipSystem: bool)
    requires Layers(at, tree, p, d, skipSystem)
    ensures Distinct(at)
  {
  }

  // ----- the frontier of a filter

  /** A first-level name that no system name is older than. */
  ghost predicate AheadOfSystem<V>(tree: Tree<V>, p: Path) {
    && p in tree && |p| == 1 && !IsSystem(p[0])
    && forall s | s in tree && |s| == 1 && IsSystem(s[0]) :: tree[p].id < tree[s].id
  }

  /** A leading '+' stops at the first system name it meets. */
  ghost predicate Reached<V>(tree: Tree<V>, f: Filter, p: Path) {
    |p| > 0 && f[0] == Plus ==> AheadOfSystem(tree, p[..1])
  }

  ghost predicate OnFront<V>(tree: Tree<V>, f: Filter, n: nat, p: Path)
    requires n <= |f|
  {
    p in tree && |p| == n && Agrees(f[..n], p) && Reached(tree, f, p)
  }

  /** The nodes at depth `n` that the filter has led to, once each. */
  ghost predicate FrontAt<V>(front: seq<Path>, tree: Tree<V>, f: Filter, n: nat)
    requires n <= |f|
  {
    Distinct(front) && forall p :: p in front <==> OnFront(tree, f, n, p)
  }

  /** The '+' loop over the children of the root, which ends at the first system name. */
  method RootPlus<V>(nodes: map<Key, Leaf<V>>, ghost tree: Tree<V>, ghost denote: map<Id, Path>, ghost next: Id)
    returns (kids: seq<Key>, ghost at: seq<Path>)
    requires Depicts(nodes, tree, denote, next)
    ensures Placed(kids, at, tree) && Distinct(at)
    ensures Ordered(at, tree) && forall q :: q in at <==> AheadOfSystem(tree, q)
  {
    OwnSlotTop(nodes, tree, denote, next);
    OwnSlot(nodes, tree, denote, next, []);
    var ks := ChildrenOf(nodes, nodes[TOP_KEY].id);
    var m := 0;
    while m < |ks| && !IsSystem(ks[m].level)
      invariant 0 <= m <= |ks|
      invariant forall i | 0 <= i < m :: !IsSystem(ks[i].level)
    {
      m := m + 1;
    }
    kids := ks[..m];
    at := ChildPaths([], kids);
    RootPlusAre(nodes, tree, denote, next, ks, m);
  }

  /** All first-level paths, oldest first. */
  ghost predicate FirstLevel<V>(all: seq<Path>, tree: Tree<V>) {
    && (forall i | 0 <= i < |all| :: all[i] in tree && |all[i]| == 1)
    && (forall i, j | 0 <= i < j < |all| :: tree[all[i]].id < tree[all[j]].id)
    && (forall s | s in tree && |s| == 1 :: s in all)
  }

  lemma RootList<V>(nodes: map<Key, Leaf<V>>, tree: Tree<V>, denote: map<Id, Path>, next: Id, ks: seq<Key>)
    requires Depicts(nodes, tree, denote, next) && Distinct(ks) && ByAge(ks, nodes)
    requires forall k :: k in ks <==> k in nodes && k.parent == TOP_ID
    ensures Placed(ks, ChildPaths([], ks), tree) && FirstLevel(ChildPaths([], ks), tree)
  {
    hide Depicts;
    OwnSlotTop(nodes, tree, denote, next);
    var all := ChildPaths([], ks);
    ChildrenPlaced(nodes, tree, denote, next, [], ks);
    ChildrenAre(nodes, tree, denote, next, [], ks, _ => true);
    forall i, j | 0 <= i < j < |all| ensures tree[all[i]].id < tree[all[j]].id {
      OwnSlot(nodes, tree, denote, next, all[i]);
      OwnSlot(nodes, tree, denote, next, all[j]);
      IdsDiffer(nodes, tree, denote, next, all[i], all[j]);
    }
    forall s | s in tree && |s| == 1 ensures s in all {
      assert Init(s) == [];
    }
  }

  /** Taking names up to the first system name takes exactly those that no system name is older than. */
  lemma TakeAhead<V>(all: seq<Path>, tree: Tree<V>, m: nat, q: Path)
    requires FirstLevel(all, tree) && m <= |all|
    requires (forall i | 0 <= i < m :: !IsSystem(all[i][0])) && (m < |all| ==> IsSystem(all[m][0]))
    ensures q in all[..m] <==> AheadOfSystem(tree, q)
  {
    if q in all[..m] {
      var i :| 0 <= i < m && all[i] == q;
      forall s | s in tree && |s| == 1 && IsSystem(s[0]) ensures tree[q].id < tree[s].id {
        var j :| 0 <= j < |all| && all[j] == s;
        assert j >= m;
      }
    }
    if AheadOfSystem(tree, q) {
      var i :| 0 <= i < |all| && all[i] == q;
      assert m < |all| ==> tree[q].id < tree[all[m]].id;
      assert i < m;
      assert all[..m][i] == q;
    }
  }

  lemma RootPlusAre<V>(nodes: map<Key, Leaf<V>>, tree: Tree<V>, denote: map<Id, Path>, next: Id, ks: seq<Key>, m: nat)
    requires Depicts(nodes, tree, denote, next) && Distinct(ks) && ByAge(ks, nodes)
    requires forall k :: k in ks <==> k in nodes && k.parent == TOP_ID
    requires m <= |ks| && (forall i | 0 <= i < m :: !IsSystem(ks[i].level)) && (m < |ks| ==> IsSystem(ks[m].level))
    ensures var at := ChildPaths([], ks[..m]);
            Placed(ks[..m], at, tree) && Distinct(at) && Ordered(at, tree) && forall q ::
              q in at <==> AheadOfSystem(tree, q)
  {
    hide Depicts;
    RootList(nodes, tree, denote, next, ks);
    var all, at := ChildPaths([], ks), ChildPaths([], ks[..m]);
    assert at == all[..m];
    forall i, j | 0 <= i < j < m ensures Earlier(tree, at[i], at[j]) {
      EarlierSibling(tree, all[i], all[j]);
    }
    forall q ensures q in at <==> AheadOfSystem(tree, q) {
      TakeAhead(all, tree, m, q);
    }
  }

  lemma IdsDiffer<V>(nodes: map<Key, Leaf<V>>, tree: Tree<V>, denote: map<Id, Path>, next: Id, p: Path, q: Path)
    requires Depicts(nodes, tree, denote, next) && p in tree && q in tree && p != q
    ensures tree[p].id != tree[q].id
  {
    assert denote[tree[p].id] == p;
  }

  lemma AgreesSnoc(f: Filter, n: nat, q: Path)
    requires n < |f| && |q| == n + 1
    ensures Agrees(f[..n + 1], q) <==> Agrees(f[..n], Init(q)) && (f[n] == Plus || f[n] == Last(q))
  {
    if Agrees(f[..n], Init(q)) && (f[n] == Plus || f[n] == Last(q)) {
      forall i | 0 <= i < n + 1 ensures f[..n + 1][i] == Plus || f[..n + 1][i] == q[i] {
        assert i < n ==> f[..n][i] == f[i] && Init(q)[i] == q[i];
      }
    }
    if Agrees(f[..n + 1], q) {
      assert f[..n + 1][n] == f[n];
      forall i | 0 <= i < n ensures f[..n][i] == Plus || f[..n][i] == Init(q)[i] {
        assert f[..n + 1][i] == f[i];
      }
    }
  }

  /** One more level, '+' below the first or a name anywhere. */
  lemma FrontStep<V>(front: seq<Path>, kids: seq<Path>, tree: Tree<V>, denote: map<Id, Path>, next: Id, f: Filter,
                     n: nat, ok: Level -> bool)
    requires WellShaped(tree, denote, next) && n < |f| && f[n] != Hash && (f[n] == Plus ==> n > 0)
    requires FrontAt(front, tree, f, n) && Kids(kids, front, tree, ok)
    requires forall l :: ok(l) <==> f[n] == Plus || l == f[n]
    ensures FrontAt(kids, tree, f, n + 1)
  {
    forall q ensures q in kids <==> OnFront(tree, f, n + 1, q) {
      if q in tree && |q| == n + 1 {
        assert Init(q) in tree;
        AgreesSnoc(f, n, q);
        assert n > 0 ==> Init(q)[..1] == q[..1];
      }
    }
  }

  lemma FrontRoot<V>(kids: seq<Path>, tree: Tree<V>, f: Filter)
    requires f[0] == Plus && Distinct(kids) && forall q :: q in kids <==> AheadOfSystem(tree, q)
    ensures FrontAt(kids, tree, f, 1)
  {
    forall q ensures q in kids <==> OnFront(tree, f, 1, q) {
      if |q| == 1 {
        assert q[..1] == q;
      }
    }
  }

  /** An empty frontier stays empty. */
  lemma {:induction false} FrontStaysEmpty<V>(tree: Tree<V>, denote: map<Id, Path>, next: Id, f: Filter, n: nat, m: nat)
    requires WellShaped(tree, denote, next) && n <= m <= |f| && FrontAt([], tree, f, n)
    ensures FrontAt([], tree, f, m)
    decreases m - n
  {
    if n < m {
      var m' := n + 1;
      forall q ensures !OnFront(tree, f, m', q) {
        if q in tree && |q| == m' {
          AgreesSnoc(f, n, q);
          assert Init(q) in tree;
          assert n > 0 ==> Init(q)[..1] == q[..1];
          assert OnFront(tree, f, m', q) ==> OnFront(tree, f, n, Init(q));
        }
      }
      FrontStaysEmpty(tree, denote, next, f, n + 1, m);
    }
  }

  // ----- the whole search

  /** Depth of the frontier when the filter is used up or '#' is met. */
  function Reach(f: Filter): nat {
    if EndsWithHash(f) then |f| - 1 else |f|
  }

  /** What the search visits: the frontier, and for '#' everything below the first frontier node. */
  ghost predicate Visits<V>(tree: Tree<V>, f: Filter, front: seq<Path>, q: Path) {
    q in front || (EndsWithHash(f) && front != [] && q in tree && Under(q, front[0], |f| == 1))
  }

  /** One level of the filter before any '#'. */
  method NextFront<V>(nodes: map<Key, Leaf<V>>, entries: seq<Key>, f: Filter, n: nat, ghost front: seq<Path>,
                      ghost tree: Tree<V>, ghost denote: map<Id, Path>, ghost next: Id)
    returns (kids: seq<Key>, ghost kidsAt: seq<Path>)
    requires Depicts(nodes, tree, denote, next) && n < |f| && f[n] != Hash
    requires Placed(entries, front, tree) && FrontAt(front, tree, f, n) && Ordered(front, tree)
    ensures Placed(kids, kidsAt, tree) && FrontAt(kidsAt, tree, f, n + 1) && Ordered(kidsAt, tree)
  {
    assert WellShaped(tree, denote, next);
    hide Depicts;
    hide WellShaped;
    hide Kids;
    hide OnFront;
    hide AheadOfSystem;
    hide Placed;
    if f[n] == Plus && n == 0 {
      kids, kidsAt := RootPlus(nodes, tree, denote, next);
      FrontRoot(kidsAt, tree, f);
    } else if f[n] == Plus {
      kids, kidsAt := AllKids(nodes, entries, false, front, tree, denote, next);
      FrontStep(front, kidsAt, tree, denote, next, f, n, l => Visible(l, false));
    } else {
      kids, kidsAt := NamedKids(nodes, entries, f[n], front, tree, denote, next);
      FrontStep(front, kidsAt, tree, denote, next, f, n, l => l == f[n]);
    }
  }

  lemma FrontCut<V>(front: seq<Path>, tree: Tree<V>, f: Filter, g: Filter, n: nat)
    requires g <= f && n <= |g| && FrontAt(front, tree, f, n)
    ensures FrontAt(front, tree, g, n)
  {
    assert f[..n] == g[..n] && f[0] == g[0];
    forall p ensures OnFront(tree, g, n, p) <==> OnFront(tree, f, n, p) {
    }
  }

  /** find_match on the node set; what comes after the first '#' is not looked at. */
  method FindMatch<V>(nodes: map<Key, Leaf<V>>, f: Filter, ghost tree: Tree<V>, ghost denote: map<Id, Path>,
                      ghost next: Id)
    returns (visited: seq<Key>, ghost at: seq<Path>, ghost front: seq<Path>)
    requires Depicts(nodes, tree, denote, next)
    ensures Placed(visited, at, tree) && Distinct(at)
    ensures UpToHash(f) != [] && FrontAt(front, tree, UpToHash(f), Reach(UpToHash(f))) && Ordered(front, tree)
    ensures forall q :: q in at <==> Visits(tree, UpToHash(f), front, q)
  {
    assert WellShaped(tree, denote, next);
    OwnSlotTop(nodes, tree, denote, next);
    UpToHashIs(f);
    ghost var g: Filter := UpToHash(f);
    hide Depicts;
    hide WellShaped;
    hide Kids;
    hide FrontAt;
    var entries := [TOP_KEY];
    front := [[]];
    StartFront(tree, f);
    var n := 0;
    while n < |f| && f[n] != Hash && entries != []
      invariant 0 <= n <= FirstHash(f)
      invariant Placed(entries, front, tree) && FrontAt(front, tree, f, n) && Ordered(front, tree)
    {
      entries, front := NextFront(nodes, entries, f, n, front, tree, denote, next);
      n := n + 1;
    }
    FrontCut(front, tree, f, g, n);
    if entries == [] {
      FrontStaysEmpty(tree, denote, next, g, n, Reach(g));
    }
    var below := [];
    ghost var belowAt: seq<Path> := [];
    if n < |f| && entries != [] {
      // '#' ends the search: the walk starts at the first frontier node and no other.
      OwnSlot(nodes, tree, denote, next, front[0]);
      TopIdOnly(nodes, tree, denote, next, front[0]);
      FrontDepth(front, tree, g, n);
      below, belowAt := MatchHash(nodes, entries[0], nodes[entries[0]].id == TOP_ID, front[0], tree, denote, next);
    }
    FrontBelow(tree, g, front, belowAt);
    PlacedConcat(below, belowAt, entries, front, tree);
    visited, at := below + entries, belowAt + front;
  }

  lemma FrontDepth<V>(front: seq<Path>, tree: Tree<V>, f: Filter, n: nat)
    requires n <= |f| && FrontAt(front, tree, f, n) && front != []
    ensures |front[0]| == n
  {
    assert front[0] in front;
  }

  lemma StartFront<V>(tree: Tree<V>, f: Filter)
    requires [] in tree
    ensures FrontAt([[]], tree, f, 0)
  {
  }

  lemma TopIdOnly<V>(nodes: map<Key, Leaf<V>>, tree: Tree<V>, denote: map<Id, Path>, next: Id, p: Path)
    requires Depicts(nodes, tree, denote, next) && p in tree
    ensures tree[p].id == TOP_ID <==> p == []
  {
  }

  lemma FrontBelow<V>(tree: Tree<V>, f: Filter, front: seq<Path>, belowAt: seq<Path>)
    requires FrontAt(front, tree, f, Reach(f)) && Distinct(belowAt)
    requires if EndsWithHash(f) && front != [] then forall q ::
               q in belowAt <==> q in tree && Under(q, front[0], |f| == 1) else belowAt == []
    ensures Distinct(belowAt + front) && forall q :: q in belowAt + front <==> Visits(tree, f, front, q)
  {
    if front != [] {
      assert front[0] in front;
    }
    DistinctConcat(belowAt, front);
  }
}
