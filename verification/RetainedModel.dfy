/**
 * The node set of the retained topic map and the tree of paths it stands for. Nodes are looked up by
 * (parent id, name); unlike the subscription map they keep neither flags nor a parent key.
 */
module RetainedModel {
  import opened Wrappers
  import opened TopicFilter
  import opened TrieModel
  import opened TreeCounts

  datatype Leaf<V> = Leaf(id: Id, count: nat, value: Option<V>)

  type Tree<V> = map<Path, Cell<Option<V>>>

  const TOP_ID: Id := 1
  const TOP_KEY: Key := Key(0, Name(""))

  ghost function SlotOf<V>(tree: Tree<V>, p: Path): Key {
    if p == [] || Init(p) !in tree then TOP_KEY else Key(tree[Init(p)].id, Last(p))
  }

  /** Closed under prefixes; ids are at least 1, below the next one, grow away from the root and name one path each. */
  ghost predicate WellShaped<V>(tree: Tree<V>, denote: map<Id, Path>, next: Id) {
    && [] in tree && tree[[]].id == TOP_ID && next > TOP_ID
    && (forall p {:trigger Init(p)} | p in tree && p != [] :: Init(p) in tree && tree[Init(p)].id < tree[p].id)
    && (forall p | p in tree :: tree[p].id in denote && denote[tree[p].id] == p)
    && (forall i | i in denote :: TOP_ID <= i < next)
  }

  ghost predicate KnownSlot<V>(tree: Tree<V>, denote: map<Id, Path>, k: Key) {
    && k.parent in denote && denote[k.parent] in tree && tree[denote[k.parent]].id == k.parent
    && denote[k.parent] + [k.level] in tree
  }

  ghost function LeafAt<V>(tree: Tree<V>, p: Path): Leaf<V>
    requires p in tree
  {
    Leaf(tree[p].id, tree[p].count, tree[p].value)
  }

  /** The node set holds exactly the nodes of the tree, each under its own key. */
  ghost predicate Depicts<V>(nodes: map<Key, Leaf<V>>, tree: Tree<V>, denote: map<Id, Path>, next: Id) {
    && WellShaped(tree, denote, next)
    && (forall p {:trigger SlotOf(tree, p)} | p in tree ::
      SlotOf(tree, p) in nodes && nodes[SlotOf(tree, p)] == LeafAt(tree, p))
    && (forall k | k in nodes :: k == TOP_KEY || KnownSlot(tree, denote, k))
  }

  /** The stored topics, and what failed insertions have left behind, as entries to be counted. */
  ghost function Items<V>(store: map<Path, V>, leaks: seq<Path>): set<Entry<int>> {
    (set p | p in store :: Entry(p, 0)) + set i | 0 <= i < |leaks| :: Entry(leaks[i], i + 1)
  }

  /** The tree holds exactly the stored topics, and counts them and the left-overs. */
  ghost predicate Keeps<V>(tree: Tree<V>, store: map<Path, V>, leaks: seq<Path>) {
    && Counted(tree, Items(store, leaks))
    && forall p | p in tree :: tree[p].value == if p in store then Some(store[p]) else None
  }

  // ----- keys

  lemma SlotInjective<V>(nodes: map<Key, Leaf<V>>, tree: Tree<V>, denote: map<Id, Path>, next: Id, p: Path, q: Path)
    requires Depicts(nodes, tree, denote, next) && p in tree && q in tree
    ensures SlotOf(tree, p) == SlotOf(tree, q) <==> p == q
  {
    if SlotOf(tree, p) == SlotOf(tree, q) && p != [] && q != [] {
      assert Init(p) == Init(q);
      assert p == Init(p) + [Last(p)];
      assert q == Init(q) + [Last(q)];
    }
  }

  lemma SlotPath<V>(nodes: map<Key, Leaf<V>>, tree: Tree<V>, denote: map<Id, Path>, next: Id, k: Key)
    requires Depicts(nodes, tree, denote, next) && k in nodes && k != TOP_KEY
    ensures KnownSlot(tree, denote, k) && SlotOf(tree, denote[k.parent] + [k.level]) == k
  {
    assert Init(denote[k.parent] + [k.level]) == denote[k.parent];
  }

  lemma ChildSlot<V>(nodes: map<Key, Leaf<V>>, tree: Tree<V>, denote: map<Id, Path>, next: Id, p: Path, l: Level)
    requires Depicts(nodes, tree, denote, next) && p in tree
    ensures SlotOf(tree, p + [l]) == Key(tree[p].id, l)
    ensures Key(tree[p].id, l) in nodes <==> p + [l] in tree
    ensures p + [l] in tree ==> nodes[Key(tree[p].id, l)] == LeafAt(tree, p + [l])
  {
    assert Init(p + [l]) == p && Last(p + [l]) == l;
    var k := Key(tree[p].id, l);
    if k in nodes {
      assert KnownSlot(tree, denote, k);
    }
  }

  lemma OwnSlot<V>(nodes: map<Key, Leaf<V>>, tree: Tree<V>, denote: map<Id, Path>, next: Id, p: Path)
    requires Depicts(nodes, tree, denote, next) && p in tree
    ensures SlotOf(tree, p) in nodes && nodes[SlotOf(tree, p)] == LeafAt(tree, p)
    ensures SlotOf(tree, p) == TOP_KEY <==> p == []
  {
  }

  lemma PrefixIn<V>(tree: Tree<V>, denote: map<Id, Path>, next: Id, f: Path, i: nat)
    requires WellShaped(tree, denote, next) && f in tree && i <= |f|
    ensures f[..i] in tree
  {
    PrefixesIn(tree, f, i);
  }

  /** Ids outgrow depths, so paths are no longer than the number of ids given out. */
  lemma {:induction false} DepthBound<V>(tree: Tree<V>, denote: map<Id, Path>, next: Id, p: Path)
    requires WellShaped(tree, denote, next) && p in tree
    ensures |p| < tree[p].id < next
    decreases |p|
  {
    if p != [] {
      DepthBound(tree, denote, next, Init(p));
    }
    assert tree[p].id in denote;
  }

  // ----- one step on the nodes is one step on the tree

  lemma AddLeaf<V>(nodes: map<Key, Leaf<V>>, tree: Tree<V>, denote: map<Id, Path>, next: Id, p: Path, l: Level)
    requires Depicts(nodes, tree, denote, next) && p in tree && p + [l] !in tree
    ensures Depicts(nodes[Key(tree[p].id, l) := Leaf(next, 1, None)], tree[p + [l] := Cell(next, 1, None)],
                    denote[next := p + [l]], next + 1)
  {
    var q, k := p + [l], Key(tree[p].id, l);
    var nodes', tree', denote' := nodes[k := Leaf(next, 1, None)], tree[q := Cell(next, 1, None)], denote[next := q];
    assert Init(q) == p && Last(q) == l;
    ChildSlot(nodes, tree, denote, next, p, l);
    assert WellShaped(tree', denote', next + 1) by {
      AddLeafShaped(tree, denote, next, p, l);
    }
    forall r | r in tree' ensures SlotOf(tree', r) in nodes' && nodes'[SlotOf(tree', r)] == LeafAt(tree', r) {
      AddLeafAt(nodes, tree, denote, next, p, l, r);
    }
    forall k' | k' in nodes' && k' != TOP_KEY ensures KnownSlot(tree', denote', k') {
      AddLeafKnown(nodes, tree, denote, next, p, l, k');
    }
  }

  lemma AddLeafShaped<V>(tree: Tree<V>, denote: map<Id, Path>, next: Id, p: Path, l: Level)
    requires WellShaped(tree, denote, next) && p in tree && p + [l] !in tree
    ensures WellShaped(tree[p + [l] := Cell(next, 1, None)], denote[next := p + [l]], next + 1)
  {
    assert Init(p + [l]) == p;
  }

  lemma AddLeafAt<V>(nodes: map<Key, Leaf<V>>, tree: Tree<V>, denote: map<Id, Path>, next: Id, p: Path, l: Level,
                     r: Path)
    requires Depicts(nodes, tree, denote, next) && p in tree && p + [l] !in tree && (r in tree || r == p + [l])
    ensures var tree' := tree[p + [l] := Cell(next, 1, None)];
            var nodes' := nodes[Key(tree[p].id, l) := Leaf(next, 1, None)];
            SlotOf(tree', r) in nodes' && nodes'[SlotOf(tree', r)] == LeafAt(tree', r)
  {
    assert Init(p + [l]) == p && Last(p + [l]) == l;
    ChildSlot(nodes, tree, denote, next, p, l);
    if r in tree {
      OwnSlot(nodes, tree, denote, next, r);
    }
  }

  lemma AddLeafKnown<V>(nodes: map<Key, Leaf<V>>, tree: Tree<V>, denote: map<Id, Path>, next: Id, p: Path, l: Level,
                        k: Key)
    requires Depicts(nodes, tree, denote, next) && p in tree && p + [l] !in tree && k != TOP_KEY
    requires k in nodes || k == Key(tree[p].id, l)
    ensures KnownSlot(tree[p + [l] := Cell(next, 1, None)], denote[next := p + [l]], k)
  {
    if k in nodes {
      assert KnownSlot(tree, denote, k);
    }
  }

  lemma SetLeaf<V>(nodes: map<Key, Leaf<V>>, tree: Tree<V>, denote: map<Id, Path>, next: Id, p: Path, count: nat,
                   value: Option<V>)
    requires Depicts(nodes, tree, denote, next) && p in tree
    ensures SlotOf(tree, p) in nodes
    ensures var nodes' := nodes[SlotOf(tree, p) := Leaf(tree[p].id, count, value)];
            Depicts(nodes', WithCell(tree, p, count, value), denote, next)
  {
    var k, tree' := SlotOf(tree, p), WithCell(tree, p, count, value);
    var nodes' := nodes[k := Leaf(tree[p].id, count, value)];
    SetLeafShaped(tree, denote, next, p, count, value);
    forall r | r in tree' ensures SlotOf(tree', r) in nodes' && nodes'[SlotOf(tree', r)] == LeafAt(tree', r) {
      SlotInjective(nodes, tree, denote, next, r, p);
      OwnSlot(nodes, tree, denote, next, r);
      SetSlot(tree, p, count, value, r);
    }
    forall k' | k' in nodes' && k' != TOP_KEY ensures KnownSlot(tree', denote, k') {
      SetLeafKnown(tree, denote, p, count, value, k');
    }
  }

  lemma SetLeafShaped<V>(tree: Tree<V>, denote: map<Id, Path>, next: Id, p: Path, count: nat, value: Option<V>)
    requires WellShaped(tree, denote, next) && p in tree
    ensures WellShaped(WithCell(tree, p, count, value), denote, next)
  {
  }

  lemma SetSlot<V>(tree: Tree<V>, p: Path, count: nat, value: Option<V>, r: Path)
    requires p in tree
    ensures SlotOf(WithCell(tree, p, count, value), r) == SlotOf(tree, r)
  {
  }

  lemma SetLeafKnown<V>(tree: Tree<V>, denote: map<Id, Path>, p: Path, count: nat, value: Option<V>, k: Key)
    requires p in tree
    ensures KnownSlot(WithCell(tree, p, count, value), denote, k) <==> KnownSlot(tree, denote, k)
  {
  }

  // ----- removal from the root downwards

  ghost function Slots<V>(tree: Tree<V>, f: Path): seq<Key> {
    if f == [] then [] else Slots(tree, Init(f)) + [SlotOf(tree, f)]
  }

  lemma {:induction false} SlotsAt<V>(tree: Tree<V>, f: Path, i: nat)
    requires i < |f|
    ensures |Slots(tree, f)| == |f| && Slots(tree, f)[i] == SlotOf(tree, f[..i + 1])
    decreases |f|
  {
    if i + 1 < |f| {
      SlotsAt(tree, Init(f), i);
      assert Init(f)[..i + 1] == f[..i + 1];
    } else {
      if |f| > 1 {
        SlotsAt(tree, Init(f), 0);
      }
      assert f[..i + 1] == f;
    }
  }

  /** Counts of the given nodes lowered, those that reach zero erased. */
  ghost function Thinned<V>(nodes: map<Key, Leaf<V>>, ks: seq<Key>): map<Key, Leaf<V>> {
    map k | k in nodes && !(k in ks && nodes[k].count <= 1) ::
      if k in ks then nodes[k].(count := nodes[k].count - 1) else nodes[k]
  }

  ghost function Pruned<V>(tree: Tree<V>, f: Path): Tree<V> {
    map p | p in tree && !(OnPath(p, f, 0, |f|) && tree[p].count <= 1) ::
      if OnPath(p, f, 0, |f|) then tree[p].(count := tree[p].count - 1) else tree[p]
  }

  lemma OnPathSlots<V>(nodes: map<Key, Leaf<V>>, tree: Tree<V>, denote: map<Id, Path>, next: Id, f: Path, p: Path)
    requires Depicts(nodes, tree, denote, next) && f in tree && p in tree
    ensures SlotOf(tree, p) in Slots(tree, f) <==> OnPath(p, f, 0, |f|)
  {
    hide Depicts;
    hide SlotOf;
    hide Slots;
    if OnPath(p, f, 0, |f|) {
      SlotsAt(tree, f, |p| - 1);
      assert f[..|p|] == p;
    }
    if SlotOf(tree, p) in Slots(tree, f) {
      var i :| 0 <= i < |Slots(tree, f)| && Slots(tree, f)[i] == SlotOf(tree, p);
      SlotIsPrefix(nodes, tree, denote, next, f, p, i);
    }
  }

  lemma SlotIsPrefix<V>(nodes: map<Key, Leaf<V>>, tree: Tree<V>, denote: map<Id, Path>, next: Id, f: Path, p: Path,
                        i: nat)
    requires Depicts(nodes, tree, denote, next) && f in tree && p in tree && i < |Slots(tree, f)|
             && Slots(tree, f)[i] == SlotOf(tree, p)
    ensures i < |f| && p == f[..i + 1]
  {
    assert WellShaped(tree, denote, next);
    hide Depicts;
    hide WellShaped;
    hide SlotOf;
    hide Slots;
    SlotsLength(tree, f);
    SlotsAt(tree, f, i);
    PrefixIn(tree, denote, next, f, i + 1);
    SlotInjective(nodes, tree, denote, next, f[..i + 1], p);
  }

  lemma SlotsLength<V>(tree: Tree<V>, f: Path)
    ensures |Slots(tree, f)| == |f|
  {
    if f != [] {
      SlotsAt(tree, f, 0);
    }
  }

  /** With the last topic of a branch gone, the whole branch below goes: what is left is closed under prefixes. */
  lemma PrunedClosed<V>(tree: Tree<V>, denote: map<Id, Path>, next: Id, entries: set<Entry<int>>, e: Entry<int>,
                        p: Path)
    requires WellShaped(tree, denote, next) && Counted(tree, entries) && e in entries
    requires p in Pruned(tree, e.filter) && p != []
    ensures Init(p) in Pruned(tree, e.filter)
  {
    var up := Init(p);
    if OnPath(up, e.filter, 0, |e.filter|) && tree[up].count <= 1 {
      var d :| d in Below(entries, p);
      assert up <= p <= d.filter;
      assert {d, e} <= Below(entries, up);
      CardinalityMonotone({d, e}, Below(entries, up));
      assert d == e;
      CountAntitone(entries, up, p);
    }
  }

  lemma PrunedShaped<V>(tree: Tree<V>, denote: map<Id, Path>, next: Id, entries: set<Entry<int>>, e: Entry<int>)
    requires WellShaped(tree, denote, next) && Counted(tree, entries) && e in entries
    ensures WellShaped(Pruned(tree, e.filter), denote, next)
  {
    var tree' := Pruned(tree, e.filter);
    forall p | p in tree' && p != [] ensures Init(p) in tree' && tree'[Init(p)].id < tree'[p].id {
      PrunedClosed(tree, denote, next, entries, e, p);
    }
  }

  lemma PrunedSlot<V>(tree: Tree<V>, denote: map<Id, Path>, next: Id, entries: set<Entry<int>>, e: Entry<int>, p: Path)
    requires WellShaped(tree, denote, next) && Counted(tree, entries) && e in entries && p in Pruned(tree, e.filter)
    ensures SlotOf(Pruned(tree, e.filter), p) == SlotOf(tree, p)
  {
    if p != [] {
      PrunedClosed(tree, denote, next, entries, e, p);
    }
  }

  lemma PruneAll<V>(nodes: map<Key, Leaf<V>>, tree: Tree<V>, denote: map<Id, Path>, next: Id, entries: set<Entry<int>>,
                    e: Entry<int>)
    requires Depicts(nodes, tree, denote, next) && Counted(tree, entries) && e in entries && e.filter in tree
    ensures Depicts(Thinned(nodes, Slots(tree, e.filter)), Pruned(tree, e.filter), denote, next)
  {
    var f := e.filter;
    var nodes', tree' := Thinned(nodes, Slots(tree, f)), Pruned(tree, f);
    PrunedShaped(tree, denote, next, entries, e);
    forall p | p in tree' ensures SlotOf(tree', p) in nodes' && nodes'[SlotOf(tree', p)] == LeafAt(tree', p) {
      PrunedSlot(tree, denote, next, entries, e, p);
      OwnSlot(nodes, tree, denote, next, p);
      OnPathSlots(nodes, tree, denote, next, f, p);
    }
    forall k | k in nodes' && k != TOP_KEY ensures KnownSlot(tree', denote, k) {
      PrunedKnown(nodes, tree, denote, next, entries, e, k);
    }
  }

  lemma PrunedKnown<V>(nodes: map<Key, Leaf<V>>, tree: Tree<V>, denote: map<Id, Path>, next: Id,
                       entries: set<Entry<int>>, e: Entry<int>, k: Key)
    requires Depicts(nodes, tree, denote, next) && Counted(tree, entries) && e in entries && e.filter in tree
    requires k in Thinned(nodes, Slots(tree, e.filter)) && k != TOP_KEY
    ensures KnownSlot(Pruned(tree, e.filter), denote, k)
  {
    SlotPath(nodes, tree, denote, next, k);
    var p := denote[k.parent] + [k.level];
    OwnSlot(nodes, tree, denote, next, p);
    OnPathSlots(nodes, tree, denote, next, e.filter, p);
    assert p in Pruned(tree, e.filter);
    PrunedClosed(tree, denote, next, entries, e, p);
    assert Init(p) == denote[k.parent];
  }
}
