/** Inserting and erasing retained topics: the walks over the node set. */
module RetainedTable {
  import opened Wrappers
  import opened TopicFilter
  import opened TrieModel
  import opened TreeCounts
  import opened RetainedModel

  lemma SlotsSnoc<V>(tree: Tree<V>, f: Path, i: nat)
    requires i < |f|
    ensures Slots(tree, f[..i + 1]) == Slots(tree, f[..i]) + [SlotOf(tree, f[..i + 1])]
  {
    assert Init(f[..i + 1]) == f[..i];
  }

  /** The nodes along a topic, or nothing when some level is missing. */
  method FindTopic<V>(nodes: map<Key, Leaf<V>>, topic: Filter, ghost tree: Tree<V>, ghost denote: map<Id, Path>,
                      ghost next: Id)
    returns (path: seq<Key>)
    requires Depicts(nodes, tree, denote, next)
    ensures path == if topic in tree then Slots(tree, topic) else []
  {
    hide Depicts;
    OwnSlotTop(nodes, tree, denote, next);
    path := [];
    var parent := TOP_KEY;
    var i := 0;
    while i < |topic|
      invariant 0 <= i <= |topic|
      invariant topic[..i] in tree && parent == SlotOf(tree, topic[..i])
      invariant path == Slots(tree, topic[..i])
    {
      OwnSlot(nodes, tree, denote, next, topic[..i]);
      TakeSnoc(topic, i);
      ChildSlot(nodes, tree, denote, next, topic[..i], topic[i]);
      var k := Key(nodes[parent].id, topic[i]);
      if k !in nodes {
        NotInTree(nodes, tree, denote, next, topic, i + 1);
        return [];
      }
      SlotsSnoc(tree, topic, i);
      path := path + [k];
      parent := k;
      i := i + 1;
    }
    assert topic[..i] == topic;
  }

  lemma OwnSlotTop<V>(nodes: map<Key, Leaf<V>>, tree: Tree<V>, denote: map<Id, Path>, next: Id)
    requires Depicts(nodes, tree, denote, next)
    ensures [] in tree && SlotOf(tree, []) == TOP_KEY && TOP_KEY in nodes && tree[[]].id == TOP_ID
  {
    OwnSlot(nodes, tree, denote, next, []);
  }

  lemma NotInTree<V>(nodes: map<Key, Leaf<V>>, tree: Tree<V>, denote: map<Id, Path>, next: Id, f: Path, i: nat)
    requires Depicts(nodes, tree, denote, next) && i <= |f| && f[..i] !in tree
    ensures f !in tree
  {
    if f in tree {
      PrefixIn(tree, denote, next, f, i);
    }
  }

  ghost function Stepped<V>(t: Tree<V>, next: Id, p: Path, l: Level): Tree<V>
    requires next > 0
  {
    var q := p + [l];
    if q in t then WithCell(t, q, t[q].count + 1, t[q].value) else WithLeaf(t, next - 1, p, l, None)
  }

  /** One level of create_topic. */
  method StepInto<V>(nodes0: map<Key, Leaf<V>>, next0: Id, parent: Key, l: Level, ghost tree0: Tree<V>,
                     ghost denote0: map<Id, Path>, ghost p: Path)
    returns (nodes: map<Key, Leaf<V>>, next: Id, k: Key, ghost tree: Tree<V>, ghost denote: map<Id, Path>)
    requires Depicts(nodes0, tree0, denote0, next0) && next0 > 0
    requires p in tree0 && parent == SlotOf(tree0, p)
    ensures Depicts(nodes, tree, denote, next) && next > 0
    ensures tree == Stepped(tree0, next0, p, l) && p + [l] in tree && k == SlotOf(tree, p + [l]) && next0 <= next
  {
    hide Depicts;
    OwnSlot(nodes0, tree0, denote0, next0, p);
    ChildSlot(nodes0, tree0, denote0, next0, p, l);
    assert Init(p + [l]) == p && Last(p + [l]) == l;
    nodes, next, denote := nodes0, next0, denote0;
    k := Key(nodes[parent].id, l);
    if k !in nodes {
      nodes := nodes[k := Leaf(next, 1, None)];
      AddLeaf(nodes0, tree0, denote0, next0, p, l);
      denote := denote[next := p + [l]];
      tree := tree0[p + [l] := Cell(next0, 1, None)];
      next := next + 1;
    } else {
      var n := nodes[k];
      nodes := nodes[k := n.(count := n.count + 1)];
      SetLeaf(nodes0, tree0, denote0, next0, p + [l], n.count + 1, n.value);
      SetSlot(tree0, p + [l], n.count + 1, n.value, p + [l]);
      tree := WithCell(tree0, p + [l], n.count + 1, n.value);
    }
  }

  lemma SteppedGrows<V>(t0: Tree<V>, t: Tree<V>, next: Id, f: Path, i: nat)
    requires next > 0 && i < |f| && Grown(t0, t, f, 0, i, None)
    ensures f[..i] + [f[i]] == f[..i + 1] && Grown(t0, Stepped(t, next, f[..i], f[i]), f, 0, i + 1, None)
  {
    TakeSnoc(f, i);
    if f[..i + 1] in t {
      GrowOld(t0, t, f, i, None);
    } else {
      GrowNew(t0, t, f, i, None, next - 1);
    }
  }

  /** Nodes that stay keep their id, and new nodes have ids above all that were there: ids tell creation order. */
  ghost predicate Aged<V>(t0: Tree<V>, t: Tree<V>) {
    && (forall p | p in t0 && p in t :: t[p].id == t0[p].id)
    && (forall p, q | p in t && p !in t0 && q in t0 :: t0[q].id < t[p].id)
  }

  /** All ids of `t0` lie below `bound`, those of nodes that are new in `t` do not. */
  ghost predicate Youngest<V>(t0: Tree<V>, t: Tree<V>, bound: Id) {
    && (forall p | p in t0 :: t0[p].id < bound)
    && (forall p | p in t :: if p in t0 then t[p].id == t0[p].id else bound <= t[p].id)
  }

  lemma IdsBelow<V>(nodes: map<Key, Leaf<V>>, tree: Tree<V>, denote: map<Id, Path>, next: Id)
    requires Depicts(nodes, tree, denote, next)
    ensures Youngest(tree, tree, next)
  {
  }

  lemma SteppedYoungest<V>(t0: Tree<V>, t: Tree<V>, bound: Id, next: Id, p: Path, l: Level)
    requires Youngest(t0, t, bound) && 0 < bound <= next
    requires forall q | q in t0 :: q in t
    ensures Youngest(t0, Stepped(t, next, p, l), bound)
  {
  }

  lemma YoungestAged<V>(t0: Tree<V>, t: Tree<V>, bound: Id)
    requires Youngest(t0, t, bound)
    ensures Aged(t0, t)
  {
  }

  /**
   * create_topic: missing nodes get the next id and count 1, present ones are counted up. At a wildcard level it
   * throws, and what was done for the levels before it stays.
   */
  method CreateTopic<V>(nodes0: map<Key, Leaf<V>>, next0: Id, topic: Filter, ghost tree0: Tree<V>,
                        ghost denote0: map<Id, Path>)
    returns (ok: bool, nodes: map<Key, Leaf<V>>, next: Id, k: Key, ghost tree: Tree<V>, ghost denote: map<Id, Path>)
    requires Depicts(nodes0, tree0, denote0, next0) && next0 > 0
    ensures Depicts(nodes, tree, denote, next) && next > 0
    ensures ok <==> IsTopic(topic)
    ensures Grown(tree0, tree, topic, 0, FirstWild(topic), None) && Aged(tree0, tree)
    ensures ok ==> FirstWild(topic) == |topic| && topic in tree && k == SlotOf(tree, topic)
  {
    hide Depicts;
    hide Youngest;
    IdsBelow(nodes0, tree0, denote0, next0);
    OwnSlotTop(nodes0, tree0, denote0, next0);
    nodes, next, tree, denote := nodes0, next0, tree0, denote0;
    k := TOP_KEY;
    ok := true;
    var i := 0;
    while i < |topic|
      invariant 0 <= i <= FirstWild(topic)
      invariant Depicts(nodes, tree, denote, next) && next > 0
      invariant Grown(tree0, tree, topic, 0, i, None)
      invariant topic[..i] in tree && k == SlotOf(tree, topic[..i])
      invariant Youngest(tree0, tree, next0) && next0 <= next
    {
      if IsWild(topic[i]) {
        YoungestAged(tree0, tree, next0);
        return false, nodes, next, k, tree, denote;
      }
      SteppedYoungest(tree0, tree, next0, next, topic[..i], topic[i]);
      SteppedGrows(tree0, tree, next, topic, i);
      nodes, next, k, tree, denote := StepInto(nodes, next, k, topic[i], tree, denote, topic[..i]);
      i := i + 1;
    }
    assert topic[..i] == topic;
    YoungestAged(tree0, tree, next0);
  }

  /** increase_topics: counts up every node of a path. */
  method IncreaseTopics<V>(nodes0: map<Key, Leaf<V>>, path: seq<Key>, ghost topic: Filter, ghost tree0: Tree<V>,
                           ghost denote: map<Id, Path>, ghost next: Id)
    returns (nodes: map<Key, Leaf<V>>, ghost tree: Tree<V>)
    requires Depicts(nodes0, tree0, denote, next) && topic in tree0 && path == Slots(tree0, topic)
    ensures Depicts(nodes, tree, denote, next) && Grown(tree0, tree, topic, 0, |topic|, None)
  {
    assert WellShaped(tree0, denote, next);
    SlotsAt(tree0, topic, 0);
    StartRaise(tree0, topic);
    hide Depicts;
    hide WellShaped;
    hide Slots;
    hide SlotOf;
    hide Grown;
    hide SameSlotsAs;
    hide Raised;
    nodes, tree := nodes0, tree0;
    for i := 0 to |path|
      invariant Depicts(nodes, tree, denote, next) && Grown(tree0, tree, topic, 0, i, None)
      invariant SameSlotsAs(tree0, tree)
    {
      RaiseStep(tree0, tree, denote, next, topic, i);
      nodes := CountUp(nodes, path[i], topic[..i + 1], tree, denote, next);
      tree := Raised(tree, topic[..i + 1]);
    }
  }

  ghost function Raised<V>(tree: Tree<V>, p: Path): Tree<V>
    requires p in tree
  {
    WithCell(tree, p, tree[p].count + 1, tree[p].value)
  }

  method CountUp<V>(nodes0: map<Key, Leaf<V>>, k: Key, ghost p: Path, ghost tree: Tree<V>, ghost denote: map<Id, Path>,
                    ghost next: Id)
    returns (nodes: map<Key, Leaf<V>>)
    requires Depicts(nodes0, tree, denote, next) && p in tree && k == SlotOf(tree, p)
    ensures Depicts(nodes, Raised(tree, p), denote, next)
  {
    hide Depicts;
    OwnSlot(nodes0, tree, denote, next, p);
    var n := nodes0[k];
    SetLeaf(nodes0, tree, denote, next, p, n.count + 1, n.value);
    nodes := nodes0[k := n.(count := n.count + 1)];
  }

  lemma RaiseStep<V>(t0: Tree<V>, t: Tree<V>, denote: map<Id, Path>, next: Id, f: Filter, i: nat)
    requires WellShaped(t0, denote, next) && f in t0 && i < |Slots(t0, f)| && |Slots(t0, f)| == |f|
    requires Grown(t0, t, f, 0, i, None) && SameSlotsAs(t0, t)
    ensures f[..i + 1] in t && Slots(t0, f)[i] == SlotOf(t, f[..i + 1])
    ensures Grown(t0, Raised(t, f[..i + 1]), f, 0, i + 1, None) && SameSlotsAs(t0, Raised(t, f[..i + 1]))
  {
    hide WellShaped;
    hide SlotOf;
    SlotsAt(t0, f, i);
    PrefixIn(t0, denote, next, f, i + 1);
    GrowOld(t0, t, f, i, None);
    SetAllSlots(t0, t, f[..i + 1], t[f[..i + 1]].count + 1, t[f[..i + 1]].value);
  }

  lemma StartRaise<V>(t: Tree<V>, f: Filter)
    ensures Grown(t, t, f, 0, 0, None) && SameSlotsAs(t, t)
  {
  }

  ghost predicate SameSlotsAs<V>(t0: Tree<V>, t: Tree<V>) {
    forall p :: SlotOf(t, p) == SlotOf(t0, p)
  }

  lemma SetAllSlots<V>(t0: Tree<V>, t: Tree<V>, q: Path, count: nat, value: Option<V>)
    requires SameSlotsAs(t0, t) && q in t
    ensures SameSlotsAs(t0, WithCell(t, q, count, value))
  {
    forall p ensures SlotOf(WithCell(t, q, count, value), p) == SlotOf(t, p) {
      SetSlot(t, q, count, value, p);
    }
  }

  // ----- erasing

  lemma SlotsDistinct<V>(nodes: map<Key, Leaf<V>>, tree: Tree<V>, denote: map<Id, Path>, next: Id, f: Path, i: nat,
                         j: nat)
    requires Depicts(nodes, tree, denote, next) && f in tree && i < j < |f|
    ensures |Slots(tree, f)| == |f| && Slots(tree, f)[i] != Slots(tree, f)[j] && Slots(tree, f)[i] in nodes
  {
    SlotsAt(tree, f, i);
    SlotsAt(tree, f, j);
    PrefixIn(tree, denote, next, f, i + 1);
    PrefixIn(tree, denote, next, f, j + 1);
    SlotInjective(nodes, tree, denote, next, f[..i + 1], f[..j + 1]);
    OwnSlot(nodes, tree, denote, next, f[..i + 1]);
  }

  /** The erase loop: from the root downwards, each count lowered and the node erased when it reaches zero. */
  method Thin<V>(nodes0: map<Key, Leaf<V>>, path: seq<Key>) returns (nodes: map<Key, Leaf<V>>)
    requires forall i | 0 <= i < |path| :: path[i] in nodes0 && nodes0[path[i]].count > 0
    requires forall i, j | 0 <= i < j < |path| :: path[i] != path[j]
    ensures nodes == Thinned(nodes0, path)
  {
    nodes := nodes0;
    assert Thinned(nodes0, []) == nodes0;
    for i := 0 to |path|
      invariant nodes == Thinned(nodes0, path[..i])
    {
      var k := path[i];
      assert k !in path[..i] && path[..i + 1] == path[..i] + [k];
      nodes := nodes[k := nodes[k].(count := nodes[k].count - 1)];
      if nodes[k].count == 0 {
        nodes := nodes - {k};
      }
      assert nodes == Thinned(nodes0, path[..i + 1]);
    }
    assert path[..|path|] == path;
  }

  /** Lowers the counts along a topic that has just lost its value. */
  method ErasePath<V>(nodes0: map<Key, Leaf<V>>, path: seq<Key>, ghost tree: Tree<V>, ghost denote: map<Id, Path>,
                      ghost next: Id, ghost entries: set<Entry<int>>, ghost e: Entry<int>)
    returns (nodes: map<Key, Leaf<V>>)
    requires Depicts(nodes0, tree, denote, next) && Counted(tree, entries) && e in entries
    requires e.filter in tree && path == Slots(tree, e.filter)
    ensures Depicts(nodes, Pruned(tree, e.filter), denote, next)
  {
    assert WellShaped(tree, denote, next);
    hide Depicts;
    hide WellShaped;
    ghost var f := e.filter;
    if f != [] {
      SlotsAt(tree, f, 0);
    }
    forall i | 0 <= i < |path| ensures path[i] in nodes0 && nodes0[path[i]].count > 0 {
      SlotsAt(tree, f, i);
      PrefixIn(tree, denote, next, f, i + 1);
      OwnSlot(nodes0, tree, denote, next, f[..i + 1]);
      CountPositive(entries, e, f[..i + 1]);
    }
    forall i, j | 0 <= i < j < |path| ensures path[i] != path[j] {
      SlotsDistinct(nodes0, tree, denote, next, f, i, j);
    }
    PruneAll(nodes0, tree, denote, next, entries, e);
    nodes := Thin(nodes0, path);
  }

  // ----- what the steps mean for the stored topics

  lemma ItemsInsert<V>(store: map<Path, V>, leaks: seq<Path>, t: Path, v: V)
    ensures Items(store[t := v], leaks) == Items(store, leaks) + {Entry(t, 0)}
  {
    assert forall p :: p in store[t := v] <==> p in store || p == t;
    assert Entry(t, 0) in Items(store[t := v], leaks);
  }

  lemma ItemsErase<V>(store: map<Path, V>, leaks: seq<Path>, t: Path)
    ensures Items(store - {t}, leaks) == Items(store, leaks) - {Entry(t, 0)}
  {
  }

  /** A topic that is new: its path counted up, its value set. */
  lemma KeepsInsert<V>(t0: Tree<V>, store: map<Path, V>, leaks: seq<Path>, t1: Tree<V>, topic: Filter, v: V)
    requires Keeps(t0, store, leaks) && topic !in store
    requires Grown(t0, t1, topic, 0, |topic|, None) && topic in t1
    ensures Keeps(WithCell(t1, topic, t1[topic].count, Some(v)), store[topic := v], leaks)
  {
    hide Grown;
    hide Count;
    assert topic[..|topic|] == topic;
    var t, store' := WithCell(t1, topic, t1[topic].count, Some(v)), store[topic := v];
    ItemsInsert(store, leaks, topic, v);
    forall p ensures p in t1 <==> p == [] || Count(Items(store', leaks), p) > 0
             ensures p in t1 && p != [] ==> t1[p].count == Count(Items(store', leaks), p) {
      GrownCounts(t0, Items(store, leaks), t1, topic, |topic|, Entry(topic, 0), p);
    }
    forall p | p in t1 ensures t1[p].value == if p in store then Some(store[p]) else None {
      KeepsInsertAt(t0, store, leaks, t1, topic, |topic|, p);
    }
  }

  lemma GrownCounts<V>(t0: Tree<V>, entries: set<Entry<int>>, t1: Tree<V>, topic: Filter, n: nat, e: Entry<int>,
                       p: Path)
    requires Counted(t0, entries) && e !in entries && n <= |topic| && e.filter == topic[..n]
             && Grown(t0, t1, topic, 0, n, None)
    ensures p in t1 <==> p == [] || Count(entries + {e}, p) > 0
    ensures p in t1 && p != [] ==> t1[p].count == Count(entries + {e}, p)
  {
    CountInsert(entries, e, p);
    PrefixOfLength(p, topic);
    assert p <= topic[..n] ==> p <= topic && |p| <= n;
    assert p <= topic && |p| <= n ==> p == topic[..n][..|p|];
    assert OnPath(p, topic, 0, n) <==> p != [] && p <= e.filter;
  }

  /** What a failed insertion leaves behind: the levels before the wildcard, if any. */
  function LeftBehind(topic: Filter): seq<Path> {
    if IsTopic(topic) || IsWild(topic[0]) then [] else [topic[..FirstWild(topic)]]
  }

  lemma LeftBehindIs(topic: Filter)
    ensures FirstWild(topic) == 0 <==> IsWild(topic[0])
    ensures IsTopic(topic) <==> FirstWild(topic) == |topic|
    ensures forall p | p in LeftBehind(topic) :: IsTopic(p)
  {
  }

  lemma ItemsLeak<V>(store: map<Path, V>, leaks: seq<Path>, p: Path)
    ensures Items(store, leaks + [p]) == Items(store, leaks) + {Entry(p, |leaks| + 1)}
    ensures Entry(p, |leaks| + 1) !in Items(store, leaks)
  {
    var more := leaks + [p];
    assert more[|leaks|] == p;
    forall e | e in Items(store, leaks) ensures e in Items(store, more) {
      if i :| 0 <= i < |leaks| && e == Entry(leaks[i], i + 1) {
        assert more[i] == leaks[i];
      }
    }
    forall e | e in Items(store, more) ensures e in Items(store, leaks) || e == Entry(p, |leaks| + 1) {
      if i :| 0 <= i < |more| && e == Entry(more[i], i + 1) {
        assert i < |leaks| ==> more[i] == leaks[i];
      }
    }
  }

  /** An insertion that failed: the levels before the wildcard counted up. */
  lemma KeepsFailed<V>(t0: Tree<V>, store: map<Path, V>, leaks: seq<Path>, t1: Tree<V>, topic: Filter)
    requires Keeps(t0, store, leaks) && !IsTopic(topic) && Grown(t0, t1, topic, 0, FirstWild(topic), None)
    ensures Keeps(t1, store, leaks + LeftBehind(topic))
  {
    var n := FirstWild(topic);
    LeftBehindIs(topic);
    if n == 0 {
      GrownNothing(t0, t1, topic);
      assert leaks + [] == leaks;
    } else {
      hide Count;
      var e := Entry(topic[..n], |leaks| + 1);
      ItemsLeak(store, leaks, topic[..n]);
      forall p ensures p in t1 <==> p == [] || Count(Items(store, leaks) + {e}, p) > 0
               ensures p in t1 && p != [] ==> t1[p].count == Count(Items(store, leaks) + {e}, p) {
        GrownCounts(t0, Items(store, leaks), t1, topic, n, e, p);
      }
      forall p | p in t1 ensures t1[p].value == if p in store then Some(store[p]) else None {
        KeepsInsertAt(t0, store, leaks, t1, topic, n, p);
      }
    }
  }

  lemma GrownNothing<V>(t0: Tree<V>, t1: Tree<V>, topic: Filter)
    requires Grown(t0, t1, topic, 0, 0, None)
    ensures t1 == t0
  {
    forall p ensures p in t1 <==> p in t0 {
    }
  }

  lemma KeepsInsertAt<V>(t0: Tree<V>, store: map<Path, V>, leaks: seq<Path>, t1: Tree<V>, topic: Filter, n: nat,
                         p: Path)
    requires Keeps(t0, store, leaks) && Grown(t0, t1, topic, 0, n, None) && p in t1
    ensures t1[p].value == if p in store then Some(store[p]) else None
  {
    if p in store {
      CountPositive(Items(store, leaks), Entry(p, 0), p);
    }
  }

  lemma KeepsAssign<V>(t: Tree<V>, store: map<Path, V>, leaks: seq<Path>, topic: Filter, v: V)
    requires Keeps(t, store, leaks) && topic in store && topic in t
    ensures Keeps(WithCell(t, topic, t[topic].count, Some(v)), store[topic := v], leaks)
  {
    ItemsInsert(store, leaks, topic, v);
    assert Items(store[topic := v], leaks) == Items(store, leaks);
  }

  lemma KeepsErase<V>(t: Tree<V>, store: map<Path, V>, leaks: seq<Path>, topic: Filter)
    requires Keeps(t, store, leaks) && topic in store && topic in t
    ensures Keeps(Pruned(WithCell(t, topic, t[topic].count, None), topic), store - {topic}, leaks)
  {
    hide Pruned;
    hide Count;
    hide WithCell;
    var t', store' := Pruned(WithCell(t, topic, t[topic].count, None), topic), store - {topic};
    ItemsErase(store, leaks, topic);
    forall p ensures p in t' <==> p == [] || Count(Items(store', leaks), p) > 0
             ensures p in t' && p != [] ==> t'[p].count == Count(Items(store', leaks), p)
             ensures p in t' ==> p in t && t'[p].value == if p == topic then None else t[p].value {
      PrunedCounts(t, Items(store, leaks), topic, p);
    }
  }

  lemma PrunedCounts<V>(t: Tree<V>, entries: set<Entry<int>>, topic: Filter, p: Path)
    requires Counted(t, entries) && Entry(topic, 0) in entries && topic in t
    ensures var t' := Pruned(WithCell(t, topic, t[topic].count, None), topic);
            var left := Count(entries - {Entry(topic, 0)}, p);
            && (p in t' <==> p == [] || left > 0)
            && (p in t' && p != [] ==> t'[p].count == left)
            && (p in t' ==> p in t && t'[p].value == if p == topic then None else t[p].value)
  {
    CountRemove(entries, Entry(topic, 0), p);
    assert OnPath(p, topic, 0, |topic|) <==> p != [] && p <= topic;
  }

  lemma StoredTopic<V>(t: Tree<V>, store: map<Path, V>, leaks: seq<Path>, topic: Path)
    requires Keeps(t, store, leaks) && topic in store
    ensures topic in t && t[topic].value == Some(store[topic])
  {
    CountPositive(Items(store, leaks), Entry(topic, 0), topic);
  }
}
