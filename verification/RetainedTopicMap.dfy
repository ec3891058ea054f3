/** The broker's retained topics: one value per topic, looked up by filter. */
module RetainedTopicMap {
  import opened Wrappers
  import opened TopicFilter
  import opened TrieModel
  import opened TreeCounts
  import opened TrieMatch
  import opened RetainedModel
  import opened RetainedTable
  import opened RetainedMatch
  import opened RetainedOrder
  import opened FilterAlgebra
  import SubscriptionMap
  import EntryMatch

  // ----- what a search should find, and what it does find

  /** Here '#' also takes the parent level; first-level wildcards never match a system name. */
  predicate RetainedMatches(f: Filter, t: Path) {
    && (if EndsWithHash(f) then |f| - 1 <= |t| && Agrees(Init(f), t) else |f| == |t| && Agrees(f, t))
    && !HiddenFrom(f, t)
  }

  /** The same spelled out: the level rules, and '$' at the beginning of the topic. */
  lemma RetainedSpelled(f: Filter, t: Path)
    ensures RetainedMatches(f, t) <==> AcceptsParent(f, t) && (f[0].Name? || !("$" <= Join(t)))
  {
    AcceptsParentMatches(f, t);
    SystemText(t);
  }

  /** On topics without wildcards the two readings of '#' differ over the parent level, and over nothing else. */
  lemma ParentLevel(f: Filter, t: Path)
    requires IsTopic(t)
    ensures RetainedMatches(f, t) && !Matches(f, t)
         <==> EndsWithHash(f) && |t| == |f| - 1 && Agrees(Init(f), t) && !HiddenFrom(f, t)
    ensures Matches(f, t) ==> RetainedMatches(f, t)
  {
    assert EndsWithHash(f) ==> |Init(f)| == |f| - 1;
  }

  /** A leading '+' misses names that are younger than some system name. */
  ghost predicate PastSystem<V>(tree: Tree<V>, f: Filter, t: Path) {
    f[0] == Plus && |t| > 0 && !AheadOfSystem(tree, t[..1])
  }

  /**
   * '#' goes below one node only, so it misses what lies below a match of the part before '#' that an earlier one
   * precedes.
   */
  ghost predicate PastFirst<V>(tree: Tree<V>, f: Filter, t: Path) {
    && EndsWithHash(f) && |t| >= |f|
    && Overtaken(tree, f, t[..|f| - 1])
  }

  ghost predicate Overtaken<V>(tree: Tree<V>, f: Filter, q: Path)
    requires |q| < |f|
  {
    exists p :: OnFront(tree, f, |q|, p) && Earlier(tree, p, q)
  }

  /** What the search finds of the matching topics. */
  ghost predicate Found<V>(tree: Tree<V>, f: Filter, t: Path) {
    RetainedMatches(f, t) && !PastSystem(tree, f, t) && !PastFirst(tree, f, t)
  }

  /** A topic in the tree is visited exactly when it matches and neither early exit cuts it off. */
  lemma FoundExactly<V>(tree: Tree<V>, denote: map<Id, Path>, next: Id, f: Filter, front: seq<Path>, t: Path)
    requires WellShaped(tree, denote, next) && HashLast(f) && t in tree && |t| > 0
    requires FrontAt(front, tree, f, Reach(f)) && Ordered(front, tree)
    ensures Visits(tree, f, front, t) <==> Found(tree, f, t)
  {
    var n := Reach(f);
    if EndsWithHash(f) {
      assert f[..n] == Init(f);
      if |t| >= |f| {
        FoundBelow(tree, denote, next, f, front, t);
      } else if |t| == n {
        FrontMatches(tree, f, t);
        assert front != [] ==> front[0] in front;
      } else if front != [] {
        assert front[0] in front;
      }
    } else {
      assert f[..n] == f;
      if |t| == n {
        FrontMatches(tree, f, t);
      }
    }
  }

  /** On the frontier itself nothing but the age of system names matters. */
  lemma FrontMatches<V>(tree: Tree<V>, f: Filter, t: Path)
    requires t in tree && |t| > 0 && |t| == Reach(f)
    ensures OnFront(tree, f, Reach(f), t) <==> RetainedMatches(f, t) && !PastSystem(tree, f, t)
  {
    assert t[..1][0] == t[0];
    assert f[..|f|] == f;
  }

  /** Above what '#' takes, the topic has to be on the frontier. */
  lemma MatchesBelow<V>(tree: Tree<V>, denote: map<Id, Path>, next: Id, f: Filter, t: Path)
    requires WellShaped(tree, denote, next) && t in tree && HashLast(f) && EndsWithHash(f) && |t| >= |f|
    ensures RetainedMatches(f, t) && !PastSystem(tree, f, t)
       <==> OnFront(tree, f, |f| - 1, t[..|f| - 1]) && Visible(t[|f| - 1], |f| == 1)
  {
    var n := |f| - 1;
    var p := t[..n];
    PrefixIn(tree, denote, next, t, n);
    assert Init(f) == f[..n];
    assert Agrees(Init(f), t) <==> Agrees(f[..n], p) by {
      assert forall i | 0 <= i < n :: p[i] == t[i];
    }
    assert n > 0 ==> p[..1] == t[..1] && p[0] == t[0];
    assert n > 0 ==> !IsWild(f[0]) || f[0] == Plus;
    assert t[..1][0] == t[0];
  }

  lemma FoundBelow<V>(tree: Tree<V>, denote: map<Id, Path>, next: Id, f: Filter, front: seq<Path>, t: Path)
    requires WellShaped(tree, denote, next) && HashLast(f) && t in tree && EndsWithHash(f) && |t| >= |f|
    requires FrontAt(front, tree, f, |f| - 1) && Ordered(front, tree)
    ensures Visits(tree, f, front, t) <==> Found(tree, f, t)
  {
    hide WellShaped;
    hide Ordered;
    hide Earlier;
    hide RetainedMatches;
    hide PastSystem;
    var n := |f| - 1;
    var p := t[..n];
    MatchesBelow(tree, denote, next, f, t);
    assert t !in front;
    if front != [] {
      assert front[0] in front;
      assert front[0] <= t <==> front[0] == p;
    }
    if p in front {
      FirstIsEarliest(front, tree, p);
    }
  }

  /**
   * No '+' before a '#', and no system name when the filter starts with '+': neither among the topics nor among what
   * failed insertions have left behind.
   */
  ghost predicate Unhindered<V>(store: map<Path, V>, leaks: seq<Path>, f: Filter) {
    && (EndsWithHash(f) ==> Plus !in f)
    && (f[0] == Plus ==> forall s | (s in store || s in leaks) && s != [] :: !IsSystem(s[0]))
  }

  /** The same spelled out: no '+' in a filter that ends in '#', and no text that begins with '$' where '+' leads. */
  ghost predicate Plain<V>(store: map<Path, V>, leaks: seq<Path>, f: Filter) {
    && (f[|f| - 1] == Hash ==> Plus !in f)
    && (f[0] == Plus ==> forall s | s in store || s in leaks :: !("$" <= Join(s)))
  }

  lemma UnhinderedSpelled<V>(store: map<Path, V>, leaks: seq<Path>, f: Filter)
    ensures Unhindered(store, leaks, f) <==> Plain(store, leaks, f)
  {
    hide Join;
    hide IsSystem;
    forall s | s in store || s in leaks ensures "$" <= Join(s) <==> s != [] && IsSystem(s[0]) {
      SystemText(s);
    }
  }

  /** Then every match is found. */
  lemma CompleteWhen<V>(tree: Tree<V>, denote: map<Id, Path>, next: Id, store: map<Path, V>, leaks: seq<Path>,
                        f: Filter, t: Path)
    requires WellShaped(tree, denote, next) && Keeps(tree, store, leaks) && HashLast(f) && t in tree && |t| > 0
    requires Unhindered(store, leaks, f) && RetainedMatches(f, t)
    ensures Found(tree, f, t)
  {
    hide WellShaped;
    hide Keeps;
    hide Earlier;
    if f[0] == Plus {
      PrefixIn(tree, denote, next, t, 1);
      NoSystemName(tree, store, leaks, t[..1]);
      forall s | s in tree && |s| == 1 ensures !IsSystem(s[0]) {
        NoSystemName(tree, store, leaks, s);
      }
    }
    if EndsWithHash(f) && |t| >= |f| {
      var n := |f| - 1;
      var q := t[..n];
      forall p | OnFront(tree, f, n, p) ensures !Earlier(tree, p, q) {
        OneFront(tree, f, p, t);
      }
    }
  }

  /** Without '+' before '#' there is one frontier node at most. */
  lemma OneFront<V>(tree: Tree<V>, f: Filter, p: Path, t: Path)
    requires EndsWithHash(f) && Plus !in f && |t| >= |f| && OnFront(tree, f, |f| - 1, p) && RetainedMatches(f, t)
    ensures !Earlier(tree, p, t[..|f| - 1])
  {
    var n := |f| - 1;
    var q := t[..n];
    forall i | 0 <= i < n ensures p[i] == q[i] {
      assert f[..n][i] == f[i] && f[i] in f && Init(f)[i] == f[i];
    }
    assert p == q;
    if Earlier(tree, p, q) {
      EarlierAsymmetric(tree, p, q);
    }
  }

  lemma NoSystemName<V>(tree: Tree<V>, store: map<Path, V>, leaks: seq<Path>, s: Path)
    requires Keeps(tree, store, leaks) && s in tree && |s| == 1
    requires forall t | (t in store || t in leaks) && t != [] :: !IsSystem(t[0])
    ensures !IsSystem(s[0])
  {
    var e :| e in Below(Items(store, leaks), s);
    assert s <= e.filter && (e.filter in store || e.filter in leaks);
  }

  // ----- the map

  datatype Table<V> = Table(nodes: map<Key, Leaf<V>>, mapSize: nat, nextNodeId: Id)

  /** The paths, the ids, the topics, and the paths that failed insertions have left behind. */
  datatype View<V> = View(tree: Tree<V>, denote: map<Id, Path>, store: map<Path, V>, leaks: seq<Path>)

  /** No wildcard level ever gets into the tree. */
  ghost predicate OnlyTopics<V>(store: map<Path, V>, leaks: seq<Path>) {
    forall p | p in store || p in leaks :: IsTopic(p)
  }

  lemma TreeTopics<V>(tree: Tree<V>, store: map<Path, V>, leaks: seq<Path>, p: Path)
    requires Keeps(tree, store, leaks) && OnlyTopics(store, leaks) && p in tree && p != []
    ensures IsTopic(p)
  {
    var e :| e in Below(Items(store, leaks), p);
    assert IsTopic(e.filter) && p <= e.filter;
    assert forall i | 0 <= i < |p| :: p[i] == e.filter[i];
  }

  ghost predicate Stands<V>(table: Table<V>, view: View<V>) {
    && Depicts(table.nodes, view.tree, view.denote, table.nextNodeId) && table.nextNodeId > 0
    && Keeps(view.tree, view.store, view.leaks) && OnlyTopics(view.store, view.leaks)
    && table.mapSize == |view.store|
  }

  /** Every node but the root counts the topics stored, and the insertions failed, at or below it: at least one. */
  lemma NodeInvariant<V>(table: Table<V>, view: View<V>, k: Key)
    requires Stands(table, view) && k in table.nodes && k != TOP_KEY
    ensures k.parent in view.denote
    ensures table.nodes[k].count == Count(Items(view.store, view.leaks), view.denote[k.parent] + [k.level]) >= 1
  {
    SlotPath(table.nodes, view.tree, view.denote, table.nextNodeId, k);
    OwnSlot(table.nodes, view.tree, view.denote, table.nextNodeId, view.denote[k.parent] + [k.level]);
  }

  function FreshTable<V>(): Table<V> {
    Table(map[TOP_KEY := Leaf(TOP_ID, 1, None)], 0, TOP_ID + 1)
  }

  ghost function FreshView<V>(): View<V> {
    View(map[[] := Cell(TOP_ID, 1, None)], map[TOP_ID := []], map[], [])
  }

  lemma FreshStands<V>()
    ensures Stands<V>(FreshTable(), FreshView())
  {
    var store: map<Path, V> := map[];
    assert Items(store, []) == {};
    forall p: Path ensures Count<int>({}, p) == 0 {
      EmptyCount<int>(p);
    }
  }

  ghost function FoundIn<V>(view: View<V>, f: Filter): set<Path> {
    set t | t in view.store && Found(view.tree, f, t)
  }

  /**
   * Sets the value of a topic; 1 when it is new. For a topic with a wildcard level, where the code throws, None: the
   * levels before the wildcard have been created or counted up then, and nothing takes that back.
   */
  method Insert<V>(table0: Table<V>, topic: Filter, v: V, ghost view0: View<V>)
    returns (table: Table<V>, added: Option<nat>, ghost view: View<V>)
    requires Stands(table0, view0)
    ensures Stands(table, view) && Aged(view0.tree, view.tree) && view.leaks == view0.leaks + LeftBehind(topic)
    ensures added.Some? <==> IsTopic(topic)
    ensures added.None? ==> view.store == view0.store
    ensures added.Some? ==> view.store == view0.store[topic := v] && added.value == if topic in view0.store then 0
            else 1
  {
    hide Depicts;
    hide Grown;
    hide Aged;
    hide OnlyTopics;
    AgedSelf(view0.tree);
    var nodes, next := table0.nodes, table0.nextNodeId;
    ghost var tree, denote, store, leaks := view0.tree, view0.denote, view0.store, view0.leaks;
    SubscriptionMap.InsertedSize(store, topic, v);
    NotStored(tree, store, leaks, topic);
    LeftBehindIs(topic);
    StillTopics(store, leaks, topic, v);
    var path := FindTopic(nodes, topic, tree, denote, next);
    SlotsLast(tree, topic);
    var k;
    var created: nat;
    if path == [] {
      var ok;
      ok, nodes, next, k, tree, denote := CreateTopic(nodes, next, topic, tree, denote);
      if !ok {
        KeepsFailed(view0.tree, store, leaks, tree, topic);
        return Table(nodes, table0.mapSize, next), None, View(tree, denote, store, leaks + LeftBehind(topic));
      }
      KeepsInsert(view0.tree, store, leaks, tree, topic, v);
      created := 1;
    } else {
      TreeTopics(tree, store, leaks, topic);
      k := Last(path);
      OwnSlot(nodes, tree, denote, next, topic);
      if nodes[k].value.None? {
        AllPrefixesIn(nodes, tree, denote, next, topic);
        nodes, tree := IncreaseTopics(nodes, path, topic, tree, denote, next);
        GrownSlot(view0.tree, tree, topic);
        GrownAged(view0.tree, tree, topic);
        KeepsInsert(view0.tree, store, leaks, tree, topic, v);
        created := 1;
      } else {
        KeepsAssign(tree, store, leaks, topic, v);
        created := 0;
      }
    }
    OwnSlot(nodes, tree, denote, next, topic);
    SetLeaf(nodes, tree, denote, next, topic, nodes[k].count, Some(v));
    AgedSet(view0.tree, tree, topic, nodes[k].count, Some(v));
    nodes := nodes[k := nodes[k].(value := Some(v))];
    table, added := Table(nodes, table0.mapSize + created, next), Some(created);
    view := View(WithCell(tree, topic, tree[topic].count, Some(v)), denote, store[topic := v], leaks);
    assert leaks + [] == leaks;
  }

  lemma StillTopics<V>(store: map<Path, V>, leaks: seq<Path>, topic: Filter, v: V)
    requires OnlyTopics(store, leaks)
    ensures if IsTopic(topic) then OnlyTopics(store[topic := v], leaks)
            else OnlyTopics(store, leaks + LeftBehind(topic))
  {
    LeftBehindIs(topic);
  }

  lemma FewerTopics<V>(store: map<Path, V>, leaks: seq<Path>, topic: Path)
    requires OnlyTopics(store, leaks)
    ensures OnlyTopics(store - {topic}, leaks)
  {
  }

  lemma NotStored<V>(tree: Tree<V>, store: map<Path, V>, leaks: seq<Path>, topic: Path)
    requires Keeps(tree, store, leaks)
    ensures topic in store <==> topic in tree && tree[topic].value.Some?
  {
    if topic in store {
      StoredTopic(tree, store, leaks, topic);
    }
  }

  lemma SlotsLast<V>(tree: Tree<V>, f: Filter)
    ensures Slots(tree, f) != [] && Last(Slots(tree, f)) == SlotOf(tree, f)
  {
  }

  lemma AgedSelf<V>(t: Tree<V>)
    ensures Aged(t, t)
  {
  }

  lemma AgedSet<V>(t0: Tree<V>, t: Tree<V>, p: Path, count: nat, value: Option<V>)
    requires Aged(t0, t) && p in t
    ensures Aged(t0, WithCell(t, p, count, value))
  {
  }

  lemma GrownAged<V>(t0: Tree<V>, t: Tree<V>, f: Filter)
    requires Grown(t0, t, f, 0, |f|, None) && forall i | 0 <= i <= |f| :: f[..i] in t0
    ensures Aged(t0, t)
  {
    forall p | p in t ensures p in t0 {
      PrefixOfLength(p, f);
    }
  }

  lemma AllPrefixesIn<V>(nodes: map<Key, Leaf<V>>, tree: Tree<V>, denote: map<Id, Path>, next: Id, f: Path)
    requires Depicts(nodes, tree, denote, next) && f in tree
    ensures forall i | 0 <= i <= |f| :: f[..i] in tree
  {
    forall i | 0 <= i <= |f| ensures f[..i] in tree {
      PrefixIn(tree, denote, next, f, i);
    }
  }

  lemma GrownSlot<V>(t0: Tree<V>, t: Tree<V>, f: Filter)
    requires Grown(t0, t, f, 0, |f|, None) && f in t0 && Init(f) in t0
    ensures f in t && SlotOf(t, f) == SlotOf(t0, f)
  {
  }

  /** Removes the value of a topic; 1 when there was one. */
  method Remove<V>(table0: Table<V>, topic: Filter, ghost view0: View<V>)
    returns (table: Table<V>, erased: nat, ghost view: View<V>)
    requires Stands(table0, view0)
    ensures Stands(table, view) && view.store == view0.store - {topic} && view.leaks == view0.leaks
            && Aged(view0.tree, view.tree)
    ensures erased == if topic in view0.store then 1 else 0
  {
    hide Depicts;
    hide Aged;
    AgedSelf(view0.tree);
    var nodes, next := table0.nodes, table0.nextNodeId;
    ghost var tree, denote, store, leaks := view0.tree, view0.denote, view0.store, view0.leaks;
    NotStored(tree, store, leaks, topic);
    FewerTopics(store, leaks, topic);
    var path := FindTopic(nodes, topic, tree, denote, next);
    SlotsLast(tree, topic);
    SubscriptionMap.ErasedSize(store, topic);
    if path != [] {
      OwnSlot(nodes, tree, denote, next, topic);
      var k := Last(path);
      if nodes[k].value.Some? {
        nodes, tree := DropTopic(nodes, path, topic, tree, denote, next, store, leaks);
        table := Table(nodes, table0.mapSize - 1, next);
        return table, 1, View(tree, denote, store - {topic}, leaks);
      }
    }
    assert store - {topic} == store;
    table, erased, view := table0, 0, view0;
  }

  /** Resets the value at the end of a path and counts the path down. */
  method DropTopic<V>(nodes0: map<Key, Leaf<V>>, path: seq<Key>, topic: Filter, ghost tree0: Tree<V>,
                      ghost denote: map<Id, Path>, ghost next: Id, ghost store: map<Path, V>, ghost leaks: seq<Path>)
    returns (nodes: map<Key, Leaf<V>>, ghost tree: Tree<V>)
    requires Depicts(nodes0, tree0, denote, next) && Keeps(tree0, store, leaks)
    requires topic in store && topic in tree0 && path == Slots(tree0, topic)
    ensures Depicts(nodes, tree, denote, next) && Keeps(tree, store - {topic}, leaks) && Aged(tree0, tree)
  {
    hide Depicts;
    hide Keeps;
    hide Pruned;
    SlotsLast(tree0, topic);
    OwnSlot(nodes0, tree0, denote, next, topic);
    var k := Last(path);
    SetLeaf(nodes0, tree0, denote, next, topic, nodes0[k].count, None);
    SameSlots(tree0, topic, topic);
    KeepsErase(tree0, store, leaks, topic);
    ValueGone(tree0, store, leaks, topic);
    nodes := nodes0[k := nodes0[k].(value := None)];
    tree := WithCell(tree0, topic, tree0[topic].count, None);
    nodes := ErasePath(nodes, path, tree, denote, next, Items(store, leaks), Entry(topic, 0));
    tree := Pruned(tree, topic);
    PrunedAged(tree0, topic);
  }

  lemma PrunedAged<V>(tree: Tree<V>, topic: Path)
    requires topic in tree
    ensures Aged(tree, Pruned(WithCell(tree, topic, tree[topic].count, None), topic))
  {
  }

  lemma ValueGone<V>(tree: Tree<V>, store: map<Path, V>, leaks: seq<Path>, topic: Path)
    requires Keeps(tree, store, leaks) && topic in tree && topic in store
    ensures Counted(WithCell(tree, topic, tree[topic].count, None), Items(store, leaks))
            && Entry(topic, 0) in Items(store, leaks)
  {
  }

  lemma {:induction false} SameSlots<V>(tree: Tree<V>, topic: Path, f: Path)
    requires topic in tree
    ensures Slots(WithCell(tree, topic, tree[topic].count, None), f) == Slots(tree, f)
    decreases |f|
  {
    if f != [] {
      SameSlots(tree, topic, Init(f));
      SetSlot(tree, topic, tree[topic].count, None, f);
    }
  }

  lemma ValueAt<V>(nodes: map<Key, Leaf<V>>, tree: Tree<V>, denote: map<Id, Path>, next: Id, store: map<Path, V>,
                   leaks: seq<Path>, p: Path)
    requires Depicts(nodes, tree, denote, next) && Keeps(tree, store, leaks) && p in tree
    ensures SlotOf(tree, p) in nodes && nodes[SlotOf(tree, p)].value == if p in store then Some(store[p]) else None
  {
    OwnSlot(nodes, tree, denote, next, p);
  }

  /** The callbacks: one for every visited node that has a value. */
  method Report<V>(nodes: map<Key, Leaf<V>>, visited: seq<Key>, ghost at: seq<Path>, ghost tree: Tree<V>,
                   ghost denote: map<Id, Path>, ghost next: Id, ghost store: map<Path, V>, ghost leaks: seq<Path>)
    returns (calls: seq<V>, ghost from: seq<Path>)
    requires Depicts(nodes, tree, denote, next) && Keeps(tree, store, leaks) && Placed(visited, at, tree)
             && Distinct(at)
    ensures |calls| == |from| && Distinct(from) && forall i | 0 <= i < |from| ::
            from[i] in store && calls[i] == store[from[i]]
    ensures forall t :: t in from <==> t in store && t in at
  {
    hide Depicts;
    hide Keeps;
    hide SlotOf;
    calls, from := [], [];
    for i := 0 to |visited|
      invariant |calls| == |from| && Distinct(from) && forall j | 0 <= j < |from| ::
                from[j] in store && calls[j] == store[from[j]]
      invariant forall t :: t in from <==> t in store && t in at[..i]
    {
      TakeSnoc(at, i);
      assert at[i] !in at[..i];
      ValueAt(nodes, tree, denote, next, store, leaks, at[i]);
      if nodes[visited[i]].value.Some? {
        DistinctConcat(from, [at[i]]);
        calls, from := calls + [nodes[visited[i]].value.value], from + [at[i]];
      }
    }
    assert at[..|visited|] == at;
  }

  class RetainedTopicMap<V> {
    var table: Table<V>
    ghost var view: View<V>

    ghost predicate Valid()
      reads this
    {
      Stands(table, view)
    }

    constructor ()
      ensures Valid() && view.store == map[] && view.leaks == []
    {
      table, view := FreshTable(), FreshView();
      new;
      FreshStands<V>();
    }

    method Clear()
      modifies this
      ensures Valid() && view.store == map[] && view.leaks == []
    {
      table, view := FreshTable(), FreshView();
      FreshStands<V>();
    }

    /**
     * Sets the value of a topic; 1 when the topic is new. None where the code throws because of a wildcard level, after
     * having created or counted up the levels before it.
     */
    method InsertOrAssign(topic: Filter, v: V) returns (added: Option<nat>)
      requires Valid()
      modifies this
      ensures Valid() && Aged(old(view.tree), view.tree) && view.leaks == old(view.leaks) + LeftBehind(topic)
      ensures added.Some? <==> IsTopic(topic)
      ensures added.Some? <==> Plus !in topic && Hash !in topic
      ensures added.None? ==> view.store == old(view.store)
      ensures added.Some? ==> view.store == old(view.store)[topic := v] && added.value == if topic in old(view.store)
              then 0 else 1
    {
      hide Stands;
      var table';
      ghost var view';
      table', added, view' := Insert(table, topic, v, view);
      table, view := table', view';
    }

    /** Removes the value of a topic; the number of removed values is returned. */
    method Erase(topic: Filter) returns (erased: nat)
      requires Valid()
      modifies this
      ensures Valid() && view.store == old(view.store) - {topic} && view.leaks == old(view.leaks)
              && Aged(old(view.tree), view.tree)
      ensures erased == if topic in old(view.store) then 1 else 0
    {
      hide Stands;
      var table';
      ghost var view';
      table', erased, view' := Remove(table, topic, view);
      table, view := table', view';
    }

    /** Calls back once for every stored topic that matches and that neither early exit cuts off. */
    method Find(f: Filter) returns (calls: seq<V>, ghost from: seq<Path>)
      requires Valid()
      ensures |calls| == |from| && Distinct(from) && forall i | 0 <= i < |from| ::
              from[i] in view.store && calls[i] == view.store[from[i]]
      ensures UpToHash(f) != [] && forall t :: t in from <==> t in view.store && Found(view.tree, UpToHash(f), t)
      ensures Unhindered(view.store, view.leaks, UpToHash(f)) ==> forall t ::
                t in from <==> t in view.store && RetainedMatches(UpToHash(f), t)
      ensures var g := UpToHash(f);
              forall t | t in from :: AcceptsParent(g, t) && (g[0].Name? || !("$" <= Join(t)))
      ensures var g := UpToHash(f);
              Plain(view.store, view.leaks, g) ==> forall t ::
                t in from <==> t in view.store && AcceptsParent(g, t) && (g[0].Name? || !("$" <= Join(t)))
      ensures |calls| == |FoundIn(view, UpToHash(f))| && forall t | t in FoundIn(view, UpToHash(f)) ::
              view.store[t] in calls
    {
      UpToHashIs(f);
      ghost var g: Filter := UpToHash(f);
      hide FrontAt;
      hide Ordered;
      hide RetainedMatches;
      hide PastSystem;
      hide PastFirst;
      hide Unhindered;
      var visited, at, front := RetainedMatch.FindMatch(table.nodes, f, view.tree, view.denote, table.nextNodeId);
      calls, from := Report(table.nodes, visited, at, view.tree, view.denote, table.nextNodeId, view.store, view.leaks);
      forall t | t in view.store
        ensures Visits(view.tree, g, front, t) <==> Found(view.tree, g, t)
        ensures Unhindered(view.store, view.leaks, g) && RetainedMatches(g, t) ==> Found(view.tree, g, t)
      {
        StoredTopic(view.tree, view.store, view.leaks, t);
        FoundExactly(view.tree, view.denote, table.nextNodeId, g, front, t);
        if Unhindered(view.store, view.leaks, g) && RetainedMatches(g, t) {
          CompleteWhen(view.tree, view.denote, table.nextNodeId, view.store, view.leaks, g, t);
        }
      }
      UnhinderedSpelled(view.store, view.leaks, g);
      hide AcceptsParent;
      hide Plain;
      hide Join;
      forall t | t in view.store
        ensures RetainedMatches(g, t) <==> AcceptsParent(g, t) && (g[0].Name? || !("$" <= Join(t)))
      {
        RetainedSpelled(g, t);
      }
      EntryMatch.DistinctSize(from, FoundIn(view, g));
      forall t | t in FoundIn(view, g) ensures view.store[t] in calls {
        assert t in from;
        var i :| 0 <= i < |from| && from[i] == t;
        assert calls[i] in calls;
      }
    }

    method Size() returns (n: nat)
      requires Valid()
      ensures n == |view.store|
    {
      n := table.mapSize;
    }

    /**
     * One node for the root and one for every distinct non-empty prefix of a stored topic or of what failed
     * insertions left.
     */
    method InternalSize() returns (n: nat)
      requires Valid()
      ensures n == 1 + |SubscriptionMap.Prefixes(Items(view.store, view.leaks))|
    {
      NodeCount(table.nodes, view.tree, view.denote, table.nextNodeId, Items(view.store, view.leaks));
      n := |table.nodes|;
    }
  }

  lemma NodeCount<V>(nodes: map<Key, Leaf<V>>, tree: Tree<V>, denote: map<Id, Path>, next: Id, entries: set<Entry<int>>)
    requires Depicts(nodes, tree, denote, next) && Counted(tree, entries)
    ensures |nodes| == 1 + |SubscriptionMap.Prefixes(entries)|
  {
    SubscriptionMap.TreeKeys(tree, entries);
    SlotCount(nodes, tree, denote, next);
  }

  lemma SlotCount<V>(nodes: map<Key, Leaf<V>>, tree: Tree<V>, denote: map<Id, Path>, next: Id)
    requires Depicts(nodes, tree, denote, next)
    ensures |nodes| == |tree.Keys|
  {
    var f := map p | p in tree :: SlotOf(tree, p);
    var g := map k | k in nodes :: PathAt(denote, k);
    forall p | p in tree.Keys ensures f[p] in nodes && g[f[p]] == p {
      OwnSlot(nodes, tree, denote, next, p);
      if p != [] {
        assert p == Init(p) + [Last(p)];
      }
    }
    forall k | k in nodes.Keys ensures g[k] in tree && f[g[k]] == k {
      if k != TOP_KEY {
        SlotPath(nodes, tree, denote, next, k);
      }
    }
    SubscriptionMap.SameSize(tree.Keys, nodes.Keys, f, g);
  }

  ghost function PathAt(denote: map<Id, Path>, k: Key): Path {
    if k.parent in denote then denote[k.parent] + [k.level] else []
  }
}
