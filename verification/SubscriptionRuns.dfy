/** What holds of the subscription map over whole runs: node invariants, handles, and the store of a run. */
module SubscriptionRuns {
  import opened Wrappers
  import opened TopicFilter
  import opened TrieModel
  import opened TreeCounts
  import opened NodeTable
  import opened TrieHandles
  import opened EntryTable
  import opened TrieMatch
  import EntryMatch
  import opened SubscriptionMap

  /**
   * Every node but the root counts the keys stored at or below the filter it stands for, at least one; it knows
   * exactly whether it has a '+' or '#' child, and its parent key leads to a node with a smaller id.
   */
  lemma NodeInvariant<K, V>(table: Table<K, V>, view: View<K, V>, h: Key)
    requires Stands(table, view) && h in table.nodes && h != ROOT_KEY
    ensures var n := table.nodes[h];
            && n.count == Count(view.store.Keys, FilterOf(view, h)) >= 1
            && (n.hasPlus <==> Key(n.id, Plus) in table.nodes)
            && (n.hasHash <==> Key(n.id, Hash) in table.nodes)
            && n.parent in table.nodes && table.nodes[n.parent].id < n.id
            && (n.parent == ROOT_KEY || FilterOf(view, n.parent) == Init(FilterOf(view, h)))
  {
    var nodes, tree, denote, next := table.nodes, view.tree, view.denote, table.nextNodeId;
    var p := FilterOf(view, h);
    HandlePath(nodes, tree, denote, next, h);
    PathHandle(nodes, tree, denote, next, p);
    ChildKey(nodes, tree, denote, next, p, Plus);
    ChildKey(nodes, tree, denote, next, p, Hash);
    StepUp(nodes, tree, denote, next, p);
    PathHandle(nodes, tree, denote, next, Init(p));
  }

  /** Two nodes never stand for the same filter. */
  lemma OneNodePerFilter<K, V>(table: Table<K, V>, view: View<K, V>, g: Key, h: Key)
    requires Stands(table, view) && g in table.nodes && h in table.nodes
    ensures FilterOf(view, g) == FilterOf(view, h) <==> g == h
  {
    HandlePath(table.nodes, view.tree, view.denote, table.nextNodeId, g);
    HandlePath(table.nodes, view.tree, view.denote, table.nextNodeId, h);
  }

  /** A handle means the same filter for ever. */
  lemma HandleMeaning<K, V>(before: View<K, V>, after: View<K, V>, h: Key)
    requires Evolves(before, after) && h.parent in before.denote
    ensures FilterOf(after, h) == FilterOf(before, h)
  {
  }

  /** The key of a filter does not change while something is stored at or below it. */
  lemma StableKey<K, V>(table0: Table<K, V>, before: View<K, V>, table: Table<K, V>, after: View<K, V>, p: Path)
    requires Stands(table0, before) && Stands(table, after) && Evolves(before, after)
    requires p in before.tree && p in after.tree
    ensures KeyOf(after.tree, p) == KeyOf(before.tree, p)
  {
    if p != [] {
      assert Init(p) in before.tree && Init(p) in after.tree;
    }
  }

  datatype State<K, V> = State(table: Table<K, V>, view: View<K, V>)

  /** The states of a run, one operation apart. */
  ghost predicate Trace<K, V>(states: seq<State<K, V>>) {
    && (forall i | 0 <= i < |states| :: Stands(states[i].table, states[i].view))
    && (forall i | 0 < i < |states| :: Evolves(states[i - 1].view, states[i].view))
  }

  /** Whatever happens to its node, a handle denotes the same filter ever after. */
  lemma {:induction false} HandleDenotesOne<K, V>(states: seq<State<K, V>>, h: Key, i: nat, j: nat)
    requires Trace(states) && i <= j < |states| && h.parent in states[i].view.denote
    ensures h.parent in states[j].view.denote && FilterOf(states[j].view, h) == FilterOf(states[i].view, h)
    decreases j
  {
    hide Stands;
    if i < j {
      HandleDenotesOne(states, h, i, j - 1);
      HandleMeaning(states[j - 1].view, states[j].view, h);
    }
  }

  /** The node at path `q` has been there, one and the same, from state `i` through state `j`. */
  ghost predicate StaysFrom<K, V>(states: seq<State<K, V>>, q: Path, i: nat, j: nat)
    requires j < |states|
  {
    q == [] || forall k | i <= k <= j :: Count(states[k].view.store.Keys, q) > 0
  }

  ghost predicate NodeIs<K, V>(s: State<K, V>, q: Path, id: Id) {
    q in s.view.tree && s.view.tree[q].id == id
  }

  /** A node that is dropped comes back under another id. */
  lemma NodeNext<K, V>(before: State<K, V>, after: State<K, V>, q: Path, id: Id)
    requires Stands(before.table, before.view) && Stands(after.table, after.view) && Evolves(before.view, after.view)
    requires id in before.view.denote
    ensures NodeIs(after, q, id) <==> NodeIs(before, q, id) && (q == [] || Count(after.view.store.Keys, q) > 0)
    ensures id in after.view.denote
  {
  }

  lemma {:induction false} NodeStays<K, V>(states: seq<State<K, V>>, q: Path, id: Id, i: nat, j: nat)
    requires Trace(states) && i <= j < |states| && id in states[i].view.denote && NodeIs(states[i], q, id)
    ensures id in states[j].view.denote && (NodeIs(states[j], q, id) <==> StaysFrom(states, q, i, j))
    decreases j
  {
    hide NodeIs;
    hide Stands;
    hide Evolves;
    hide Count;
    if i == j {
      NodeCounts(states[i], q, id);
    } else {
      var k := j - 1;
      NodeStays(states, q, id, i, k);
      assert Evolves(states[k].view, states[j].view);
      NodeNext(states[k], states[j], q, id);
    }
  }

  lemma NodeCounts<K, V>(s: State<K, V>, q: Path, id: Id)
    requires Stands(s.table, s.view) && NodeIs(s, q, id)
    ensures q == [] || Count(s.view.store.Keys, q) > 0
  {
  }

  /** A handle resolves exactly where its parent's node is the one it was made for and something is stored below. */
  lemma ResolvesWhere<K, V>(s: State<K, V>, h: Key)
    requires Stands(s.table, s.view) && h.parent in s.view.denote && h != ROOT_KEY
    ensures var p := FilterOf(s.view, h);
            h in s.table.nodes <==> NodeIs(s, Init(p), h.parent) && Count(s.view.store.Keys, p) > 0
  {
    var p := FilterOf(s.view, h);
    assert p != [] && Last(p) == h.level && Init(p) == s.view.denote[h.parent];
    if h in s.table.nodes {
      HandlePath(s.table.nodes, s.view.tree, s.view.denote, s.table.nextNodeId, h);
    }
    if NodeIs(s, Init(p), h.parent) && Count(s.view.store.Keys, p) > 0 {
      PathHandle(s.table.nodes, s.view.tree, s.view.denote, s.table.nextNodeId, p);
    }
  }

  /** The handle resolves, to the filter. */
  ghost predicate Resolves<K, V>(s: State<K, V>, h: Key, f: Path) {
    h in s.table.nodes && h != ROOT_KEY && FilterOf(s.view, h) == f
  }

  /**
   * A handle that resolves at some point of a run resolves at a later one exactly when something is stored at or below
   * its filter then, and something has been stored at or below the parent level all along.
   */
  lemma HandleExact<K, V>(states: seq<State<K, V>>, h: Key, f: Path, i: nat, j: nat)
    requires Trace(states) && i <= j < |states| && Resolves(states[i], h, f)
    ensures FilterOf(states[j].view, h) == f
    ensures h in states[j].table.nodes
       <==> Count(states[j].view.store.Keys, f) > 0 && StaysFrom(states, Init(f), i, j)
  {
    HandleGiven(states[i], h);
    hide Stands;
    hide StaysFrom;
    hide NodeIs;
    HandleDenotesOne(states, h, i, j);
    ResolvesWhere(states[i], h);
    NodeStays(states, Init(f), h.parent, i, j);
    ResolvesWhere(states[j], h);
  }

  lemma HandleGiven<K, V>(s: State<K, V>, h: Key)
    requires Stands(s.table, s.view) && h in s.table.nodes && h != ROOT_KEY
    ensures h.parent in s.view.denote
  {
    assert KnownKey(s.view.tree, s.view.denote, h);
  }

  // ----- runs

  /**
   * Insertion and removal by filter, through a handle that is looked up, and through a handle that operation `origin`
   * got and that was kept since; and modification of what matches.
   */
  datatype Op<!K(!new), !V(!new)> =
    | Insert(filter: Filter, key: K, value: V)
    | Remove(filter: Filter, key: K)
    | InsertVia(filter: Filter, key: K, value: V)
    | RemoveVia(filter: Filter, key: K)
    | InsertAt(origin: nat, key: K, value: V)
    | RemoveAt(origin: nat, key: K)
    | Change(topic: seq<Level>, change: (K, V) -> V)

  /** What an operation does to the plain table, where `via` is the filter of its kept handle if that resolves. */
  ghost function Effect<K(!new), V(!new)>(store: map<Entry<K>, V>, op: Op<K, V>,
                                          via: Option<Filter>): map<Entry<K>, V> {
    match op
    case Insert(f, k, v) => store[Entry(f, k) := v]
    case Remove(f, k) => store - {Entry(f, k)}
    case InsertVia(f, k, v) => if Count(store.Keys, f) > 0 then store[Entry(f, k) := v] else store
    case RemoveVia(f, k) => store - {Entry(f, k)}
    case InsertAt(_, k, v) => if via.Some? then store[Entry(via.value, k) := v] else store
    case RemoveAt(_, k) => if via.Some? then store - {Entry(via.value, k)} else store
    case Change(topic, g) => EntryMatch.AppliedStore(g, store, topic)
  }

  /** The plain table after a history of operations on an empty map. */
  ghost function Outcome<K(!new), V(!new)>(ops: seq<Op<K, V>>): map<Entry<K>, V>
    decreases |ops|, 0
  {
    if ops == [] then map[] else Effect(Outcome(Init(ops)), Last(ops), Via(Init(ops), Last(ops)))
  }

  /** Operation `origin` of the history got a handle: an insertion does, and a look-up that finds something stored. */
  ghost predicate Got<K(!new), V(!new)>(ops: seq<Op<K, V>>, origin: nat): (got: bool)
    ensures got ==> origin < |ops| && (ops[origin].Insert? || ops[origin].InsertVia? || ops[origin].RemoveVia?)
    decreases |ops|, 1
  {
    origin < |ops| &&
    match ops[origin]
    case Insert(_, _, _) => true
    case InsertVia(f, _, _) => Count(Outcome(ops[..origin]).Keys, f) > 0
    case RemoveVia(f, _) => Count(Outcome(ops[..origin]).Keys, f) > 0
    case _ => false
  }

  /**
   * That handle resolves after the history: something is stored at or below its filter, and something has been stored
   * at or below the parent level ever since.
   */
  ghost predicate Live<K(!new), V(!new)>(ops: seq<Op<K, V>>, origin: nat): (live: bool)
    ensures live ==> Got(ops, origin)
    decreases |ops|, 2
  {
    && Got(ops, origin) && Count(Outcome(ops).Keys, ops[origin].filter) > 0
    && var parent := Init(ops[origin].filter);
       parent == [] || Occupied(ops, parent, origin)
  }

  /** Something has been stored at or below `p` ever since operation `origin`. */
  ghost predicate Occupied<K(!new), V(!new)>(ops: seq<Op<K, V>>, p: Path, origin: nat)
    decreases |ops|, 1
  {
    forall k | origin < k <= |ops| :: Count(Outcome(ops[..k]).Keys, p) > 0
  }

  ghost function Via<K(!new), V(!new)>(ops: seq<Op<K, V>>, op: Op<K, V>): Option<Filter>
    decreases |ops|, 3
  {
    if (op.InsertAt? || op.RemoveAt?) && Live(ops, op.origin) then Some(ops[op.origin].filter) else None
  }

  lemma OutcomeSnoc<K(!new), V(!new)>(ops: seq<Op<K, V>>, op: Op<K, V>)
    ensures Outcome(ops + [op]) == Effect(Outcome(ops), op, Via(ops, op))
  {
    assert Init(ops + [op]) == ops;
  }

  lemma NothingBelow<K, V>(store: map<Entry<K>, V>, f: Path, k: K)
    requires Count(store.Keys, f) == 0
    ensures store - {Entry(f, k)} == store
  {
    if Entry(f, k) in store {
      CountPositive(store.Keys, Entry(f, k), f);
    }
  }

  /** A handle that an operation got resolves: after an insertion, and before anything else. */
  ghost predicate GotIn<K(!new), V(!new)>(op: Op<K, V>, h: Key, before: State<K, V>, after: State<K, V>) {
    && (op.Insert? || op.InsertVia? || op.RemoveVia?)
    && Resolves(if op.Insert? then after else before, h, op.filter)
  }

  /** Whether an operation gets a handle from a map that stands for the given table. */
  ghost predicate Gets<K(!new), V(!new)>(store: map<Entry<K>, V>, op: Op<K, V>) {
    op.Insert? || ((op.InsertVia? || op.RemoveVia?) && Count(store.Keys, op.filter) > 0)
  }

  /** One operation on the map is its effect on the plain table, and gets a handle if it is due one. */
  method Perform<K(==, !new), V(!new)>(m: MultipleSubscriptionMap<K, V>, op: Op<K, V>, kept: Option<Key>,
                                       ghost via: Option<Filter>)
    returns (h: Option<Key>)
    requires m.Valid() && (kept.Some? ==> kept.value != ROOT_KEY)
    requires via.Some? <==> kept.Some? && kept.value in m.table.nodes
    requires via.Some? ==> FilterOf(m.view, kept.value) == via.value
    modifies m
    ensures m.Valid() && m.view.store == Effect(old(m.view.store), op, via) && Evolves(old(m.view), m.view)
    ensures h.Some? <==> Gets(old(m.view.store), op)
    ensures h.Some? ==> GotIn(op, h.value, State(old(m.table), old(m.view)), State(m.table, m.view))
  {
    hide Stands;
    hide Evolves;
    EvolvesSelf(m.view);
    h := None;
    match op {
      case Insert(f, k, v) =>
        var handle, _ := m.InsertOrAssign(f, k, v);
        h := Some(handle);
      case Remove(f, k) => var _ := m.Erase(f, k);
      case InsertVia(f, k, v) =>
        h := m.Lookup(f);
        if h.Some? {
          var _ := m.InsertOrAssignAt(h.value, k, v);
        }
      case RemoveVia(f, k) =>
        h := m.Lookup(f);
        if h.Some? {
          var _ := m.EraseAtHandle(h.value, k);
        } else {
          NothingBelow(m.view.store, f, k);
        }
      case InsertAt(_, k, v) =>
        if kept.Some? {
          var _ := m.InsertOrAssignAt(kept.value, k, v);
        }
      case RemoveAt(_, k) =>
        if kept.Some? {
          var _ := m.EraseAtHandle(kept.value, k);
        }
      case Change(topic, g) => m.Modify(topic, g);
    }
  }

  /** The states of a run from the empty map, one operation apart, and the handles that the operations got. */
  ghost predicate RunOf<K(!new), V(!new)>(states: seq<State<K, V>>, handles: seq<Option<Key>>, ops: seq<Op<K, V>>) {
    && |states| == |ops| + 1 && |handles| == |ops| && Trace(states)
    && (forall i | 0 <= i <= |ops| :: states[i].view.store == Outcome(ops[..i]))
    && (forall i | 0 <= i < |ops| :: handles[i].Some? <==> Got(ops, i))
    && (forall i | 0 <= i < |ops| && handles[i].Some? :: GotAt(states, handles, ops, i))
  }

  ghost predicate GotAt<K(!new), V(!new)>(states: seq<State<K, V>>, handles: seq<Option<Key>>, ops: seq<Op<K, V>>,
                                          i: nat)
    requires |states| == |ops| + 1 && |handles| == |ops| && i < |ops| && handles[i].Some?
  {
    GotIn(ops[i], handles[i].value, states[i], states[i + 1])
  }

  lemma StartRun<K(!new), V(!new)>(s: State<K, V>)
    requires Stands(s.table, s.view) && s.view.store == map[]
    ensures RunOf<K, V>([s], [], [])
  {
  }

  lemma TraceSnoc<K, V>(states: seq<State<K, V>>, s: State<K, V>)
    requires Trace(states) && states != [] && Stands(s.table, s.view) && Evolves(states[|states| - 1].view, s.view)
    ensures Trace(states + [s])
  {
    hide Stands;
    hide Evolves;
  }

  /** Whether operation `i` got a handle is settled by what comes before it. */
  lemma GotPrefix<K(!new), V(!new)>(ops: seq<Op<K, V>>, op: Op<K, V>, i: nat)
    requires i <= |ops|
    ensures i < |ops| ==> (Got(ops + [op], i) <==> Got(ops, i))
    ensures i == |ops| ==> (Got(ops + [op], i) <==> Gets(Outcome(ops), op))
  {
    hide Outcome;
    hide Count;
    assert (ops + [op])[..i] == ops[..i];
    assert ops[..|ops|] == ops;
  }

  lemma RunSnoc<K(!new), V(!new)>(states: seq<State<K, V>>, handles: seq<Option<Key>>, ops: seq<Op<K, V>>,
                                  s: State<K, V>, h: Option<Key>, op: Op<K, V>)
    requires RunOf(states, handles, ops) && Stands(s.table, s.view) && Evolves(states[|ops|].view, s.view)
    requires s.view.store == Effect(Outcome(ops), op, Via(ops, op))
    requires h.Some? <==> Gets(Outcome(ops), op)
    requires h.Some? ==> GotIn(op, h.value, states[|ops|], s)
    ensures RunOf(states + [s], handles + [h], ops + [op])
  {
    hide Stands;
    hide Evolves;
    hide GotIn;
    hide Gets;
    hide Got;
    hide Effect;
    hide Outcome;
    hide Via;
    var states', handles', ops' := states + [s], handles + [h], ops + [op];
    var n := |ops|;
    OutcomeSnoc(ops, op);
    TraceSnoc(states, s);
    hide Trace;
    forall i | 0 <= i <= n + 1 ensures states'[i].view.store == Outcome(ops'[..i]) {
      assert i <= n ==> ops'[..i] == ops[..i];
      assert i == n + 1 ==> ops'[..i] == ops';
    }
    forall i | 0 <= i <= n ensures handles'[i].Some? <==> Got(ops', i)
                           ensures handles'[i].Some? ==> GotAt(states', handles', ops', i) {
      GotPrefix(ops, op, i);
      if i < n && handles[i].Some? {
        assert GotAt(states, handles, ops, i);
      }
    }
  }

  /** A handle denotes its filter ever after, and resolves exactly while the history says so. */
  lemma LiveExact<K(!new), V(!new)>(states: seq<State<K, V>>, handles: seq<Option<Key>>, ops: seq<Op<K, V>>,
                                    origin: nat, j: nat)
    requires RunOf(states, handles, ops) && origin < j <= |ops| && Got(ops, origin)
    ensures handles[origin].Some? && handles[origin].value != ROOT_KEY
    ensures FilterOf(states[j].view, handles[origin].value) == ops[origin].filter
    ensures handles[origin].value in states[j].table.nodes <==> Live(ops[..j], origin)
  {
    hide Trace;
    hide Outcome;
    hide Count;
    hide StaysFrom;
    var h, f := handles[origin].value, ops[origin].filter;
    assert GotAt(states, handles, ops, origin);
    var i := if ops[origin].Insert? then origin + 1 else origin;
    HandleExact(states, h, f, i, j);
    GotEarlier(ops, origin, j);
    assert ops[..j][..j] == ops[..j];
    StaysHistory(states, handles, ops, origin, i, j);
  }

  lemma GotEarlier<K(!new), V(!new)>(ops: seq<Op<K, V>>, origin: nat, j: nat)
    requires origin < j <= |ops|
    ensures Got(ops[..j], origin) <==> Got(ops, origin)
  {
    hide Outcome;
    hide Count;
    assert ops[..j][..origin] == ops[..origin];
  }

  /** The parent level is occupied all along in the states just when it is in the history. */
  lemma StaysHistory<K(!new), V(!new)>(states: seq<State<K, V>>, handles: seq<Option<Key>>, ops: seq<Op<K, V>>,
                                       origin: nat, i: nat, j: nat)
    requires RunOf(states, handles, ops) && origin < j <= |ops| && Got(ops, origin)
    requires i == if ops[origin].Insert? then origin + 1 else origin
    ensures var parent := Init(ops[origin].filter);
            StaysFrom(states, parent, i, j) <==> parent == [] || Occupied(ops[..j], parent, origin)
  {
    hide Trace;
    hide Outcome;
    hide Count;
    var parent := Init(ops[origin].filter);
    forall k | 0 <= k <= j ensures ops[..j][..k] == ops[..k] && states[k].view.store == Outcome(ops[..k]) {
    }
    if i == origin {
      CountUp(Outcome(ops[..origin]).Keys, ops[origin].filter);
    }
  }

  /** What is stored at or below a path is stored at or below its parent. */
  lemma CountUp<K>(entries: set<Entry<K>>, p: Path)
    requires Count(entries, p) > 0
    ensures Count(entries, Init(p)) > 0
  {
    var e :| e in Below(entries, p);
    CountPositive(entries, e, Init(p));
  }

  /** Any run of operations on a map that starts empty, what `find` then reports, and what its handles stand for. */
  method Run<K(==, !new), V(!new)>(ops: seq<Op<K, V>>, topic: seq<Level>)
    returns (calls: seq<(K, V)>, ghost from: seq<Entry<K>>, ghost states: seq<State<K, V>>, handles: seq<Option<Key>>)
    ensures EntryMatch.Reported(calls, from, Outcome(ops)) && EntryMatch.Called(from, Outcome(ops), topic)
    ensures forall e :: e in from <==> e in Outcome(ops) && Matches(e.filter, topic)
    ensures Single(topic) ==> Distinct(from)
    ensures EntryMatch.CallsMatching(calls, Outcome(ops), topic)
    ensures RunOf(states, handles, ops)
    ensures forall i, j | 0 <= i < j <= |ops| && Got(ops, i) ::
              && FilterOf(states[j].view, handles[i].value) == ops[i].filter
              && (handles[i].value in states[j].table.nodes <==> Live(ops[..j], i))
  {
    hide EntryMatch.CallsMatching;
    hide EntryMatch.Called;
    hide Stands;
    hide Evolves;
    hide Effect;
    hide Outcome;
    hide RunOf;
    hide Got;
    hide GotIn;
    hide Live;
    var m := new MultipleSubscriptionMap<K, V>();
    states, handles := [State(m.table, m.view)], [];
    StartRun(State(m.table, m.view));
    assert ops[..0] == [];
    for i := 0 to |ops|
      invariant m.Valid() && |states| == i + 1 && states[i] == State(m.table, m.view)
      invariant RunOf(states, handles, ops[..i]) && |handles| == i
    {
      TakeSnoc(ops, i);
      var op, done := ops[i], ops[..i];
      RunLengths(states, handles, done);
      var kept := if (op.InsertAt? || op.RemoveAt?) && op.origin < i then handles[op.origin] else None;
      KeptResolves(states, handles, done, op, kept);
      var h := Perform(m, op, kept, Via(done, op));
      RunSnoc(states, handles, done, State(m.table, m.view), h, op);
      states, handles := states + [State(m.table, m.view)], handles + [h];
    }
    assert ops[..|ops|] == ops;
    RunLengths(states, handles, ops);
    forall i, j | 0 <= i < j <= |ops| && Got(ops, i)
      ensures FilterOf(states[j].view, handles[i].value) == ops[i].filter
      ensures handles[i].value in states[j].table.nodes <==> Live(ops[..j], i)
    {
      LiveExact(states, handles, ops, i, j);
    }
    calls, from := m.Find(topic);
  }

  lemma RunLengths<K(!new), V(!new)>(states: seq<State<K, V>>, handles: seq<Option<Key>>, ops: seq<Op<K, V>>)
    requires RunOf(states, handles, ops)
    ensures |states| == |ops| + 1 && |handles| == |ops| && states[|ops|].view.store == Outcome(ops)
    ensures forall i | 0 <= i < |ops| :: handles[i].Some? <==> Got(ops, i)
  {
    assert ops[..|ops|] == ops;
  }

  /** The kept handle of the next operation, if it has one, resolves exactly when the history says so. */
  lemma KeptResolves<K(!new), V(!new)>(states: seq<State<K, V>>, handles: seq<Option<Key>>, ops: seq<Op<K, V>>,
                                       op: Op<K, V>, kept: Option<Key>)
    requires RunOf(states, handles, ops)
    requires kept == if (op.InsertAt? || op.RemoveAt?) && op.origin < |ops| then handles[op.origin] else None
    ensures kept.Some? ==> kept.value != ROOT_KEY
    ensures Via(ops, op).Some? <==> kept.Some? && kept.value in states[|ops|].table.nodes
    ensures Via(ops, op).Some? ==> FilterOf(states[|ops|].view, kept.value) == Via(ops, op).value
  {
    hide RunOf;
    hide Outcome;
    hide Got;
    hide Live;
    hide FilterOf;
    RunLengths(states, handles, ops);
    assert ops[..|ops|] == ops;
    if kept.Some? {
      LiveExact(states, handles, ops, op.origin, |ops|);
    }
  }

  // ----- two runs

  lemma OneInsert(f: Filter)
    ensures Outcome([Insert(f, 0, 0)]) == map[Entry(f, 0) := 0]
  {
    var none: seq<Op<int, int>> := [];
    OutcomeSnoc<int, int>(none, Insert(f, 0, 0));
    assert none + [Insert(f, 0, 0)] == [Insert(f, 0, 0)];
  }

  lemma {:induction false} OnlyOne<T>(s: seq<T>, x: T)
    requires forall i | 0 <= i < |s| :: s[i] == x
    ensures |s| == multiset(s)[x]
    decreases |s|
  {
    if s != [] {
      var init := s[..|s| - 1];
      assert s == init + [x];
      OnlyOne(init, x);
    }
  }

  /** What a search of a map with one entry reports. */
  lemma OneReported(calls: seq<(int, int)>, from: seq<Entry<int>>, f: Filter, topic: seq<Level>)
    requires EntryMatch.Reported(calls, from, map[Entry(f, 0) := 0])
    requires EntryMatch.Called(from, map[Entry(f, 0) := 0], topic)
    ensures |calls| == Times(f, topic) && forall i | 0 <= i < |calls| :: calls[i] == (0, 0)
  {
    hide Times;
    var e := Entry(f, 0);
    forall i | 0 <= i < |from| ensures from[i] == e {
    }
    OnlyOne(from, e);
    assert multiset(from)[e] == Times(f, topic);
  }

  /** "+" stored, and "+" published: the one entry is reported twice. */
  method PlusMetTwice() returns (calls: seq<(int, int)>)
    ensures calls == [(0, 0), (0, 0)]
  {
    hide EntryMatch.Reported;
    hide EntryMatch.Called;
    hide Outcome;
    hide RunOf;
    var f: Filter := [Plus];
    OneInsert(f);
    assert Times(f, f) == 2 by {
      assert Init(f) == [] && Ways([], f) == 1 && Weight(Plus, f, 0) == 2;
    }
    ghost var from, states;
    var handles;
    calls, from, states, handles := Run([Insert(f, 0, 0)], f);
    OneReported(calls, from, f, f);
  }

  /** "a/#" stored, and "a" published: nothing is reported. */
  method ParentNotMet() returns (calls: seq<(int, int)>)
    ensures calls == []
  {
    hide EntryMatch.Reported;
    hide EntryMatch.Called;
    hide Outcome;
    hide RunOf;
    var f: Filter := [Name("a"), Hash];
    OneInsert(f);
    TimesMatches(f, [Name("a")]);
    ghost var from, states;
    var handles;
    calls, from, states, handles := Run([Insert(f, 0, 0)], [Name("a")]);
    OneReported(calls, from, f, [Name("a")]);
  }

  /** "a/b" is stored, erased and stored again: the handle of the first time is invalid, because "a" was dropped. */
  method StaleHandle() returns (stored: bool, again: Option<bool>)
    ensures stored && again.None?
  {
    hide Stands;
    hide Evolves;
    hide NodeIs;
    var f: Filter := [Name("a"), Name("b")];
    var m := new MultipleSubscriptionMap<int, int>();
    var h, inserted := m.InsertOrAssign(f, 0, 0);
    HandleGiven(State(m.table, m.view), h);
    ghost var s1 := State(m.table, m.view);
    var _ := m.Erase(f, 0);
    ghost var s2 := State(m.table, m.view);
    assert m.view.store == map[];
    assert s2.view.store.Keys == {};
    EmptyCount<int>(Init(f));
    NodeNext(s1, s2, Init(f), h.parent);
    var g;
    g, stored := m.InsertOrAssign(f, 0, 1);
    ghost var s3 := State(m.table, m.view);
    NodeNext(s2, s3, Init(f), h.parent);
    HandleMeaning(s1.view, s2.view, h);
    HandleMeaning(s2.view, s3.view, h);
    ResolvesWhere(s3, h);
    again := m.InsertOrAssignAt(h, 1, 1);
  }
}
