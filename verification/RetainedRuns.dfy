/**
 * What a search over the retained topics reports, told from the history of calls alone: the stored topics, and the
 * order in which the paths that lead to them came to be.
 */
module RetainedRuns {
  import opened Wrappers
  import opened TopicFilter
  import opened TrieModel
  import opened TreeCounts
  import opened TrieMatch
  import opened RetainedModel
  import opened RetainedTable
  import opened RetainedMatch
  import opened RetainedOrder
  import opened RetainedTopicMap
  import opened FilterAlgebra
  import EntryMatch

  datatype Op<V> = Put(topic: Filter, value: V) | Drop(topic: Filter)

  /**
   * The stored topics, what failed insertions have left behind, and the paths at or above either in the order of their
   * creation.
   */
  datatype Memory<V> = Memory(store: map<Path, V>, leaks: seq<Path>, order: seq<Path>)

  /** What keeps paths alive. */
  ghost function Sources<V>(store: map<Path, V>, leaks: seq<Path>): set<Path> {
    store.Keys + set i | 0 <= i < |leaks| :: leaks[i]
  }

  ghost predicate Live(sources: set<Path>, p: Path) {
    exists t :: t in sources && p <= t
  }

  /** The prefixes of a path up to length `n` that do not exist yet. */
  ghost function NewPrefixes(sources: set<Path>, t: Path, n: nat): seq<Path>
    requires n <= |t|
  {
    if n == 0 then [] else NewPrefixes(sources, t, n - 1) + if Live(sources, t[..n]) then [] else [t[..n]]
  }

  ghost function StillLive(sources: set<Path>, order: seq<Path>): seq<Path> {
    if order == [] then [] else StillLive(sources, Init(order)) + if Live(sources, Last(order)) then [Last(order)]
        else []
  }

  /** As far as an insertion gets: the whole topic, or the levels before the first wildcard. */
  function Gets(t: Filter): Path {
    t[..FirstWild(t)]
  }

  ghost function After<V>(mem: Memory<V>, op: Op<V>): Memory<V> {
    match op
    case Put(t, v) =>
      var store := if IsTopic(t) then mem.store[t := v] else mem.store;
      var order := mem.order + NewPrefixes(Sources(mem.store, mem.leaks), Gets(t), |Gets(t)|);
      Memory(store, mem.leaks + LeftBehind(t), order)
    case Drop(t) =>
      Memory(mem.store - {t}, mem.leaks, StillLive(Sources(mem.store - {t}, mem.leaks), mem.order))
  }

  ghost function History<V>(ops: seq<Op<V>>): Memory<V> {
    if ops == [] then Memory(map[], [], []) else After(History(Init(ops)), Last(ops))
  }

  // ----- ranks instead of ids

  ghost function Rank(order: seq<Path>, p: Path): nat
    ensures p in order ==> 1 <= Rank(order, p) <= |order| && order[Rank(order, p) - 1] == p
    ensures p !in order ==> Rank(order, p) == 0
  {
    if order == [] then 0 else if Last(order) == p then |order| else Rank(Init(order), p)
  }

  /** The tree of the live paths, each with its place in the order for an id. */
  ghost function Ranked(order: seq<Path>): Tree<()> {
    map p | p in [[]] + order :: Cell(Rank(order, p), 0, None)
  }

  /** The tree holds the paths of the list, and their ids grow along it. */
  ghost predicate Mirrors<V>(tree: Tree<V>, order: seq<Path>) {
    Ascending(tree, order) && forall p :: p in order <==> p in tree && p != []
  }

  /** The same paths, and the same ones older than others. */
  ghost predicate SameAges<V, W>(t: Tree<V>, u: Tree<W>) {
    && (forall p :: p in t <==> p in u)
    && (forall p, q | p in t && q in t && p != [] && q != [] :: t[p].id < t[q].id <==> u[p].id < u[q].id)
  }

  lemma RankedAges<V>(tree: Tree<V>, order: seq<Path>)
    requires [] in tree && Mirrors(tree, order)
    ensures SameAges(tree, Ranked(order))
  {
    forall p, q | p in tree && q in tree && p != [] && q != []
      ensures tree[p].id < tree[q].id <==> Rank(order, p) < Rank(order, q)
    {
      var i, j := Rank(order, p) - 1, Rank(order, q) - 1;
      assert p in order && q in order;
      assert order[i] == p && order[j] == q;
    }
  }

  lemma SameEarlier<V, W>(t: Tree<V>, u: Tree<W>, p: Path, q: Path)
    requires SameAges(t, u) && Earlier(t, p, q)
    ensures Earlier(u, p, q)
  {
    var n: nat :| PartsAt(t, p, q, n);
    assert PartsAt(u, p, q, n);
  }

  lemma SameFront<V, W>(t: Tree<V>, u: Tree<W>, f: Filter, n: nat, p: Path)
    requires SameAges(t, u) && n <= |f| && OnFront(t, f, n, p)
    ensures OnFront(u, f, n, p)
  {
  }

  lemma SamePastFirst<V, W>(t: Tree<V>, u: Tree<W>, f: Filter, q: Path)
    requires SameAges(t, u) && |q| < |f| && Overtaken(t, f, q)
    ensures Overtaken(u, f, q)
  {
    var p :| OnFront(t, f, |q|, p) && Earlier(t, p, q);
    SameFront(t, u, f, |q|, p);
    SameEarlier(t, u, p, q);
  }

  lemma Flipped<V, W>(t: Tree<V>, u: Tree<W>)
    requires SameAges(t, u)
    ensures SameAges(u, t)
  {
  }

  /** A search depends on the ids only through their order. */
  lemma SameFound<V, W>(t: Tree<V>, u: Tree<W>, f: Filter, q: Path)
    requires SameAges(t, u)
    ensures Found(t, f, q) <==> Found(u, f, q)
  {
    Flipped(t, u);
    if EndsWithHash(f) && |q| >= |f| {
      var r := q[..|f| - 1];
      if Overtaken(t, f, r) {
        SamePastFirst(t, u, f, r);
      }
      if Overtaken(u, f, r) {
        SamePastFirst(u, t, f, r);
      }
    }
    assert PastSystem(t, f, q) <==> PastSystem(u, f, q);
  }

  // ----- the order is kept

  lemma LiveInTree<V>(tree: Tree<V>, store: map<Path, V>, leaks: seq<Path>, p: Path)
    requires Keeps(tree, store, leaks)
    ensures p in tree <==> p == [] || Live(Sources(store, leaks), p)
  {
    if p != [] && p in tree {
      var e :| e in Below(Items(store, leaks), p);
      assert e.filter in Sources(store, leaks) && p <= e.filter;
    }
    if t :| t in Sources(store, leaks) && p <= t {
      if t in store {
        CountPositive(Items(store, leaks), Entry(t, 0), p);
      } else {
        var i :| 0 <= i < |leaks| && leaks[i] == t;
        CountPositive(Items(store, leaks), Entry(leaks[i], i + 1), p);
      }
    }
  }

  lemma {:induction false} IdsAlong<V>(tree: Tree<V>, denote: map<Id, Path>, next: Id, t: Path, i: nat, j: nat)
    requires WellShaped(tree, denote, next) && t in tree && i < j <= |t|
    ensures t[..i] in tree && t[..j] in tree && tree[t[..i]].id < tree[t[..j]].id
    decreases j
  {
    PrefixIn(tree, denote, next, t, i);
    PrefixIn(tree, denote, next, t, j);
    assert Init(t[..j]) == t[..j - 1];
    if i < j - 1 {
      IdsAlong(tree, denote, next, t, i, j - 1);
    }
  }

  lemma {:induction false} NewPrefixesAre(sources: set<Path>, t: Path, n: nat, p: Path)
    requires n <= |t|
    ensures p in NewPrefixes(sources, t, n) <==> p <= t && 0 < |p| <= n && !Live(sources, p)
  {
    hide Live;
    if n > 0 {
      NewPrefixesAre(sources, t, n - 1, p);
      assert p <= t && |p| == n ==> p == t[..n];
    }
  }

  ghost predicate Growing(ps: seq<Path>) {
    forall i, j | 0 <= i < j < |ps| :: |ps[i]| < |ps[j]|
  }

  /** New prefixes come in order of length. */
  lemma {:induction false} NewPrefixesGrow(sources: set<Path>, t: Path, n: nat)
    requires n <= |t|
    ensures Growing(NewPrefixes(sources, t, n))
  {
    hide Live;
    if n > 0 {
      NewPrefixesGrow(sources, t, n - 1);
      var ps := NewPrefixes(sources, t, n - 1);
      forall i | 0 <= i < |ps| ensures |ps[i]| < n {
        NewPrefixesAre(sources, t, n - 1, ps[i]);
      }
      assert Growing(ps + [t[..n]]);
    }
  }

  /** Ids grow along a list of paths. */
  ghost predicate Ascending<V>(tree: Tree<V>, ps: seq<Path>) {
    && (forall p | p in ps :: p in tree)
    && (forall i, j | 0 <= i < j < |ps| :: ps[i] in tree && ps[j] in tree && tree[ps[i]].id < tree[ps[j]].id)
  }

  /** The prefixes of a topic, by length. */
  lemma PrefixesAscend<V>(tree: Tree<V>, denote: map<Id, Path>, next: Id, t: Path, ps: seq<Path>)
    requires WellShaped(tree, denote, next) && t in tree && Growing(ps) && forall p | p in ps :: p <= t
    ensures Ascending(tree, ps)
  {
    hide WellShaped;
    forall p | p in ps ensures p in tree && p == t[..|p|] {
      PrefixOfLength(p, t);
      PrefixIn(tree, denote, next, t, |p|);
    }
    forall i, j | 0 <= i < j < |ps| ensures ps[i] in tree && ps[j] in tree && tree[ps[i]].id < tree[ps[j]].id {
      assert ps[i] in ps && ps[j] in ps;
      IdsAlong(tree, denote, next, t, |ps[i]|, |ps[j]|);
    }
  }

  /** Paths that were there come before paths that are new. */
  lemma AscendingJoin<V>(t0: Tree<V>, tree: Tree<V>, a: seq<Path>, b: seq<Path>)
    requires Aged(t0, tree) && Ascending(t0, a) && Ascending(tree, b)
    requires (forall p | p in a :: p in tree) && (forall p | p in b :: p !in t0)
    ensures Ascending(tree, a + b)
  {
    var ab := a + b;
    forall i, j | 0 <= i < j < |ab| ensures ab[i] in tree && ab[j] in tree && tree[ab[i]].id < tree[ab[j]].id {
      assert ab[i] in ab && ab[j] in ab;
      assert i < |a| ==> ab[i] in a;
      assert j >= |a| ==> ab[j] in b;
      assert j < |a| ==> a[i] == ab[i] && a[j] == ab[j] && ab[j] in a;
      assert i >= |a| ==> b[i - |a|] == ab[i] && b[j - |a|] == ab[j];
    }
  }

  /** What there is after an insertion of `t`, by its topics and left-overs. */
  ghost predicate Inserted<V>(mem: Memory<V>, t: Filter, store: map<Path, V>, leaks: seq<Path>) {
    leaks == mem.leaks + LeftBehind(t) && store.Keys == mem.store.Keys + if IsTopic(t) then {t} else {}
  }

  lemma InsertedSources<V>(mem: Memory<V>, t: Filter, store: map<Path, V>, leaks: seq<Path>)
    requires Inserted(mem, t, store, leaks)
    ensures Sources(store, leaks) == Sources(mem.store, mem.leaks) + if Gets(t) == [] then {} else {Gets(t)}
  {
    LeftBehindIs(t);
    if IsTopic(t) {
      assert Gets(t) == t && mem.leaks + [] == mem.leaks;
    } else if IsWild(t[0]) {
      assert mem.leaks + [] == mem.leaks;
    } else {
      var all := mem.leaks + [Gets(t)];
      assert leaks == all && all[|mem.leaks|] == Gets(t);
      forall p | p in Sources(store, leaks) ensures p in Sources(mem.store, mem.leaks) || p == Gets(t) {
        if i :| 0 <= i < |all| && p == all[i] {
          assert i < |mem.leaks| ==> all[i] == mem.leaks[i];
        }
      }
      forall p | p in Sources(mem.store, mem.leaks) ensures p in Sources(store, leaks) {
        if i :| 0 <= i < |mem.leaks| && p == mem.leaks[i] {
          assert all[i] == mem.leaks[i];
        }
      }
      assert Gets(t) in Sources(store, leaks);
    }
  }

  lemma PutMirrors<V>(t0: Tree<V>, mem: Memory<V>, tree: Tree<V>, denote: map<Id, Path>, next: Id, t: Filter,
                      store: map<Path, V>, leaks: seq<Path>)
    requires Keeps(t0, mem.store, mem.leaks) && Mirrors(t0, mem.order) && Inserted(mem, t, store, leaks)
    requires WellShaped(tree, denote, next) && Keeps(tree, store, leaks) && Aged(t0, tree)
    ensures Mirrors(tree, mem.order + NewPrefixes(Sources(mem.store, mem.leaks), Gets(t), |Gets(t)|))
  {
    hide WellShaped;
    hide Aged;
    hide Keeps;
    hide Live;
    hide Inserted;
    var q := Gets(t);
    var ps := NewPrefixes(Sources(mem.store, mem.leaks), q, |q|);
    forall p ensures p in ps <==> p in tree && p !in t0
             ensures p in ps ==> p <= q
             ensures p in t0 ==> p in tree {
      PutPath(t0, mem, tree, t, store, leaks, p);
    }
    NewPrefixesGrow(Sources(mem.store, mem.leaks), q, |q|);
    PutPath(t0, mem, tree, t, store, leaks, q);
    PrefixesAscend(tree, denote, next, q, ps);
    AscendingJoin(t0, tree, mem.order, ps);
  }

  /** Which paths an insertion adds. */
  lemma PutPath<V>(t0: Tree<V>, mem: Memory<V>, tree: Tree<V>, t: Filter, store: map<Path, V>, leaks: seq<Path>,
                   p: Path)
    requires Keeps(t0, mem.store, mem.leaks) && Keeps(tree, store, leaks) && Inserted(mem, t, store, leaks)
    ensures p in NewPrefixes(Sources(mem.store, mem.leaks), Gets(t), |Gets(t)|) <==> p in tree && p !in t0
    ensures p in NewPrefixes(Sources(mem.store, mem.leaks), Gets(t), |Gets(t)|) ==> p <= Gets(t)
    ensures (p in t0 ==> p in tree) && Gets(t) in tree && [] in t0
  {
    hide Keeps;
    hide Live;
    hide Inserted;
    var q := Gets(t);
    var before, after := Sources(mem.store, mem.leaks), Sources(store, leaks);
    InsertedSources(mem, t, store, leaks);
    NewPrefixesAre(before, q, |q|, p);
    PutLive(before, q, p);
    PutLive(before, q, q);
    LiveInTree(t0, mem.store, mem.leaks, p);
    LiveInTree(t0, mem.store, mem.leaks, []);
    LiveInTree(tree, store, leaks, p);
    LiveInTree(tree, store, leaks, q);
    if q == [] {
      assert after == before;
    } else {
      assert after == before + {q};
    }
  }

  lemma PutLive(sources: set<Path>, q: Path, p: Path)
    ensures Live(sources + {q}, p) <==> Live(sources, p) || p <= q
  {
    if t :| t in sources && p <= t {
      assert t in sources + {q};
    }
    assert q in sources + {q};
  }

  lemma {:induction false} StillLiveAre(sources: set<Path>, order: seq<Path>, p: Path)
    ensures p in StillLive(sources, order) <==> p in order && Live(sources, p)
    decreases |order|
  {
    hide Live;
    if order != [] {
      StillLiveAre(sources, Init(order), p);
      assert order == Init(order) + [Last(order)];
    }
  }

  lemma AscendingLast<V>(tree: Tree<V>, order: seq<Path>, p: Path)
    requires Ascending(tree, order) && order != [] && p in Init(order)
    ensures Ascending(tree, Init(order)) && p in tree && Last(order) in tree && tree[p].id < tree[Last(order)].id
  {
    var init := Init(order);
    AscendingInit(tree, order);
    var k :| 0 <= k < |init| && init[k] == p;
    assert order[k] == p && order[|order| - 1] == Last(order);
  }

  lemma AscendingInit<V>(tree: Tree<V>, order: seq<Path>)
    requires Ascending(tree, order) && order != []
    ensures Ascending(tree, Init(order)) && Last(order) in tree
  {
    assert order == Init(order) + [Last(order)];
    assert Last(order) in order;
  }

  lemma AscendingSnoc<V>(tree: Tree<V>, left: seq<Path>, last: Path)
    requires Ascending(tree, left) && last in tree && forall p | p in left :: p in tree && tree[p].id < tree[last].id
    ensures Ascending(tree, left + [last])
  {
  }

  lemma {:induction false} StillLiveAscend<V>(tree: Tree<V>, sources: set<Path>, order: seq<Path>)
    requires Ascending(tree, order)
    ensures Ascending(tree, StillLive(sources, order))
    decreases |order|
  {
    hide Live;
    hide Ascending;
    if order == [] {
      assert StillLive(sources, order) == order;
    } else {
      AscendingInit(tree, order);
      StillLiveAscend(tree, sources, Init(order));
      var left := StillLive(sources, Init(order));
      forall p | p in left ensures p in tree && tree[p].id < tree[Last(order)].id {
        StillLiveAre(sources, Init(order), p);
        AscendingLast(tree, order, p);
      }
      AscendingSnoc(tree, left, Last(order));
      assert left + [] == left;
    }
  }

  lemma AscendingAged<V>(t0: Tree<V>, tree: Tree<V>, order: seq<Path>)
    requires Aged(t0, tree) && Ascending(t0, order) && forall p | p in order :: p in tree
    ensures Ascending(tree, order)
  {
    forall i, j | 0 <= i < j < |order| ensures order[i] in tree && order[j] in tree
        && tree[order[i]].id < tree[order[j]].id {
      assert order[i] in order && order[j] in order;
    }
  }

  lemma DropMirrors<V>(t0: Tree<V>, mem: Memory<V>, tree: Tree<V>, t: Filter)
    requires Keeps(t0, mem.store, mem.leaks) && Mirrors(t0, mem.order) && Keeps(tree, mem.store - {t}, mem.leaks)
             && Aged(t0, tree)
    ensures Mirrors(tree, After(mem, Drop(t)).order)
  {
    hide Keeps;
    hide Aged;
    hide Ascending;
    hide StillLive;
    hide Sources;
    var left := Sources(mem.store - {t}, mem.leaks);
    StillLiveAscend(t0, left, mem.order);
    forall p ensures p in StillLive(left, mem.order) <==> p in tree && p != [] {
      DropPath(t0, mem, tree, t, p);
      StillLiveAre(left, mem.order, p);
    }
    AscendingAged(t0, tree, StillLive(left, mem.order));
  }

  /** Which paths a removal leaves. */
  lemma DropPath<V>(t0: Tree<V>, mem: Memory<V>, tree: Tree<V>, t: Filter, p: Path)
    requires Keeps(t0, mem.store, mem.leaks) && Keeps(tree, mem.store - {t}, mem.leaks)
    ensures p in tree <==> p == [] || (p in t0 && Live(Sources(mem.store - {t}, mem.leaks), p))
  {
    hide Keeps;
    LiveInTree(t0, mem.store, mem.leaks, p);
    LiveInTree(tree, mem.store - {t}, mem.leaks, p);
    if q :| q in Sources(mem.store - {t}, mem.leaks) && p <= q {
      assert q in Sources(mem.store, mem.leaks);
    }
  }

  // ----- runs

  /** The stored topics that a search finds, by history. */
  ghost function Reached<V>(mem: Memory<V>, f: Filter): set<Path> {
    set t | t in mem.store && Found(Ranked(mem.order), UpToHash(f), t)
  }

  lemma HistorySnoc<V>(ops: seq<Op<V>>, op: Op<V>)
    ensures History(ops + [op]) == After(History(ops), op)
  {
    assert Init(ops + [op]) == ops;
  }

  /** Any run of insertions and removals on a map that starts empty, and what a search then reports. */
  method Run<V(!new)>(ops: seq<Op<V>>, f: Filter) returns (calls: seq<V>, ghost from: seq<Path>)
    ensures |calls| == |Reached(History(ops), f)| && |from| == |calls| && Distinct(from)
    ensures forall i | 0 <= i < |from| :: from[i] in Reached(History(ops), f) && calls[i] == History(ops).store[from[i]]
    ensures forall t | t in Reached(History(ops), f) :: History(ops).store[t] in calls
  {
    hide Aged;
    hide Mirrors;
    hide After;
    hide Found;
    hide Stands;
    var m := new RetainedTopicMap<V>();
    StartMirrors(m.table, m.view);
    assert ops[..0] == [];
    for i := 0 to |ops|
      invariant m.Valid() && m.view.store == History(ops[..i]).store && m.view.leaks == History(ops[..i]).leaks
      invariant Mirrors(m.view.tree, History(ops[..i]).order)
    {
      TakeSnoc(ops, i);
      HistorySnoc(ops[..i], ops[i]);
      Perform(m, ops[i], History(ops[..i]));
    }
    assert ops[..|ops|] == ops;
    ghost var mem := History(ops);
    calls, from := m.Find(f);
    RootThere(m.table, m.view);
    RankedAges(m.view.tree, mem.order);
    forall t ensures Found(m.view.tree, UpToHash(f), t) <==> Found(Ranked(mem.order), UpToHash(f), t) {
      SameFound(m.view.tree, Ranked(mem.order), UpToHash(f), t);
    }
    assert FoundIn(m.view, UpToHash(f)) == Reached(mem, f);
    forall i | 0 <= i < |from| ensures from[i] in Reached(mem, f) {
      assert from[i] in from;
    }
  }

  lemma RootThere<V>(table: Table<V>, view: View<V>)
    requires Stands(table, view)
    ensures [] in view.tree
  {
  }

  lemma PutStep<V>(table0: Table<V>, view0: View<V>, mem: Memory<V>, table: Table<V>, view: View<V>, t: Filter, v: V)
    requires Stands(table0, view0) && Stands(table, view) && Aged(view0.tree, view.tree)
    requires view0.store == mem.store && view0.leaks == mem.leaks && Mirrors(view0.tree, mem.order)
    requires view.store == (if IsTopic(t) then mem.store[t := v] else mem.store)
             && view.leaks == mem.leaks + LeftBehind(t)
    ensures After(mem, Put(t, v)).store == view.store && After(mem, Put(t, v)).leaks == view.leaks
    ensures Mirrors(view.tree, After(mem, Put(t, v)).order)
  {
    hide Aged;
    hide Mirrors;
    hide NewPrefixes;
    hide Keeps;
    assert Inserted(mem, t, view.store, view.leaks);
    PutMirrors(view0.tree, mem, view.tree, view.denote, table.nextNodeId, t, view.store, view.leaks);
  }

  lemma DropStep<V>(table0: Table<V>, view0: View<V>, mem: Memory<V>, table: Table<V>, view: View<V>, t: Filter)
    requires Stands(table0, view0) && Stands(table, view) && Aged(view0.tree, view.tree)
    requires view0.store == mem.store && view0.leaks == mem.leaks && Mirrors(view0.tree, mem.order)
    requires view.store == mem.store - {t} && view.leaks == mem.leaks
    ensures After(mem, Drop(t)).store == view.store && After(mem, Drop(t)).leaks == view.leaks
    ensures Mirrors(view.tree, After(mem, Drop(t)).order)
  {
    hide Aged;
    hide Mirrors;
    hide StillLive;
    hide Keeps;
    DropMirrors(view0.tree, mem, view.tree, t);
  }

  /** One operation on the map. */
  method Perform<V(!new)>(m: RetainedTopicMap<V>, op: Op<V>, ghost mem: Memory<V>)
    requires m.Valid() && m.view.store == mem.store && m.view.leaks == mem.leaks && Mirrors(m.view.tree, mem.order)
    modifies m
    ensures m.Valid() && m.view.store == After(mem, op).store && m.view.leaks == After(mem, op).leaks
    ensures Mirrors(m.view.tree, After(mem, op).order)
  {
    hide Aged;
    hide Mirrors;
    hide Stands;
    hide After;
    ghost var table0, view0 := m.table, m.view;
    match op {
      case Put(t, v) =>
        var added := m.InsertOrAssign(t, v);
        PutStep(table0, view0, mem, m.table, m.view, t, v);
      case Drop(t) =>
        var _ := m.Erase(t);
        DropStep(table0, view0, mem, m.table, m.view, t);
    }
  }

  lemma StartMirrors<V>(table: Table<V>, view: View<V>)
    requires Stands(table, view) && view.store == map[] && view.leaks == []
    ensures Mirrors(view.tree, History<V>([]).order) && History<V>([]) == Memory(map[], [], [])
  {
    forall p ensures p in view.tree <==> p == [] {
      LiveInTree(view.tree, view.store, view.leaks, p);
    }
  }

  // ----- two runs that miss a match

  lemma NothingLive(sources: set<Path>, t: Path)
    requires forall q | q in sources :: |q| > 0 && |t| > 0 && q[0] != t[0]
    ensures forall n | 0 < n <= |t| :: !Live(sources, t[..n])
  {
    forall n | 0 < n <= |t| ensures !Live(sources, t[..n]) {
      forall q | q in sources ensures !(t[..n] <= q) {
        assert t[..n][0] == t[0];
      }
    }
  }

  lemma NoHistory<V>()
    ensures History<V>([]) == Memory(map[], [], [])
  {
  }

  /** Two insertions, the second of a topic; the first may have failed. */
  lemma TwoPuts<V>(t: Filter, v: V, u: Filter, w: V)
    requires IsTopic(u) && Gets(t) != []
    ensures var store := if IsTopic(t) then map[t := v][u := w] else map[u := w];
            var order := NewPrefixes({}, Gets(t), |Gets(t)|) + NewPrefixes({Gets(t)}, u, |u|);
            History([Put(t, v), Put(u, w)]) == Memory(store, LeftBehind(t), order)
  {
    hide NewPrefixes;
    hide History;
    var none: seq<Op<V>> := [];
    NoHistory<V>();
    HistorySnoc(none, Put(t, v));
    HistorySnoc([Put(t, v)], Put(u, w));
    assert none + [Put(t, v)] == [Put(t, v)];
    assert [Put(t, v)] + [Put(u, w)] == [Put(t, v), Put(u, w)];
    var start: map<Path, V> := map[];
    assert Sources(start, []) == {};
    LeftBehindIs(t);
    LeftBehindIs(u);
    var mem := History([Put(t, v)]);
    var store := if IsTopic(t) then start[t := v] else start;
    assert mem == Memory(store, LeftBehind(t), NewPrefixes({}, Gets(t), |Gets(t)|));
    assert Inserted(Memory(start, [], []), t, mem.store, mem.leaks);
    InsertedSources(Memory(start, [], []), t, mem.store, mem.leaks);
    assert Sources(mem.store, mem.leaks) == {Gets(t)};
    assert Gets(u) == u && LeftBehind(t) + [] == LeftBehind(t);
  }

  lemma OneLevelOrder(t: Filter, u: Filter, v: int, w: int)
    requires |t| == 1 && |u| == 1 && t[0] != u[0] && IsTopic(t) && IsTopic(u)
    ensures History([Put(t, v), Put(u, w)]) == Memory(map[t := v, u := w], [], [t, u])
  {
    LeftBehindIs(t);
    assert Gets(t) == t && t[..1] == t && u[..1] == u;
    TwoPuts(t, v, u, w);
    NothingLive({}, t);
    NothingLive({t}, u);
    NewSingle({}, t);
    NewSingle({t}, u);
    assert map[t := v][u := w] == map[t := v, u := w];
  }

  lemma NewSingle(sources: set<Path>, t: Filter)
    requires |t| == 1 && !Live(sources, t[..1])
    ensures NewPrefixes(sources, t, 1) == [t]
  {
    assert t[..1] == t;
    assert NewPrefixes(sources, t, 0) == [];
  }

  lemma NewPair(sources: set<Path>, t: Filter)
    requires |t| == 2 && !Live(sources, t[..1]) && !Live(sources, t[..2])
    ensures NewPrefixes(sources, t, 2) == [t[..1], t]
  {
    assert t[..2] == t;
    assert NewPrefixes(sources, t, 0) == [];
    assert NewPrefixes(sources, t, 1) == [t[..1]];
  }

  lemma RankedHas(order: seq<Path>, p: Path)
    requires p != []
    ensures p in Ranked(order) <==> p in order
    ensures p in order ==> Ranked(order)[p].id == Rank(order, p)
  {
  }

  /** Of two first-level names, one of which is a system name, "+" finds the other exactly when it is the older one. */
  lemma PlusSees(order: seq<Path>, s: Path, a: Path)
    requires |s| == 1 && |a| == 1 && IsSystem(s[0]) && !IsSystem(a[0]) && !IsWild(a[0])
             && (order == [s, a] || order == [a, s])
    ensures !Found(Ranked(order), [Plus], s) && RetainedMatches([Plus], a)
    ensures Found(Ranked(order), [Plus], a) <==> order == [a, s]
  {
    hide Rank;
    assert a[..1] == a && s != a;
    forall p | p != [] ensures p in Ranked(order) <==> p in order {
      RankedHas(order, p);
    }
    RankedHas(order, a);
    RankedHas(order, s);
    assert order[0] in order && order[1] in order;
    assert order[Rank(order, a) - 1] == a && order[Rank(order, s) - 1] == s;
    hide Ranked;
    assert AheadOfSystem(Ranked(order), a) <==> order == [a, s];
  }

  lemma OneCall<V>(calls: seq<V>, v: V)
    requires |calls| == 1 && v in calls
    ensures calls == [v]
  {
  }

  /** "$SYS" stored before "a": the filter "+" matches "a" and does not find it. */
  method SystemNameHidesYounger() returns (calls: seq<int>)
    ensures RetainedMatches([Plus], [Name("a")]) && calls == []
  {
    hide Found;
    hide Ranked;
    hide History;
    var s, a := [Name("$SYS")], [Name("a")];
    assert s[0] != a[0];
    OneLevelOrder(s, a, 0, 1);
    PlusSees([s, a], s, a);
    ghost var from;
    calls, from := Run([Put(s, 0), Put(a, 1)], [Plus]);
    assert Reached(History([Put(s, 0), Put(a, 1)]), [Plus]) == {};
  }

  /** The other way round it does. */
  method SystemNameAfter() returns (calls: seq<int>)
    ensures calls == [1]
  {
    hide Found;
    hide Ranked;
    hide History;
    var s, a := [Name("$SYS")], [Name("a")];
    assert s[0] != a[0];
    OneLevelOrder(a, s, 1, 0);
    PlusSees([a, s], s, a);
    ghost var from;
    calls, from := Run([Put(a, 1), Put(s, 0)], [Plus]);
    assert Reached(History([Put(a, 1), Put(s, 0)]), [Plus]) == {a};
    OneCall(calls, 1);
  }

  lemma BranchOrder(a: Filter, b: Filter)
    requires |a| == 2 && |b| == 2 && a[0] != b[0] && IsTopic(a) && IsTopic(b)
    ensures History([Put(a, 0), Put(b, 1)]) == Memory(map[a := 0, b := 1], [], [a[..1], a, b[..1], b])
  {
    LeftBehindIs(a);
    assert Gets(a) == a;
    TwoPuts(a, 0, b, 1);
    NothingLive({}, a);
    NothingLive({a}, b);
    NewPair({}, a);
    NewPair({a}, b);
    assert map[a := 0][b := 1] == map[a := 0, b := 1];
  }

  /** Where no name is a system name, "+/#" goes below the older of two branches only. */
  lemma BranchTree(tree: Tree<()>, a: Path, b: Path)
    requires |a| == 2 && |b| == 2 && a[0] != b[0] && a in tree && b in tree && a[..1] in tree && b[..1] in tree
    requires !IsWild(a[0]) && !IsWild(b[0]) && !IsSystem(a[0]) && !IsSystem(b[0])
    requires (forall s | s in tree && |s| == 1 :: s == a[..1] || s == b[..1]) && tree[a[..1]].id < tree[b[..1]].id
    ensures Found(tree, [Plus, Hash], a) && RetainedMatches([Plus, Hash], b) && !Found(tree, [Plus, Hash], b)
  {
    var f, p, q := [Plus, Hash], a[..1], b[..1];
    assert p[0] == a[0] && q[0] == b[0] && p != q && p[..1] == p && q[..1] == q;
    assert Init(f) == [Plus] && f[..1] == [Plus];
    assert AheadOfSystem(tree, p) && AheadOfSystem(tree, q);
    assert RetainedMatches(f, a) && RetainedMatches(f, b);
    assert OnFront(tree, f, 1, p);
    assert PartsAt(tree, p, q, 0);
    assert Overtaken(tree, f, q);
    EarlierAsymmetric(tree, p, q);
    NotBeforeItself(tree, p);
    assert !Overtaken(tree, f, p);
  }

  lemma BranchFound(order: seq<Path>, a: Path, b: Path)
    requires |a| == 2 && |b| == 2 && a[0] != b[0] && order == [a[..1], a, b[..1], b]
    requires !IsWild(a[0]) && !IsWild(b[0]) && !IsSystem(a[0]) && !IsSystem(b[0])
    ensures Found(Ranked(order), [Plus, Hash], a) && RetainedMatches([Plus, Hash], b)
            && !Found(Ranked(order), [Plus, Hash], b)
  {
    hide Found;
    hide RetainedMatches;
    hide Rank;
    var p, q := a[..1], b[..1];
    assert p[0] == a[0] && q[0] == b[0];
    assert order[0] == p && order[1] == a && order[2] == q && order[3] == b;
    assert p in order && a in order && q in order && b in order;
    forall s | s != [] ensures s in Ranked(order) <==> s in order {
      RankedHas(order, s);
    }
    RankedHas(order, p);
    RankedHas(order, q);
    assert order[Rank(order, p) - 1] == p && order[Rank(order, q) - 1] == q;
    BranchTree(Ranked(order), a, b);
  }

  lemma NotBeforeItself<V>(tree: Tree<V>, p: Path)
    ensures !Earlier(tree, p, p)
  {
  }

  /** "a/x" stored before "b/y": "+/#" matches both and finds the first alone. */
  method SecondBranchMissed() returns (calls: seq<int>)
    ensures RetainedMatches([Plus, Hash], [Name("b"), Name("y")]) && calls == [0]
  {
    hide Found;
    hide Ranked;
    hide History;
    hide RetainedMatches;
    var a, b := [Name("a"), Name("x")], [Name("b"), Name("y")];
    assert a[0] != b[0];
    BranchOrder(a, b);
    UpToHashIs([Plus, Hash]);
    BranchFound([a[..1], a, b[..1], b], a, b);
    ghost var from;
    calls, from := Run([Put(a, 0), Put(b, 1)], [Plus, Hash]);
    assert Reached(History([Put(a, 0), Put(b, 1)]), [Plus, Hash]) == {a};
    OneCall(calls, 0);
  }

  // ----- a run in which a failed insertion hides a match

  lemma OlderTree(tree: Tree<()>, p: Path, b: Path)
    requires |p| == 1 && |b| == 2 && p[0] != b[0] && p in tree && b[..1] in tree && tree[p].id < tree[b[..1]].id
    requires !IsWild(p[0]) && !IsWild(b[0]) && !IsSystem(p[0]) && !IsSystem(b[0])
    requires forall s | s in tree && |s| == 1 :: s == p || s == b[..1]
    ensures RetainedMatches([Plus, Hash], b) && !Found(tree, [Plus, Hash], b)
  {
    var f, q := [Plus, Hash], b[..1];
    assert q[0] == b[0] && p != q && p[..1] == p && q[..1] == q;
    assert Init(f) == [Plus] && f[..1] == [Plus];
    assert AheadOfSystem(tree, p);
    assert OnFront(tree, f, 1, p);
    assert PartsAt(tree, p, q, 0);
    assert Overtaken(tree, f, q);
  }

  lemma OlderBranch(order: seq<Path>, p: Path, b: Path)
    requires |p| == 1 && |b| == 2 && p[0] != b[0] && order == [p, b[..1], b]
    requires !IsWild(p[0]) && !IsWild(b[0]) && !IsSystem(p[0]) && !IsSystem(b[0])
    ensures RetainedMatches([Plus, Hash], b) && !Found(Ranked(order), [Plus, Hash], b)
  {
    hide Found;
    hide RetainedMatches;
    hide Rank;
    var q := b[..1];
    assert q[0] == b[0];
    assert order[0] == p && order[1] == q && order[2] == b;
    assert p in order && q in order && b in order;
    forall s | s != [] ensures s in Ranked(order) <==> s in order {
      RankedHas(order, s);
    }
    RankedHas(order, p);
    RankedHas(order, q);
    assert order[Rank(order, p) - 1] == p && order[Rank(order, q) - 1] == q;
    OlderTree(Ranked(order), p, b);
  }

  lemma FailedOrder(t: Filter, b: Filter)
    requires |t| == 2 && !IsWild(t[0]) && t[1] == Plus && |b| == 2 && IsTopic(b) && t[0] != b[0]
    ensures History([Put(t, 0), Put(b, 1)]) == Memory(map[b := 1], [t[..1]], [t[..1], b[..1], b])
  {
    hide History;
    hide NewPrefixes;
    hide Live;
    LeftBehindIs(t);
    var p := t[..1];
    assert FirstWild(t) == 1 && Gets(t) == p && p[0] == t[0];
    TwoPuts(t, 0, b, 1);
    NothingLive({}, p);
    NothingLive({p}, b);
    assert p[..1] == p;
    NewSingle({}, p);
    NewPair({p}, b);
    assert NewPrefixes({}, p, 1) + NewPrefixes({p}, b, 2) == [p, b[..1], b];
  }

  /** "a/+" refused, then "b/y" stored: "+/#" matches "b/y", but the walk goes below the "a" that was left behind. */
  method FailedInsertionHides() returns (calls: seq<int>)
    ensures RetainedMatches([Plus, Hash], [Name("b"), Name("y")]) && calls == []
  {
    hide Found;
    hide Ranked;
    hide History;
    hide RetainedMatches;
    var t, b := [Name("a"), Plus], [Name("b"), Name("y")];
    assert t[0] != b[0];
    FailedOrder(t, b);
    UpToHashIs([Plus, Hash]);
    assert t[..1][0] == t[0];
    OlderBranch([t[..1], b[..1], b], t[..1], b);
    ghost var from;
    calls, from := Run([Put(t, 0), Put(b, 1)], [Plus, Hash]);
    assert Reached(History([Put(t, 0), Put(b, 1)]), [Plus, Hash]) == {};
  }
}
