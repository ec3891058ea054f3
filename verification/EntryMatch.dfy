/** Reporting and modifying the entries whose filter matches a topic. */
module EntryMatch {
  import opened TopicFilter
  import opened TrieModel
  import opened TreeCounts
  import opened NodeTable
  import opened TrieHandles
  import opened TrieMatch

  /** The keys of a hash map, in whatever order it iterates. */
  method Enumerate<K(==, !new), V>(m: map<K, V>) returns (ks: seq<K>)
    ensures Distinct(ks) && forall k :: k in ks <==> k in m
  {
    ks := [];
    var rest := m.Keys;
    while rest != {}
      invariant rest <= m.Keys
      invariant Distinct(ks) && forall k :: k in ks <==> k in m.Keys - rest
    {
      var k :| k in rest;
      DistinctConcat(ks, [k]);
      ks := ks + [k];
      rest := rest - {k};
    }
  }

  /** The callbacks, one for each item of `from`, with its key and value. */
  ghost predicate Reported<K(!new), V>(calls: seq<(K, V)>, from: seq<Entry<K>>, store: map<Entry<K>, V>) {
    && |calls| == |from|
    && forall i | 0 <= i < |from| :: from[i] in store && calls[i] == (from[i].key, store[from[i]])
  }

  /** The entries stored at one path, once each. */
  ghost predicate AllAt<K(!new), V>(from: seq<Entry<K>>, store: map<Entry<K>, V>, p: Path) {
    forall e :: multiset(from)[e] == if e in store && e.filter == p then 1 else 0
  }

  /** The entries stored at the given paths, each as often as its path is given. */
  ghost predicate AllAlong<K(!new), V>(from: seq<Entry<K>>, store: map<Entry<K>, V>, at: seq<Path>) {
    forall e :: multiset(from)[e] == if e in store then multiset(at)[e.filter] else 0
  }

  /** The callbacks for one visited node. */
  method ReportNode<K(==, !new), V>(value: map<K, V>, ghost p: Path, ghost store: map<Entry<K>, V>)
    returns (calls: seq<(K, V)>, ghost from: seq<Entry<K>>)
    requires ValuesAt(store, p, value)
    ensures Reported(calls, from, store) && AllAt(from, store, p)
  {
    var ks := Enumerate(value);
    calls, from := [], [];
    for i := 0 to |ks|
      invariant Reported(calls, from, store) && Distinct(from)
      invariant forall e :: e in from <==> e.filter == p && e.key in ks[..i]
    {
      assert ks[i] in value && ks[i] !in ks[..i];
      TakeSnoc(ks, i);
      DistinctConcat(from, [Entry(p, ks[i])]);
      calls, from := calls + [(ks[i], value[ks[i]])], from + [Entry(p, ks[i])];
    }
    assert ks[..|ks|] == ks;
    forall e ensures multiset(from)[e] == if e in store && e.filter == p then 1 else 0 {
      DistinctOnce(from, e);
      assert e in from <==> e in store && e.filter == p;
    }
  }

  lemma {:induction false} DistinctOnce<T>(s: seq<T>, x: T)
    requires Distinct(s)
    ensures multiset(s)[x] == if x in s then 1 else 0
    decreases |s|
  {
    if s != [] {
      var init, last := s[..|s| - 1], s[|s| - 1];
      assert s == init + [last];
      DistinctOnce(init, x);
    }
  }

  lemma AlongSnoc<K(!new), V>(from: seq<Entry<K>>, more: seq<Entry<K>>, store: map<Entry<K>, V>, at: seq<Path>, p: Path)
    requires AllAlong(from, store, at) && AllAt(more, store, p)
    ensures AllAlong(from + more, store, at + [p])
  {
    forall e ensures multiset(from + more)[e] == if e in store then multiset(at + [p])[e.filter] else 0 {
      assert multiset(from + more)[e] == multiset(from)[e] + multiset(more)[e];
      assert multiset(at + [p])[e.filter] == multiset(at)[e.filter] + if e.filter == p then 1 else 0;
    }
  }

  /** The callbacks for all visited nodes. */
  method Report<K(==, !new), V>(nodes: map<Key, Node<map<K, V>>>, visited: seq<Key>, ghost at: seq<Path>,
                                ghost tree: map<Path, Cell<map<K, V>>>, ghost denote: map<Id, Path>, ghost next: Id,
                                ghost store: map<Entry<K>, V>)
    returns (calls: seq<(K, V)>, ghost from: seq<Entry<K>>)
    requires Represents(nodes, tree, denote, next) && Holds(tree, store)
    requires Located(visited, at, tree)
    ensures Reported(calls, from, store) && AllAlong(from, store, at)
  {
    calls, from := [], [];
    NothingAlong(store);
    hide AllAt;
    hide AllAlong;
    hide Represents;
    hide Holds;
    hide Reported;
    for j := 0 to |visited|
      invariant Reported(calls, from, store) && AllAlong(from, store, at[..j])
    {
      NodeValues(nodes, tree, denote, next, store, at[j]);
      var more, moreFrom := ReportNode(nodes[visited[j]].value, at[j], store);
      ReportedConcat(calls, from, more, moreFrom, store);
      AlongSnoc(from, moreFrom, store, at[..j], at[j]);
      TakeSnoc(at, j);
      calls, from := calls + more, from + moreFrom;
    }
    assert at[..|visited|] == at;
  }

  lemma NodeValues<K(!new), V>(nodes: map<Key, Node<map<K, V>>>, tree: map<Path, Cell<map<K, V>>>,
                               denote: map<Id, Path>, next: Id, store: map<Entry<K>, V>, p: Path)
    requires Represents(nodes, tree, denote, next) && Holds(tree, store) && p in tree
    ensures KeyOf(tree, p) in nodes && ValuesAt(store, p, nodes[KeyOf(tree, p)].value)
  {
    PathHandle(nodes, tree, denote, next, p);
  }

  lemma ReportedConcat<K(!new), V>(calls: seq<(K, V)>, from: seq<Entry<K>>, more: seq<(K, V)>, moreFrom: seq<Entry<K>>,
                                   store: map<Entry<K>, V>)
    requires Reported(calls, from, store) && Reported(more, moreFrom, store)
    ensures Reported(calls + more, from + moreFrom, store)
  {
  }

  lemma NothingAlong<K(!new), V>(store: map<Entry<K>, V>)
    ensures AllAlong([], store, []) && Reported([], [], store)
  {
  }

  // ----- modification

  /** A value after the callback has been run on it `n` times. */
  ghost function Repeatedly<K(!new), V>(g: (K, V) -> V, k: K, v: V, n: nat): V {
    if n == 0 then v else g(k, Repeatedly(g, k, v, n - 1))
  }

  ghost function Applied<K(!new), V>(g: (K, V) -> V, value: map<K, V>, n: nat): map<K, V> {
    map k | k in value :: Repeatedly(g, k, value[k], n)
  }

  /** The callback run on every entry as often as its filter is met. */
  ghost function AppliedStore<K(!new), V>(g: (K, V) -> V, store: map<Entry<K>, V>,
                                          topic: seq<Level>): map<Entry<K>, V> {
    map e | e in store :: Repeatedly(g, e.key, store[e], Times(e.filter, topic))
  }

  /** Where no filter is met twice that is once for every entry that matches. */
  lemma AppliedOnce<K(!new), V>(g: (K, V) -> V, store: map<Entry<K>, V>, topic: seq<Level>)
    requires Single(topic)
    ensures AppliedStore(g, store, topic) == map e | e in store ::
            if Matches(e.filter, topic) then g(e.key, store[e]) else store[e]
  {
    forall e | e in store
      ensures Repeatedly(g, e.key, store[e], Times(e.filter, topic))
           == if Matches(e.filter, topic) then g(e.key, store[e]) else store[e]
    {
      TimesOnce(e.filter, topic);
      assert Repeatedly(g, e.key, store[e], 1) == g(e.key, Repeatedly(g, e.key, store[e], 0));
    }
  }

  /** `t` is `t0` with the values run through the callback, each as often as its path is among `at`. */
  ghost predicate AppliedTree<K(!new), V>(g: (K, V) -> V, t0: map<Path, Cell<map<K, V>>>, t: map<Path, Cell<map<K, V>>>,
                                          at: seq<Path>) {
    && t.Keys == t0.Keys
    && forall p | p in t0 :: t[p] == t0[p].(value := Applied(g, t0[p].value, multiset(at)[p]))
  }

  /** Runs the callback over the values of all visited nodes, in place. */
  method Rewrite<K(==, !new), V>(nodes0: map<Key, Node<map<K, V>>>, visited: seq<Key>, g: (K, V) -> V,
                                 ghost at: seq<Path>, ghost tree0: map<Path, Cell<map<K, V>>>,
                                 ghost denote: map<Id, Path>, ghost next: Id)
    returns (nodes: map<Key, Node<map<K, V>>>, ghost tree: map<Path, Cell<map<K, V>>>)
    requires Represents(nodes0, tree0, denote, next)
    requires Located(visited, at, tree0)
    ensures Represents(nodes, tree, denote, next) && AppliedTree(g, tree0, tree, at)
  {
    assert Shaped(tree0, denote, next);
    hide Represents;
    hide Shaped;
    hide AppliedTree;
    nodes, tree := nodes0, tree0;
    AppliedNone(g, tree0);
    for j := 0 to |visited|
      invariant Represents(nodes, tree, denote, next) && AppliedTree(g, tree0, tree, at[..j])
    {
      ghost var p := at[j];
      AppliedKeys(g, tree0, tree, at[..j], denote, next, p);
      PathHandle(nodes, tree, denote, next, p);
      var n := nodes[visited[j]];
      var value := map k | k in n.value :: g(k, n.value[k]);
      SetNode(nodes, tree, denote, next, p, n.count, value);
      AppliedStep(g, tree0, tree, at[..j], p);
      TakeSnoc(at, j);
      nodes := nodes[visited[j] := n.(value := value)];
      tree := WithCell(tree, p, n.count, value);
    }
    assert at[..|visited|] == at;
  }

  lemma AppliedNone<K(!new), V>(g: (K, V) -> V, t: map<Path, Cell<map<K, V>>>)
    ensures AppliedTree(g, t, t, [])
  {
    forall p | p in t ensures Applied(g, t[p].value, 0) == t[p].value {
    }
  }

  lemma AppliedKeys<K(!new), V>(g: (K, V) -> V, t0: map<Path, Cell<map<K, V>>>, t: map<Path, Cell<map<K, V>>>,
                                at: seq<Path>, denote: map<Id, Path>, next: Id, p: Path)
    requires Shaped(t0, denote, next) && p in t0 && AppliedTree(g, t0, t, at)
    ensures p in t && KeyOf(t, p) == KeyOf(t0, p)
  {
    SameIdsSameKeys(t0, t, denote, next, p);
  }

  /** One more visit is one more run of the callback. */
  lemma AppliedStep<K(!new), V>(g: (K, V) -> V, t0: map<Path, Cell<map<K, V>>>, t: map<Path, Cell<map<K, V>>>,
                                at: seq<Path>, p: Path)
    requires p in t0 && AppliedTree(g, t0, t, at)
    ensures p in t
    ensures AppliedTree(g, t0, WithCell(t, p, t[p].count, map k | k in t[p].value :: g(k, t[p].value[k])), at + [p])
  {
    var n, value := multiset(at)[p], t0[p].value;
    assert (map k | k in t[p].value :: g(k, t[p].value[k])) == Applied(g, value, n + 1);
    forall q ensures multiset(at + [p])[q] == multiset(at)[q] + if q == p then 1 else 0 {
    }
  }

  lemma AppliedHolds<K(!new), V>(g: (K, V) -> V, t0: map<Path, Cell<map<K, V>>>, store: map<Entry<K>, V>,
                                 t: map<Path, Cell<map<K, V>>>, at: seq<Path>, topic: seq<Level>)
    requires Holds(t0, store) && AppliedTree(g, t0, t, at) && Met(at, t0, topic)
    ensures Holds(t, AppliedStore(g, store, topic))
  {
    var store' := AppliedStore(g, store, topic);
    assert store'.Keys == store.Keys;
    forall p | p in t ensures ValuesAt(store', p, t[p].value) {
      assert ValuesAt(store, p, t0[p].value);
      assert multiset(at)[p] == Times(p, topic);
    }
  }

  // ----- what the callbacks of a search are

  /** Every stored entry is reported as often as its filter is met. */
  ghost predicate Called<K(!new), V>(from: seq<Entry<K>>, store: map<Entry<K>, V>, topic: seq<Level>) {
    forall e :: multiset(from)[e] == if e in store then Times(e.filter, topic) else 0
  }

  lemma AlongMet<K(!new), V>(from: seq<Entry<K>>, store: map<Entry<K>, V>, at: seq<Path>,
                             tree: map<Path, Cell<map<K, V>>>, topic: seq<Level>)
    requires AllAlong(from, store, at) && Met(at, tree, topic) && Holds(tree, store)
    ensures Called(from, store, topic)
  {
    forall e | e in store ensures e.filter in tree {
      CountPositive(store.Keys, e, e.filter);
    }
  }

  /** That is: exactly the matching entries, and each once where no filter is met twice. */
  lemma CalledMatching<K(!new), V>(from: seq<Entry<K>>, store: map<Entry<K>, V>, topic: seq<Level>)
    requires Called(from, store, topic)
    ensures forall e :: e in from <==> e in store && Matches(e.filter, topic)
    ensures Single(topic) ==> Distinct(from)
  {
    hide Times;
    hide Matches;
    forall e ensures e in from <==> e in store && Matches(e.filter, topic) {
      TimesMatches(e.filter, topic);
      assert e in from <==> multiset(from)[e] > 0;
    }
    if Single(topic) {
      forall e ensures multiset(from)[e] <= 1 {
        TimesOnce(e.filter, topic);
      }
      SinglesDistinct(from);
    }
  }

  /** The stored entries whose filter matches the topic. */
  ghost function Matching<K(!new), V>(store: map<Entry<K>, V>, topic: seq<Level>): set<Entry<K>> {
    set e | e in store && Matches(e.filter, topic)
  }

  lemma {:induction false} DistinctSize<T>(s: seq<T>, all: set<T>)
    requires Distinct(s) && forall x :: x in s <==> x in all
    ensures |s| == |all|
  {
    if s == [] {
      assert all == {};
    } else {
      var x := s[|s| - 1];
      var rest := s[..|s| - 1];
      assert s == rest + [x];
      assert x !in rest;
      DistinctSize(rest, all - {x});
    }
  }

  /**
   * The callbacks pass exactly the keys and values of the matching entries, and where no filter is met twice they are
   * as many as those.
   */
  ghost predicate CallsMatching<K(!new), V>(calls: seq<(K, V)>, store: map<Entry<K>, V>, topic: seq<Level>) {
    && (Single(topic) ==> |calls| == |Matching(store, topic)|)
    && (forall e | e in Matching(store, topic) :: (e.key, store[e]) in calls)
    && (forall c | c in calls :: exists e :: e in Matching(store, topic) && c == (e.key, store[e]))
  }

  lemma ReportedMeans<K(!new), V>(calls: seq<(K, V)>, from: seq<Entry<K>>, store: map<Entry<K>, V>, topic: seq<Level>)
    requires Reported(calls, from, store) && Called(from, store, topic)
    ensures CallsMatching(calls, store, topic)
  {
    CalledMatching(from, store, topic);
    hide Called;
    hide Matches;
    if Single(topic) {
      DistinctSize(from, Matching(store, topic));
    }
    forall e | e in Matching(store, topic) ensures (e.key, store[e]) in calls {
      assert e in from;
      var i :| 0 <= i < |from| && from[i] == e;
      assert calls[i] == (e.key, store[e]);
    }
    forall c | c in calls ensures exists e :: e in Matching(store, topic) && c == (e.key, store[e]) {
      var i :| 0 <= i < |calls| && calls[i] == c;
      assert from[i] in from;
    }
  }
}
