/** The broker's subscription map: every node of the filter tree lives in one table keyed by (parent id, level). */
module SubscriptionMap {
  import opened Wrappers
  import opened TopicFilter
  import opened TrieModel
  import opened TreeCounts
  import opened NodeTable
  import opened TrieHandles
  import opened TrieMatch
  import opened EntryTable
  import opened EntryMatch

  /** The members of the map: its node table, the last node id given out and the number of entries. */
  datatype Table<K, V> = Table(nodes: map<Key, Node<map<K, V>>>, nextNodeId: Id, mapSize: nat)

  /** The paths, the ids and the entries a table stands for. */
  datatype View<K, V> = View(tree: map<Path, Cell<map<K, V>>>, denote: map<Id, Path>, store: map<Entry<K>, V>)

  ghost predicate Stands<K, V>(table: Table<K, V>, view: View<K, V>) {
    && Represents(table.nodes, view.tree, view.denote, table.nextNodeId)
    && Holds(view.tree, view.store)
    && table.mapSize == |view.store|
  }

  /** Node ids are never given out twice, and a node keeps its id for as long as it exists. */
  ghost predicate Evolves<K, V>(before: View<K, V>, after: View<K, V>) {
    && Extends(before.denote, after.denote) && KeepsIds(before.tree, after.tree)
    && NewIds(before.denote, before.tree, after.tree)
  }

  lemma EvolvesSelf<K, V>(view: View<K, V>)
    ensures Evolves(view, view)
  {
  }

  /** The filter a handle stands for. */
  ghost function FilterOf<K, V>(view: View<K, V>, h: Key): Path {
    PathOf(view.denote, h)
  }

  /** Stores `v` for `k` under filter `f`; the handle stands for `f` from now on. */
  method InsertEntry<K(==), V>(table0: Table<K, V>, f: Filter, k: K, v: V, ghost view0: View<K, V>)
    returns (table: Table<K, V>, h: Key, inserted: bool, ghost view: View<K, V>)
    requires Stands(table0, view0)
    ensures Stands(table, view) && Evolves(view0, view)
    ensures view.store == view0.store[Entry(f, k) := v]
    ensures inserted <==> Entry(f, k) !in view0.store
    ensures h in table.nodes && h != ROOT_KEY && FilterOf(view, h) == f
  {
    var nodes, next := table0.nodes, table0.nextNodeId;
    ghost var tree, denote, store := view0.tree, view0.denote, view0.store;
    var path := FindTopicFilter(nodes, f, tree, denote, next);
    PathKeysLast(tree, f);
    StoredHere(tree, store, f, k);
    if path == [] {
      nodes, next, h, tree, denote := InsertNew(nodes, next, f, k, v, tree, denote, store);
      inserted := true;
    } else {
      h := Last(path);
      nodes, inserted, tree := AssignAt(nodes, h, Some(path), k, v, f, tree, denote, next, store);
    }
    PathHandle(nodes, tree, denote, next, f);
    InsertedSize(store, Entry(f, k), v);
    table := Table(nodes, next, if inserted then table0.mapSize + 1 else table0.mapSize);
    view := View(tree, denote, store[Entry(f, k) := v]);
  }

  /** The table after a key is put at the root itself: the size grows, no node's count does. */
  function AtRoot<K, V>(table: Table<K, V>, k: K, v: V): Table<K, V>
    requires ROOT_KEY in table.nodes
  {
    var n := table.nodes[ROOT_KEY];
    var nodes := table.nodes[ROOT_KEY := n.(value := n.value[k := v])];
    Table(nodes, table.nextNodeId, table.mapSize + if k in n.value then 0 else 1)
  }

  /**
   * Stores `v` for `k` at the node of a handle; None where the code throws "invalid handle". The root's own key, which
   * no operation hands out, is not refused: it takes the key and counts it.
   */
  method InsertEntryAt<K(==), V>(table0: Table<K, V>, h: Key, k: K, v: V, ghost view0: View<K, V>)
    returns (table: Table<K, V>, inserted: Option<bool>, ghost view: View<K, V>)
    requires Stands(table0, view0)
    ensures inserted.Some? <==> h in table0.nodes
    ensures inserted.None? ==> table == table0 && view == view0
    ensures h != ROOT_KEY ==> Stands(table, view) && Evolves(view0, view)
    ensures h != ROOT_KEY && inserted.Some? ==> var e := Entry(FilterOf(view0, h), k);
              view.store == view0.store[e := v] && (inserted.value <==> e !in view0.store)
    ensures h == ROOT_KEY ==>
              h in table0.nodes && inserted == Some(true) && table == AtRoot(table0, k, v) && view == view0
  {
    RootEmpty(table0, view0);
    if h !in table0.nodes {
      return table0, None, view0;
    }
    if h == ROOT_KEY {
      // No node lies on the way from the root to the root, so no count changes.
      inserted := Some(k !in table0.nodes[h].value);
      return AtRoot(table0, k, v), inserted, view0;
    }
    var next := table0.nextNodeId;
    ghost var f := FilterOf(view0, h);
    HandlePath(table0.nodes, view0.tree, view0.denote, next, h);
    var nodes, added, tree := AssignAt(table0.nodes, h, None, k, v, f, view0.tree, view0.denote, next, view0.store);
    InsertedSize(view0.store, Entry(f, k), v);
    table := Table(nodes, next, if added then table0.mapSize + 1 else table0.mapSize);
    inserted := Some(added);
    view := View(tree, view0.denote, view0.store[Entry(f, k) := v]);
  }

  lemma RootEmpty<K, V>(table: Table<K, V>, view: View<K, V>)
    requires Stands(table, view)
    ensures ROOT_KEY in table.nodes && table.nodes[ROOT_KEY].value == map[]
  {
    PathHandle(table.nodes, view.tree, view.denote, table.nextNodeId, []);
    var value := view.tree[[]].value;
    assert ValuesAt(view.store, [], value);
    forall k ensures k !in value {
      assert k in value ==> Entry([], k) in view.store;
    }
  }

  /** After that the size is one too many: no table of entries fits the map any more. */
  lemma RootKeyCounts<K, V>(table: Table<K, V>, view: View<K, V>, k: K, v: V, other: View<K, V>)
    requires Stands(table, view)
    ensures ROOT_KEY in table.nodes && AtRoot(table, k, v).mapSize == |view.store| + 1
            && !Stands(AtRoot(table, k, v), other)
  {
    RootEmpty(table, view);
    if Stands(AtRoot(table, k, v), other) {
      RootEmpty(AtRoot(table, k, v), other);
    }
  }

  /** Removes `k` from the node at `h`, which stands for `f`. */
  method EraseFrom<K(==), V>(table0: Table<K, V>, h: Key, byPath: Option<seq<Key>>, k: K, ghost f: Filter,
                             ghost view0: View<K, V>)
    returns (table: Table<K, V>, erased: nat, ghost view: View<K, V>)
    requires Stands(table0, view0)
    requires f in view0.tree && h == KeyOf(view0.tree, f)
    requires byPath.Some? ==> byPath.value == PathKeys(view0.tree, f)
    ensures Stands(table, view) && Evolves(view0, view)
    ensures view.store == view0.store - {Entry(f, k)}
    ensures erased == if Entry(f, k) in view0.store then 1 else 0
  {
    var next := table0.nextNodeId;
    var nodes, done, tree := EraseAt(table0.nodes, h, byPath, k, f, view0.tree, view0.denote, next, view0.store);
    ErasedSize(view0.store, Entry(f, k));
    table := Table(nodes, next, if done then table0.mapSize - 1 else table0.mapSize);
    erased := if done then 1 else 0;
    view := View(tree, view0.denote, view0.store - {Entry(f, k)});
  }

  /** Removes `k` from filter `f`. */
  method EraseEntry<K(==), V>(table0: Table<K, V>, f: Filter, k: K, ghost view0: View<K, V>)
    returns (table: Table<K, V>, erased: nat, ghost view: View<K, V>)
    requires Stands(table0, view0)
    ensures Stands(table, view) && Evolves(view0, view)
    ensures view.store == view0.store - {Entry(f, k)}
    ensures erased == if Entry(f, k) in view0.store then 1 else 0
  {
    var path := FindTopicFilter(table0.nodes, f, view0.tree, view0.denote, table0.nextNodeId);
    PathKeysLast(view0.tree, f);
    if path == [] {
      StoredHere(view0.tree, view0.store, f, k);
      assert view0.store - {Entry(f, k)} == view0.store;
      return table0, 0, view0;
    }
    table, erased, view := EraseFrom(table0, Last(path), Some(path), k, f, view0);
  }

  lemma NoEntryAt<K, V>(table: Table<K, V>, view: View<K, V>, h: Key, k: K)
    requires Stands(table, view) && h in table.nodes && k !in table.nodes[h].value
    ensures Entry(FilterOf(view, h), k) !in view.store && view.store - {Entry(FilterOf(view, h), k)} == view.store
  {
    HandlePath(table.nodes, view.tree, view.denote, table.nextNodeId, h);
    PathHandle(table.nodes, view.tree, view.denote, table.nextNodeId, FilterOf(view, h));
    assert ValuesAt(view.store, FilterOf(view, h), view.tree[FilterOf(view, h)].value);
  }

  /** Nothing is ever stored at the root. */
  lemma SomeEntryAt<K, V>(table: Table<K, V>, view: View<K, V>, h: Key, k: K)
    requires Stands(table, view) && h in table.nodes && k in table.nodes[h].value
    ensures FilterOf(view, h) != []
  {
    HandlePath(table.nodes, view.tree, view.denote, table.nextNodeId, h);
    PathHandle(table.nodes, view.tree, view.denote, table.nextNodeId, FilterOf(view, h));
    assert ValuesAt(view.store, FilterOf(view, h), view.tree[FilterOf(view, h)].value);
    assert Entry(FilterOf(view, h), k) in view.store;
  }

  /** Removes `k` from the filter of a handle; None where the code throws "invalid handle". */
  method EraseEntryAt<K(==), V>(table0: Table<K, V>, h: Key, k: K, ghost view0: View<K, V>)
    returns (table: Table<K, V>, erased: Option<nat>, ghost view: View<K, V>)
    requires Stands(table0, view0)
    ensures Stands(table, view) && Evolves(view0, view)
    ensures erased.Some? <==> h in table0.nodes
    ensures erased.None? ==> table == table0 && view == view0
    ensures erased.Some? ==> var e := Entry(FilterOf(view0, h), k);
              view.store == view0.store - {e} && erased.value == if e in view0.store then 1 else 0
  {
    if h !in table0.nodes {
      return table0, None, view0;
    }
    HandlePath(table0.nodes, view0.tree, view0.denote, table0.nextNodeId, h);
    if k !in table0.nodes[h].value {
      NoEntryAt(table0, view0, h, k);
      return table0, Some(0), view0;
    }
    SomeEntryAt(table0, view0, h, k);
    var n;
    table, n, view := EraseFrom(table0, h, None, k, FilterOf(view0, h), view0);
    erased := Some(n);
  }

  /** Runs the callback over the values of the matching entries, each time the search meets them. */
  method ModifyEntries<K(==, !new), V>(table0: Table<K, V>, topic: seq<Level>, g: (K, V) -> V, ghost view0: View<K, V>)
    returns (table: Table<K, V>, ghost view: View<K, V>)
    requires Stands(table0, view0)
    ensures Stands(table, view) && Evolves(view0, view)
    ensures view.store == AppliedStore(g, view0.store, topic)
  {
    hide Represents;
    hide Holds;
    hide Met;
    var next := table0.nextNodeId;
    var visited, at := FindMatch(table0.nodes, topic, view0.tree, view0.denote, next);
    var nodes, tree := Rewrite(table0.nodes, visited, g, at, view0.tree, view0.denote, next);
    AppliedHolds(g, view0.tree, view0.store, tree, at, topic);
    ghost var store := AppliedStore(g, view0.store, topic);
    assert store.Keys == view0.store.Keys;
    assert |store| == |view0.store|;
    table := table0.(nodes := nodes);
    view := View(tree, view0.denote, store);
  }

  /**
   * multiple_subscription_map. `view.store` is the plain table of (filter, key) entries it stands for; the rest
   * of `view` says which path every node, and every node id ever given out, belongs to.
   */
  class MultipleSubscriptionMap<K(==, !new), V(!new)> {
    var table: Table<K, V>
    ghost var view: View<K, V>

    ghost predicate Valid()
      reads this
    {
      Stands(table, view)
    }

    constructor ()
      ensures Valid() && view.store == map[]
    {
      table := Table(map[ROOT_KEY := Node(ROOT_ID, NO_PARENT, 1, false, false, map[])], 2, 0);
      view := View(map[[] := Cell(ROOT_ID, 1, map[])], map[ROOT_ID := []], map[]);
      new;
      forall p: Path ensures Count<K>({}, p) == 0 {
        EmptyCount<K>(p);
      }
    }

    /** Stores `v` for `k` under filter `f`; the handle stands for `f` from now on. */
    method InsertOrAssign(f: Filter, k: K, v: V) returns (h: Key, inserted: bool)
      requires Valid()
      modifies this
      ensures Valid() && Evolves(old(view), view)
      ensures view.store == old(view.store)[Entry(f, k) := v]
      ensures inserted <==> Entry(f, k) !in old(view.store)
      ensures h in table.nodes && h != ROOT_KEY && FilterOf(view, h) == f
    {
      hide Stands;
      var table';
      ghost var view';
      table', h, inserted, view' := InsertEntry(table, f, k, v, view);
      table, view := table', view';
    }

    /** As above with a handle from an earlier call; None where the code throws "invalid handle". */
    method InsertOrAssignAt(h: Key, k: K, v: V) returns (inserted: Option<bool>)
      requires Valid()
      modifies this
      ensures Valid() <==> h != ROOT_KEY
      ensures h == ROOT_KEY ==> h in old(table.nodes) && table == AtRoot(old(table), k, v) && view == old(view)
      ensures Evolves(old(view), view)
      ensures inserted.Some? <==> h in old(table.nodes)
      ensures inserted.None? ==> view == old(view)
      ensures h != ROOT_KEY && inserted.Some? ==> var e := Entry(FilterOf(old(view), h), k);
                view.store == old(view.store)[e := v] && (inserted.value <==> e !in old(view.store))
    {
      hide Stands;
      var table';
      ghost var view';
      EvolvesSelf(view);
      RootKeyCounts(table, view, k, v, view);
      table', inserted, view' := InsertEntryAt(table, h, k, v, view);
      table, view := table', view';
    }

    /** Removes `k` from filter `f`; the number of removed entries is returned. */
    method Erase(f: Filter, k: K) returns (erased: nat)
      requires Valid()
      modifies this
      ensures Valid() && Evolves(old(view), view)
      ensures view.store == old(view.store) - {Entry(f, k)}
      ensures erased == if Entry(f, k) in old(view.store) then 1 else 0
    {
      hide Stands;
      var table';
      ghost var view';
      table', erased, view' := EraseEntry(table, f, k, view);
      table, view := table', view';
    }

    /** Removes `k` from the filter of a handle; None where the code throws "invalid handle". */
    method EraseAtHandle(h: Key, k: K) returns (erased: Option<nat>)
      requires Valid()
      modifies this
      ensures Valid() && Evolves(old(view), view)
      ensures erased.Some? <==> h in old(table.nodes)
      ensures erased.None? ==> table == old(table) && view == old(view)
      ensures erased.Some? ==> var e := Entry(FilterOf(old(view), h), k);
                view.store == old(view.store) - {e} && erased.value == if e in old(view.store) then 1 else 0
    {
      hide Stands;
      var table';
      ghost var view';
      table', erased, view' := EraseEntryAt(table, h, k, view);
      table, view := table', view';
    }

    /** A handle for `f`, present exactly when something is stored at or below it. */
    method Lookup(f: Filter) returns (h: Option<Key>)
      requires Valid()
      ensures h.Some? <==> Count(view.store.Keys, f) > 0
      ensures h.Some? ==> h.value in table.nodes && h.value != ROOT_KEY && FilterOf(view, h.value) == f
    {
      var path := FindTopicFilter(table.nodes, f, view.tree, view.denote, table.nextNodeId);
      PathKeysLast(view.tree, f);
      if path == [] {
        return None;
      }
      PathHandle(table.nodes, view.tree, view.denote, table.nextNodeId, f);
      h := Some(Last(path));
    }

    /** The text of the filter a handle stands for, less trailing empty levels. */
    method TopicFilterOf(h: Key) returns (text: Option<string>)
      requires Valid()
      ensures text.Some? <==> h in table.nodes
      ensures text.Some? ==> text.value == Rebuild(FilterOf(view, h))
    {
      text := HandleToTopicFilter(table.nodes, h, view.tree, view.denote, table.nextNodeId);
    }

    /**
     * Calls back for exactly the stored entries whose filter matches the topic: for each as often as its filter is met,
     * which is once unless the topic has a level '+' or ends in '#'. A filter that begins with a wildcard does not
     * match a topic whose first level begins with '$'; an empty first level is like any other.
     */
    method Find(topic: seq<Level>) returns (calls: seq<(K, V)>, ghost from: seq<Entry<K>>)
      requires Valid()
      ensures Reported(calls, from, view.store) && Called(from, view.store, topic)
      ensures forall e :: e in from <==> e in view.store && Matches(e.filter, topic)
      ensures forall e ::
                e in from <==>
                  && e in view.store && e.filter != [] && Accepts(e.filter, topic)
                  && (e.filter[0].Name? || !("$" <= Join(topic)))
      ensures Single(topic) ==> Distinct(from)
      ensures CallsMatching(calls, view.store, topic)
    {
      hide CallsMatching;
      hide Met;
      hide AllAlong;
      hide Called;
      hide Represents;
      hide Holds;
      var visited, at := FindMatch(table.nodes, topic, view.tree, view.denote, table.nextNodeId);
      calls, from := Report(table.nodes, visited, at, view.tree, view.denote, table.nextNodeId, view.store);
      AlongMet(from, view.store, at, view.tree, topic);
      CalledMatching(from, view.store, topic);
      ReportedMeans(calls, from, view.store, topic);
      NoEmptyFilter(view.tree, view.store);
      hide Matches;
      hide Accepts;
      hide Join;
      forall e | e in view.store
        ensures Matches(e.filter, topic) <==>
                  Accepts(e.filter, topic) && (e.filter[0].Name? || !("$" <= Join(topic)))
      {
        MatchesSpelled(e.filter, topic);
      }
    }

    /** Lets the callback change the value of every stored entry whose filter matches, each time it is met. */
    method Modify(topic: seq<Level>, g: (K, V) -> V)
      requires Valid()
      modifies this
      ensures Valid() && Evolves(old(view), view)
      ensures view.store == AppliedStore(g, old(view.store), topic)
    {
      hide Stands;
      var table', view' := ModifyEntries(table, topic, g, view);
      table, view := table', view';
    }

    method Size() returns (n: nat)
      requires Valid()
      ensures n == |view.store|
    {
      n := table.mapSize;
    }

    /** One node for the root and one for every distinct non-empty prefix of a stored filter. */
    method InternalSize() returns (n: nat)
      requires Valid()
      ensures n == 1 + |Prefixes(view.store.Keys)|
    {
      NodeCount(table.nodes, view.tree, view.denote, table.nextNodeId, view.store.Keys);
      n := |table.nodes|;
    }
  }

  lemma NoEmptyFilter<K, V>(tree: map<Path, Cell<map<K, V>>>, store: map<Entry<K>, V>)
    requires Holds(tree, store)
    ensures forall e | e in store :: e.filter != []
  {
  }

  lemma InsertedSize<E, V>(store: map<E, V>, e: E, v: V)
    ensures |store[e := v]| == |store| + if e in store then 0 else 1
  {
    assert store[e := v].Keys == store.Keys + {e};
    assert |store[e := v]| == |store[e := v].Keys|;
  }

  lemma ErasedSize<E, V>(store: map<E, V>, e: E)
    ensures |store - {e}| == |store| - if e in store then 1 else 0
  {
    assert (store - {e}).Keys == store.Keys - {e};
    assert |store - {e}| == |(store - {e}).Keys|;
  }

  /** The distinct non-empty prefixes of the stored filters. */
  ghost function Prefixes<K>(entries: set<Entry<K>>): set<Path> {
    set e, i | e in entries && 0 < i <= |e.filter| :: e.filter[..i]
  }

  lemma TreeKeys<K, X>(tree: map<Path, Cell<X>>, entries: set<Entry<K>>)
    requires Counted(tree, entries)
    ensures tree.Keys == Prefixes(entries) + {[]}
  {
    forall p | p in tree && p != [] ensures p in Prefixes(entries) {
      var e :| e in Below(entries, p);
      assert p == e.filter[..|p|];
    }
    forall p | p in Prefixes(entries) ensures p in tree {
      var e, i :| e in entries && 0 < i <= |e.filter| && p == e.filter[..i];
      CountPositive(entries, e, p);
    }
  }

  lemma {:induction false} SameSize<A, B>(s: set<A>, t: set<B>, f: map<A, B>, g: map<B, A>)
    requires forall a | a in s :: a in f && f[a] in t && f[a] in g && g[f[a]] == a
    requires forall b | b in t :: b in g && g[b] in s && g[b] in f && f[g[b]] == b
    ensures |s| == |t|
    decreases s
  {
    if s == {} {
      assert t == {} by {
        if b :| b in t { assert g[b] in s; }
      }
    } else {
      var a :| a in s;
      SameSize(s - {a}, t - {f[a]}, f, g);
    }
  }

  lemma NodeCount<K, X>(nodes: map<Key, Node<X>>, tree: map<Path, Cell<X>>, denote: map<Id, Path>, next: Id,
                        entries: set<Entry<K>>)
    requires Represents(nodes, tree, denote, next) && Counted(tree, entries)
    ensures |nodes| == 1 + |Prefixes(entries)|
  {
    TreeKeys(tree, entries);
    TableKeys(nodes, tree, denote, next);
  }

  /** One table key for every path. */
  lemma TableKeys<X>(nodes: map<Key, Node<X>>, tree: map<Path, Cell<X>>, denote: map<Id, Path>, next: Id)
    requires Represents(nodes, tree, denote, next)
    ensures |nodes| == |tree.Keys|
  {
    var f := map p | p in tree :: KeyOf(tree, p);
    var g := map k | k in nodes :: PathOf(denote, k);
    forall p | p in tree.Keys ensures f[p] in nodes && g[f[p]] == p {
      PathHandle(nodes, tree, denote, next, p);
    }
    forall k | k in nodes.Keys ensures g[k] in tree && f[g[k]] == k {
      HandlePath(nodes, tree, denote, next, k);
    }
    SameSize(tree.Keys, nodes.Keys, f, g);
  }
}
