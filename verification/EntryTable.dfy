/** Inserting and erasing one (filter, key) entry in the node table. */
module EntryTable {
  import opened Wrappers
  import opened TopicFilter
  import opened TrieModel
  import opened TreeCounts
  import opened NodeTable
  import opened TrieHandles

  /** A node keeps its id for as long as it exists. */
  ghost predicate KeepsIds<X>(t0: map<Path, Cell<X>>, t: map<Path, Cell<X>>) {
    forall p | p in t0 && p in t :: t[p].id == t0[p].id
  }

  lemma CreatedInserts<K, V>(t0: map<Path, Cell<map<K, V>>>, t1: map<Path, Cell<map<K, V>>>, f: Path, k: K, v: V)
    requires f != [] && f !in t0 && Grown(t0, t1, f, 0, |f|, map[])
    ensures f in t1 && Inserted(t0, WithCell(t1, f, t1[f].count, t1[f].value[k := v]), f, k, v)
    ensures KeepsIds(t0, WithCell(t1, f, t1[f].count, t1[f].value[k := v]))
  {
    assert OnPath(f, f, 0, |f|);
  }

  lemma RaisedInserts<K, V>(t0: map<Path, Cell<map<K, V>>>, t: map<Path, Cell<map<K, V>>>, f: Path, k: K, v: V)
    requires f != [] && f in t0
    requires Grown(WithCell(t0, f, t0[f].count, t0[f].value[k := v]), t, f, 0, |f|, map[])
    requires forall i | 0 <= i <= |f| :: f[..i] in t0
    ensures Inserted(t0, t, f, k, v) && KeepsIds(t0, t) && t.Keys <= t0.Keys
  {
    hide Grown;
    forall p ensures p in t <==> p in t0 || OnPath(p, f, 0, |f|)
             ensures p in t ==> p in t0 && t[p] == Cell(t0[p].id, t0[p].count + (if OnPath(p, f, 0, |f|) then 1 else 0),
                                                       if p == f then t0[p].value[k := v] else t0[p].value) {
      RaisedAt(t0, t, f, k, v, p);
    }
  }

  lemma RaisedAt<K, V>(t0: map<Path, Cell<map<K, V>>>, t: map<Path, Cell<map<K, V>>>, f: Path, k: K, v: V, p: Path)
    requires f != [] && f in t0
    requires Grown(WithCell(t0, f, t0[f].count, t0[f].value[k := v]), t, f, 0, |f|, map[])
    requires forall i | 0 <= i <= |f| :: f[..i] in t0
    ensures p in t <==> p in t0 || OnPath(p, f, 0, |f|)
    ensures p in t ==> p in t0 && t[p] == Cell(t0[p].id, t0[p].count + (if OnPath(p, f, 0, |f|) then 1 else 0),
                                               if p == f then t0[p].value[k := v] else t0[p].value)
  {
    PrefixOfLength(p, f);
  }

  lemma ShrunkRemoves<K, V>(t0: map<Path, Cell<map<K, V>>>, store: map<Entry<K>, V>, t: map<Path, Cell<map<K, V>>>,
                            f: Path, k: K)
    requires Holds(t0, store) && f != [] && f in t0
    requires Shrunk(WithCell(t0, f, t0[f].count, t0[f].value - {k}), t, f, 0)
    ensures Removed(t0, t, f, k) && KeepsIds(t0, t) && t.Keys <= t0.Keys
  {
    hide Shrunk;
    hide Holds;
    forall p ensures p in t <==> p in t0 && !(OnPath(p, f, 0, |f|) && t0[p].count == 1)
             ensures p in t && p != [] ==> t[p].count == t0[p].count - if OnPath(p, f, 0, |f|) then 1 else 0
             ensures p in t ==> t[p].id == t0[p].id && t[p].value == if p == f then t0[p].value - {k} else t0[p].value {
      ShrunkAt(t0, store, t, f, k, p);
    }
  }

  lemma ShrunkAt<K, V>(t0: map<Path, Cell<map<K, V>>>, store: map<Entry<K>, V>, t: map<Path, Cell<map<K, V>>>, f: Path,
                       k: K, p: Path)
    requires Holds(t0, store) && f != [] && f in t0
    requires Shrunk(WithCell(t0, f, t0[f].count, t0[f].value - {k}), t, f, 0)
    ensures p in t <==> p in t0 && !(OnPath(p, f, 0, |f|) && t0[p].count == 1)
    ensures p in t && p != [] ==> t[p].count == t0[p].count - if OnPath(p, f, 0, |f|) then 1 else 0
    ensures p in t ==> t[p].id == t0[p].id && t[p].value == if p == f then t0[p].value - {k} else t0[p].value
  {
  }

  lemma StoredHere<K, V>(tree: map<Path, Cell<map<K, V>>>, store: map<Entry<K>, V>, f: Path, k: K)
    requires Holds(tree, store) && f != []
    ensures Entry(f, k) in store <==> f in tree && k in tree[f].value
  {
    if Entry(f, k) in store {
      CountPositive(store.Keys, Entry(f, k), f);
      assert ValuesAt(store, f, tree[f].value);
    }
    if f in tree && k in tree[f].value {
      assert ValuesAt(store, f, tree[f].value);
    }
  }

  lemma AllPrefixes<X>(tree: map<Path, Cell<X>>, denote: map<Id, Path>, next: Id, f: Path)
    requires Shaped(tree, denote, next) && f in tree
    ensures forall i | 0 <= i <= |f| :: f[..i] in tree
  {
    forall i | 0 <= i <= |f| ensures f[..i] in tree {
      PrefixClosed(tree, denote, next, f, i);
    }
  }

  lemma PathKeysLast<X>(tree: map<Path, Cell<X>>, f: Filter)
    ensures PathKeys(tree, f) != [] && Last(PathKeys(tree, f)) == KeyOf(tree, f)
  {
  }

  /** Stores a key under a filter none of whose subscribers exist yet. */
  method InsertNew<K, V>(nodes0: map<Key, Node<map<K, V>>>, next0: Id, f: Filter, k: K, v: V,
                         ghost tree0: map<Path, Cell<map<K, V>>>, ghost denote0: map<Id, Path>,
                         ghost store: map<Entry<K>, V>)
    returns (nodes: map<Key, Node<map<K, V>>>, next: Id, h: Key, ghost tree: map<Path, Cell<map<K, V>>>,
             ghost denote: map<Id, Path>)
    requires Represents(nodes0, tree0, denote0, next0) && Holds(tree0, store) && f !in tree0
    ensures Represents(nodes, tree, denote, next) && Holds(tree, store[Entry(f, k) := v])
    ensures Extends(denote0, denote) && KeepsIds(tree0, tree) && NewIds(denote0, tree0, tree)
    ensures f in tree && h == KeyOf(tree, f)
  {
    StoredHere(tree0, store, f, k);
    var path;
    nodes, next, path, tree, denote := CreateTopicFilter(nodes0, next0, f, map[], tree0, denote0);
    PathKeysLast(tree, f);
    h := Last(path);
    CreatedInserts(tree0, tree, f, k, v);
    var n := nodes[h];
    SetNode(nodes, tree, denote, next, f, n.count, n.value[k := v]);
    SameKey(tree, f, n.count, n.value[k := v], f);
    nodes := nodes[h := n.(value := n.value[k := v])];
    tree := WithCell(tree, f, n.count, n.value[k := v]);
    InsertHolds(tree0, store, tree, f, k, v);
  }

  /** Assigns to a key at an existing node; a key that is new there raises the counts along the path. */
  method AssignAt<K, V>(nodes0: map<Key, Node<map<K, V>>>, h: Key, byPath: Option<seq<Key>>, k: K, v: V,
                        ghost f: Filter, ghost tree0: map<Path, Cell<map<K, V>>>, ghost denote: map<Id, Path>,
                        ghost next: Id, ghost store: map<Entry<K>, V>)
    returns (nodes: map<Key, Node<map<K, V>>>, inserted: bool, ghost tree: map<Path, Cell<map<K, V>>>)
    requires Represents(nodes0, tree0, denote, next) && Holds(tree0, store)
    requires f in tree0 && h == KeyOf(tree0, f)
    requires byPath.Some? ==> byPath.value == PathKeys(tree0, f)
    ensures Represents(nodes, tree, denote, next) && Holds(tree, store[Entry(f, k) := v])
    ensures KeepsIds(tree0, tree) && tree.Keys <= tree0.Keys
    ensures inserted <==> Entry(f, k) !in store
    ensures f in tree && h == KeyOf(tree, f)
  {
    StoredHere(tree0, store, f, k);
    PathHandle(nodes0, tree0, denote, next, f);
    var n := nodes0[h];
    inserted := k !in n.value;
    nodes := nodes0[h := n.(value := n.value[k := v])];
    SetNode(nodes0, tree0, denote, next, f, n.count, n.value[k := v]);
    tree := WithCell(tree0, f, n.count, n.value[k := v]);
    SameIdsSameKeys(tree0, tree, denote, next, f);
    if inserted {
      PathHandle(nodes, tree, denote, next, f);
      ghost var tree1 := tree;
      if byPath.Some? {
        nodes, tree := IncreaseSubscriptions(nodes, byPath.value, f, map[], tree, denote, next);
      } else {
        nodes, tree := IncreaseByHandle(nodes, h, map[], tree, denote, next);
      }
      SameIdsSameKeys(tree1, tree, denote, next, f);
      AllPrefixes(tree0, denote, next, f);
      RaisedInserts(tree0, tree, f, k, v);
      InsertHolds(tree0, store, tree, f, k, v);
    } else {
      AssignHolds(tree0, store, f, k, v);
    }
  }

  lemma KeyDropped<K, V>(nodes: map<Key, Node<map<K, V>>>, tree: map<Path, Cell<map<K, V>>>, denote: map<Id, Path>,
                         next: Id, store: map<Entry<K>, V>, f: Path, x: map<K, V>)
    requires Represents(nodes, tree, denote, next) && Holds(tree, store) && f in tree
    ensures var t := WithCell(tree, f, tree[f].count, x);
            && f in t && KeyOf(t, f) == KeyOf(tree, f) && PathKeys(t, f) == PathKeys(tree, f) && Counted(t, store.Keys)
  {
    SameIdsSameKeys(tree, WithCell(tree, f, tree[f].count, x), denote, next, f);
  }

  /** Removes a key that is stored at `f` and lowers the counts along the path. */
  method EraseAt<K, V>(nodes0: map<Key, Node<map<K, V>>>, h: Key, byPath: Option<seq<Key>>, k: K, ghost f: Filter,
                       ghost tree0: map<Path, Cell<map<K, V>>>, ghost denote: map<Id, Path>, ghost next: Id,
                       ghost store: map<Entry<K>, V>)
    returns (nodes: map<Key, Node<map<K, V>>>, erased: bool, ghost tree: map<Path, Cell<map<K, V>>>)
    requires Represents(nodes0, tree0, denote, next) && Holds(tree0, store)
    requires f in tree0 && h == KeyOf(tree0, f)
    requires byPath.Some? ==> byPath.value == PathKeys(tree0, f)
    ensures Represents(nodes, tree, denote, next) && Holds(tree, store - {Entry(f, k)})
    ensures KeepsIds(tree0, tree) && tree.Keys <= tree0.Keys
    ensures erased <==> Entry(f, k) in store
  {
    hide Represents;
    hide Shaped;
    hide Holds;
    hide Removed;
    hide Shrunk;
    hide WithCell;
    StoredHere(tree0, store, f, k);
    PathHandle(nodes0, tree0, denote, next, f);
    var n := nodes0[h];
    erased := k in n.value;
    nodes, tree := nodes0, tree0;
    if erased {
      nodes := nodes[h := n.(value := n.value - {k})];
      SetNode(nodes0, tree0, denote, next, f, n.count, n.value - {k});
      tree := WithCell(tree0, f, n.count, n.value - {k});
      KeyDropped(nodes0, tree0, denote, next, store, f, n.value - {k});
      PathHandle(nodes, tree, denote, next, f);
      var path: seq<Key>;
      if byPath.Some? {
        path := byPath.value;
      } else {
        var walked := HandleToIterators(nodes, h, tree, denote, next);
        path := walked.value;
      }
      nodes, tree := RemoveTopicFilter(nodes, path, tree, denote, next, store.Keys, Entry(f, k));
      ShrunkRemoves(tree0, store, tree, f, k);
      RemoveHolds(tree0, store, tree, f, k);
    } else {
      assert store - {Entry(f, k)} == store;
    }
  }
}
