/** Walks along one path of the tree: counts raised on insertion, lowered and pruned on removal. */
module TreeCounts {
  import opened TopicFilter
  import opened TrieModel

  /** `p` is one of the prefixes of `f` of length lo + 1 .. hi. */
  ghost predicate OnPath(p: Path, f: Path, lo: nat, hi: nat) {
    p <= f && lo < |p| <= hi
  }

  /** `t` is `t0` with the counts of the prefixes of length lo + 1 .. hi raised, missing ones created. */
  ghost predicate Grown<X>(t0: map<Path, Cell<X>>, t: map<Path, Cell<X>>, f: Path, lo: nat, hi: nat, x0: X) {
    && (forall p :: p in t <==> p in t0 || OnPath(p, f, lo, hi))
    && (forall p | p in t0 :: t[p] == t0[p].(count := t0[p].count + if OnPath(p, f, lo, hi) then 1 else 0))
    && (forall p | p in t && p !in t0 :: t[p].count == 1 && t[p].value == x0)
  }

  /** `t` is `t0` with the counts of the prefixes longer than `lo` lowered, and those that reach zero dropped. */
  ghost predicate Shrunk<X>(t0: map<Path, Cell<X>>, t: map<Path, Cell<X>>, f: Path, lo: nat) {
    && (forall p :: p in t <==> p in t0 && !(OnPath(p, f, lo, |f|) && t0[p].count == 1))
    && (forall p | p in t :: t[p] == if OnPath(p, f, lo, |f|) && t0[p].count > 0
                                     then t0[p].(count := t0[p].count - 1) else t0[p])
  }

  lemma PrefixOfLength(p: Path, f: Path)
    ensures p <= f ==> p == f[..|p|]
  {
  }

  /** The next level is already there: raising its count extends the grown range upwards. */
  lemma GrowOld<X>(t0: map<Path, Cell<X>>, t: map<Path, Cell<X>>, f: Path, i: nat, x0: X)
    requires i < |f| && Grown(t0, t, f, 0, i, x0)
    requires f[..i + 1] in t
    ensures var c := t[f[..i + 1]]; Grown(t0, WithCell(t, f[..i + 1], c.count + 1, c.value), f, 0, i + 1, x0)
  {
    var q := f[..i + 1];
    assert !OnPath(q, f, 0, i) && OnPath(q, f, 0, i + 1);
    forall p ensures OnPath(p, f, 0, i + 1) <==> OnPath(p, f, 0, i) || p == q {
      PrefixOfLength(p, f);
    }
  }

  /** The next level is missing: adding it as a leaf extends the grown range as well. */
  lemma GrowNew<X>(t0: map<Path, Cell<X>>, t: map<Path, Cell<X>>, f: Path, i: nat, x0: X, next: Id)
    requires i < |f| && Grown(t0, t, f, 0, i, x0)
    requires f[..i + 1] !in t
    ensures Grown(t0, WithLeaf(t, next, f[..i], f[i], x0), f, 0, i + 1, x0)
  {
    var q := f[..i + 1];
    assert f[..i] + [f[i]] == q;
    forall p ensures OnPath(p, f, 0, i + 1) <==> OnPath(p, f, 0, i) || p == q {
      PrefixOfLength(p, f);
    }
  }

  /** Raising counts from the leaf upwards. */
  lemma GrowAbove<X>(t0: map<Path, Cell<X>>, t: map<Path, Cell<X>>, f: Path, i: nat, x0: X)
    requires 0 < i <= |f| && Grown(t0, t, f, i, |f|, x0)
    requires f[..i] in t0
    ensures var c := t[f[..i]]; Grown(t0, WithCell(t, f[..i], c.count + 1, c.value), f, i - 1, |f|, x0)
  {
    var q := f[..i];
    assert !OnPath(q, f, i, |f|) && OnPath(q, f, i - 1, |f|);
    forall p ensures OnPath(p, f, i - 1, |f|) <==> OnPath(p, f, i, |f|) || p == q {
      PrefixOfLength(p, f);
    }
  }

  /** Lowering one more count, and dropping the node when it reaches zero. */
  lemma Shrink<X>(t0: map<Path, Cell<X>>, t: map<Path, Cell<X>>, f: Path, i: nat)
    requires 0 < i <= |f| && Shrunk(t0, t, f, i)
    requires f[..i] in t0 && t0[f[..i]].count > 0
    ensures f[..i] in t && t[f[..i]] == t0[f[..i]]
    ensures var c := t[f[..i]]; var lowered := WithCell(t, f[..i], c.count - 1, c.value);
            Shrunk(t0, if c.count == 1 then lowered - {f[..i]} else lowered, f, i - 1)
  {
    var q := f[..i];
    assert !OnPath(q, f, i, |f|) && OnPath(q, f, i - 1, |f|);
    forall p ensures OnPath(p, f, i - 1, |f|) <==> OnPath(p, f, i, |f|) || p == q {
      PrefixOfLength(p, f);
    }
  }

  // ----- counts of entries

  lemma CountInsert<K>(entries: set<Entry<K>>, e: Entry<K>, p: Path)
    requires e !in entries
    ensures Count(entries + {e}, p) == Count(entries, p) + if p <= e.filter then 1 else 0
  {
    if p <= e.filter {
      assert Below(entries + {e}, p) == Below(entries, p) + {e};
    } else {
      assert Below(entries + {e}, p) == Below(entries, p);
    }
  }

  lemma CountRemove<K>(entries: set<Entry<K>>, e: Entry<K>, p: Path)
    requires e in entries
    ensures Count(entries - {e}, p) == Count(entries, p) - if p <= e.filter then 1 else 0
  {
    assert (entries - {e}) + {e} == entries;
    CountInsert(entries - {e}, e, p);
  }

  lemma CountPositive<K>(entries: set<Entry<K>>, e: Entry<K>, p: Path)
    requires e in entries && p <= e.filter
    ensures Count(entries, p) > 0
  {
    assert e in Below(entries, p);
  }

  /** Counts do not grow away from the root. */
  lemma CountAntitone<K>(entries: set<Entry<K>>, p: Path, q: Path)
    requires p <= q
    ensures Count(entries, q) <= Count(entries, p)
  {
    var a, b := Below(entries, q), Below(entries, p);
    assert a <= b;
    CardinalityMonotone(a, b);
  }

  lemma CardinalityMonotone<T>(a: set<T>, b: set<T>)
    requires a <= b
    ensures |a| <= |b|
  {
    assert b == a + (b - a);
  }

  lemma EmptyCount<K>(p: Path)
    ensures Count<K>({}, p) == 0
  {
    assert Below<K>({}, p) == {};
  }

  /** The node that held the last entry below it has lost all its children by the time it is dropped. */
  lemma LastIsChildless<K, X>(t0: map<Path, Cell<X>>, entries: set<Entry<K>>, t: map<Path, Cell<X>>, e: Entry<K>,
                              i: nat, l: Level)
    requires Counted(t0, entries) && e in entries
    requires 0 < i <= |e.filter| && Shrunk(t0, t, e.filter, i)
    requires Count(entries, e.filter[..i]) == 1
    ensures e.filter[..i] + [l] !in t
  {
    var q := e.filter[..i];
    var c := q + [l];
    if c in t {
      var d :| d in Below(entries, c);
      assert q <= c <= d.filter;
      assert {d, e} <= Below(entries, q);
      CardinalityMonotone({d, e}, Below(entries, q));
      assert d == e;
      CountAntitone(entries, q, c);
    }
  }

  // ----- the store after one insertion or removal

  /** `t` is `t0` with key `k` newly stored at `f`. */
  ghost predicate Inserted<K, V>(t0: map<Path, Cell<map<K, V>>>, t: map<Path, Cell<map<K, V>>>, f: Path, k: K, v: V) {
    && (forall p :: p in t <==> p in t0 || OnPath(p, f, 0, |f|))
    && (forall p | p in t && p != [] ::
          t[p].count == (if p in t0 then t0[p].count else 0) + if OnPath(p, f, 0, |f|) then 1 else 0)
    && (forall p | p in t :: var before := if p in t0 then t0[p].value else map[];
          t[p].value == if p == f then before[k := v] else before)
  }

  lemma InsertHolds<K, V>(t0: map<Path, Cell<map<K, V>>>, store: map<Entry<K>, V>, t: map<Path, Cell<map<K, V>>>,
                          f: Path, k: K, v: V)
    requires Holds(t0, store) && f != [] && Entry(f, k) !in store
    requires Inserted(t0, t, f, k, v)
    ensures Holds(t, store[Entry(f, k) := v])
  {
    var e := Entry(f, k);
    var store' := store[e := v];
    assert store'.Keys == store.Keys + {e};
    forall p ensures p in t <==> p == [] || Count(store'.Keys, p) > 0 {
      CountInsert(store.Keys, e, p);
      assert OnPath(p, f, 0, |f|) <==> p != [] && p <= f;
    }
    forall p | p in t && p != [] ensures t[p].count == Count(store'.Keys, p) {
      CountInsert(store.Keys, e, p);
    }
    forall p | p in t ensures ValuesAt(store', p, t[p].value) {
      InsertValues(t0, store, t, f, k, v, p);
    }
  }

  lemma InsertValues<K, V>(t0: map<Path, Cell<map<K, V>>>, store: map<Entry<K>, V>, t: map<Path, Cell<map<K, V>>>,
                           f: Path, k: K, v: V, p: Path)
    requires Holds(t0, store) && f != [] && Entry(f, k) !in store
    requires Inserted(t0, t, f, k, v) && p in t
    ensures ValuesAt(store[Entry(f, k) := v], p, t[p].value)
  {
    var before := if p in t0 then t0[p].value else map[];
    assert ValuesAt(store, p, before) by {
      if p !in t0 {
        forall e | e in store && e.filter == p ensures false {
          CountPositive(store.Keys, e, p);
        }
      }
    }
    assert t[p].value == if p == f then before[k := v] else before;
  }

  /** Assigning to a key that is already stored changes no count. */
  lemma AssignHolds<K, V>(t0: map<Path, Cell<map<K, V>>>, store: map<Entry<K>, V>, f: Path, k: K, v: V)
    requires Holds(t0, store) && f in t0 && Entry(f, k) in store
    ensures Holds(WithCell(t0, f, t0[f].count, t0[f].value[k := v]), store[Entry(f, k) := v])
  {
    var store' := store[Entry(f, k) := v];
    assert store'.Keys == store.Keys;
    var t := WithCell(t0, f, t0[f].count, t0[f].value[k := v]);
    forall p | p in t ensures ValuesAt(store', p, t[p].value) {
      assert ValuesAt(store, p, t0[p].value);
    }
  }

  /** `t` is `t0` with key `k` removed from `f`. */
  ghost predicate Removed<K, V>(t0: map<Path, Cell<map<K, V>>>, t: map<Path, Cell<map<K, V>>>, f: Path, k: K) {
    && (forall p :: p in t <==> p in t0 && !(OnPath(p, f, 0, |f|) && t0[p].count == 1))
    && (forall p | p in t && p != [] :: t[p].count == t0[p].count - if OnPath(p, f, 0, |f|) then 1 else 0)
    && (forall p | p in t :: t[p].value == if p == f then t0[p].value - {k} else t0[p].value)
  }

  lemma RemoveHolds<K, V>(t0: map<Path, Cell<map<K, V>>>, store: map<Entry<K>, V>, t: map<Path, Cell<map<K, V>>>,
                          f: Path, k: K)
    requires Holds(t0, store) && f != [] && Entry(f, k) in store
    requires Removed(t0, t, f, k)
    ensures Holds(t, store - {Entry(f, k)})
  {
    var e := Entry(f, k);
    var store' := store - {e};
    assert store'.Keys == store.Keys - {e};
    forall p ensures p in t <==> p == [] || Count(store'.Keys, p) > 0 {
      CountRemove(store.Keys, e, p);
      assert OnPath(p, f, 0, |f|) <==> p != [] && p <= f;
    }
    forall p | p in t && p != [] ensures t[p].count == Count(store'.Keys, p) {
      CountRemove(store.Keys, e, p);
    }
    forall p | p in t ensures ValuesAt(store', p, t[p].value) {
      assert ValuesAt(store, p, t0[p].value);
    }
  }
}
