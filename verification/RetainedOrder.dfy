/** The order in which a search over the retained topics meets nodes: by age at the first level where they part. */
module RetainedOrder {
  import opened Wrappers
  import opened TopicFilter
  import opened TrieModel
  import opened TrieMatch
  import opened RetainedModel

  ghost predicate PartsAt<V>(tree: Tree<V>, p: Path, q: Path, n: nat) {
    && n < |p| && n < |q| && p[..n] == q[..n]
    && p[..n + 1] in tree && q[..n + 1] in tree && tree[p[..n + 1]].id < tree[q[..n + 1]].id
  }

  /** At the first level where the paths part, the node of `p` was created before that of `q`. */
  ghost predicate Earlier<V>(tree: Tree<V>, p: Path, q: Path) {
    exists n: nat :: PartsAt(tree, p, q, n)
  }

  ghost predicate Ordered<V>(at: seq<Path>, tree: Tree<V>) {
    forall i, j | 0 <= i < j < |at| :: Earlier(tree, at[i], at[j])
  }

  lemma PartedBelow<V>(tree: Tree<V>, p: Path, q: Path, n: nat, m: nat)
    requires PartsAt(tree, p, q, n) && n < m <= |p| && m <= |q|
    ensures p[..m] != q[..m]
  {
    assert p[..m][..n + 1] == p[..n + 1] && q[..m][..n + 1] == q[..n + 1];
  }

  lemma EarlierAsymmetric<V>(tree: Tree<V>, p: Path, q: Path)
    requires Earlier(tree, p, q)
    ensures !Earlier(tree, q, p)
  {
    var n: nat :| PartsAt(tree, p, q, n);
    forall m: nat ensures !PartsAt(tree, q, p, m) {
      if n < m <= |p| && m <= |q| {
        PartedBelow(tree, p, q, n, m);
      } else if m < n && PartsAt(tree, q, p, m) {
        PartedBelow(tree, q, p, m, n);
      }
    }
  }

  lemma EarlierBelow<V>(tree: Tree<V>, p: Path, q: Path)
    requires p != [] && q != [] && Earlier(tree, Init(p), Init(q))
    ensures Earlier(tree, p, q)
  {
    var n: nat :| PartsAt(tree, Init(p), Init(q), n);
    assert Init(p)[..n] == p[..n] && Init(q)[..n] == q[..n];
    assert Init(p)[..n + 1] == p[..n + 1] && Init(q)[..n + 1] == q[..n + 1];
    assert PartsAt(tree, p, q, n);
  }

  lemma EarlierSibling<V>(tree: Tree<V>, p: Path, q: Path)
    requires p in tree && q in tree && p != [] && q != [] && Init(p) == Init(q) && tree[p].id < tree[q].id
    ensures Earlier(tree, p, q)
  {
    var n := |p| - 1;
    assert p[..n + 1] == p && q[..n + 1] == q;
    assert PartsAt(tree, p, q, n);
  }

  /** Going through parents in order, and through the children of each in order, keeps the order. */
  lemma OrderedConcat<V>(tree: Tree<V>, parents: seq<Path>, j: nat, a: seq<Path>, b: seq<Path>)
    requires j < |parents| && Ordered(parents, tree) && Ordered(a, tree) && Ordered(b, tree)
    requires forall q | q in a :: q != [] && Init(q) in parents[..j]
    requires forall q | q in b :: q != [] && Init(q) == parents[j]
    ensures Ordered(a + b, tree)
  {
    var all := a + b;
    forall i, k | 0 <= i < k < |all| ensures Earlier(tree, all[i], all[k]) {
      if i < |a| <= k {
        var p, q := all[i], all[k];
        assert p in a && q == b[k - |a|] && q in b;
        var m :| 0 <= m < j && parents[m] == Init(p);
        assert Earlier(tree, parents[m], parents[j]);
        EarlierBelow(tree, p, q);
      }
    }
  }

  /** The first of an ordered list is the one that nothing in the list comes before. */
  lemma FirstIsEarliest<V>(at: seq<Path>, tree: Tree<V>, p: Path)
    requires Ordered(at, tree) && p in at
    ensures at[0] == p <==> forall r | r in at :: !Earlier(tree, r, p)
  {
    if at[0] == p {
      forall r | r in at ensures !Earlier(tree, r, p) {
        if Earlier(tree, r, p) {
          EarlierAsymmetric(tree, r, p);
        }
      }
    }
    assert at[0] in at;
  }
}
