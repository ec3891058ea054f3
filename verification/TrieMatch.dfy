/** Matching a published topic against the node table: the frontier loop of find_match_impl. */
module TrieMatch {
  import opened TopicFilter
  import opened TrieModel
  import opened NodeTable

  ghost predicate Distinct<T>(s: seq<T>) {
    forall i, j | 0 <= i < j < |s| :: s[i] != s[j]
  }

  /** `keys` are the table keys of the paths `at`, position by position. */
  ghost predicate Located<X>(keys: seq<Key>, at: seq<Path>, tree: map<Path, Cell<X>>) {
    |keys| == |at| && forall i | 0 <= i < |at| :: at[i] in tree && keys[i] == KeyOf(tree, at[i])
  }

  // ----- how often a path is met

  predicate Unhidden(topic: seq<Level>, n: nat)
    requires n < |topic|
  {
    n > 0 || !IsSystem(topic[0])
  }

  /** In how many ways level `l` of a filter is reached over level `n` of the topic: by its text, and as '+'. */
  function Weight(l: Level, topic: seq<Level>, n: nat): nat
    requires n < |topic|
  {
    (if l == topic[n] then 1 else 0) + if l == Plus && Unhidden(topic, n) then 1 else 0
  }

  /** In how many ways a path is reached over the first levels of the topic. */
  function Ways(p: Path, topic: seq<Level>): nat
    requires |p| <= |topic|
  {
    if p == [] then 1 else Ways(Init(p), topic) * Weight(Last(p), topic, |p| - 1)
  }

  /** How often a filter is met through its '#' while levels of the topic are consumed. */
  function HashWays(p: Path, topic: seq<Level>): nat {
    if EndsWithHash(p) && |p| <= |topic| && Unhidden(topic, |p| - 1) then Ways(Init(p), topic) else 0
  }

  /** How often a filter is met in all: through its '#', and at the end of the topic. */
  function Times(p: Path, topic: seq<Level>): nat {
    HashWays(p, topic) + if |p| == |topic| then Ways(p, topic) else 0
  }

  /** `p` follows the first |p| levels of the topic without using '#'. */
  predicate Follows(p: Path, topic: seq<Level>) {
    Agrees(p, topic) && !HiddenFrom(p, topic)
  }

  lemma FollowsStep(p: Path, topic: seq<Level>)
    requires 0 < |p| <= |topic|
    ensures Follows(p, topic) <==> Follows(Init(p), topic) && Weight(Last(p), topic, |p| - 1) > 0
  {
    var n := |p| - 1;
    if Agrees(Init(p), topic) && Weight(Last(p), topic, n) > 0 {
      forall i | 0 <= i < |p| ensures p[i] == Plus || p[i] == topic[i] {
        assert i < n ==> p[i] == Init(p)[i];
      }
    }
    if Agrees(p, topic) {
      assert p[n] == Plus || p[n] == topic[n];
      assert forall i | 0 <= i < n :: Init(p)[i] == p[i];
    }
    assert n > 0 ==> Init(p)[0] == p[0];
  }

  lemma {:induction false} WaysFollow(p: Path, topic: seq<Level>)
    requires |p| <= |topic|
    ensures Ways(p, topic) > 0 <==> Follows(p, topic)
    decreases |p|
  {
    if p != [] {
      FollowsStep(p, topic);
      WaysFollow(Init(p), topic);
      NoFactor(Ways(Init(p), topic), Weight(Last(p), topic, |p| - 1));
    }
  }

  lemma NoFactor(a: nat, b: nat)
    ensures a * b > 0 <==> a > 0 && b > 0
    ensures a <= 1 && b <= 1 ==> a * b <= 1
    ensures a > 0 ==> a * b >= b
    ensures b > 0 ==> a * b >= a
  {
  }

  /** A filter is met at all exactly when it matches. */
  lemma TimesMatches(p: Path, topic: seq<Level>)
    ensures Times(p, topic) > 0 <==> Matches(p, topic)
  {
    if |p| == |topic| {
      WaysFollow(p, topic);
    }
    if EndsWithHash(p) && |p| <= |topic| {
      WaysFollow(Init(p), topic);
      assert |p| > 1 ==> Init(p)[0] == p[0];
      assert |p| == |topic| && Agrees(p, topic) ==> Agrees(Init(p), topic);
    }
  }

  // ----- topics over which every filter is met once at most

  /** No level '+', and no '#' at the end. */
  predicate Single(topic: seq<Level>) {
    Plus !in topic && !EndsWithHash(topic)
  }

  lemma {:induction false} WaysOnce(p: Path, topic: seq<Level>)
    requires |p| <= |topic| && Plus !in topic
    ensures Ways(p, topic) <= 1
    decreases |p|
  {
    if p != [] {
      WaysOnce(Init(p), topic);
      assert topic[|p| - 1] in topic;
      NoFactor(Ways(Init(p), topic), Weight(Last(p), topic, |p| - 1));
    }
  }

  lemma TimesOnce(p: Path, topic: seq<Level>)
    requires Single(topic)
    ensures Times(p, topic) == if Matches(p, topic) then 1 else 0
  {
    TimesMatches(p, topic);
    if |p| <= |topic| {
      WaysOnce(p, topic);
      if EndsWithHash(p) {
        WaysOnce(Init(p), topic);
        NoFactor(Ways(Init(p), topic), Weight(Last(p), topic, |p| - 1));
      }
    }
  }

  /** A filter that is met more than once: every wildcard but a last '#' taken as '+'. */
  function Doubled(topic: seq<Level>): Path {
    seq(|topic|, i requires 0 <= i < |topic| => if IsWild(topic[i]) && i < |topic| - 1 then Plus else topic[i])
  }

  lemma {:induction false} WaysDoubled(p: Path, topic: seq<Level>)
    requires |p| <= |topic| && forall i | 0 <= i < |p| :: p[i] == topic[i] || (p[i] == Plus && topic[i] == Hash)
    ensures Ways(p, topic) >= if Plus in topic[..|p|] then 2 else 1
    decreases |p|
  {
    if p != [] {
      var n := |p| - 1;
      WaysDoubled(Init(p), topic);
      TakeSnoc(topic, n);
      assert p[n] == topic[n] || (p[n] == Plus && topic[n] == Hash);
      NoFactor(Ways(Init(p), topic), Weight(Last(p), topic, n));
    }
  }

  lemma TimesDoubled(topic: Filter)
    requires !Single(topic)
    ensures Times(Doubled(topic), topic) > 1 && forall i | 0 <= i < |topic| - 1 :: Doubled(topic)[i] != Hash
  {
    var p, n := Doubled(topic), |topic| - 1;
    WaysDoubled(p, topic);
    assert topic[..|p|] == topic;
    if EndsWithHash(topic) {
      WaysDoubled(Init(p), topic);
    }
  }

  /** Every filter is met once at most exactly when the topic has no level '+' and no '#' at its end. */
  lemma SingleExact(topic: Filter)
    ensures Single(topic) <==> forall p: Path :: Times(p, topic) <= 1
  {
    if Single(topic) {
      forall p: Path ensures Times(p, topic) <= 1 {
        TimesOnce(p, topic);
      }
    } else {
      TimesDoubled(topic);
    }
  }

  // ----- one level of the topic

  /** The frontier after `n` levels: every path of that length, as often as it is reached. */
  ghost predicate Frontier<X>(at: seq<Path>, tree: map<Path, Cell<X>>, topic: seq<Level>, n: nat)
    requires n <= |topic|
  {
    forall p :: multiset(at)[p] == if p in tree && |p| == n then Ways(p, topic) else 0
  }

  /** The '#' filters of at most `n` levels, as often as they are met. */
  ghost predicate Hashes<X>(at: seq<Path>, tree: map<Path, Cell<X>>, topic: seq<Level>, n: nat) {
    forall p :: multiset(at)[p] == if p in tree && |p| <= n then HashWays(p, topic) else 0
  }

  /** The children of `parents` over which the topic goes on at level `n`. */
  ghost predicate Onward<X>(at: seq<Path>, parents: seq<Path>, tree: map<Path, Cell<X>>, topic: seq<Level>, n: nat)
    requires n < |topic|
  {
    forall q :: multiset(at)[q] == if q in tree && q != [] then multiset(parents)[Init(q)] * Weight(Last(q), topic, n)
        else 0
  }

  /** The '#' children of `parents` that level `n` of the topic reaches. */
  ghost predicate Caught<X>(at: seq<Path>, parents: seq<Path>, tree: map<Path, Cell<X>>, topic: seq<Level>, n: nat)
    requires n < |topic|
  {
    forall q :: multiset(at)[q] == if q in tree && EndsWithHash(q) && Unhidden(topic, n)
        then multiset(parents)[Init(q)] else 0
  }

  lemma Distributes(a: nat, b: nat, w: nat)
    ensures (a + b) * w == a * w + b * w
  {
  }

  lemma OnwardConcat<X>(a: seq<Path>, b: seq<Path>, ps: seq<Path>, p: Path, tree: map<Path, Cell<X>>, topic: seq<Level>,
                        n: nat)
    requires n < |topic|
    requires Onward(a, ps, tree, topic, n) && Onward(b, [p], tree, topic, n)
    ensures Onward(a + b, ps + [p], tree, topic, n)
  {
    hide Weight;
    forall q
      ensures multiset(a + b)[q]
           == if q in tree && q != [] then multiset(ps + [p])[Init(q)] * Weight(Last(q), topic, n) else 0
    {
      assert multiset(a + b)[q] == multiset(a)[q] + multiset(b)[q];
      if q != [] {
        Distributes(multiset(ps)[Init(q)], multiset([p])[Init(q)], Weight(Last(q), topic, n));
      }
    }
  }

  lemma CaughtConcat<X>(a: seq<Path>, b: seq<Path>, ps: seq<Path>, p: Path, tree: map<Path, Cell<X>>, topic: seq<Level>,
                        n: nat)
    requires n < |topic|
    requires Caught(a, ps, tree, topic, n) && Caught(b, [p], tree, topic, n)
    ensures Caught(a + b, ps + [p], tree, topic, n)
  {
  }

  ghost function ChildIf<X>(tree: map<Path, Cell<X>>, p: Path, l: Level, wanted: bool): seq<Path> {
    if wanted && p + [l] in tree then [p + [l]] else []
  }

  lemma ChildCount<X>(tree: map<Path, Cell<X>>, p: Path, l: Level, wanted: bool, q: Path)
    ensures multiset(ChildIf(tree, p, l, wanted))[q]
         == if q in tree && q != [] && Init(q) == p && Last(q) == l && wanted then 1 else 0
  {
    assert q != [] && Init(q) == p ==> q == p + [Last(q)];
    assert Init(p + [l]) == p && Last(p + [l]) == l;
  }

  lemma OnwardOne<X>(tree: map<Path, Cell<X>>, p: Path, topic: seq<Level>, n: nat)
    requires n < |topic|
    ensures Onward(ChildIf(tree, p, topic[n], true) + ChildIf(tree, p, Plus, Unhidden(topic, n)), [p], tree, topic, n)
  {
    var a, b := ChildIf(tree, p, topic[n], true), ChildIf(tree, p, Plus, Unhidden(topic, n));
    forall q ensures multiset(a + b)[q] == if q in tree && q != []
        then multiset([p])[Init(q)] * Weight(Last(q), topic, n) else 0 {
      OnwardAt(tree, p, topic, n, q);
    }
  }

  lemma OnwardAt<X>(tree: map<Path, Cell<X>>, p: Path, topic: seq<Level>, n: nat, q: Path)
    requires n < |topic|
    ensures multiset(ChildIf(tree, p, topic[n], true) + ChildIf(tree, p, Plus, Unhidden(topic, n)))[q]
         == if q in tree && q != [] then multiset([p])[Init(q)] * Weight(Last(q), topic, n) else 0
  {
    var a, b := ChildIf(tree, p, topic[n], true), ChildIf(tree, p, Plus, Unhidden(topic, n));
    ChildCount(tree, p, topic[n], true, q);
    ChildCount(tree, p, Plus, Unhidden(topic, n), q);
    hide ChildIf;
    assert multiset(a + b)[q] == multiset(a)[q] + multiset(b)[q];
    if q != [] {
      assert multiset([p])[Init(q)] == if Init(q) == p then 1 else 0;
    }
  }

  lemma CaughtOne<X>(tree: map<Path, Cell<X>>, p: Path, topic: seq<Level>, n: nat)
    requires n < |topic|
    ensures Caught(ChildIf(tree, p, Hash, Unhidden(topic, n)), [p], tree, topic, n)
  {
    forall q
      ensures multiset(ChildIf(tree, p, Hash, Unhidden(topic, n)))[q]
           == if q in tree && EndsWithHash(q) && Unhidden(topic, n) then multiset([p])[Init(q)] else 0
    {
      ChildCount(tree, p, Hash, Unhidden(topic, n), q);
    }
  }

  /** What one frontier node contributes while level `n` of the topic is consumed. */
  method ExpandNode<X>(nodes: map<Key, Node<X>>, entry: Key, topic: seq<Level>, n: nat, ghost p: Path,
                       ghost tree: map<Path, Cell<X>>, ghost denote: map<Id, Path>, ghost next: Id)
    returns (below: seq<Key>, hits: seq<Key>)
    requires Represents(nodes, tree, denote, next)
    requires n < |topic|
    requires p in tree && |p| == n && entry == KeyOf(tree, p)
    ensures Located(below, ChildIf(tree, p, topic[n], true) + ChildIf(tree, p, Plus, Unhidden(topic, n)), tree)
    ensures Located(hits, ChildIf(tree, p, Hash, Unhidden(topic, n)), tree)
  {
    var t := topic[n];
    var parent := nodes[entry].id;
    assert parent == ROOT_ID <==> p == [];
    ChildKey(nodes, tree, denote, next, p, t);
    ChildKey(nodes, tree, denote, next, p, Plus);
    ChildKey(nodes, tree, denote, next, p, Hash);
    below, hits := [], [];
    if Key(parent, t) in nodes {
      below := [Key(parent, t)];
    }
    if nodes[entry].hasPlus && Key(parent, Plus) in nodes && (parent != ROOT_ID || !IsSystem(t)) {
      below := below + [Key(parent, Plus)];
    }
    if nodes[entry].hasHash && Key(parent, Hash) in nodes && (parent != ROOT_ID || !IsSystem(t)) {
      hits := [Key(parent, Hash)];
    }
  }

  lemma DistinctConcat<T>(a: seq<T>, b: seq<T>)
    requires Distinct(a) && Distinct(b)
    requires forall x | x in a :: x !in b
    ensures Distinct(a + b)
  {
    var c := a + b;
    forall i, j | 0 <= i < j < |c| ensures c[i] != c[j] {
      if i < |a| <= j {
        assert c[i] in a && c[j] == b[j - |a|];
      }
    }
  }

  lemma LocatedConcat<X>(ks: seq<Key>, at: seq<Path>, ks': seq<Key>, at': seq<Path>, tree: map<Path, Cell<X>>)
    requires Located(ks, at, tree) && Located(ks', at', tree)
    ensures Located(ks + ks', at + at', tree)
  {
  }

  /** Consuming level `n` of the topic: the next frontier, and the '#' nodes whose values are reported. */
  method MatchLevel<X>(nodes: map<Key, Node<X>>, entries: seq<Key>, topic: seq<Level>, n: nat, ghost front: seq<Path>,
                       ghost tree: map<Path, Cell<X>>, ghost denote: map<Id, Path>, ghost next: Id)
    returns (newEntries: seq<Key>, hits: seq<Key>, ghost newFront: seq<Path>, ghost hitsAt: seq<Path>)
    requires Represents(nodes, tree, denote, next)
    requires n < |topic|
    requires Located(entries, front, tree) && forall p | p in front :: |p| == n
    ensures Located(newEntries, newFront, tree) && Located(hits, hitsAt, tree)
    ensures Onward(newFront, front, tree, topic, n) && Caught(hitsAt, front, tree, topic, n)
  {
    newEntries, hits, newFront, hitsAt := [], [], [], [];
    NoParents(tree, topic, n);
    hide Onward;
    hide Caught;
    for j := 0 to |entries|
      invariant Located(newEntries, newFront, tree) && Located(hits, hitsAt, tree)
      invariant Onward(newFront, front[..j], tree, topic, n) && Caught(hitsAt, front[..j], tree, topic, n)
    {
      assert front[j] in front;
      var below, more := ExpandNode(nodes, entries[j], topic, n, front[j], tree, denote, next);
      ghost var belowAt := ChildIf(tree, front[j], topic[n], true) + ChildIf(tree, front[j], Plus, Unhidden(topic, n));
      ghost var moreAt := ChildIf(tree, front[j], Hash, Unhidden(topic, n));
      OnwardOne(tree, front[j], topic, n);
      CaughtOne(tree, front[j], topic, n);
      TakeSnoc(front, j);
      OnwardConcat(newFront, belowAt, front[..j], front[j], tree, topic, n);
      CaughtConcat(hitsAt, moreAt, front[..j], front[j], tree, topic, n);
      LocatedConcat(newEntries, newFront, below, belowAt, tree);
      LocatedConcat(hits, hitsAt, more, moreAt, tree);
      newEntries, newFront := newEntries + below, newFront + belowAt;
      hits, hitsAt := hits + more, hitsAt + moreAt;
    }
    assert front[..|entries|] == front;
  }

  lemma NoParents<X>(tree: map<Path, Cell<X>>, topic: seq<Level>, n: nat)
    requires n < |topic|
    ensures Onward([], [], tree, topic, n) && Caught([], [], tree, topic, n)
  {
  }

  lemma FrontLength<X>(front: seq<Path>, tree: map<Path, Cell<X>>, topic: seq<Level>, n: nat)
    requires n <= |topic| && Frontier(front, tree, topic, n)
    ensures forall p | p in front :: |p| == n
  {
    forall p | p in front ensures |p| == n {
      assert multiset(front)[p] > 0;
    }
  }

  lemma FrontierStep<X>(front: seq<Path>, newFront: seq<Path>, tree: map<Path, Cell<X>>, denote: map<Id, Path>,
                        next: Id, topic: seq<Level>, n: nat)
    requires Shaped(tree, denote, next) && n < |topic|
    requires Frontier(front, tree, topic, n) && Onward(newFront, front, tree, topic, n)
    ensures Frontier(newFront, tree, topic, n + 1)
  {
    hide Weight;
    forall q ensures multiset(newFront)[q] == if q in tree && |q| == n + 1 then Ways(q, topic) else 0 {
      if q in tree && q != [] {
        assert Init(q) in tree;
        assert multiset(front)[Init(q)] == if |q| == n + 1 then Ways(Init(q), topic) else 0;
      }
    }
  }

  lemma HashesStep<X>(front: seq<Path>, at: seq<Path>, more: seq<Path>, tree: map<Path, Cell<X>>, denote: map<Id, Path>,
                      next: Id, topic: seq<Level>, n: nat)
    requires Shaped(tree, denote, next) && n < |topic|
    requires Frontier(front, tree, topic, n) && Hashes(at, tree, topic, n) && Caught(more, front, tree, topic, n)
    ensures Hashes(at + more, tree, topic, n + 1)
  {
    hide Ways;
    forall q ensures multiset(at + more)[q] == if q in tree && |q| <= n + 1 then HashWays(q, topic) else 0 {
      assert multiset(at + more)[q] == multiset(at)[q] + multiset(more)[q];
      if q in tree && q != [] {
        assert Init(q) in tree;
        assert multiset(front)[Init(q)] == if |q| == n + 1 then Ways(Init(q), topic) else 0;
      }
    }
  }

  lemma {:induction false} WaysPrefix(p: Path, topic: seq<Level>, n: nat)
    requires n <= |p| <= |topic| && Ways(p[..n], topic) == 0
    ensures Ways(p, topic) == 0
    decreases |p|
  {
    if n == |p| {
      assert p[..n] == p;
    } else {
      assert Init(p)[..n] == p[..n];
      WaysPrefix(Init(p), topic, n);
    }
  }

  /** Once the frontier is empty nothing longer is met. */
  lemma DeadEnd<X>(tree: map<Path, Cell<X>>, denote: map<Id, Path>, next: Id, topic: seq<Level>, n: nat, p: Path)
    requires Shaped(tree, denote, next) && n < |topic|
    requires Frontier([], tree, topic, n)
    requires p in tree && n < |p|
    ensures Times(p, topic) == 0
  {
    PrefixClosed(tree, denote, next, p, n);
    assert multiset([])[p[..n]] == 0;
    if |p| <= |topic| {
      WaysPrefix(p, topic, n);
      assert Init(p)[..n] == p[..n];
      WaysPrefix(Init(p), topic, n);
    }
  }

  /**
   * Visits the nodes whose filter matches the topic: '#' nodes while levels are consumed, then whatever is
   * left in the frontier. How often each one is visited is a matter of its filter and the topic alone.
   */
  method FindMatch<X>(nodes: map<Key, Node<X>>, topic: seq<Level>, ghost tree: map<Path, Cell<X>>,
                      ghost denote: map<Id, Path>, ghost next: Id)
    returns (visited: seq<Key>, ghost at: seq<Path>)
    requires Represents(nodes, tree, denote, next)
    ensures Located(visited, at, tree) && Met(at, tree, topic)
  {
    assert Shaped(tree, denote, next);
    var entries := [ROOT_KEY];
    ghost var front: seq<Path> := [[]];
    visited, at := [], [];
    var n := 0;
    StartMatch(tree, denote, next, topic);
    hide Frontier;
    hide Hashes;
    hide Met;
    hide Onward;
    hide Caught;
    hide Located;
    hide Represents;
    hide Shaped;
    while n < |topic| && |entries| > 0
      invariant 0 <= n <= |topic|
      invariant Located(entries, front, tree) && Frontier(front, tree, topic, n)
      invariant Located(visited, at, tree) && Hashes(at, tree, topic, n)
    {
      FrontLength(front, tree, topic, n);
      var newEntries, hits, newFront, hitsAt := MatchLevel(nodes, entries, topic, n, front, tree, denote, next);
      FrontierStep(front, newFront, tree, denote, next, topic, n);
      HashesStep(front, at, hitsAt, tree, denote, next, topic, n);
      LocatedConcat(visited, at, hits, hitsAt, tree);
      entries, front := newEntries, newFront;
      visited, at := visited + hits, at + hitsAt;
      n := n + 1;
    }
    NoneLeft(entries, front, tree);
    MatchEnd(front, at, tree, denote, next, topic, n);
    LocatedConcat(visited, at, entries, front, tree);
    visited, at := visited + entries, at + front;
  }

  lemma NoneLeft<X>(entries: seq<Key>, front: seq<Path>, tree: map<Path, Cell<X>>)
    requires Located(entries, front, tree)
    ensures entries == [] <==> front == []
  {
  }

  lemma StartMatch<X>(tree: map<Path, Cell<X>>, denote: map<Id, Path>, next: Id, topic: seq<Level>)
    requires Shaped(tree, denote, next)
    ensures Frontier([[]], tree, topic, 0) && Hashes([], tree, topic, 0)
    ensures Located([ROOT_KEY], [[]], tree) && Located([], [], tree)
  {
    forall p ensures multiset([[]])[p] == if p in tree && |p| == 0 then Ways(p, topic) else 0 {
      assert |p| == 0 ==> p == [];
    }
  }

  /** The nodes of the tree, each as often as its filter is met. */
  ghost predicate Met<X>(at: seq<Path>, tree: map<Path, Cell<X>>, topic: seq<Level>) {
    forall p :: multiset(at)[p] == if p in tree then Times(p, topic) else 0
  }

  lemma MatchEnd<X>(front: seq<Path>, at: seq<Path>, tree: map<Path, Cell<X>>, denote: map<Id, Path>, next: Id,
                    topic: seq<Level>, n: nat)
    requires Shaped(tree, denote, next) && n <= |topic|
    requires Frontier(front, tree, topic, n) && Hashes(at, tree, topic, n) && (n == |topic| || front == [])
    ensures Met(at + front, tree, topic)
  {
    hide Ways;
    forall p ensures multiset(at + front)[p] == if p in tree then Times(p, topic) else 0 {
      assert multiset(at + front)[p] == multiset(at)[p] + multiset(front)[p];
      if p in tree && n < |topic| {
        if n < |p| {
          DeadEnd(tree, denote, next, topic, n, p);
        }
      }
    }
  }

  lemma SinglesDistinct<T>(s: seq<T>)
    requires forall x :: multiset(s)[x] <= 1
    ensures Distinct(s)
  {
    forall i, j | 0 <= i < j < |s| ensures s[i] != s[j] {
      assert s == s[..i] + [s[i]] + s[i + 1..j] + [s[j]] + s[j + 1..];
      assert multiset(s)[s[j]] <= 1;
    }
  }
}
