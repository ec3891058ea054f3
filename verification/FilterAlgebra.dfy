/** Filter intersection and covering, as the subscribe authorization computes them level by level. */
module FilterAlgebra {
  import opened Wrappers
  import opened TopicFilter

  /** '#' only as the last level. */
  predicate ValidFilter(f: seq<Level>) {
    |f| > 0 && HashLast(f)
  }

  predicate HashLast(f: seq<Level>) {
    forall i | 0 <= i < |f| - 1 :: f[i] != Hash
  }

  /** The position of the first '#', or the length. */
  function FirstHash(f: seq<Level>): (n: nat)
    ensures n <= |f| && (forall i | 0 <= i < n :: f[i] != Hash) && (n < |f| ==> f[n] == Hash)
  {
    if f == [] || f[0] == Hash then 0 else 1 + FirstHash(f[1..])
  }

  /** The levels up to the first '#', which is as far as a walk that stops there looks. */
  function UpToHash(f: seq<Level>): seq<Level> {
    if FirstHash(f) < |f| then f[..FirstHash(f) + 1] else f
  }

  lemma UpToHashIs(f: seq<Level>)
    ensures HashLast(UpToHash(f)) && UpToHash(f) <= f && (f != [] ==> UpToHash(f) != [])
    ensures EndsWithHash(UpToHash(f)) <==> FirstHash(f) < |f|
    ensures HashLast(f) ==> UpToHash(f) == f
  {
    hide FirstHash;
    var n := FirstHash(f);
    assert n < |f| ==> UpToHash(f) == f[..n + 1] && f[..n + 1][n] == Hash;
    if HashLast(f) && FirstHash(f) < |f| {
      assert FirstHash(f) == |f| - 1;
    }
  }

  /** Level `f` of a filter admits level `l` of a topic. */
  predicate Fits(f: Level, l: Level) {
    f == Plus || f == l
  }

  // ----- level matching, one level at a time

  lemma MatchesCons(f: seq<Level>, t: seq<Level>)
    requires |f| > 0 && f[0] != Hash
    ensures LevelMatches(f, t) <==> |t| > 0 && Fits(f[0], t[0]) && LevelMatches(f[1..], t[1..])
  {
    if |t| > 0 && |f| <= |t| {
      AgreesCons(f, t);
      if EndsWithHash(f) {
        InitTail(f);
        AgreesCons(Init(f), t);
      }
    }
  }

  lemma MatchesHash(t: seq<Level>)
    ensures LevelMatches([Hash], t) <==> |t| > 0
  {
    assert Init([Hash]) == [];
  }

  lemma HashLastTail(f: seq<Level>)
    requires |f| > 0 && HashLast(f)
    ensures HashLast(f[1..]) && (f[0] == Hash ==> f == [Hash])
  {
    assert forall i | 0 <= i < |f| - 2 :: f[1..][i] == f[i + 1];
  }

  // ----- intersection

  /** The level both filters admit, where neither is '#'. */
  function Meet(a: Level, s: Level): (r: Option<Level>)
    requires a != Hash && s != Hash
    ensures r.Some? ==> forall l: Level :: Fits(r.value, l) <==> Fits(a, l) && Fits(s, l)
    ensures r.None? ==> forall l: Level :: !(Fits(a, l) && Fits(s, l))
  {
    if a == Plus then Some(s) else if s == Plus then Some(a) else if a == s then Some(a) else None
  }

  function Intersection(a: seq<Level>, s: seq<Level>): Option<seq<Level>>
    requires |s| > 0
  {
    if a == [] then None
    else if a[0] == Hash then Some(s)
    else if s[0] == Hash then Some(a)
    else if Meet(a[0], s[0]).None? then None
    else if |s| == 1 then if |a| == 1 then Some([Meet(a[0], s[0]).value]) else None
    else match Intersection(a[1..], s[1..])
      case None => None
      case Some(rest) => Some([Meet(a[0], s[0]).value] + rest)
  }

  function Prepend(p: seq<Level>, r: Option<seq<Level>>): Option<seq<Level>> {
    if r.None? then None else Some(p + r.value)
  }

  /** is_subscribe_allowed: walks both filters at once and collects the levels of the result. */
  method IsSubscribeAllowed(auth: seq<Level>, sub: Filter) returns (r: Option<seq<Level>>)
    ensures r == Intersection(auth, sub)
  {
    var result: seq<Level> := [];
    var i := 0;
    assert auth[0..] == auth && sub[0..] == sub;
    assert Intersection(auth, sub).Some? ==> [] + Intersection(auth, sub).value == Intersection(auth, sub).value;
    while true
      invariant 0 <= i < |sub| && i <= |auth|
      invariant Intersection(auth, sub) == Prepend(result, Intersection(auth[i..], sub[i..]))
      decreases |sub| - i
    {
      if i == |auth| {
        return None;
      }
      var a := auth[i];
      if a == Hash {
        return Some(result + sub[i..]);
      }
      var s := sub[i];
      if s == Hash {
        return Some(result + auth[i..]);
      }
      ghost var before := result;
      if a == Plus {
        result := result + [s];
      } else if s == Plus {
        result := result + [a];
      } else {
        if a != s {
          return None;
        }
        result := result + [a];
      }
      assert auth[i..][1..] == auth[i + 1..] && sub[i..][1..] == sub[i + 1..];
      i := i + 1;
      if i == |sub| {
        break;
      }
      IntersectionStep(before, auth[i - 1..], sub[i - 1..]);
    }
    if i < |auth| {
      return None;
    }
    r := Some(result);
  }

  lemma IntersectionStep(p: seq<Level>, a: seq<Level>, s: seq<Level>)
    requires |a| > 0 && |s| > 1 && a[0] != Hash && s[0] != Hash && Meet(a[0], s[0]).Some?
    ensures Prepend(p, Intersection(a, s)) == Prepend(p + [Meet(a[0], s[0]).value], Intersection(a[1..], s[1..]))
  {
    var rest := Intersection(a[1..], s[1..]);
    if rest.Some? {
      assert p + ([Meet(a[0], s[0]).value] + rest.value) == p + [Meet(a[0], s[0]).value] + rest.value;
    }
  }

  /** A topic matches the result exactly when it matches both filters; no result means no topic matches both. */
  lemma {:induction false} IntersectionExact(a: seq<Level>, s: Filter, t: seq<Level>)
    requires HashLast(a) && HashLast(s) && |t| > 0
    ensures var r := Intersection(a, s);
            LevelMatches(a, t) && LevelMatches(s, t) <==> r.Some? && LevelMatches(r.value, t)
    decreases |s|
  {
    MatchesHash(t);
    if a != [] {
      HashLastTail(a);
    }
    HashLastTail(s);
    if a != [] && a[0] != Hash && s[0] != Hash {
      MatchesCons(a, t);
      MatchesCons(s, t);
      IntersectionTail(a, s, t);
    }
  }

  lemma {:induction false} IntersectionTail(a: seq<Level>, s: Filter, t: seq<Level>)
    requires HashLast(a) && HashLast(s) && |t| > 0
    requires a != [] && a[0] != Hash && s[0] != Hash
    ensures var r := Intersection(a, s);
            Fits(a[0], t[0]) && LevelMatches(a[1..], t[1..]) && Fits(s[0], t[0]) && LevelMatches(s[1..], t[1..])
            <==> r.Some? && LevelMatches(r.value, t)
    decreases |s|, 0
  {
    var m := Meet(a[0], s[0]);
    HashLastTail(a);
    HashLastTail(s);
    if m.None? {
    } else if |s| == 1 {
      if |a| == 1 {
        assert a[1..] == [] && s[1..] == [];
        MatchesCons([m.value], t);
        assert [m.value][1..] == [];
      }
    } else {
      var rest := Intersection(a[1..], s[1..]);
      if |t| > 1 {
        IntersectionExact(a[1..], s[1..], t[1..]);
      }
      if rest.Some? {
        var r := [m.value] + rest.value;
        assert r[1..] == rest.value;
        MatchesCons(r, t);
        if |t| == 1 {
          IntersectionNonEmpty(a[1..], s[1..]);
        }
      }
    }
  }

  lemma {:induction false} IntersectionNonEmpty(a: seq<Level>, s: Filter)
    requires HashLast(a) && HashLast(s)
    ensures var r := Intersection(a, s); r.Some? ==> ValidFilter(r.value)
    decreases |s|
  {
    HashLastTail(s);
    if a != [] {
      HashLastTail(a);
    }
    if a != [] && a[0] != Hash && s[0] != Hash && Meet(a[0], s[0]).Some? && |s| > 1 {
      IntersectionNonEmpty(a[1..], s[1..]);
    }
  }

  // ----- covering

  function Covers(d: seq<Level>, s: seq<Level>): bool {
    if s == [] then d == []
    else if d == [] then false
    else if d[0] == s[0] then Covers(d[1..], s[1..])
    else if d[0] == Hash then |d| == 1
    else if s[0] == Hash then false
    else if d[0] == Plus then Covers(d[1..], s[1..])
    else false
  }

  /** is_subscribe_denied: visits the levels of `sub` until the answer is known. */
  method IsSubscribeDenied(deny: seq<Level>, sub: Filter) returns (denied: bool)
    ensures denied <==> Covers(deny, sub)
  {
    var result := true;
    var i := 0;
    var count := 0;
    var more := true;
    assert deny[0..] == deny && sub[0..] == sub;
    while more && count < |sub|
      invariant 0 <= i <= |deny| && i <= count <= |sub|
      invariant more ==> result && i == count && (Covers(deny, sub) <==> Covers(deny[i..], sub[i..]))
      invariant !more ==> (Covers(deny, sub) <==> result && count == |deny|)
      decreases |sub| - count
    {
      var s := sub[count];
      count := count + 1;
      assert i < |deny| ==> deny[i..][1..] == deny[i + 1..] && sub[i..][1..] == sub[i + 1..];
      if i == |deny| {
        result, more := false, false;
      } else {
        var d := deny[i];
        i := i + 1;
        if d != s {
          if d == Hash {
            result, more := true, false;
          } else if s == Hash {
            result, more := false, false;
          } else if d == Plus {
            result := true;
          } else {
            result, more := false, false;
          }
        }
      }
    }
    denied := result && count == |deny|;
  }

  /** Every topic that matches a covered filter matches the covering one. */
  lemma {:induction false} CoversSound(d: seq<Level>, s: seq<Level>, t: seq<Level>)
    requires HashLast(d) && HashLast(s) && Covers(d, s) && LevelMatches(s, t)
    ensures LevelMatches(d, t)
    decreases |s|
  {
    if s != [] {
      HashLastTail(s);
      HashLastTail(d);
      MatchesHash(t);
      if s[0] != Hash {
        MatchesCons(s, t);
        if d[0] != Hash {
          MatchesCons(d, t);
          CoversSound(d[1..], s[1..], t[1..]);
        }
      }
    }
  }

  // ----- witness topics

  function Repeat(n: nat): string {
    seq(n, _ => 'x')
  }

  /** A literal level that `f` does not mention. */
  predicate Unused(x: Level, f: seq<Level>) {
    !IsWild(x) && x !in f
  }

  function LongestName(f: seq<Level>): (n: nat)
    ensures forall i | 0 <= i < |f| :: f[i].Name? ==> |f[i].text| <= n
  {
    if f == [] then 0
    else
      var rest := LongestName(f[1..]);
      var n := if f[0].Name? && |f[0].text| > rest then |f[0].text| else rest;
      assert forall i | 0 < i < |f| :: f[i] == f[1..][i - 1];
      n
  }

  lemma UnusedExists(f: seq<Level>)
    ensures Unused(Name(Repeat(LongestName(f) + 1)), f)
  {
  }

  function Concrete(l: Level, x: Level): Level {
    if IsWild(l) then x else l
  }

  /** A topic that matches `f`: every wildcard replaced by the level `x`. */
  function Instance(f: seq<Level>, x: Level): seq<Level> {
    seq(|f|, i requires 0 <= i < |f| => Concrete(f[i], x))
  }

  lemma InstanceMatches(f: seq<Level>, x: Level)
    requires HashLast(f) && !IsWild(x)
    ensures LevelMatches(f, Instance(f, x))
    ensures forall i | 0 <= i < |f| :: !IsWild(Instance(f, x)[i])
  {
  }

  /** A topic that matches `s` but not `d`, when `d` does not cover `s`. */
  function Escape(d: seq<Level>, s: seq<Level>, x: Level): seq<Level> {
    if s == [] || d == [] then Instance(s, x)
    else if s[0] == Hash then if d == [Plus] then [x, x] else [x]
    else if d[0] == s[0] || d[0] == Plus then [Concrete(s[0], x)] + Escape(d[1..], s[1..], x)
    else Instance(s, x)
  }

  lemma {:induction false} EscapeEscapes(d: seq<Level>, s: seq<Level>, x: Level)
    requires HashLast(d) && HashLast(s) && Unused(x, d) && !Covers(d, s)
    ensures var t := Escape(d, s, x);
            LevelMatches(s, t) && !LevelMatches(d, t) && (forall i | 0 <= i < |t| :: !IsWild(t[i]))
              && (|s| > 0 ==> |t| > 0)
    decreases |s|
  {
    var t := Escape(d, s, x);
    InstanceMatches(s, x);
    if s != [] && d != [] {
      HashLastTail(s);
      HashLastTail(d);
      if s[0] == Hash {
        MatchesHash(t);
        assert !LevelMatches(d, t);
      } else if d[0] == s[0] || d[0] == Plus {
        EscapeEscapes(d[1..], s[1..], x);
        assert t[1..] == Escape(d[1..], s[1..], x);
        MatchesCons(s, t);
        MatchesCons(d, t);
      } else {
        assert t[0] == Concrete(s[0], x);
        MatchesCons(d, t);
      }
    }
  }

  // ----- what the two checks mean

  ghost predicate Overlap(a: seq<Level>, s: seq<Level>) {
    exists t :: IsTopic(t) && LevelMatches(a, t) && LevelMatches(s, t)
  }

  ghost predicate Included(s: seq<Level>, d: seq<Level>) {
    forall t | IsTopic(t) && LevelMatches(s, t) :: LevelMatches(d, t)
  }

  /** is_subscribe_allowed yields a filter exactly when some topic matches both filters. */
  lemma AllowedMeansOverlap(a: seq<Level>, s: Filter)
    requires ValidFilter(a) && ValidFilter(s)
    ensures Intersection(a, s).Some? <==> Overlap(a, s)
  {
    if Intersection(a, s).Some? {
      var r := Intersection(a, s).value;
      IntersectionNonEmpty(a, s);
      var t := Instance(r, Name("x"));
      InstanceMatches(r, Name("x"));
      IntersectionExact(a, s, t);
      assert IsTopic(t);
    }
    forall t | IsTopic(t) && LevelMatches(a, t) && LevelMatches(s, t) ensures Intersection(a, s).Some? {
      IntersectionExact(a, s, t);
    }
  }

  /** is_subscribe_denied holds exactly when every topic of the subscription is denied. */
  lemma DeniedMeansIncluded(d: seq<Level>, s: Filter)
    requires ValidFilter(d) && ValidFilter(s)
    ensures Covers(d, s) <==> Included(s, d)
  {
    if Covers(d, s) {
      forall t | IsTopic(t) && LevelMatches(s, t) ensures LevelMatches(d, t) {
        CoversSound(d, s, t);
      }
    } else {
      var x := Name(Repeat(LongestName(d) + 1));
      UnusedExists(d);
      EscapeEscapes(d, s, x);
      assert IsTopic(Escape(d, s, x));
    }
  }

  // ----- filters with '#' before the last level, which nothing refuses

  /** Level by level the same, or '+' over anything but '#'. */
  predicate Shadows(d: seq<Level>, s: seq<Level>) {
    |d| <= |s| && forall i | 0 <= i < |d| :: d[i] == s[i] || (d[i] == Plus && s[i] != Hash)
  }

  /** `d` shadows all of `s`, or all before its last '#', which takes the rest unless that starts with '#' itself. */
  predicate Suppresses(d: seq<Level>, s: seq<Level>) {
    || (|d| == |s| && Shadows(d, s))
    || (EndsWithHash(d) && |d| <= |s| && s[|d| - 1] != Hash && Shadows(Init(d), s))
  }

  lemma ShadowsCons(d: seq<Level>, s: seq<Level>)
    requires d != [] && s != []
    ensures Shadows(d, s) <==> (d[0] == s[0] || (d[0] == Plus && s[0] != Hash)) && Shadows(d[1..], s[1..])
  {
    if Shadows(d, s) {
      forall i | 0 <= i < |d| - 1 ensures d[1..][i] == s[1..][i] || (d[1..][i] == Plus && s[1..][i] != Hash) {
        assert d[1..][i] == d[i + 1] && s[1..][i] == s[i + 1];
      }
    }
    if Shadows(d[1..], s[1..]) && (d[0] == s[0] || (d[0] == Plus && s[0] != Hash)) {
      forall i | 0 <= i < |d| ensures d[i] == s[i] || (d[i] == Plus && s[i] != Hash) {
        assert i > 0 ==> d[i] == d[1..][i - 1] && s[i] == s[1..][i - 1];
      }
    }
  }

  /** is_subscribe_denied for any two filters, well formed or not. */
  lemma {:induction false} CoversExact(d: seq<Level>, s: seq<Level>)
    ensures Covers(d, s) <==> Suppresses(d, s)
    decreases |s|
  {
    if s != [] && d != [] {
      CoversExact(d[1..], s[1..]);
      ShadowsCons(d, s);
      if |d| > 1 {
        assert Init(d)[1..] == Init(d[1..]) && Init(d)[0] == d[0];
        ShadowsCons(Init(d), s);
        assert |d| <= |s| ==> s[1..][|d| - 2] == s[|d| - 1];
      }
    }
  }

  lemma UpToHashCons(f: seq<Level>)
    requires f != [] && f[0] != Hash
    ensures UpToHash(f) != [] && UpToHash(f)[0] == f[0] && UpToHash(f)[1..] == UpToHash(f[1..])
            && |UpToHash(f)| == 1 + |UpToHash(f[1..])|
  {
  }

  /** Whether there is an intersection does not depend on what comes after the first '#' of either filter. */
  lemma {:induction false} IntersectionCut(a: seq<Level>, s: Filter)
    ensures UpToHash(s) != [] && (Intersection(a, s).Some? <==> Intersection(UpToHash(a), UpToHash(s)).Some?)
    decreases |s|
  {
    UpToHashIs(s);
    UpToHashIs(a);
    if a != [] && a[0] != Hash && s[0] != Hash {
      UpToHashCons(a);
      UpToHashCons(s);
      if Meet(a[0], s[0]).Some? && |s| > 1 {
        IntersectionCut(a[1..], s[1..]);
      } else if |a| > 1 {
        UpToHashIs(a[1..]);
      }
    }
  }

  /** is_subscribe_allowed for any two filters: what matters is whether the parts up to '#' have a topic in common. */
  lemma AllowedExact(a: Filter, s: Filter)
    ensures Intersection(a, s).Some? <==> Overlap(UpToHash(a), UpToHash(s))
  {
    UpToHashIs(a);
    UpToHashIs(s);
    IntersectionCut(a, s);
    AllowedMeansOverlap(UpToHash(a), UpToHash(s));
  }

  /** What two filters have in common, and which one covers the other, on some filters. */
  lemma FilterCases()
    ensures var ab, plusB := [Name("a"), Name("b")], [Plus, Name("b")];
            var aPlus, aHash := [Name("a"), Plus], [Name("a"), Hash];
            && Intersection(aPlus, plusB) == Some(ab) && Intersection(aHash, plusB) == Some(ab)
            && Intersection(ab, [Hash]) == Some(ab) && Intersection(ab, [Name("a")]) == None
            && Intersection(ab, [Name("b"), Plus]) == None
            && Covers(aHash, aPlus) && Covers(aPlus, ab) && !Covers(aPlus, aHash) && !Covers(ab, aPlus)
            && Covers([Hash], aHash) && !Covers(aHash, [Hash])
  {
    var b, plus, hash := [Name("b")], [Plus], [Hash];
    assert [Name("a"), Name("b")][1..] == b && [Name("a"), Plus][1..] == plus && [Plus, Name("b")][1..] == b;
    assert [Name("a"), Hash][1..] == hash && [Name("b"), Plus][1..] == plus && b[1..] == plus[1..] == hash[1..] == [];
    assert Intersection(plus, b) == Some(b) && Intersection(hash, b) == Some(b);
    assert [Name("a")] + b == [Name("a"), Name("b")];
    assert Meet(Name("a"), Plus) == Some(Name("a"));
    assert Name("a") != Name("b");
  }
}
