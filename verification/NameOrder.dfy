/** The order in which a map of names is gone through: lexicographic. */
module NameOrder {
  predicate UpTo(a: string, b: string) {
    a == "" || (b != "" && (a[0] < b[0] || (a[0] == b[0] && UpTo(a[1..], b[1..]))))
  }

  /** The texts differ first at `n`, where that of `a` is the smaller character. */
  predicate LessAt(a: string, b: string, n: nat) {
    n < |a| && n < |b| && a[..n] == b[..n] && a[n] < b[n]
  }

  lemma LessAtTail(a: string, b: string, n: nat)
    requires a != "" && b != "" && a[0] == b[0]
    ensures LessAt(a, b, n + 1) <==> LessAt(a[1..], b[1..], n)
  {
    var x, y := a[1..], b[1..];
    if n < |x| && n < |y| {
      assert a[..n + 1] == [a[0]] + x[..n] && b[..n + 1] == [b[0]] + y[..n];
      assert x[..n] == a[..n + 1][1..] && y[..n] == b[..n + 1][1..];
    }
  }

  lemma LessAtFirst(a: string, b: string, n: nat)
    requires LessAt(a, b, n)
    ensures n > 0 ==> a[0] == b[0]
  {
    assert n > 0 ==> a[..n][0] == b[..n][0];
  }

  /** A prefix comes first, and otherwise the smaller of the first two characters that differ. */
  lemma {:induction false} UpToExact(a: string, b: string)
    ensures UpTo(a, b) <==> a <= b || exists n :: LessAt(a, b, n)
    decreases |a|
  {
    if a != "" && b != "" && a[0] == b[0] {
      UpToExact(a[1..], b[1..]);
      assert a == [a[0]] + a[1..] && b == [b[0]] + b[1..];
      if n: nat :| LessAt(a[1..], b[1..], n) {
        LessAtTail(a, b, n);
      }
      if n: nat :| LessAt(a, b, n) {
        LessAtTail(a, b, n - 1);
      }
    } else if a != "" && b != "" {
      assert a[0] < b[0] ==> LessAt(a, b, 0);
      if n: nat :| LessAt(a, b, n) {
        LessAtFirst(a, b, n);
      }
    }
  }

  lemma {:induction false} Total(a: string, b: string)
    ensures UpTo(a, b) || UpTo(b, a)
  {
    if a != "" && b != "" && a[0] == b[0] {
      Total(a[1..], b[1..]);
    }
  }

  lemma {:induction false} Antisymmetric(a: string, b: string)
    requires UpTo(a, b) && UpTo(b, a)
    ensures a == b
  {
    if a != "" && b != "" {
      Antisymmetric(a[1..], b[1..]);
      assert a == [a[0]] + a[1..] && b == [b[0]] + b[1..];
    }
  }

  lemma {:induction false} Transitive(a: string, b: string, c: string)
    requires UpTo(a, b) && UpTo(b, c)
    ensures UpTo(a, c)
  {
    if a != "" && a[0] == b[0] && b[0] == c[0] {
      Transitive(a[1..], b[1..], c[1..]);
    }
  }

  predicate IsFirst(n: string, names: set<string>) {
    n in names && forall m | m in names :: UpTo(n, m)
  }

  lemma FirstUnique(n: string, m: string, names: set<string>)
    requires IsFirst(n, names) && IsFirst(m, names)
    ensures n == m
  {
    Antisymmetric(n, m);
  }

  lemma {:induction false} FirstOf(names: set<string>) returns (n: string)
    requires names != {}
    ensures IsFirst(n, names)
    decreases names
  {
    var m :| m in names;
    Total(m, m);
    if names == {m} {
      n := m;
    } else {
      var k := FirstOf(names - {m});
      Total(m, k);
      n := if UpTo(m, k) then m else k;
      forall g | g in names ensures UpTo(n, g) {
        if g != m && n == m {
          Transitive(m, k, g);
        }
      }
    }
  }

  method First(names: set<string>) returns (n: string)
    requires names != {}
    ensures IsFirst(n, names)
  {
    n :| n in names;
    var rest := names;
    Total(n, n);
    while rest != {}
      invariant n in names && rest <= names
      invariant forall m | m in names && m !in rest :: UpTo(n, m)
    {
      var m :| m in rest;
      Total(n, m);
      if !UpTo(n, m) {
        forall k | k in names && k !in rest ensures UpTo(m, k) {
          Transitive(m, n, k);
        }
        n := m;
      }
      Total(n, n);
      rest := rest - {m};
    }
  }
}
