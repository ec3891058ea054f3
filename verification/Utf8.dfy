/** The check that every MQTT UTF-8 string goes through. */
module Utf8 {
  type Octets = seq<bv8>

  // ----- the encoding form of section 3 of RFC 3629

  const MAX_CODE_POINT: bv32 := 0x10FFFF

  function Trail(c: bv32): bv8 {
    0x80 | (c & 0x3F) as bv8
  }

  function Lead2(c: bv32): bv8 {
    0xC0 | ((c >> 6) & 0x1F) as bv8
  }

  function Lead3(c: bv32): bv8 {
    0xE0 | ((c >> 12) & 0x0F) as bv8
  }

  function Lead4(c: bv32): bv8 {
    0xF0 | ((c >> 18) & 0x07) as bv8
  }

  /** One code point, in as few octets as possible. */
  function Encode(c: bv32): Octets {
    if c < 0x80 then [(c & 0x7F) as bv8]
    else if c < 0x800 then [Lead2(c), Trail(c)]
    else if c < 0x1_0000 then [Lead3(c), Trail(c >> 6), Trail(c)]
    else [Lead4(c), Trail(c >> 12), Trail(c >> 6), Trail(c)]
  }

  function EncodeAll(cs: seq<bv32>): Octets {
    if cs == [] then [] else Encode(cs[0]) + EncodeAll(cs[1..])
  }

  predicate InRange(cs: seq<bv32>) {
    forall i | 0 <= i < |cs| :: cs[i] <= MAX_CODE_POINT
  }

  // ----- what MQTT admits of it

  /** No surrogate, no control character, none of the last two code points of a plane. */
  predicate Allowed(c: bv32) {
    && c <= MAX_CODE_POINT && !(0xD800 <= c <= 0xDFFF)
    && c > 0x1F && !(0x7F <= c <= 0x9F)
    && (c & 0xFFFE) != 0xFFFE
  }

  predicate AllAllowed(cs: seq<bv32>) {
    forall i | 0 <= i < |cs| :: Allowed(cs[i])
  }

  ghost predicate Admissible(s: Octets) {
    exists cs :: AllAllowed(cs) && EncodeAll(cs) == s
  }

  // ----- the octets that the check lets through, by length

  predicate Trails(b: bv8) {
    (b & 0xC0) == 0x80
  }

  predicate Passes1(b0: bv8) {
    b0 != 0 && !((0x01 <= b0 <= 0x1F) || b0 == 0x7F)
  }

  predicate Passes2(b0: bv8, b1: bv8) {
    && !(!Trails(b1) || (b0 & 0xFE) == 0xC0)
    && !(b0 == 0xC2 && 0x80 <= b1 <= 0x9F)
  }

  predicate Passes3(b0: bv8, b1: bv8, b2: bv8) {
    && !(!Trails(b1) || !Trails(b2)
         || (b0 == 0xE0 && (b1 & 0xE0) == 0x80)
         || (b0 == 0xED && (b1 & 0xE0) == 0xA0))
    && !(b0 == 0xEF && b1 == 0xBF && (b2 & 0xFE) == 0xBE)
  }

  predicate Passes4(b0: bv8, b1: bv8, b2: bv8, b3: bv8) {
    && !(!Trails(b1) || !Trails(b2) || !Trails(b3)
         || (b0 == 0xF0 && (b1 & 0xF0) == 0x80)
         || (b0 == 0xF4 && b1 > 0x8F)
         || b0 > 0xF4)
    && !((b1 & 0xCF) == 0x8F && b2 == 0xBF && (b3 & 0xFE) == 0xBE)
  }

  /** The length that the lead octet announces; 0 when it cannot lead. */
  function Announced(b0: bv8): nat {
    if b0 < 0x80 then 1
    else if (b0 & 0xE0) == 0xC0 then 2
    else if (b0 & 0xF0) == 0xE0 then 3
    else if (b0 & 0xF8) == 0xF0 then 4
    else 0
  }

  /** How far one round of the check advances; 0 when it refuses. */
  function Advance(s: Octets): (n: nat)
    requires s != []
    ensures n <= |s|
  {
    var n := Announced(s[0]);
    if n > |s| then 0
    else if n == 1 then (if Passes1(s[0]) then 1 else 0)
    else if n == 2 then (if Passes2(s[0], s[1]) then 2 else 0)
    else if n == 3 then (if Passes3(s[0], s[1], s[2]) then 3 else 0)
    else if n == 4 then (if Passes4(s[0], s[1], s[2], s[3]) then 4 else 0)
    else 0
  }

  // ----- each length separately: what passes is an allowed code point, and the other way round

  function Value2(b0: bv8, b1: bv8): bv32 {
    ((b0 & 0x1F) as bv32 << 6) | (b1 & 0x3F) as bv32
  }

  function Value3(b0: bv8, b1: bv8, b2: bv8): bv32 {
    ((b0 & 0x0F) as bv32 << 12) | ((b1 & 0x3F) as bv32 << 6) | (b2 & 0x3F) as bv32
  }

  function Value4(b0: bv8, b1: bv8, b2: bv8, b3: bv8): bv32 {
    ((b0 & 0x07) as bv32 << 18) | ((b1 & 0x3F) as bv32 << 12) | ((b2 & 0x3F) as bv32 << 6) | (b3 & 0x3F) as bv32
  }

  /** The code point that the first `n` octets carry. */
  function Value(s: Octets, n: nat): bv32
    requires 1 <= n <= 4 && n <= |s|
  {
    if n == 1 then s[0] as bv32
    else if n == 2 then Value2(s[0], s[1])
    else if n == 3 then Value3(s[0], s[1], s[2])
    else Value4(s[0], s[1], s[2], s[3])
  }

  lemma Bits2(b0: bv8, b1: bv8)
    requires Announced(b0) == 2 && Trails(b1)
    ensures var c := Value2(b0, b1);
            c < 0x800 && b0 == Lead2(c) && b1 == Trail(c) && (Passes2(b0, b1) <==> 0x80 <= c && Allowed(c))
  {
  }

  lemma Bits3(b0: bv8, b1: bv8, b2: bv8)
    requires Announced(b0) == 3 && Trails(b1) && Trails(b2)
    ensures var c := Value3(b0, b1, b2); c < 0x1_0000 && b0 == Lead3(c) && b1 == Trail(c >> 6) && b2 == Trail(c)
  {
  }

  lemma Bits4(b0: bv8, b1: bv8, b2: bv8, b3: bv8)
    requires Announced(b0) == 4 && Trails(b1) && Trails(b2) && Trails(b3)
    ensures var c := Value4(b0, b1, b2, b3);
            b0 == Lead4(c) && b1 == Trail(c >> 12) && b2 == Trail(c >> 6) && b3 == Trail(c)
  {
  }

  lemma Sound2(b0: bv8, b1: bv8)
    requires Announced(b0) == 2 && Passes2(b0, b1)
    ensures Allowed(Value2(b0, b1)) && Encode(Value2(b0, b1)) == [b0, b1]
  {
    Bits2(b0, b1);
  }

  lemma Fits3(b0: bv8, b1: bv8, b2: bv8)
    requires Announced(b0) == 3 && Passes3(b0, b1, b2)
    ensures Allowed(Value3(b0, b1, b2)) && Value3(b0, b1, b2) >= 0x800 && Trails(b1) && Trails(b2)
  {
  }

  lemma Sound3(b0: bv8, b1: bv8, b2: bv8)
    requires Announced(b0) == 3 && Passes3(b0, b1, b2)
    ensures Allowed(Value3(b0, b1, b2)) && Encode(Value3(b0, b1, b2)) == [b0, b1, b2]
  {
    hide Allowed;
    hide Trail;
    hide Trails;
    hide Lead3;
    hide Value3;
    hide Passes3;
    hide Announced;
    Fits3(b0, b1, b2);
    Bits3(b0, b1, b2);
  }

  lemma Complete3(b0: bv8, b1: bv8, b2: bv8)
    requires Announced(b0) == 3 && Trails(b1) && Trails(b2) && Value3(b0, b1, b2) >= 0x800
             && Allowed(Value3(b0, b1, b2))
    ensures Passes3(b0, b1, b2)
  {
  }

  lemma Fits4(b0: bv8, b1: bv8, b2: bv8, b3: bv8)
    requires Announced(b0) == 4 && Passes4(b0, b1, b2, b3)
    ensures Allowed(Value4(b0, b1, b2, b3)) && Value4(b0, b1, b2, b3) >= 0x1_0000 && Trails(b1) && Trails(b2)
            && Trails(b3)
  {
  }

  lemma Sound4(b0: bv8, b1: bv8, b2: bv8, b3: bv8)
    requires Announced(b0) == 4 && Passes4(b0, b1, b2, b3)
    ensures Allowed(Value4(b0, b1, b2, b3)) && Encode(Value4(b0, b1, b2, b3)) == [b0, b1, b2, b3]
  {
    hide Allowed;
    hide Trail;
    hide Trails;
    hide Lead4;
    hide Value4;
    hide Passes4;
    hide Announced;
    Fits4(b0, b1, b2, b3);
    Bits4(b0, b1, b2, b3);
  }

  lemma Complete4(b0: bv8, b1: bv8, b2: bv8, b3: bv8)
    requires Announced(b0) == 4 && Trails(b1) && Trails(b2) && Trails(b3)
    requires Value4(b0, b1, b2, b3) >= 0x1_0000 && Allowed(Value4(b0, b1, b2, b3))
    ensures Passes4(b0, b1, b2, b3)
  {
  }

  lemma Back2(c: bv32)
    requires 0x80 <= c < 0x800
    ensures Announced(Lead2(c)) == 2 && Trails(Trail(c)) && Value2(Lead2(c), Trail(c)) == c
  {
  }

  lemma Back3(c: bv32)
    requires 0x800 <= c < 0x1_0000
    ensures Announced(Lead3(c)) == 3 && Trails(Trail(c)) && Trails(Trail(c >> 6))
            && Value3(Lead3(c), Trail(c >> 6), Trail(c)) == c
  {
  }

  lemma Back4(c: bv32)
    requires 0x1_0000 <= c <= MAX_CODE_POINT
    ensures Announced(Lead4(c)) == 4 && Trails(Trail(c)) && Trails(Trail(c >> 6)) && Trails(Trail(c >> 12))
    ensures Value4(Lead4(c), Trail(c >> 12), Trail(c >> 6), Trail(c)) == c
  {
  }

  /** Octets of this form that carry a code point are never fewer than its encoding. */
  lemma ShortestForm(s: Octets)
    requires s != [] && 1 <= Announced(s[0]) <= |s| && forall i | 1 <= i < Announced(s[0]) :: Trails(s[i])
    ensures |Encode(Value(s, Announced(s[0])))| <= Announced(s[0])
  {
    hide Lead2;
    hide Lead3;
    hide Lead4;
    hide Trail;
    if Announced(s[0]) == 2 {
      Bits2(s[0], s[1]);
    } else if Announced(s[0]) == 3 {
      Bits3(s[0], s[1], s[2]);
    }
  }

  // ----- one round of the check

  /** The octets of a code point announce its length and give it back. */
  lemma ValueOfEncode(c: bv32)
    requires c <= MAX_CODE_POINT
    ensures 1 <= |Encode(c)| <= 4 && Announced(Encode(c)[0]) == |Encode(c)| && Value(Encode(c), |Encode(c)|) == c
  {
    hide Trail;
    hide Lead2;
    hide Lead3;
    hide Lead4;
    hide Value2;
    hide Value3;
    hide Value4;
    hide Trails;
    if 0x80 <= c < 0x800 {
      Back2(c);
    } else if 0x800 <= c < 0x1_0000 {
      Back3(c);
    } else if 0x1_0000 <= c {
      Back4(c);
    }
  }

  /** What passes is the encoding of an allowed code point. */
  lemma AdvanceSound(s: Octets)
    requires s != [] && Advance(s) > 0
    ensures Advance(s) <= 4 && Allowed(Value(s, Advance(s))) && Encode(Value(s, Advance(s))) == s[..Advance(s)]
  {
    hide Allowed;
    hide Encode;
    hide Value2;
    hide Value3;
    hide Value4;
    hide Passes1;
    hide Passes2;
    hide Passes3;
    hide Passes4;
    hide Announced;
    var n := Advance(s);
    if n == 1 {
      Sound1(s[0]);
    } else if n == 2 {
      Sound2(s[0], s[1]);
    } else if n == 3 {
      Sound3(s[0], s[1], s[2]);
    } else {
      Sound4(s[0], s[1], s[2], s[3]);
    }
  }

  lemma Sound1(b0: bv8)
    requires Announced(b0) == 1 && Passes1(b0)
    ensures Allowed(b0 as bv32) && Encode(b0 as bv32) == [b0]
  {
  }

  /** Every allowed code point passes, whatever follows it. */
  lemma AdvanceComplete(c: bv32, rest: Octets)
    requires Allowed(c)
    ensures Advance(Encode(c) + rest) == |Encode(c)|
  {
    hide Trail;
    hide Lead2;
    hide Lead3;
    hide Lead4;
    hide Value2;
    hide Value3;
    hide Value4;
    hide Trails;
    hide Passes2;
    hide Passes3;
    hide Passes4;
    if c < 0x80 {
    } else if c < 0x800 {
      Back2(c);
      Bits2(Lead2(c), Trail(c));
    } else if c < 0x1_0000 {
      Back3(c);
      Complete3(Lead3(c), Trail(c >> 6), Trail(c));
    } else {
      Back4(c);
      Complete4(Lead4(c), Trail(c >> 12), Trail(c >> 6), Trail(c));
    }
  }

  /** No code point's octets begin another's: reading from the left there is one choice at most. */
  lemma PrefixFree(c: bv32, rest: Octets, d: bv32, rest': Octets)
    requires c <= MAX_CODE_POINT && d <= MAX_CODE_POINT && Encode(c) + rest == Encode(d) + rest'
    ensures c == d && rest == rest'
  {
    hide Encode;
    ValueOfEncode(c);
    ValueOfEncode(d);
    var s := Encode(c) + rest;
    assert s[0] == Encode(c)[0] && s[0] == Encode(d)[0];
    var n := |Encode(c)|;
    assert s[..n] == Encode(c) && s[..n] == Encode(d);
    assert s[n..] == rest && s[n..] == rest';
  }

  // ----- whole strings

  /** The code points of a string are unique. */
  lemma {:induction false} DecompositionUnique(cs: seq<bv32>, ds: seq<bv32>)
    requires InRange(cs) && InRange(ds) && EncodeAll(cs) == EncodeAll(ds)
    ensures cs == ds
  {
    hide Encode;
    if cs != [] && ds != [] {
      PrefixFree(cs[0], EncodeAll(cs[1..]), ds[0], EncodeAll(ds[1..]));
      DecompositionUnique(cs[1..], ds[1..]);
      assert cs == [cs[0]] + cs[1..] && ds == [ds[0]] + ds[1..];
    } else if cs != [] {
      ValueOfEncode(cs[0]);
    } else if ds != [] {
      ValueOfEncode(ds[0]);
    }
  }

  /** One round neither loses nor invents a decomposition. */
  lemma RoundExact(s: Octets)
    requires s != []
    ensures Admissible(s) <==> Advance(s) > 0 && Admissible(s[Advance(s)..])
  {
    hide Encode;
    hide Advance;
    hide Allowed;
    var n := Advance(s);
    if n > 0 && Admissible(s[n..]) {
      AdvanceSound(s);
      var cs :| AllAllowed(cs) && EncodeAll(cs) == s[n..];
      var all := [Value(s, n)] + cs;
      assert all[1..] == cs && s == s[..n] + s[n..];
      assert AllAllowed(all) && EncodeAll(all) == s;
    }
    if Admissible(s) {
      var cs :| AllAllowed(cs) && EncodeAll(cs) == s;
      AdvanceComplete(cs[0], EncodeAll(cs[1..]));
      AllowedInRange(cs[0]);
      ValueOfEncode(cs[0]);
      assert s[n..] == EncodeAll(cs[1..]);
      assert AllAllowed(cs[1..]);
    }
  }

  lemma AllowedInRange(c: bv32)
    requires Allowed(c)
    ensures c <= MAX_CODE_POINT
  {
  }

  /** Accepts exactly the strings made of allowed code points, each in its shortest form. */
  method Utf8StringCheck(str: Octets) returns (result: bool)
    ensures result <==> Admissible(str)
  {
    hide Advance;
    hide Admissible;
    result := true;
    var i := 0;
    assert str[0..] == str;
    while i != |str|
      invariant 0 <= i <= |str|
      invariant Admissible(str) <==> Admissible(str[i..])
    {
      var n := Advance(str[i..]);
      RoundExact(str[i..]);
      if n == 0 {
        return false;
      }
      assert str[i..][n..] == str[i + n..];
      i := i + n;
    }
    EmptyAdmissible();
  }

  lemma EmptyAdmissible()
    ensures Admissible([])
  {
    assert AllAllowed([]) && EncodeAll([]) == [];
  }

  /** The first and last code points that are refused, and their neighbours. */
  lemma AllowedCases()
    ensures !Allowed(0) && !Allowed(0x1F) && Allowed(0x20) && Allowed(0x7E) && !Allowed(0x7F) && !Allowed(0x9F)
    ensures Allowed(0xA0) && Allowed(0xD7FF) && !Allowed(0xD800) && !Allowed(0xDFFF) && Allowed(0xE000)
    ensures Allowed(0xFFFD) && !Allowed(0xFFFE) && !Allowed(0xFFFF) && Allowed(0x1_0000) && !Allowed(0x1_FFFF)
    ensures Allowed(0x10_FFFD) && !Allowed(0x10_FFFE) && !Allowed(0x11_0000)
  {
  }

  /** One code point of each length. */
  lemma EncodeCases()
    ensures Encode(0x41) == [0x41] && Encode(0xE9) == [0xC3, 0xA9] && Encode(0x20AC) == [0xE2, 0x82, 0xAC]
    ensures Encode(0x1_F600) == [0xF0, 0x9F, 0x98, 0x80]
  {
  }

  lemma CheckedCases()
    ensures Admissible([0x41, 0xC3, 0xA9])
    ensures !Admissible([0xC1, 0x81]) && !Admissible([0xED, 0xA0, 0x80]) && !Admissible([0x41, 0x7F])
    ensures !Admissible([0xE2, 0x82])
  {
    AllowedCases();
    EncodeCases();
    assert EncodeAll([0x41, 0xE9]) == [0x41, 0xC3, 0xA9] by {
      assert [0x41, 0xE9][1..] == [0xE9] && [0xE9][1..] == [];
      assert EncodeAll([0xE9]) == [0xC3, 0xA9];
    }
    assert AllAllowed([0x41, 0xE9]);
    hide Admissible;
    RoundExact([0xC1, 0x81]);
    RoundExact([0xED, 0xA0, 0x80]);
    RoundExact([0xE2, 0x82]);
    RoundExact([0x41, 0x7F]);
    RoundExact([0x7F]);
    assert [0x41, 0x7F][1..] == [0x7F];
  }

  /** A text of these, an overlong form, a surrogate, a control character, and a cut-off sequence. */
  method CheckCases() returns (text: bool, refused: seq<bool>)
    ensures text && refused == [false, false, false, false]
  {
    hide Admissible;
    CheckedCases();
    text := Utf8StringCheck([0x41, 0xC3, 0xA9]);
    var overlong := Utf8StringCheck([0xC1, 0x81]);
    var surrogate := Utf8StringCheck([0xED, 0xA0, 0x80]);
    var control := Utf8StringCheck([0x41, 0x7F]);
    var cut := Utf8StringCheck([0xE2, 0x82]);
    refused := [overlong, surrogate, control, cut];
  }
}
