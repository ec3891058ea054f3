/**
 * The variable byte integer: seven bits per byte, least significant first, the top bit set on all bytes but the last.
 */
module VariableBytes {
  import opened Wrappers

  newtype Byte = x: int | 0 <= x < 256

  const MAX_VALUE: nat := 0xfff_ffff

  // ----- what bytes denote

  /** A byte with the top bit set continues the number. */
  predicate Continues(b: Byte) {
    b >= 128
  }

  function Digits(s: seq<Byte>): nat {
    if s == [] then 0 else (s[0] % 128) as nat + 128 * Digits(s[1..])
  }

  /** The number of leading bytes that continue. */
  function Run(s: seq<Byte>): (n: nat)
    ensures n <= |s| && (forall i | 0 <= i < n :: Continues(s[i])) && (n < |s| ==> !Continues(s[n]))
  {
    if s == [] || !Continues(s[0]) then 0 else 1 + Run(s[1..])
  }

  datatype Decoded = Decoded(value: Option<nat>, consumed: nat)

  /** A number ends within four bytes; failing that, no more than a fifth byte is looked at. */
  function Decoding(s: seq<Byte>): Decoded {
    var n := Run(s);
    if n < |s| && n < 4 then Decoded(Some(Digits(s[..n + 1])), n + 1)
    else Decoded(None, if |s| < 5 then |s| else 5)
  }

  function Encoding(v: nat): (s: seq<Byte>)
    ensures s != []
  {
    if v <= 127 then [v as Byte] else [(128 + v % 128) as Byte] + Encoding(v / 128)
  }

  // ----- the encoder and the decoder

  method ValToVariableBytes(v: nat) returns (bytes: seq<Byte>)
    ensures bytes == if v > MAX_VALUE then [] else Encoding(v)
  {
    bytes := [];
    if v > MAX_VALUE {
      return;
    }
    var val := v;
    while val > 127
      invariant bytes + Encoding(val) == Encoding(v)
    {
      bytes := bytes + [(val % 128 + 128) as Byte];
      val := val / 128;
    }
    bytes := bytes + [(val % 128) as Byte];
  }

  /** Reads from the front of `s`; `it` bytes are consumed. */
  method VariableBytesToVal(s: seq<Byte>) returns (r: Option<nat>, it: nat)
    ensures Decoded(r, it) == Decoding(s)
  {
    var val, mul := 0, 1;
    it := 0;
    while it != |s|
      invariant 0 <= it <= |s| && it <= 4 && it <= Run(s)
      invariant val == Digits(s[..it]) && mul == Power(it)
    {
      PowerValues();
      if mul == 128 * 128 * 128 * 128 {
        it := it + 1;
        return None, it;
      }
      DigitsSnoc(s, it);
      val := val + (s[it] % 128) as nat * mul;
      mul := mul * 128;
      if s[it] < 128 {
        it := it + 1;
        return Some(val), it;
      }
      it := it + 1;
    }
    return None, it;
  }

  function Power(n: nat): nat {
    if n == 0 then 1 else 128 * Power(n - 1)
  }

  lemma PowerValues()
    ensures Power(1) == 128 && Power(2) == 128 * 128 && Power(3) == 128 * 128 * 128 && Power(4) == 128 * 128 * 128 * 128
  {
    assert Power(3) == 128 * Power(2);
  }

  lemma {:induction false} DigitsSnoc(s: seq<Byte>, i: nat)
    requires i < |s|
    ensures Digits(s[..i + 1]) == Digits(s[..i]) + (s[i] % 128) as nat * Power(i)
  {
    if i == 0 {
      assert s[..1] == [s[0]];
    } else {
      DigitsSnoc(s[1..], i - 1);
      assert s[..i + 1][1..] == s[1..][..i] && s[..i][1..] == s[1..][..i - 1];
      Rescaled((s[i] % 128) as nat, Power(i - 1));
    }
  }

  lemma Rescaled(d: nat, p: nat)
    ensures 128 * (d * p) == d * (128 * p)
  {
  }

  // ----- round trips

  /** All bytes of an encoding but the last continue, and the bytes denote the value. */
  lemma {:induction false} EncodingMeans(v: nat)
    ensures Run(Encoding(v)) == |Encoding(v)| - 1 && Digits(Encoding(v)) == v
  {
    if v > 127 {
      EncodingMeans(v / 128);
    } else {
      assert Digits([v as Byte]) == v;
    }
  }

  /** The range of each length, as in the table of section 1.5.5 of MQTT Version 5.0. */
  lemma {:induction false} EncodingLength(v: nat, n: nat)
    requires n > 0
    ensures |Encoding(v)| <= n <==> v < Power(n)
  {
    if v <= 127 {
      PowerGrows(n);
    } else if n > 1 {
      EncodingLength(v / 128, n - 1);
      assert Power(n) == 128 * Power(n - 1);
    } else {
      PowerValues();
    }
  }

  lemma {:induction false} PowerGrows(n: nat)
    ensures Power(n) > 0 && (n > 0 ==> Power(n) >= 128)
  {
    if n > 1 {
      PowerGrows(n - 1);
    }
  }

  lemma {:induction false} RunConcat(s: seq<Byte>, rest: seq<Byte>)
    requires s != [] && Run(s) == |s| - 1
    ensures Run(s + rest) == |s| - 1
  {
    if |s| > 1 {
      RunConcat(s[1..], rest);
      assert (s + rest)[1..] == s[1..] + rest;
    }
  }

  /** Whatever follows an encoding, decoding gives the value back and consumes exactly the bytes of the encoding. */
  lemma RoundTrip(v: nat, rest: seq<Byte>)
    requires v <= MAX_VALUE
    ensures 1 <= |Encoding(v)| <= 4 && Decoding(Encoding(v) + rest) == Decoded(Some(v), |Encoding(v)|)
  {
    var e := Encoding(v);
    EncodingMeans(v);
    EncodingLength(v, 4);
    PowerValues();
    RunConcat(e, rest);
    assert (e + rest)[..|e|] == e;
  }

  /** A cut-off encoding decodes to nothing, with all its bytes consumed. */
  lemma CutOff(v: nat, k: nat)
    requires v <= MAX_VALUE && k < |Encoding(v)|
    ensures Decoding(Encoding(v)[..k]) == Decoded(None, k)
  {
    var e := Encoding(v);
    EncodingMeans(v);
    RoundTrip(v, []);
    assert forall i | 0 <= i < k :: Continues(e[..k][i]);
  }

  /** No encoding begins another. */
  lemma EncodingPrefixFree(v: nat, w: nat, rest: seq<Byte>)
    requires v <= MAX_VALUE && w <= MAX_VALUE && Encoding(v) + rest == Encoding(w)
    ensures v == w && rest == []
  {
    RoundTrip(v, rest);
    RoundTrip(w, []);
    assert Encoding(w) + [] == Encoding(w);
  }

  lemma {:induction false} DigitsBound(s: seq<Byte>)
    ensures Digits(s) < Power(|s|)
  {
    if s != [] {
      DigitsBound(s[1..]);
    }
  }

  /** No byte sequence denotes the value in fewer bytes. */
  lemma Shortest(v: nat, s: seq<Byte>)
    requires s != [] && Digits(s) == v
    ensures |Encoding(v)| <= |s|
  {
    DigitsBound(s);
    EncodingLength(v, |s|);
  }

  /**
   * The decoder also takes longer forms: what it consumed is the encoding exactly when its last byte is not a padding
   * zero.
   */
  lemma ReEncode(s: seq<Byte>)
    requires Decoding(s).value.Some?
    ensures var d := Decoding(s);
            && 1 <= d.consumed <= 4 && d.consumed <= |s| && d.value.value <= MAX_VALUE
            && (Encoding(d.value.value) == s[..d.consumed] <==> d.consumed == 1 || s[d.consumed - 1] != 0)
  {
    var n := Run(s);
    var t := s[..n + 1];
    DigitsBound(t);
    PowerValues();
    RunPrefix(s);
    Canonical(t);
    assert n < 3 ==> Power(n + 1) <= Power(4);
  }

  lemma {:induction false} RunPrefix(s: seq<Byte>)
    requires Run(s) < |s|
    ensures Run(s[..Run(s) + 1]) == Run(s)
  {
    if Run(s) > 0 {
      RunPrefix(s[1..]);
      assert s[..Run(s) + 1][1..] == s[1..][..Run(s)];
    }
  }

  /** Bytes of one number are determined by their count and the value. */
  lemma {:induction false} SameBytes(s: seq<Byte>, t: seq<Byte>)
    requires |s| == |t| > 0 && Run(s) == Run(t) == |s| - 1 && Digits(s) == Digits(t)
    ensures s == t
  {
    if |s| == 1 {
      assert s == [s[0]] && t == [t[0]];
    } else {
      assert Digits(s) % 128 == (s[0] % 128) as nat && Digits(t) % 128 == (t[0] % 128) as nat;
      assert s[0] == t[0];
      SameBytes(s[1..], t[1..]);
      assert s == [s[0]] + s[1..] && t == [t[0]] + t[1..];
    }
  }

  /** A last byte of zero leaves the value within the range of one byte less. */
  lemma PaddingZero(t: seq<Byte>)
    requires t != [] && Run(t) == |t| - 1
    ensures t[|t| - 1] == 0 <==> Digits(t) < Power(|t| - 1)
  {
    var k := |t| - 1;
    DigitsSnoc(t, k);
    DigitsBound(t[..k]);
    assert t[..k + 1] == t;
    TopDigit((t[k] % 128) as nat, Power(k));
  }

  lemma TopDigit(d: nat, p: nat)
    ensures d == 0 ==> d * p == 0
    ensures d > 0 ==> d * p >= p
  {
  }

  lemma Canonical(t: seq<Byte>)
    requires t != [] && Run(t) == |t| - 1
    ensures Encoding(Digits(t)) == t <==> |t| == 1 || t[|t| - 1] != 0
  {
    var v := Digits(t);
    PaddingZero(t);
    Shortest(v, t);
    EncodingMeans(v);
    if |t| > 1 {
      EncodingLength(v, |t| - 1);
    }
    if |Encoding(v)| == |t| {
      SameBytes(Encoding(v), t);
    }
  }

  /** Where the number of bytes changes. */
  lemma EncodingCases()
    ensures Encoding(0) == [0] && Encoding(127) == [127] && Encoding(128) == [128, 1] && Encoding(16383) == [255, 127]
    ensures Encoding(16384) == [128, 128, 1] && Encoding(2097152) == [128, 128, 128, 1]
    ensures MAX_VALUE == 268435455 && Encoding(268435455) == [255, 255, 255, 127]
  {
    assert Encoding(1) == [1] && Encoding(16384 / 128) == [128, 1];
    assert Encoding(2097152 / 128) == [128, 128, 1];
    assert Encoding(268435455 / 128) == [255, 255, 127] by {
      assert Encoding(16383) == [255, 127];
    }
  }

  lemma DecodingEnds(s: seq<Byte>, n: nat)
    requires n < |s| && n < 4 && !Continues(s[n]) && forall i | 0 <= i < n :: Continues(s[i])
    ensures Decoding(s) == Decoded(Some(Digits(s[..n + 1])), n + 1)
  {
    assert Run(s) == n;
  }

  /** Numbers that end. */
  lemma DecodingCases()
    ensures Decoding([127, 5]) == Decoded(Some(127), 1) && Decoding([128, 1, 5]) == Decoded(Some(128), 2)
    ensures Decoding([128, 0]) == Decoded(Some(0), 2)
  {
    DecodingEnds([127, 5], 0);
    DecodingEnds([128, 1, 5], 1);
    DecodingEnds([128, 0], 1);
    hide Decoding;
    assert [127, 5][..1] == [127] && [127][1..] == [];
    assert [128, 1, 5][..2] == [128, 1] && [128, 1][1..] == [1] && [1][1..] == [];
    assert [128, 0][..2] == [128, 0] && [128, 0][1..] == [0] && [0][1..] == [];
  }

  /** Numbers that are cut off, and that go on too long. */
  lemma FailingCases()
    ensures Decoding([]) == Decoded(None, 0) && Decoding([128]) == Decoded(None, 1)
    ensures Decoding([255, 255, 255, 255, 1, 1]) == Decoded(None, 5)
  {
    assert Continues([128][0]);
    var s: seq<Byte> := [255, 255, 255, 255, 1, 1];
    assert forall i | 0 <= i < 4 :: Continues(s[i]);
  }
}
