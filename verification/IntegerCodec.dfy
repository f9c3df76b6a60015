/**
  The content octets of INTEGER and ENUMERATED: sign and magnitude in memory, two's complement on
  the wire.  The reference meaning of each direction is arithmetic on values; the methods run the
  in-place loops and are proved to produce exactly the reference octets.
 */
module IntegerCodec {
  import opened Bytes
  import opened Common

  /** The type field: the tag together with the sign flag. */
  datatype Type = Integer | NegInteger | Enumerated | NegEnumerated | OtherType(negFlag: bool) {
    predicate IsNeg() {
      NegInteger? || NegEnumerated? || (OtherType? && negFlag)
    }
  }

  class Asn1Integer {
    var kind: Type
    var length: int
    var data: array?<byte>

    constructor ()
      ensures kind == Integer && length == 0 && data == null
    {
      kind, length, data := Integer, 0, null;
    }

    predicate Valid()
      reads this
    {
      && 0 <= length <= INT_MAX
      && (if data == null then length == 0 else length <= data.Length)
    }

    function Magnitude(): (s: seq<byte>)
      requires Valid()
      reads this, data
    {
      if data == null then [] else data[..length]
    }
  }

  // ---------- reference meaning ----------

  /** The number held by a sign and a magnitude. */
  function Signed(neg: bool, m: seq<byte>): int {
    if neg then 0 - Mag(m) else Mag(m)
  }

  /** A value is held canonically when it has no leading zero octet, zero being one positive zero octet. */
  predicate Canonical(neg: bool, m: seq<byte>) {
    m != [] && (m[0] != 0 || (m == [0] && !neg))
  }

  /** As many places as the magnitude has, one at least, and one more only if the value does not fit there. */
  function EncodedLength(neg: bool, m: seq<byte>): nat {
    var n := if m == [] then 1 else |m|;
    if Fits(Signed(neg, m), n) then n else n + 1
  }

  lemma SignedFits(neg: bool, m: seq<byte>)
    ensures Fits(Signed(neg, m), EncodedLength(neg, m))
  {
    MagBound(m);
  }

  /** The content octets of a sign and a magnitude. */
  function Encoding(neg: bool, m: seq<byte>): (x: seq<byte>)
    ensures |x| == EncodedLength(neg, m)
  {
    SignedFits(neg, m);
    ToTwos(Signed(neg, m), EncodedLength(neg, m))
  }

  /** Places of the decoded magnitude: all but one of the octets read, if the magnitude fits there. */
  function DecodedLength(x: seq<byte>): nat {
    if |x| <= 1 then |x|
    else if Abs(Twos(x)) < Pow(256, |x| - 1) then |x| - 1
    else |x|
  }

  function Abs(v: int): nat {
    if v < 0 then -v else v
  }

  /** The sign and the magnitude of content octets. */
  function Decoding(x: seq<byte>): (r: (bool, seq<byte>)) {
    (Twos(x) < 0, Octets(Abs(Twos(x)), DecodedLength(x)))
  }

  // ---------- properties of the reference ----------

  /** Encoding keeps the value, whatever leading zeros the magnitude has and for negative zero too. */
  lemma EncodingKeepsValue(neg: bool, m: seq<byte>)
    ensures Twos(Encoding(neg, m)) == Signed(neg, m)
  {
    SignedFits(neg, m);
    TwosOfToTwos(Signed(neg, m), EncodedLength(neg, m));
  }

  /** The encoding is the shortest possible exactly when the magnitude has no place to spare. */
  lemma EncodingMinimal(neg: bool, m: seq<byte>)
    ensures IsMinimal(Encoding(neg, m)) <==> |m| <= 1 || !Fits(Signed(neg, m), |m| - 1)
    ensures Canonical(neg, m) ==> IsMinimal(Encoding(neg, m))
  {
    var x := Encoding(neg, m);
    var v := Signed(neg, m);
    EncodingKeepsValue(neg, m);
    MagBound(m);
    if |x| >= 2 {
      MinimalIffTight(x);
      if |x| == |m| + 1 {
        if |m| >= 2 && Fits(v, |m| - 1) {
          FitsMonotone(v, |m| - 1, |m|);
        }
      }
      if |m| >= 2 && m[0] != 0 {
        HeadBound(m, 1);
      }
    }
  }

  lemma DecodedMagnitudeFits(x: seq<byte>)
    ensures Abs(Twos(x)) < Pow(256, DecodedLength(x))
  {
    if x != [] {
      TwosFits(x);
    }
  }

  /** Decoding keeps the value of every content string, minimal or not. */
  lemma DecodingKeepsValue(x: seq<byte>)
    ensures var (neg, m) := Decoding(x); Signed(neg, m) == Twos(x)
  {
    DecodedMagnitudeFits(x);
    MagOfOctets(Abs(Twos(x)), DecodedLength(x));
  }

  /** Decoding inverts encoding on the canonical values and on no others. */
  lemma DecodeOfEncode(neg: bool, m: seq<byte>)
    ensures Decoding(Encoding(neg, m)) == (neg, m) <==> Canonical(neg, m)
  {
    hide Encoding, Decoding;
    if m == [] || (|m| >= 2 && m[0] == 0) {
      LengthChanges(neg, m);
    } else {
      DecodedParts(neg, m);
      MagZero(m);
      var m' := Decoding(Encoding(neg, m)).1;
      if m[0] == 0 {
        assert AllZero(m);
      } else {
        assert !AllZero(m);
      }
      MagInjective(m, m');
    }
  }

  lemma LengthChanges(neg: bool, m: seq<byte>)
    requires m == [] || (|m| >= 2 && m[0] == 0)
    ensures |Decoding(Encoding(neg, m)).1| != |m|
  {
    if m == [] {
      assert |Encoding(neg, m)| >= 1;
    } else {
      HeadBound(m, 1);
      EncodingKeepsValue(neg, m);
    }
  }

  lemma DecodedParts(neg: bool, m: seq<byte>)
    requires m != [] && (m[0] != 0 || |m| == 1)
    ensures var r := Decoding(Encoding(neg, m));
            && r.0 == (Signed(neg, m) < 0) && Mag(r.1) == Mag(m) && |r.1| == |m|
  {
    var x := Encoding(neg, m);
    assert Twos(x) == Signed(neg, m) by { EncodingKeepsValue(neg, m); }
    DecodingKeepsValue(x);
    if m[0] != 0 {
      CanonicalLength(neg, m);
    } else {
      ZeroOctets(neg);
    }
  }

  lemma CanonicalLength(neg: bool, m: seq<byte>)
    requires m != [] && m[0] != 0
    ensures |Decoding(Encoding(neg, m)).1| == |m|
  {
    EncodingKeepsValue(neg, m);
    HeadBound(m, 1);
    MagBound(m);
  }

  /** What reading content octets and writing them again produces. */
  function Reencoded(x: seq<byte>): seq<byte> {
    var (neg, m) := Decoding(x);
    Encoding(neg, m)
  }

  /** Minimal content is written back unchanged, and any other content without its first octet. */
  lemma ReencodingDropsOneOctet(x: seq<byte>)
    requires x != []
    ensures Reencoded(x) == if IsMinimal(x) then x else x[1..]
  {
    var (neg, m) := Decoding(x);
    var v := Twos(x);
    DecodingKeepsValue(x);
    EncodingKeepsValue(neg, m);
    TwosFits(x);
    if |x| == 1 {
      TwosInjective(Reencoded(x), x);
    } else {
      MinimalIffTight(x);
      if IsMinimal(x) {
        assert !Fits(v, |x| - 1);
        TwosInjective(Reencoded(x), x);
      } else {
        assert |m| == |x| - 1;
        TwosInjective(Reencoded(x), x[1..]);
      }
    }
  }

  function ReencodedTimes(x: seq<byte>, k: nat): seq<byte>
    decreases k
  {
    if k == 0 then x else ReencodedTimes(Reencoded(x), k - 1)
  }

  /** Re-encoding often enough ends in the one minimal string with the value read first. */
  lemma {:induction false} ReencodingTerminates(x: seq<byte>, k: nat)
    requires x != [] && k >= |x| - 1
    ensures IsMinimal(ReencodedTimes(x, k))
    ensures Twos(ReencodedTimes(x, k)) == Twos(x)
    ensures forall y: seq<byte> | IsMinimal(y) && Twos(y) == Twos(x) :: y == ReencodedTimes(x, k)
    decreases k
  {
    hide Reencoded;
    if IsMinimal(x) {
      MinimalIsFixed(x, k);
    } else {
      assert Reencoded(x) == x[1..] by { ReencodingDropsOneOctet(x); }
      assert Twos(x[1..]) == Twos(x) by { MinimalIffTight(x); }
      assert ReencodedTimes(x, k) == ReencodedTimes(x[1..], k - 1);
      ReencodingTerminates(x[1..], k - 1);
    }
    forall y: seq<byte> | IsMinimal(y) && Twos(y) == Twos(x)
      ensures y == ReencodedTimes(x, k)
    {
      MinimalIsUnique(y, ReencodedTimes(x, k));
    }
  }

  lemma {:induction false} MinimalIsFixed(x: seq<byte>, k: nat)
    requires IsMinimal(x)
    ensures ReencodedTimes(x, k) == x
  {
    hide Reencoded;
    if k > 0 {
      ReencodingDropsOneOctet(x);
      MinimalIsFixed(x, k - 1);
    }
  }

  // ---------- i2c_ASN1_INTEGER ----------

  function Complement(b: byte): byte {
    255 - b
  }

  /** Complement and add one, cut to an octet. */
  function Negate(b: byte): byte {
    if b == 0 then 0 else 256 - b
  }

  /** out is the two's complement negation of d. */
  predicate Negated(d: seq<byte>, out: seq<byte>) {
    && |d| == |out|
    && Mag(out) == if Mag(d) == 0 then 0 else Pow(256, |d|) - Mag(d)
  }

  /** The octet after the zeros. */
  lemma NegateFirst(b: byte, d: seq<byte>, out: seq<byte>)
    requires |d| == |out| && AllZero(d) && AllZero(out)
    ensures Negated([b] + d, [Negate(b)] + out)
    ensures b != 0 ==> Mag([b] + d) != 0
  {
    MagCons(b, d);
    MagCons(Negate(b), out);
    MagZero(d);
    MagZero(out);
    var p := Pow(256, |d|);
    MulPlus(256 - b, b, p);
    HeadCompare(b, 1, p);
  }

  /** Every octet after that: plain complement. */
  lemma NegateNext(b: byte, d: seq<byte>, out: seq<byte>)
    requires Negated(d, out) && Mag(d) != 0
    ensures Negated([b] + d, [Complement(b)] + out)
    ensures Mag([b] + d) != 0
  {
    MagCons(b, d);
    MagCons(Complement(b), out);
    MulPlus(255 - b, b, Pow(256, |d|));
    HeadCompare(b, 0, Pow(256, |d|));
  }

  /** The loop that complements the octets left, once the last k of them are negated. */
  method ComplementRest(d: seq<byte>, to: array<byte>, ts: nat, k: nat)
    requires k <= |d| && ts + |d| <= to.Length
    requires Negated(d[k..], to[ts + k..ts + |d|])
    requires k > 0 ==> Mag(d[k..]) != 0
    modifies to
    ensures Negated(d, to[ts..ts + |d|])
    ensures forall j :: 0 <= j < ts || ts + |d| <= j < to.Length ==> to[j] == old(to[j])
  {
    var i := k;
    var n, p := k - 1, ts + k - 1;
    while i > 0
      invariant 0 <= i <= k && n == i - 1 && p == ts + i - 1
      invariant Negated(d[i..], to[ts + i..ts + |d|])
      invariant i > 0 ==> Mag(d[i..]) != 0
      invariant forall j :: 0 <= j < ts || ts + |d| <= j < to.Length ==> to[j] == old(to[j])
    {
      ghost var tail, done := d[i..], to[ts + i..ts + |d|];
      NegateNext(d[n], tail, done);
      to[p] := Complement(d[n]);
      assert to[p..ts + |d|] == [Complement(d[n])] + done;
      assert d[n..] == [d[n]] + tail;
      p, n, i := p - 1, n - 1, i - 1;
    }
    assert d[0..] == d;
  }

  /** After the zeros at k and above: one octet complemented and incremented, the rest complemented. */
  method NegateFrom(d: seq<byte>, to: array<byte>, ts: nat, k: nat)
    requires 0 < k <= |d| && ts + |d| <= to.Length
    requires AllZero(d[k..]) && AllZero(to[ts + k..ts + |d|])
    requires d[k - 1] != 0 || k == 1
    modifies to
    ensures Negated(d, to[ts..ts + |d|])
    ensures forall j :: 0 <= j < ts || ts + |d| <= j < to.Length ==> to[j] == old(to[j])
  {
    ghost var tail, done := d[k..], to[ts + k..ts + |d|];
    to[ts + k - 1] := Negate(d[k - 1]);
    assert to[ts + k - 1..ts + |d|] == [Negate(d[k - 1])] + done;
    assert d[k - 1..] == [d[k - 1]] + tail;
    NegateFirst(d[k - 1], tail, done);
    ComplementRest(d, to, ts, k - 1);
  }

  /**
    Backward copy of d into to[ts..ts + |d|] as its negation: trailing zeros are copied, one octet
    is complemented and incremented, the rest are complemented.
   */
  method NegateBackward(d: seq<byte>, to: array<byte>, ts: nat)
    requires d != [] && ts + |d| <= to.Length
    modifies to
    ensures Negated(d, to[ts..ts + |d|])
    ensures forall j :: 0 <= j < ts || ts + |d| <= j < to.Length ==> to[j] == old(to[j])
  {
    var i := |d|;
    var n, p := |d| - 1, ts + |d| - 1;
    while d[n] == 0 && i > 1
      invariant 1 <= i <= |d| && n == i - 1 && p == ts + i - 1
      invariant forall j :: ts + i <= j < ts + |d| ==> to[j] == 0
      invariant forall j :: i <= j < |d| ==> d[j] == 0
      invariant forall j :: 0 <= j < ts || ts + |d| <= j < to.Length ==> to[j] == old(to[j])
      decreases i
    {
      to[p] := 0;
      p, n, i := p - 1, n - 1, i - 1;
    }
    NegateFrom(d, to, ts, i);
  }

  /** The padding rule of the encoder asks whether the value fits in as many places as the magnitude. */
  lemma PadRule(neg: bool, m: seq<byte>)
    requires m != []
    ensures !Fits(Signed(neg, m), |m|) <==>
            if neg then m[0] > 128 || (m[0] == 128 && !AllZero(m[1..])) else m[0] > 127
  {
    MagHead(m);
    MagZero(m[1..]);
    HeadBound(m, 128);
    HeadBound(m, 129);
    MagBound(m);
  }

  lemma NegatedOctets(d: seq<byte>, out: seq<byte>)
    requires d != [] && Negated(d, out)
    ensures Fits(Signed(true, d), |d|) ==> out == Encoding(true, d)
    ensures !Fits(Signed(true, d), |d|) ==> [255] + out == Encoding(true, d)
  {
    EncodingKeepsValue(true, d);
    MagBound(d);
    var v := Signed(true, d);
    if Fits(v, |d|) {
      HeadBound(out, 128);
      assert Twos(out) == v;
      TwosInjective(out, Encoding(true, d));
    } else {
      MagCons(255, out);
      assert Twos([255] + out) == v;
      TwosInjective([255] + out, Encoding(true, d));
    }
  }

  lemma PositiveOctets(m: seq<byte>)
    requires m != []
    ensures Fits(Mag(m), |m|) ==> m == Encoding(false, m)
    ensures !Fits(Mag(m), |m|) ==> [0] + m == Encoding(false, m)
  {
    EncodingKeepsValue(false, m);
    if Fits(Mag(m), |m|) {
      HeadBound(m, 128);
      TwosInjective(m, Encoding(false, m));
    } else {
      MagCons(0, m);
      TwosInjective([0] + m, Encoding(false, m));
    }
  }

  lemma ZeroOctets(neg: bool)
    ensures Encoding(neg, []) == [0] && Encoding(neg, [0]) == [0]
  {
    EncodingKeepsValue(neg, []);
    EncodingKeepsValue(neg, [0]);
    TwosInjective([0], Encoding(neg, []));
    TwosInjective([0], Encoding(neg, [0]));
  }

  method Copy(from: seq<byte>, to: array<byte>, ts: nat)
    requires ts + |from| <= to.Length
    modifies to
    ensures to[ts..ts + |from|] == from
    ensures forall j :: 0 <= j < ts || ts + |from| <= j < to.Length ==> to[j] == old(to[j])
  {
    forall j | 0 <= j < |from| {
      to[ts + j] := from[j];
    }
  }

  /** The padding decision: whether to pad, the octet to pad with, and the sign that counts. */
  method Padding(neg0: bool, m: seq<byte>) returns (neg: bool, pad: nat, pb: byte)
    requires m != []
    ensures neg == (neg0 && m != [0])
    ensures pad == if Fits(Signed(neg0, m), |m|) then 0 else 1
    ensures pb == if pad == 1 && neg then 255 else 0
  {
    neg, pad, pb := neg0, 0, 0;
    PadRule(neg0, m);
    var i: int := m[0];
    if |m| == 1 && i == 0 {
      neg := false;
    }
    if !neg && i > 127 {
      pad, pb := 1, 0;
    } else if neg {
      if i > 128 {
        pad, pb := 1, 255;
      } else if i == 128 {
        i := 1;
        while i < |m|
          invariant 1 <= i <= |m| && pad == 0 && pb == 0
          invariant forall j :: 1 <= j < i ==> m[j] == 0
        {
          if m[i] != 0 {
            pad, pb := 1, 255;
            assert m[1..][i - 1] != 0;
            break;
          }
          i := i + 1;
        }
      }
    }
  }

  lemma EncodingSize(neg0: bool, m: seq<byte>, pad: nat)
    requires m != [] && pad == if Fits(Signed(neg0, m), |m|) then 0 else 1
    ensures |Encoding(neg0, m)| == |m| + pad
  {
  }

  /** The octets themselves, once the padding is decided. */
  method WriteOctets(ghost neg0: bool, m: seq<byte>, neg: bool, pad: nat, pb: byte, out: array<byte>, pos: nat)
    requires m != [] && neg == (neg0 && m != [0])
    requires pad == if Fits(Signed(neg0, m), |m|) then 0 else 1
    requires pb == if pad == 1 && neg then 255 else 0
    requires pos + pad + |m| <= out.Length
    modifies out
    ensures out[pos..pos + pad + |m|] == Encoding(neg0, m)
    ensures forall j :: 0 <= j < pos || pos + pad + |m| <= j < out.Length ==> out[j] == old(out[j])
  {
    var p := pos;
    if pad == 1 {
      out[p] := pb;
      p := p + 1;
    }
    if !neg {
      Copy(m, out, p);
      PositiveOctets(m);
      assert Encoding(neg0, m) == Encoding(false, m) by { ZeroOctets(neg0); ZeroOctets(false); }
      assert Signed(neg0, m) == Mag(m) by { MagZero(m); }
    } else {
      NegateBackward(m, out, p);
      NegatedOctets(m, out[p..p + |m|]);
    }
    assert out[pos..pos + pad + |m|] == (if pad == 1 then [pb] else []) + out[p..p + |m|];
  }

  /** The encoder on a sign and a magnitude. */
  method Encode(neg0: bool, m: seq<byte>, out: array?<byte>, pos: nat) returns (ret: nat, pos': nat)
    requires out != null ==> pos + |Encoding(neg0, m)| <= out.Length
    modifies out
    ensures ret == |Encoding(neg0, m)|
    ensures pos' == if out == null then pos else pos + ret
    ensures out != null ==> out[pos..pos'] == Encoding(neg0, m)
    ensures out != null ==> forall j :: 0 <= j < pos || pos' <= j < out.Length ==> out[j] == old(out[j])
  {
    var neg, pad, pb := neg0, 0, 0;
    if |m| == 0 {
      ret := 1;
      ZeroOctets(neg);
    } else {
      neg, pad, pb := Padding(neg0, m);
      EncodingSize(neg0, m, pad);
      ret := |m| + pad;
    }
    if out == null {
      return ret, pos;
    }
    if |m| == 0 {
      out[pos] := 0;
      assert out[pos..pos + 1] == [0];
    } else {
      WriteOctets(neg0, m, neg, pad, pb, out, pos);
    }
    pos' := pos + ret;
  }

  /**
    i2c_ASN1_INTEGER: the number of content octets, written at out[pos..] when there is an out.
    The position returned is the moved output pointer.
   */
  method I2c(a: Asn1Integer?, out: array?<byte>, pos: nat) returns (ret: nat, pos': nat)
    requires a != null ==> a.Valid() && |Encoding(a.kind.IsNeg(), a.Magnitude())| <= INT_MAX
    requires a != null && out != null ==>
               a.data != out && pos + |Encoding(a.kind.IsNeg(), a.Magnitude())| <= out.Length
    modifies out
    ensures a == null ==> ret == 0 && pos' == pos && (out != null ==> out[..] == old(out[..]))
    ensures a != null ==>
              && ret == |Encoding(a.kind.IsNeg(), a.Magnitude())|
              && pos' == if out == null then pos else pos + ret
    ensures a != null && out != null ==>
              && out[pos..pos'] == Encoding(a.kind.IsNeg(), a.Magnitude())
              && forall j :: 0 <= j < pos || pos' <= j < out.Length ==> out[j] == old(out[j])
  {
    if a == null {
      return 0, pos;
    }
    var m: seq<byte> := if a.data == null then [] else a.data[..a.length];
    assert m == a.Magnitude();
    ret, pos' := Encode(a.kind.IsNeg(), m, out, pos);
    assert m == a.Magnitude();
  }

  // ---------- c2i_ASN1_INTEGER ----------

  lemma DecodingIs(x: seq<byte>, neg: bool, m: seq<byte>)
    requires |m| == DecodedLength(x) && Mag(m) == Abs(Twos(x)) && neg == (Twos(x) < 0)
    ensures Decoding(x) == (neg, m)
  {
    OctetsOfMag(m);
  }

  /** A leading zero octet is dropped from two or more. */
  lemma DecodePositive(x: seq<byte>)
    requires x != [] && x[0] < 128
    ensures Decoding(x) == (false, if x[0] == 0 && |x| != 1 then x[1..] else x)
  {
    MagHead(x);
    HeadBound(x, 1);
    MagBound(x);
    DecodingIs(x, false, if x[0] == 0 && |x| != 1 then x[1..] else x);
  }

  /** What the negative branch negates. */
  function Stripped(x: seq<byte>): (r: seq<byte>)
    requires x != []
  {
    if x[0] == 255 && |x| != 1 then x[1..] else x
  }

  lemma StrippedValue(x: seq<byte>)
    requires x != [] && x[0] >= 128
    ensures Twos(x) == Mag(Stripped(x)) - Pow(256, |Stripped(x)|)
    ensures Twos(x) < 0
  {
    MagHead(x);
    MagBound(x);
  }

  lemma DecodeNegative(x: seq<byte>, out: seq<byte>)
    requires x != [] && x[0] >= 128
    requires Mag(Stripped(x)) != 0 && Negated(Stripped(x), out)
    ensures Decoding(x) == (true, out)
  {
    StrippedValue(x);
    HeadBound(x, 255);
    assert |out| == DecodedLength(x);
    DecodingIs(x, true, out);
  }

  /** FF followed by n zero octets stands for one followed by n zero octets. */
  lemma DecodeAllZeros(x: seq<byte>, zeros: seq<byte>)
    requires |x| >= 2 && x[0] == 255 && AllZero(x[1..]) && AllZero(zeros) && |zeros| == |x| - 1
    ensures Decoding(x) == (true, [1] + zeros)
  {
    StrippedValue(x);
    MagZero(x[1..]);
    MagZero(zeros);
    MagCons(1, zeros);
    DecodingIs(x, true, [1] + zeros);
  }

  /**
    The zero-skip loop over input[base..base + len].  It reads an octet before it tests its count,
    yet never reads below pos: either an FF octet stands at pos == base - 1 or the first is not zero.
   */
  method SkipZeros(input: array<byte>, pos: nat, base: nat, len: nat, s: array<byte>) returns (i: nat)
    requires 0 < len && base + len <= input.Length && len <= s.Length && s != input
    requires pos <= base && input[pos] != 0 && (pos == base || pos + 1 == base)
    modifies s
    ensures i <= len
    ensures AllZero(input[base + i..base + len]) && AllZero(s[i..len])
    ensures if i == 0 then base == pos + 1 else input[base + i - 1] != 0
  {
    i := len;
    var p, to := base + i - 1, i - 1;
    while input[p] == 0 && i != 0
      invariant 0 <= i <= len && p == base + i - 1 && to == i - 1
      invariant pos <= p
      invariant forall j :: base + i <= j < base + len ==> input[j] == 0
      invariant forall j :: i <= j < len ==> s[j] == 0
      decreases i
    {
      s[to] := 0;
      to, i, p := to - 1, i - 1, p - 1;
    }
  }

  /** The negative branch, reading input[pos..pos + len0]. */
  method DecodeNegativeInto(input: array<byte>, pos: nat, len0: nat, s: array<byte>) returns (len: nat)
    requires 0 < len0 && pos + len0 <= input.Length && input[pos] >= 128
    requires s.Length == len0 + 1 && s != input
    modifies s
    ensures len <= s.Length
    ensures Decoding(input[pos..pos + len0]) == (true, s[..len])
  {
    hide Mag, Pow, Decoding, Negated;
    var base := pos;
    len := len0;
    if input[base] == 255 && len != 1 {
      base, len := base + 1, len - 1;
    }
    ghost var x := input[pos..pos + len0];
    var d := input[base..base + len];
    assert d == Stripped(x);
    var i := SkipZeros(input, pos, base, len, s);
    assert d[i..] == input[base + i..base + len];
    if i == 0 {
      s[0] := 1;
      s[len] := 0;
      len := len + 1;
      assert s[..len] == [1] + s[1..len];
      assert AllZero(s[1..len]);
      DecodeAllZeros(x, s[1..len]);
    } else {
      NegateFrom(d, s, 0, i);
      assert Mag(d) != 0 by { MagZero(d); }
      assert s[0..len] == s[..len];
      DecodeNegative(x, s[..len]);
    }
  }

  /** The positive branch, for a first octet below 128. */
  method DecodePositiveInto(input: array<byte>, pos: nat, len0: nat, s: array<byte>) returns (len: nat)
    requires 0 < len0 && pos + len0 <= input.Length && input[pos] < 128
    requires s.Length == len0 + 1 && s != input
    modifies s
    ensures len <= s.Length
    ensures Decoding(input[pos..pos + len0]) == (false, s[..len])
  {
    var p := pos;
    len := len0;
    if input[p] == 0 && len != 1 {
      p, len := p + 1, len - 1;
    }
    DecodePositive(input[pos..pos + len0]);
    assert input[pos..pos + len0][1..] == input[pos + 1..pos + len0];
    Copy(input[p..p + len], s, 0);
    assert s[..len] == s[0..0 + len];
  }

  /** All three branches on the sign and the length of the content. */
  method DecodeInto(input: array<byte>, pos: nat, len0: nat, s: array<byte>) returns (neg: bool, len: nat)
    requires pos + len0 <= input.Length && s.Length == len0 + 1 && s != input
    modifies s
    ensures len <= s.Length
    ensures Decoding(input[pos..pos + len0]) == (neg, s[..len])
  {
    if len0 == 0 {
      neg, len := false, 0;
      DecodingIs([], false, []);
    } else if input[pos] >= 128 {
      neg := true;
      len := DecodeNegativeInto(input, pos, len0, s);
    } else {
      neg := false;
      len := DecodePositiveInto(input, pos, len0, s);
    }
  }

  /**
    c2i_ASN1_INTEGER: reads len octets at input[pos..], into the object given or a new one.  Lengths
    below zero or above INT_MAX / 2 are refused and leave everything as it was.
   */
  method C2i(a: Asn1Integer?, input: array<byte>, pos: nat, len: int) returns (ret: Asn1Integer?, pos': nat)
    requires len >= 0 ==> pos + len <= input.Length
    modifies a
    ensures ret == null <==> len < 0 || len > INT_MAX / 2
    ensures ret == null ==> pos' == pos && (a != null ==> unchanged(a))
    ensures ret != null ==>
              && (if a == null then fresh(ret) else ret == a)
              && pos' == pos + len
              && ret.Valid() && ret.data != null && fresh(ret.data)
              && (ret.kind == NegInteger || ret.kind == Integer)
              && (ret.kind.IsNeg(), ret.Magnitude()) == Decoding(input[pos..pos'])
  {
    if len < 0 || len > INT_MAX / 2 {
      return null, pos;
    }
    if a == null {
      ret := new Asn1Integer();
    } else {
      ret := a;
    }
    var s := new byte[len + 1];
    var neg, n := DecodeInto(input, pos, len, s);
    ret.kind := if neg then NegInteger else Integer;
    ret.data := s;
    ret.length := n;
    pos' := pos + len;
  }
}
