/**
  Setting and getting INTEGER and ENUMERATED from a C long of w octets.  The two setters use
  different algorithms and different forms of zero.
 */
module IntegerSetters {
  import opened Bytes
  import opened Common
  import opened IntegerCodec

  const U64 := 0x1_0000_0000_0000_0000

  function LongMin(w: nat): int
    requires 1 <= w <= 8
  {
    -Half(w)
  }

  function LongMax(w: nat): int
    requires 1 <= w <= 8
  {
    Half(w) - 1
  }

  predicate IsLong(v: int, w: nat)
    requires 1 <= w <= 8
  {
    LongMin(w) <= v <= LongMax(w)
  }

  lemma LongRange(w: nat)
    requires 1 <= w <= 8
    ensures Pow(256, 8) == U64
    ensures 128 <= Half(w) && 2 * Half(w) == Pow(256, w) <= U64
  {
    assert Pow(256, 8) == U64;
    PowMonotone(w, 8);
  }

  /** What the INTEGER setter leaves: the canonical form. */
  predicate HeldAsInteger(v: int, kind: Type, m: seq<byte>) {
    && kind == (if v < 0 then NegInteger else Integer)
    && Canonical(v < 0, m)
    && Signed(v < 0, m) == v
  }

  /** What the ENUMERATED setter leaves: no leading zero octet, and no octet at all for zero. */
  predicate HeldAsEnumerated(v: int, kind: Type, m: seq<byte>) {
    && kind == (if v < 0 then NegEnumerated else Enumerated)
    && (m != [] ==> m[0] != 0)
    && Signed(v < 0, m) == v
  }

  lemma LongerIsGreater(m: seq<byte>, n: seq<byte>)
    requires |m| < |n| && n[0] != 0
    ensures Mag(m) < Mag(n)
  {
    MagBound(m);
    HeadBound(n, 1);
    PowMonotone(|m|, |n| - 1);
  }

  lemma NoLeadingZeroUnique(m: seq<byte>, n: seq<byte>)
    requires m != [] && n != [] && m[0] != 0 && n[0] != 0 && Mag(m) == Mag(n)
    ensures m == n
  {
    if |m| == |n| {
      MagInjective(m, n);
    } else if |m| < |n| {
      LongerIsGreater(m, n);
    } else {
      LongerIsGreater(n, m);
    }
  }

  /** Same octets in memory except for zero, and always the same content octets. */
  lemma SettersAgree(v: int, ki: Type, mi: seq<byte>, ke: Type, me: seq<byte>)
    requires HeldAsInteger(v, ki, mi) && HeldAsEnumerated(v, ke, me)
    ensures if v == 0 then mi == [0] && me == [] else mi == me
    ensures Encoding(ki.IsNeg(), mi) == Encoding(ke.IsNeg(), me)
  {
    MagZero(mi);
    MagZero(me);
    if v == 0 {
      assert mi[0] == 0;
      assert me == [];
      ZeroOctets(false);
    } else {
      NoLeadingZeroUnique(mi, me);
    }
  }

  /** What both getters return for an object of the type they expect. */
  function LongValue(neg: bool, m: seq<byte>, w: nat): int
    requires 1 <= w <= 8
  {
    if |m| > 8 || Mag(m) > LongMax(w) then -1 else Signed(neg, m)
  }

  function IntegerValue(kind: Type, m: seq<byte>, w: nat): int
    requires 1 <= w <= 8
  {
    if kind == Integer || kind == NegInteger then LongValue(kind == NegInteger, m, w) else -1
  }

  function EnumeratedValue(kind: Type, m: seq<byte>, w: nat): int
    requires 1 <= w <= 8
  {
    if kind == Enumerated || kind == NegEnumerated then LongValue(kind == NegEnumerated, m, w) else -1
  }

  lemma ShortMagnitude(m: seq<byte>)
    requires Mag(m) < U64
    requires m == [0] || (m != [] ==> m[0] != 0)
    ensures |m| <= 8
  {
    LongRange(8);
    if |m| > 8 {
      HeadBound(m, 1);
      PowMonotone(8, |m| - 1);
    }
  }

  /**
    Reading back an INTEGER gives the value set except at the least long, whose magnitude is kept
    but reads back as -1.
   */
  lemma IntegerGetOfSet(v: int, w: nat, kind: Type, m: seq<byte>)
    requires 1 <= w <= 8 && IsLong(v, w) && HeldAsInteger(v, kind, m)
    ensures IntegerValue(kind, m, w) == v <==> v != LongMin(w)
    ensures v == LongMin(w) ==> Signed(kind.IsNeg(), m) == v && IntegerValue(kind, m, w) == -1
  {
    LongRange(w);
    ShortMagnitude(m);
  }

  lemma EnumeratedGetOfSet(v: int, w: nat, kind: Type, m: seq<byte>)
    requires 1 <= w <= 8 && IsLong(v, w) && v != LongMin(w) && HeldAsEnumerated(v, kind, m)
    ensures EnumeratedValue(kind, m, w) == v
  {
    LongRange(w);
    ShortMagnitude(m);
  }

  // ---------- ASN1_INTEGER_set_uint64, ASN1_INTEGER_set ----------

  lemma DropLeadingZero(m: seq<byte>)
    requires m != [] && m[0] == 0
    ensures Mag(m[1..]) == Mag(m)
  {
    MagHead(m);
  }

  /** CRYPTO_bswap8 and the copy into memory: the eight octets of v, most significant first. */
  method StoreBigEndian(v: nat) returns (data: array<byte>)
    requires v < U64
    ensures fresh(data) && data.Length == 8 && data[..] == Octets(v, 8)
  {
    ghost var octets := Octets(v, 8);
    data := new byte[8];
    var rest, i := v, 8;
    while i > 0
      invariant 0 <= i <= 8
      invariant Octets(v, 8) == Octets(rest, i) + data[i..]
    {
      assert Octets(rest, i) == Octets(rest / 256, i - 1) + [rest % 256];
      ghost var done := data[i..];
      data[i - 1] := rest % 256;
      assert data[i - 1..] == [rest % 256] + done;
      rest, i := rest / 256, i - 1;
    }
    assert data[0..] == data[..];
  }

  method SetUint64(out: Asn1Integer, v: nat)
    requires v < U64
    modifies out
    ensures out.Valid() && out.data != null && fresh(out.data)
    ensures HeldAsInteger(v, out.kind, out.Magnitude())
  {
    var data := StoreBigEndian(v);
    LongRange(8);
    MagOfOctets(v, 8);
    out.data := data;
    out.kind := Integer;
    var leadingZeros := 0;
    assert data[0..] == data[..];
    while leadingZeros < 7
      invariant 0 <= leadingZeros <= 7
      invariant out.data == data && out.kind == Integer
      invariant Mag(data[leadingZeros..]) == v
    {
      if data[leadingZeros] != 0 {
        break;
      }
      DropLeadingZero(data[leadingZeros..]);
      assert data[leadingZeros..][1..] == data[leadingZeros + 1..];
      leadingZeros := leadingZeros + 1;
    }
    ghost var kept := data[leadingZeros..];
    out.length := 8 - leadingZeros;
    forall j | 0 <= j < out.length {
      data[j] := data[leadingZeros + j];
    }
    assert data[..out.length] == kept;
    assert |kept| == 1 && kept[0] == 0 ==> kept == [0];
  }

  method SetInteger(a: Asn1Integer, v: int, w: nat)
    requires 1 <= w <= 8 && IsLong(v, w)
    modifies a
    ensures a.Valid() && a.data != null && fresh(a.data)
    ensures HeldAsInteger(v, a.kind, a.Magnitude())
  {
    LongRange(w);
    if v >= 0 {
      SetUint64(a, v);
      return;
    }
    assert (0 - v % U64) % U64 == -v;
    SetUint64(a, (0 - v % U64) % U64);
    assert a.Magnitude() != [0] by { MagZero(a.Magnitude()); }
    a.kind := NegInteger;
  }

  // ---------- ASN1_INTEGER_get, ASN1_ENUMERATED_get ----------

  /** The accumulation loop in 64 bits, and the check against the largest long. */
  method ReadLong(neg: bool, a: Asn1Integer, w: nat) returns (r: int)
    requires 1 <= w <= 8 && a.Valid()
    ensures r == LongValue(neg, a.Magnitude(), w)
  {
    if a.length > 8 {
      return -1;
    }
    var r64: nat := 0;
    if a.data != null {
      var i := 0;
      while i < a.length
        invariant 0 <= i <= a.length
        invariant r64 == Mag(a.data[..i]) < Pow(256, i)
      {
        LongRange(8);
        PowMonotone(i + 1, 8);
        r64 := (r64 * 256) % U64;
        r64 := r64 + a.data[i];
        assert a.data[..i + 1][..i] == a.data[..i];
        MagBound(a.data[..i + 1]);
        i := i + 1;
      }
      if r64 > LongMax(w) {
        return -1;
      }
    }
    r := r64;
    if neg {
      r := -r;
    }
  }

  method GetInteger(a: Asn1Integer?, w: nat) returns (r: int)
    requires 1 <= w <= 8 && (a != null ==> a.Valid())
    ensures r == if a == null then 0 else IntegerValue(a.kind, a.Magnitude(), w)
    ensures a != null ==>
              var m := a.Magnitude();
              r == if (a.kind == Integer || a.kind == NegInteger) && |m| <= 8 && Mag(m) < Half(w)
                   then (if a.kind == NegInteger then 0 - Mag(m) else Mag(m)) else -1
  {
    if a == null {
      return 0;
    }
    var neg := false;
    if a.kind == NegInteger {
      neg := true;
    } else if a.kind != Integer {
      return -1;
    }
    r := ReadLong(neg, a, w);
  }

  method GetEnumerated(a: Asn1Integer?, w: nat) returns (r: int)
    requires 1 <= w <= 8 && (a != null ==> a.Valid())
    ensures r == if a == null then 0 else EnumeratedValue(a.kind, a.Magnitude(), w)
    ensures a != null ==>
              var m := a.Magnitude();
              r == if (a.kind == Enumerated || a.kind == NegEnumerated) && |m| <= 8 && Mag(m) < Half(w)
                   then (if a.kind == NegEnumerated then 0 - Mag(m) else Mag(m)) else -1
  {
    if a == null {
      return 0;
    }
    var neg := false;
    if a.kind == NegEnumerated {
      neg := true;
    } else if a.kind != Enumerated {
      return -1;
    }
    r := ReadLong(neg, a, w);
  }

  // ---------- ASN1_ENUMERATED_set ----------

  lemma SplitOctet(q: int, r: int, p: int)
    ensures r * p + q * (256 * p) == (256 * q + r) * p
  {
  }

  /** Pushing the lowest octet of d in front of the octets already taken keeps the total. */
  lemma PushOctet(d: nat, low: seq<byte>)
    ensures Mag([d % 256] + low) + d / 256 * Pow(256, |low| + 1) == Mag(low) + d * Pow(256, |low|)
  {
    var q, r := d / 256, d % 256;
    var p := Pow(256, |low|);
    assert Pow(256, |low| + 1) == 256 * p && 256 * q + r == d;
    hide Mag, Pow;
    MagCons(r, low);
    SplitOctet(q, r, p);
  }

  function Reversed(s: seq<byte>): (r: seq<byte>) {
    if s == [] then [] else [s[|s| - 1]] + Reversed(s[..|s| - 1])
  }

  lemma NothingLeft(total: int, d: nat, p: nat, v: nat)
    requires total + d * p == v && total >= 0 && p >= 1
    ensures d == 0 ==> total == v
    ensures v < p ==> d == 0
  {
    HeadCompare(d, 1, p);
  }

  /** The octets of v0, lowest first, until nothing is left. */
  method TakeOctets(v0: nat, w: nat) returns (buf: array<byte>, i: nat)
    requires 1 <= w <= 8 && v0 < Pow(256, w)
    ensures fresh(buf) && buf.Length == w + 1 && i <= w
    ensures Mag(Reversed(buf[..i])) == v0
    ensures i > 0 ==> buf[i - 1] != 0
  {
    buf := new byte[w + 1];
    var d := v0;
    i := 0;
    assert buf[..0] == [] && Mag(Reversed([])) == 0 && Pow(256, 0) == 1;
    hide Mag, Pow;
    while i < w
      invariant 0 <= i <= w && d >= 0
      invariant |Reversed(buf[..i])| == i
      invariant Mag(Reversed(buf[..i])) + d * Pow(256, i) == v0
      invariant d == 0 && i > 0 ==> buf[i - 1] != 0
    {
      if d == 0 {
        break;
      }
      ghost var low := buf[..i];
      PushOctet(d, Reversed(low));
      buf[i] := d % 256;
      assert buf[..i + 1][..i] == low;
      d := d / 256;
      i := i + 1;
    }
    NothingLeft(Mag(Reversed(buf[..i])), d, Pow(256, i), v0);
  }

  lemma {:induction false} ReversedIndex(s: seq<byte>)
    ensures |Reversed(s)| == |s|
    ensures forall j :: 0 <= j < |s| ==> Reversed(s)[j] == s[|s| - 1 - j]
  {
    if s != [] {
      ReversedIndex(s[..|s| - 1]);
    }
  }

  method CopyReversed(buf: array<byte>, i: nat, data: array<byte>)
    requires i <= buf.Length && i <= data.Length && buf != data
    modifies data
    ensures data[..i] == Reversed(buf[..i])
  {
    ReversedIndex(buf[..i]);
    var j: int, k: int := 0, i - 1;
    while k >= 0
      invariant -1 <= k < i && j == i - 1 - k
      invariant forall n :: 0 <= n < j ==> data[n] == buf[i - 1 - n]
    {
      data[j] := buf[k];
      j, k := j + 1, k - 1;
    }
    assert data[..j] == Reversed(buf[..i]);
  }

  method SetEnumerated(a: Asn1Integer, v: int, w: nat)
    requires 1 <= w <= 8 && IsLong(v, w) && v != LongMin(w)
    requires a.Valid()
    modifies a, a.data
    ensures a.Valid() && a.data != null
    ensures HeldAsEnumerated(v, a.kind, a.Magnitude())
  {
    hide Mag, Pow;
    LongRange(w);
    a.kind := Enumerated;
    if a.length < w + 1 {
      a.data := new byte[w + 1](_ => 0);
    }
    var d := v;
    if d < 0 {
      d := -d;
      a.kind := NegEnumerated;
    }
    var buf, i := TakeOctets(d, w);
    ReversedIndex(buf[..i]);
    CopyReversed(buf, i, a.data);
    a.length := i;
    ReversedIndex(buf[..i]);
  }
}
