/**
  BIT STRING: a growable set of bits held as octets, most significant bit first, with either an
  explicit number of unused bits or an implicit one recomputed by trimming zeros.
 */
module BitStrings {
  import opened Common

  // ---------- one octet ----------

  /** 1 << (7 - k) */
  function Mask(k: nat): bv8
    requires k < 8
  {
    if k == 0 then 0x80 else if k == 1 then 0x40 else if k == 2 then 0x20 else if k == 3 then 0x10
    else if k == 4 then 0x08 else if k == 5 then 0x04 else if k == 6 then 0x02 else 0x01
  }

  predicate Test(b: bv8, k: nat)
    requires k < 8
  {
    b & Mask(k) != 0
  }

  function Put(b: bv8, k: nat, value: bool): bv8
    requires k < 8
  {
    (b & !Mask(k)) | (if value then Mask(k) else 0)
  }

  lemma TestPut(b: bv8, k: nat, value: bool, j: nat)
    requires k < 8 && j < 8
    ensures Test(Put(b, k, value), j) == if j == k then value else Test(b, j)
  {
  }

  lemma OctetExtensional(a: bv8, b: bv8)
    requires forall k | 0 <= k < 8 :: Test(a, k) == Test(b, k)
    ensures a == b
  {
    assert Test(a, 0) == Test(b, 0) && Test(a, 1) == Test(b, 1) && Test(a, 2) == Test(b, 2) && Test(a, 3) == Test(b, 3);
    assert Test(a, 4) == Test(b, 4) && Test(a, 5) == Test(b, 5) && Test(a, 6) == Test(b, 6) && Test(a, 7) == Test(b, 7);
  }

  lemma ZeroTests(k: nat)
    requires k < 8
    ensures !Test(0, k)
  {
  }

  lemma SomeBit(b: bv8) returns (k: nat)
    requires b != 0
    ensures k < 8 && Test(b, k)
  {
    if forall k | 0 <= k < 8 :: !Test(b, k) {
      forall k | 0 <= k < 8 ensures Test(b, k) == Test(0, k) { ZeroTests(k); }
      OctetExtensional(b, 0);
    }
    k :| 0 <= k < 8 && Test(b, k);
  }

  /** 1 << p */
  function Low(p: bv8): bv8 {
    if p == 0 then 0x01 else if p == 1 then 0x02 else if p == 2 then 0x04 else if p == 3 then 0x08
    else if p == 4 then 0x10 else if p == 5 then 0x20 else if p == 6 then 0x40 else 0x80
  }

  /** b & ((1 << pad) - 1): the unused low bits of the last octet. */
  function Unused(b: bv8, pad: bv8): bv8 {
    b & (Low(pad) - 1)
  }

  /** b & (0xff << pad): its used high bits. */
  function Used(b: bv8, pad: bv8): bv8 {
    b & !(Low(pad) - 1)
  }

  lemma UsedBits(b: bv8, pad: bv8, k: nat)
    requires pad <= 7 && k < 8
    ensures Unused(Used(b, pad), pad) == 0
    ensures Unused(b, pad) == 0 <==> Used(b, pad) == b
    ensures Test(Used(b, pad), k) == (k + pad as int < 8 && Test(b, k))
  {
    if pad == 0 {} else if pad == 1 {} else if pad == 2 {} else if pad == 3 {}
    else if pad == 4 {} else if pad == 5 {} else if pad == 6 {} else { assert pad == 7; }
  }

  // ---------- octet strings as sets of bits ----------

  predicate Bit(s: seq<bv8>, m: nat) {
    m / 8 < |s| && Test(s[m / 8], m % 8)
  }

  ghost predicate SameBits(s: seq<bv8>, t: seq<bv8>) {
    forall m: nat :: Bit(s, m) == Bit(t, m)
  }

  lemma BitIn(s: seq<bv8>, i: nat, k: nat)
    requires k < 8
    ensures Bit(s, 8 * i + k) == (i < |s| && Test(s[i], k))
  {
    assert (8 * i + k) / 8 == i && (8 * i + k) % 8 == k;
  }

  /** Without the zero octets at the end. */
  function Trim(s: seq<bv8>): (t: seq<bv8>)
    ensures |t| <= |s| && t == s[..|t|]
    ensures t != [] ==> t[|t| - 1] != 0
  {
    if s != [] && s[|s| - 1] == 0 then Trim(s[..|s| - 1]) else s
  }

  lemma {:induction false} TrimKeepsBits(s: seq<bv8>)
    ensures SameBits(Trim(s), s)
  {
    if s != [] && s[|s| - 1] == 0 {
      var t := s[..|s| - 1];
      TrimKeepsBits(t);
      forall m: nat ensures Bit(t, m) == Bit(s, m) {
        ZeroTests(m % 8);
      }
      assert Trim(s) == Trim(t);
      forall m: nat ensures Bit(Trim(s), m) == Bit(s, m) {
        assert Bit(Trim(t), m) == Bit(t, m);
      }
    }
  }

  lemma SameBitsNotLonger(s: seq<bv8>, t: seq<bv8>)
    requires SameBits(s, t) && (s != [] ==> s[|s| - 1] != 0)
    ensures |s| <= |t|
  {
    if |s| > |t| {
      var i := |s| - 1;
      var k := SomeBit(s[i]);
      BitIn(s, i, k);
    }
  }

  /** Trimmed octets are determined by the set of bits. */
  lemma TrimIsCanonical(s: seq<bv8>, t: seq<bv8>)
    ensures Trim(s) == Trim(t) <==> SameBits(s, t)
  {
    var u, v := Trim(s), Trim(t);
    TrimKeepsBits(s);
    TrimKeepsBits(t);
    if SameBits(s, t) {
      forall m: nat ensures Bit(u, m) == Bit(v, m) {
        assert Bit(u, m) == Bit(s, m) && Bit(s, m) == Bit(t, m) && Bit(v, m) == Bit(t, m);
      }
      SameBitsNotLonger(u, v);
      SameBitsNotLonger(v, u);
      forall i | 0 <= i < |u| ensures u[i] == v[i] {
        forall k | 0 <= k < 8 ensures Test(u[i], k) == Test(v[i], k) {
          BitIn(u, i, k);
          BitIn(v, i, k);
          assert Bit(u, 8 * i + k) == Bit(v, 8 * i + k);
        }
        OctetExtensional(u[i], v[i]);
      }
    } else if u == v {
      forall m: nat ensures Bit(s, m) == Bit(t, m) {
        assert Bit(u, m) == Bit(s, m) && Bit(v, m) == Bit(t, m);
      }
    }
  }

  // ---------- set_bit ----------

  function Zeros(n: nat): (z: seq<bv8>)
    ensures |z| == n && forall i :: 0 <= i < n ==> z[i] == 0
  {
    seq(n, _ => 0)
  }

  function Grow(s: seq<bv8>, n: nat): (g: seq<bv8>)
    ensures |g| >= n && s <= g
  {
    if |s| < n then s + Zeros(n - |s|) else s
  }

  /** The octets after one call: nothing to do for a zero past the end, otherwise grow, write and trim. */
  function WithBit(s: seq<bv8>, n: nat, value: bool): seq<bv8> {
    var w := n / 8;
    if |s| < w + 1 && !value then s
    else
      var g := Grow(s, w + 1);
      Trim(g[w := Put(g[w], n % 8, value)])
  }

  lemma GrowKeepsBits(s: seq<bv8>, n: nat, m: nat)
    ensures Bit(Grow(s, n), m) == Bit(s, m)
  {
    hide Test;
    ZeroTests(m % 8);
  }

  lemma PutAt(g: seq<bv8>, n: nat, value: bool, m: nat)
    requires n / 8 < |g|
    ensures Bit(g[n / 8 := Put(g[n / 8], n % 8, value)], m) == if m == n then value else Bit(g, m)
  {
    hide Put, Test;
    TestPut(g[n / 8], n % 8, value, m % 8);
  }

  lemma WithBitAt(s: seq<bv8>, n: nat, value: bool, m: nat)
    ensures Bit(WithBit(s, n, value), m) == if m == n then value else Bit(s, m)
  {
    hide Put, Bit, Grow, Trim;
    var w := n / 8;
    if |s| < w + 1 && !value {
      assert !Bit(s, n) by { NoBitPastEnd(s, n); }
    } else {
      var g := Grow(s, w + 1);
      var u := g[w := Put(g[w], n % 8, value)];
      GrowKeepsBits(s, w + 1, m);
      PutAt(g, n, value, m);
      TrimKeepsBits(u);
      assert Bit(Trim(u), m) == Bit(u, m);
    }
  }

  lemma NoBitPastEnd(s: seq<bv8>, m: nat)
    requires |s| < m / 8 + 1
    ensures !Bit(s, m)
  {
  }

  datatype Write = Write(n: nat, value: bool)

  function AfterWrites(s: seq<bv8>, writes: seq<Write>): seq<bv8>
    decreases |writes|
  {
    if writes == [] then s
    else
      var last := |writes| - 1;
      WithBit(AfterWrites(s, writes[..last]), writes[last].n, writes[last].value)
  }

  /** The last value written at m, or what was there at the start. */
  function LastWritten(writes: seq<Write>, m: nat, initial: bool): bool
    decreases |writes|
  {
    if writes == [] then initial
    else
      var last := |writes| - 1;
      if writes[last].n == m then writes[last].value else LastWritten(writes[..last], m, initial)
  }

  /** Through any history of writes the string is the set of the bits written last. */
  lemma {:induction false} HistoryLaw(s: seq<bv8>, writes: seq<Write>, m: nat)
    ensures Bit(AfterWrites(s, writes), m) == LastWritten(writes, m, Bit(s, m))
    decreases |writes|
  {
    if writes != [] {
      var last := |writes| - 1;
      HistoryLaw(s, writes[..last], m);
      WithBitAt(AfterWrites(s, writes[..last]), writes[last].n, writes[last].value, m);
    }
  }

  predicate NoZeroEnd(s: seq<bv8>) {
    s != [] ==> s[|s| - 1] != 0
  }

  lemma TrimOfTrimmed(s: seq<bv8>)
    ensures NoZeroEnd(s) <==> Trim(s) == s
  {
  }

  /** A write leaves no zero octet at the end, unless it is of a zero past the end, which changes nothing. */
  lemma WriteTrims(s: seq<bv8>, n: nat, value: bool)
    ensures if n / 8 >= |s| && !value then WithBit(s, n, value) == s else NoZeroEnd(WithBit(s, n, value))
  {
    hide Put, Grow, Trim;
  }

  lemma {:induction false} HistoryTrims(writes: seq<Write>)
    ensures NoZeroEnd(AfterWrites([], writes))
    decreases |writes|
  {
    hide WithBit;
    if writes != [] {
      var last := |writes| - 1;
      HistoryTrims(writes[..last]);
      WriteTrims(AfterWrites([], writes[..last]), writes[last].n, writes[last].value);
    }
  }

  /** The two histories write the same last value to every bit. */
  ghost predicate SameLast(a: seq<Write>, b: seq<Write>) {
    forall m: nat :: LastWritten(a, m, false) == LastWritten(b, m, false)
  }

  lemma BitsOfHistory(writes: seq<Write>, m: nat)
    ensures Bit(AfterWrites([], writes), m) == LastWritten(writes, m, false)
  {
    HistoryLaw([], writes, m);
  }

  lemma SameLastIsSameBits(a: seq<Write>, b: seq<Write>)
    ensures SameLast(a, b) <==> SameBits(AfterWrites([], a), AfterWrites([], b))
  {
    hide Bit, AfterWrites, LastWritten;
    var s, t := AfterWrites([], a), AfterWrites([], b);
    forall m: nat ensures LastWritten(a, m, false) == LastWritten(b, m, false) <==> Bit(s, m) == Bit(t, m) {
      BitsOfHistory(a, m);
      BitsOfHistory(b, m);
    }
  }

  /** From nothing, histories leave the same octets exactly when they leave the same bits. */
  lemma HistoriesCanonical(a: seq<Write>, b: seq<Write>)
    ensures AfterWrites([], a) == AfterWrites([], b) <==> SameLast(a, b)
  {
    hide SameBits, SameLast, AfterWrites, Trim;
    var s, t := AfterWrites([], a), AfterWrites([], b);
    SameLastIsSameBits(a, b);
    HistoryTrims(a);
    HistoryTrims(b);
    TrimOfTrimmed(s);
    TrimOfTrimmed(t);
    TrimIsCanonical(s, t);
  }

  // ---------- the encoding ----------

  /** The octets and the flags field: explicit is the bits-left flag, pad its low three bits. */
  datatype Value = Value(bytes: seq<bv8>, explicit: bool, pad: bv8) {
    predicate Ok() {
      pad <= 7
    }
  }

  /** The number of zero bits at the low end, seven at most. */
  function LowZeros(b: bv8): (p: bv8)
    ensures p <= 7
    ensures Unused(b, p) == 0
    ensures b != 0 ==> b & Low(p) != 0
  {
    if b & 0x01 != 0 then 0 else if b & 0x02 != 0 then 1 else if b & 0x04 != 0 then 2
    else if b & 0x08 != 0 then 3 else if b & 0x10 != 0 then 4 else if b & 0x20 != 0 then 5
    else if b & 0x40 != 0 then 6 else 7
  }

  lemma LowestBit(b: bv8, p: bv8)
    requires p <= 7 && b & Low(p) != 0 && Unused(b, p) == 0
    ensures p == LowZeros(b)
    ensures Test(b, 7 - p as int)
    ensures forall k | 7 - p as int < k < 8 :: !Test(b, k)
  {
    if p == 0 {} else if p == 1 {} else if p == 2 {} else if p == 3 {}
    else if p == 4 {} else if p == 5 {} else if p == 6 {} else { assert p == 7; }
  }

  /** The octets that count, and how many low bits of the last are unused. */
  function UsedPart(v: Value): (r: (seq<bv8>, bv8))
    requires v.Ok()
    ensures r.1 <= 7 && (r.0 == [] ==> r.1 == 0)
  {
    if v.explicit then (v.bytes, if v.bytes == [] then 0 else v.pad)
    else
      var t := Trim(v.bytes);
      (t, if t == [] then 0 else LowZeros(t[|t| - 1]))
  }

  function BitLength(v: Value): (n: nat)
    requires v.Ok()
  {
    var (t, pad) := UsedPart(v);
    8 * |t| - pad as int
  }

  function Masked(t: seq<bv8>, pad: bv8): (r: seq<bv8>)
    ensures |r| == |t|
  {
    if t == [] then [] else t[|t| - 1 := Used(t[|t| - 1], pad)]
  }

  function Encode(v: Value): seq<bv8>
    requires v.Ok()
  {
    var (t, pad) := UsedPart(v);
    [pad] + Masked(t, pad)
  }

  /** The octets the decoder takes: an unused-bit count below eight, with that many zero bits there. */
  predicate Accepted(x: seq<bv8>) {
    && 1 <= |x| <= INT_MAX
    && x[0] <= 7
    && (x[0] != 0 ==> |x| >= 2 && Unused(x[|x| - 1], x[0]) == 0)
  }

  function Decode(x: seq<bv8>): Value
    requires Accepted(x)
  {
    Value(x[1..], true, x[0])
  }

  lemma EncodeOfDecode(x: seq<bv8>)
    requires Accepted(x)
    ensures Encode(Decode(x)) == x
  {
    if |x| >= 2 {
      UsedBits(x[|x| - 1], x[0], 0);
    }
    assert Encode(Decode(x)) == [x[0]] + x[1..];
  }

  lemma MaskedBits(t: seq<bv8>, pad: bv8, m: nat)
    requires pad <= 7 && (t == [] ==> pad == 0)
    ensures Bit(Masked(t, pad), m) == (m < 8 * |t| - pad as int && Bit(t, m))
  {
    if t != [] {
      UsedBits(t[|t| - 1], pad, m % 8);
    }
  }

  /** Every encoding is accepted; reading it keeps the length and the bits below it, and clears the rest. */
  lemma DecodeOfEncode(v: Value)
    requires v.Ok() && |v.bytes| < INT_MAX
    ensures Accepted(Encode(v))
    ensures BitLength(Decode(Encode(v))) == BitLength(v)
    ensures forall m: nat :: Bit(Decode(Encode(v)).bytes, m) == (m < BitLength(v) && Bit(v.bytes, m))
  {
    EncodeAccepted(v);
    var (t, pad) := UsedPart(v);
    assert Encode(v)[1..] == Masked(t, pad);
    forall m: nat ensures Bit(Masked(t, pad), m) == (m < BitLength(v) && Bit(v.bytes, m)) {
      UsedPartBit(v, m);
    }
  }

  /** What is accepted is exactly what some string is encoded as. */
  lemma AcceptedIffEncoding(x: seq<bv8>)
    ensures Accepted(x) <==> exists v: Value :: v.Ok() && |v.bytes| < INT_MAX && Encode(v) == x
  {
    if Accepted(x) {
      EncodeOfDecode(x);
      assert Decode(x).Ok();
    } else if v: Value :| v.Ok() && |v.bytes| < INT_MAX && Encode(v) == x {
      DecodeOfEncode(v);
    }
  }

  lemma EncodeAccepted(v: Value)
    requires v.Ok() && |v.bytes| < INT_MAX
    ensures Accepted(Encode(v))
  {
    hide Used, Unused, LowZeros, Test;
    var (t, pad) := UsedPart(v);
    if t != [] {
      UsedBits(t[|t| - 1], pad, 0);
    }
  }

  lemma UsedPartBit(v: Value, m: nat)
    requires v.Ok()
    ensures var (t, pad) := UsedPart(v);
            Bit(Masked(t, pad), m) == (m < BitLength(v) && Bit(v.bytes, m))
  {
    hide Used, Unused, LowZeros, Test, Masked;
    var (t, pad) := UsedPart(v);
    MaskedBits(t, pad, m);
    TrimKeepsBits(v.bytes);
    assert Bit(Trim(v.bytes), m) == Bit(v.bytes, m);
  }

  /** The layout of section 8.6 of X.690: the number of unused bits, then the bits, then that many zeros. */
  lemma EncodingLayout(v: Value)
    requires v.Ok()
    ensures var x := Encode(v);
            && |x| == 1 + (BitLength(v) + 7) / 8 && x[0] as int == 8 * (|x| - 1) - BitLength(v)
            && forall m: nat :: Bit(x[1..], m) == (m < BitLength(v) && Bit(v.bytes, m))
    ensures v.explicit ==> BitLength(v) == if v.bytes == [] then 0 else 8 * |v.bytes| - v.pad as int
  {
    hide Bit;
    var (t, pad) := UsedPart(v);
    assert Encode(v)[1..] == Masked(t, pad);
    assert pad as int <= 7;
    forall m: nat ensures Bit(Masked(t, pad), m) == (m < BitLength(v) && Bit(v.bytes, m)) {
      UsedPartBit(v, m);
    }
  }

  /** With the flag clear, two strings have the same encoding exactly when they have the same bits. */
  lemma EncodingIsCanonical(s: seq<bv8>, t: seq<bv8>, ps: bv8, pt: bv8)
    requires ps <= 7 && pt <= 7
    ensures Encode(Value(s, false, ps)) == Encode(Value(t, false, pt)) <==> SameBits(s, t)
  {
    TrimIsCanonical(s, t);
    ImplicitEncoding(s, ps);
    ImplicitEncoding(t, pt);
    if Encode(Value(s, false, ps)) == Encode(Value(t, false, pt)) {
      assert Encode(Value(s, false, ps))[1..] == Trim(s);
      assert Encode(Value(t, false, pt))[1..] == Trim(t);
    }
  }

  /** The implicit form masks nothing away. */
  lemma ImplicitEncoding(s: seq<bv8>, p: bv8)
    requires p <= 7
    ensures Encode(Value(s, false, p)) ==
            [if Trim(s) == [] then 0 else LowZeros(Trim(s)[|Trim(s)| - 1])] + Trim(s)
  {
    hide Test, Used, Unused, Low, LowZeros, Trim;
    var t := Trim(s);
    if t != [] {
      UsedBits(t[|t| - 1], LowZeros(t[|t| - 1]), 0);
      assert Masked(t, LowZeros(t[|t| - 1])) == t;
    }
  }

  /** With the flag clear the last used bit is the highest one, and there is none only when all are zero. */
  lemma LastUsedBitIsOne(s: seq<bv8>, p: bv8)
    requires p <= 7
    ensures var n := BitLength(Value(s, false, p));
            && (n > 0 ==> Bit(s, n - 1))
            && forall m: nat | m >= n :: !Bit(s, m)
  {
    var v := Value(s, false, p);
    var t, n := Trim(s), BitLength(v);
    TrimKeepsBits(s);
    if t != [] {
      var b := t[|t| - 1];
      LowestBit(b, LowZeros(b));
      assert Bit(t, n - 1) == Bit(s, n - 1) by {
        BitIn(t, |t| - 1, 7 - LowZeros(b) as int);
      }
    }
    forall m: nat | m >= n ensures !Bit(s, m) {
      assert Bit(t, m) == Bit(s, m);
    }
  }

  lemma NextUnused(b: bv8, p: bv8)
    requires p < 7 && b & Low(p) == 0 && Unused(b, p) == 0
    ensures Unused(b, p + 1) == 0
  {
    if p == 0 {} else if p == 1 {} else if p == 2 {} else if p == 3 {}
    else if p == 4 {} else if p == 5 {} else { assert p == 6; }
  }

  /** The bit loop of asn1_bit_string_length. */
  method LastPadding(last: bv8) returns (paddingBits: bv8)
    requires last != 0
    ensures paddingBits == LowZeros(last)
  {
    paddingBits := 0;
    while paddingBits < 7
      invariant paddingBits <= 7
      invariant Unused(last, paddingBits) == 0
      decreases 7 - paddingBits
    {
      if last & Low(paddingBits) != 0 {
        LowestBit(last, paddingBits);
        return;
      }
      NextUnused(last, paddingBits);
      paddingBits := paddingBits + 1;
    }
    LowestBit(last, paddingBits);
  }

  // ---------- the object ----------

  class BitString {
    var data: array?<bv8>
    var length: int
    var bitsLeft: bool
    var padding: bv8

    constructor ()
      ensures data == null && length == 0 && !bitsLeft && padding == 0
    {
      data, length, bitsLeft, padding := null, 0, false, 0;
    }

    predicate Valid()
      reads this
    {
      && 0 <= length <= INT_MAX
      && (if data == null then length == 0 else length <= data.Length)
      && padding <= 7
    }

    function Contents(): (s: seq<bv8>)
      requires Valid()
      reads this, data
      ensures |s| == length
    {
      if data == null then [] else data[..length]
    }

    function Current(): (v: Value)
      requires Valid()
      reads this, data
      ensures v.Ok()
    {
      Value(Contents(), bitsLeft, padding)
    }

    /** The trimming loop of asn1_bit_string_length, which leaves the object alone. */
    method TrimmedLength() returns (len: nat)
      requires Valid()
      ensures len <= length
      ensures Contents()[..len] == Trim(Contents())
    {
      ghost var s := Contents();
      len := length;
      assert s[..len] == s;
      while len > 0 && data[len - 1] == 0
        invariant len <= length
        invariant Trim(s) == Trim(s[..len])
      {
        assert s[..len][..len - 1] == s[..len - 1];
        len := len - 1;
      }
    }

    /** asn1_bit_string_length */
    method Length() returns (len: nat, paddingBits: bv8)
      requires Valid()
      ensures len <= length
      ensures Contents()[..len] == UsedPart(Current()).0
      ensures paddingBits == UsedPart(Current()).1
    {
      hide LowZeros, Trim;
      if bitsLeft {
        len := length;
        paddingBits := if len == 0 then 0 else padding;
        assert Contents()[..len] == Contents();
        return;
      }
      len := TrimmedLength();
      paddingBits := 0;
      if len > 0 {
        paddingBits := LastPadding(data[len - 1]);
      }
    }

    /** ASN1_BIT_STRING_num_bytes: a count of octets only when the bits fill them. */
    method NumBytes() returns (ok: bool, n: nat)
      requires Valid()
      ensures ok <==> BitLength(Current()) % 8 == 0
      ensures ok ==> 8 * n == BitLength(Current())
    {
      var paddingBits;
      n, paddingBits := Length();
      assert BitLength(Current()) == 8 * n - paddingBits as int;
      ok := paddingBits == 0;
    }

    /** i2c_ASN1_BIT_STRING: writes at out[pos..] when there is an out. */
    method I2c(out: array?<bv8>, pos: nat) returns (ret: nat, pos': nat)
      requires Valid()
      requires out != null ==> out != data && pos + |Encode(Current())| <= out.Length
      modifies out
      ensures ret == |Encode(Current())|
      ensures pos' == if out == null then pos else pos + ret
      ensures out != null ==> out[pos..pos'] == Encode(Current())
      ensures out != null ==> forall j :: 0 <= j < pos || pos' <= j < out.Length ==> out[j] == old(out[j])
    {
      hide UsedPart, Used;
      var len, bits := Length();
      ret := 1 + len;
      if out == null {
        return ret, pos;
      }
      ghost var t := Contents()[..len];
      WriteMasked(if data == null then [] else data[..len], bits, out, pos);
      pos' := pos + 1 + len;
    }

    static method WriteMasked(t: seq<bv8>, bits: bv8, out: array<bv8>, pos: nat)
      requires pos + 1 + |t| <= out.Length
      modifies out
      ensures out[pos..pos + 1 + |t|] == [bits] + Masked(t, bits)
      ensures forall j :: 0 <= j < pos || pos + 1 + |t| <= j < out.Length ==> out[j] == old(out[j])
    {
      hide Used;
      out[pos] := bits;
      forall j | 0 <= j < |t| {
        out[pos + 1 + j] := t[j];
      }
      assert out[pos + 1..pos + 1 + |t|] == t;
      if |t| > 0 {
        out[pos + |t|] := Used(out[pos + |t|], bits);
      }
      assert out[pos + 1..pos + 1 + |t|] == Masked(t, bits);
      assert out[pos..pos + 1 + |t|] == [bits] + out[pos + 1..pos + 1 + |t|];
    }

    /** The reallocation in set_bit: the octets in use, then zeros. */
    method Regrow(n: nat)
      requires Valid() && length < n <= INT_MAX
      modifies this`data, this`length
      ensures Valid() && fresh(data) && length == n
      ensures Contents() == Grow(old(Contents()), n)
    {
      var c := new bv8[n];
      forall j | 0 <= j < length {
        c[j] := data[j];
      }
      forall j | length <= j < n {
        c[j] := 0;
      }
      data := c;
      length := n;
    }

    /** ASN1_BIT_STRING_set_bit */
    method SetBit(n: int, value: bool)
      requires Valid() && 0 <= n <= INT_MAX
      modifies this, data
      ensures Valid() && !bitsLeft && padding == 0
      ensures Contents() == WithBit(old(Contents()), n, value)
      ensures data == old(data) || fresh(data)
    {
      hide Put, Trim;
      var w := n / 8;
      bitsLeft, padding := false, 0;
      if length < w + 1 || data == null {
        if !value {
          return;
        }
        Regrow(w + 1);
      }
      ghost var g := Contents();
      data[w] := Put(data[w], n % 8, value);
      assert Contents() == g[w := Put(g[w], n % 8, value)];
      TrimLength();
    }

    /** The fields after accepted content octets. */
    method Load(input: array<bv8>, pos: nat, len: nat)
      requires pos + len <= input.Length && Accepted(input[pos..pos + len])
      modifies this
      ensures Valid() && (data != null ==> fresh(data))
      ensures Current() == Decode(input[pos..pos + len])
    {
      hide Unused;
      ghost var x := input[pos..pos + len];
      bitsLeft, padding := true, input[pos];
      if len - 1 > 0 {
        var s := new bv8[len - 1];
        forall j | 0 <= j < len - 1 {
          s[j] := input[pos + 1 + j];
        }
        assert s[..len - 1] == x[1..];
        data := s;
      } else {
        assert x[1..] == [];
        data := null;
      }
      length := len - 1;
      assert x == input[pos..pos + len] && Contents() == x[1..];
    }

    /** The loop at the end of set_bit. */
    method TrimLength()
      requires Valid()
      modifies this`length
      ensures Valid() && Contents() == Trim(old(Contents()))
    {
      ghost var s := Contents();
      while length > 0 && data[length - 1] == 0
        invariant Valid() && length <= |s| && Contents() == s[..length]
        invariant Trim(s) == Trim(s[..length])
        decreases length
      {
        assert s[..length][..length - 1] == s[..length - 1];
        length := length - 1;
      }
    }

    /** ASN1_BIT_STRING_get_bit */
    method GetBit(n: int) returns (b: bool)
      requires Valid() && 0 <= n
      ensures b == Bit(Contents(), n)
    {
      var w := n / 8;
      if length < w + 1 || data == null {
        return false;
      }
      b := data[w] & Mask(n % 8) != 0;
    }

    /** ASN1_BIT_STRING_check: no bit is set that the first flagsLen octets of flags do not permit. */
    method Check(flags: seq<bv8>, flagsLen: int) returns (ok: bool)
      requires Valid() && flagsLen <= |flags|
      ensures ok <==> forall m: nat | Bit(Contents(), m) :: m / 8 < flagsLen && Bit(flags, m)
    {
      hide Test, Bit;
      ghost var s := Contents();
      PermittedBits(s, flags, flagsLen);
      if data == null {
        return true;
      }
      ok := true;
      var i := 0;
      while i < length && ok
        invariant 0 <= i <= length
        invariant ok ==> forall j :: 0 <= j < i ==> OctetPermitted(s[j], flags, flagsLen, j)
        invariant !ok ==> exists j :: 0 <= j < i && !OctetPermitted(s[j], flags, flagsLen, j)
      {
        var mask := if i < flagsLen then !flags[i] else 0xff;
        ok := data[i] & mask == 0;
        ghost var permitted: bv8 := if i < flagsLen then flags[i] else 0;
        assert mask == !permitted;
        CheckOctet(data[i], permitted, flags, flagsLen, i);
        i := i + 1;
      }
      assert ok == forall j :: 0 <= j < |s| ==> OctetPermitted(s[j], flags, flagsLen, j);
    }
  }

  /** Every bit of s is one of the bits in the first flagsLen octets of flags. */
  ghost predicate Permits(s: seq<bv8>, flags: seq<bv8>, flagsLen: int) {
    forall m: nat | Bit(s, m) :: m / 8 < flagsLen && Bit(flags, m)
  }

  ghost predicate OctetPermitted(b: bv8, flags: seq<bv8>, flagsLen: int, i: nat)
    requires flagsLen <= |flags|
  {
    forall k | 0 <= k < 8 && Test(b, k) :: i < flagsLen && Test(flags[i], k)
  }

  lemma PermittedBits(s: seq<bv8>, flags: seq<bv8>, flagsLen: int)
    requires flagsLen <= |flags|
    ensures (forall i :: 0 <= i < |s| ==> OctetPermitted(s[i], flags, flagsLen, i)) <==>
            Permits(s, flags, flagsLen)
  {
    hide Test;
    if Permits(s, flags, flagsLen) {
      forall i, k | 0 <= i < |s| && 0 <= k < 8 && Test(s[i], k) ensures i < flagsLen && Test(flags[i], k) {
        BitIn(s, i, k);
        BitIn(flags, i, k);
        assert Bit(s, 8 * i + k);
      }
    }
  }

  lemma CheckOctet(b: bv8, permitted: bv8, flags: seq<bv8>, flagsLen: int, i: nat)
    requires flagsLen <= |flags| && permitted == if i < flagsLen then flags[i] else 0
    ensures b & !permitted == 0 <==> OctetPermitted(b, flags, flagsLen, i)
  {
    hide Test;
    var clash := b & !permitted;
    forall k | 0 <= k < 8 ensures Test(clash, k) == (Test(b, k) && !(i < flagsLen && Test(flags[i], k))) {
      MaskedTest(b, permitted, k);
      ZeroTests(k);
    }
    if clash == 0 {
      forall k | 0 <= k < 8 && Test(b, k) ensures i < flagsLen && Test(flags[i], k) {
        ZeroTests(k);
        assert !Test(clash, k);
      }
    } else {
      var k := SomeBit(clash);
      assert Test(b, k) && !(i < flagsLen && Test(flags[i], k));
    }
  }

  lemma MaskedTest(b: bv8, c: bv8, k: nat)
    requires k < 8
    ensures Test(b & !c, k) == (Test(b, k) && !Test(c, k))
  {
  }

  // ---------- c2i_ASN1_BIT_STRING ----------

  /** Reads len octets at input[pos..] into the object given or a new one, or refuses and changes nothing. */
  method C2i(a: BitString?, input: array<bv8>, pos: nat, len: int) returns (ret: BitString?, pos': nat)
    requires len >= 0 ==> pos + len <= input.Length
    modifies a
    ensures ret != null <==> len >= 0 && Accepted(input[pos..pos + len])
    ensures ret == null ==> pos' == pos && (a != null ==> unchanged(a))
    ensures ret != null ==>
              && (if a == null then fresh(ret) else ret == a)
              && pos' == pos + len
              && ret.Valid() && (ret.data != null ==> fresh(ret.data))
              && ret.Current() == Decode(input[pos..pos'])
  {
    if len < 1 || len > INT_MAX {
      return null, pos;
    }
    var ok := Validate(input, pos, len);
    if !ok {
      return null, pos;
    }
    if a == null {
      ret := new BitString();
    } else {
      ret := a;
    }
    ret.Load(input, pos, len);
    pos' := pos + len;
  }

  /** The checks on the unused-bit count and on the unused bits. */
  method Validate(input: array<bv8>, pos: nat, len: nat) returns (ok: bool)
    requires 1 <= len <= INT_MAX && pos + len <= input.Length
    ensures ok == Accepted(input[pos..pos + len])
  {
    hide Unused;
    var padding, n := input[pos], len - 1;
    if padding > 7 {
      return false;
    }
    if padding != 0 && (n < 1 || Unused(input[pos + n], padding) != 0) {
      return false;
    }
    ok := true;
  }
}
