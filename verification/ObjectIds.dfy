/**
  OBJECT IDENTIFIER content octets: the one-pass validator decides whether the octets are a list
  of minimal base-128 numbers (section 8.19.2 of X.690), and the copy into the object.
 */
module ObjectIds {
  import opened Bytes
  import opened Common

  // ---------- the grammar ----------

  /** The octets of n before the last: seven bits each, high bit set, none for zero. */
  function Leading(n: nat): seq<byte> {
    if n == 0 then [] else Leading(n / 128) + [128 + n % 128]
  }

  /** The shortest base-128 octets of one number, the high bit clear in the last only. */
  function EncodeArc(n: nat): seq<byte> {
    Leading(n / 128) + [n % 128]
  }

  function EncodeArcs(arcs: seq<nat>): seq<byte> {
    if arcs == [] then [] else EncodeArcs(arcs[..|arcs| - 1]) + EncodeArc(arcs[|arcs| - 1])
  }

  /** Grammatical content: the octets of some non-empty list of numbers. */
  ghost predicate IsOid(x: seq<byte>) {
    exists arcs: seq<nat> :: arcs != [] && EncodeArcs(arcs) == x
  }

  // ---------- the test the code makes ----------

  predicate BadStart(x: seq<byte>, i: nat)
    requires i < |x|
  {
    x[i] == 128 && (i == 0 || x[i - 1] < 128)
  }

  predicate NoBadStart(x: seq<byte>) {
    forall i :: 0 <= i < |x| ==> !BadStart(x, i)
  }

  predicate WellFormed(x: seq<byte>) {
    x != [] && x[|x| - 1] < 128 && NoBadStart(x)
  }

  // ---------- reading left to right ----------

  /** The numbers completed so far, and the bits of the one being read. */
  datatype Reader = Reader(arcs: seq<nat>, pending: nat, within: bool)

  const START := Reader([], 0, false)

  function Step(r: Reader, b: byte): Reader {
    if b >= 128 then Reader(r.arcs, r.pending * 128 + (b - 128), true)
    else Reader(r.arcs + [r.pending * 128 + b], 0, false)
  }

  function Read(r: Reader, x: seq<byte>): Reader
    decreases |x|
  {
    if x == [] then r else Step(Read(r, x[..|x| - 1]), x[|x| - 1])
  }

  /** The octets that lead to a state of the reader. */
  function Unread(r: Reader): seq<byte> {
    EncodeArcs(r.arcs) + Leading(r.pending)
  }

  predicate Consistent(r: Reader) {
    r.within <==> r.pending > 0
  }

  /** One more octet read is one more octet recovered. */
  lemma UnreadOfStep(r: Reader, b: byte)
    requires Consistent(r) && (b == 128 ==> r.within)
    ensures Consistent(Step(r, b)) && Unread(Step(r, b)) == Unread(r) + [b]
  {
    hide EncodeArcs;
    var n := r.pending * 128 + b % 128;
    assert n / 128 == r.pending && n % 128 == b % 128;
    if b < 128 {
      AppendArc(r.arcs, n);
      assert EncodeArc(n) == Leading(r.pending) + [b];
    } else {
      assert Leading(n) == Leading(r.pending) + [b];
    }
  }

  lemma AppendArc(arcs: seq<nat>, n: nat)
    ensures EncodeArcs(arcs + [n]) == EncodeArcs(arcs) + EncodeArc(n)
  {
    assert (arcs + [n])[..|arcs|] == arcs;
  }

  /** Octets without a bad start are recovered from the state they lead to. */
  lemma {:induction false} UnreadOfRead(x: seq<byte>)
    requires NoBadStart(x)
    ensures Unread(Read(START, x)) == x
    ensures Consistent(Read(START, x)) && (Read(START, x).within <==> x != [] && x[|x| - 1] >= 128)
    decreases |x|
  {
    hide Unread;
    if x == [] {
      assert Unread(START) == [] by { UnreadOfStart(); }
    } else {
      var y, b := x[..|x| - 1], x[|x| - 1];
      DropLast(x);
      UnreadOfRead(y);
      UnreadOfStep(Read(START, y), b);
      assert x == y + [b];
    }
  }

  lemma UnreadOfStart()
    ensures Unread(START) == []
  {
  }

  lemma DropLast(x: seq<byte>)
    requires x != [] && NoBadStart(x)
    ensures NoBadStart(x[..|x| - 1])
    ensures x[|x| - 1] == 128 ==> |x| >= 2 && x[|x| - 2] >= 128
  {
    var y := x[..|x| - 1];
    forall i | 0 <= i < |y| ensures !BadStart(y, i) {
      assert !BadStart(x, i);
    }
    assert !BadStart(x, |x| - 1);
  }

  lemma {:induction false} ReadAppend(r: Reader, x: seq<byte>, y: seq<byte>)
    ensures Read(r, x + y) == Read(Read(r, x), y)
    decreases |y|
  {
    if y == [] {
      assert x + y == x;
    } else {
      ReadAppend(r, x, y[..|y| - 1]);
      assert (x + y)[..|x + y| - 1] == x + y[..|y| - 1];
    }
  }

  lemma {:induction false} ReadLeading(arcs: seq<nat>, n: nat)
    ensures Read(Reader(arcs, 0, false), Leading(n)) == Reader(arcs, n, n > 0)
  {
    if n > 0 {
      ReadLeading(arcs, n / 128);
      ReadAppend(Reader(arcs, 0, false), Leading(n / 128), [128 + n % 128]);
      ReadOne(Reader(arcs, n / 128, n / 128 > 0), 128 + n % 128);
    }
  }

  lemma ReadOne(r: Reader, b: byte)
    ensures Read(r, [b]) == Step(r, b)
  {
    assert [b][..0] == [];
    assert Read(r, [b][..0]) == r;
  }

  lemma ReadArc(arcs: seq<nat>, n: nat)
    ensures Read(Reader(arcs, 0, false), EncodeArc(n)) == Reader(arcs + [n], 0, false)
  {
    var r := Reader(arcs, 0, false);
    ReadLeading(arcs, n / 128);
    ReadAppend(r, Leading(n / 128), [n % 128]);
    ReadOne(Read(r, Leading(n / 128)), n % 128);
  }

  /** Reading the octets of a list gives the list back. */
  lemma {:induction false} ReadOfEncode(arcs: seq<nat>)
    ensures Read(START, EncodeArcs(arcs)) == Reader(arcs, 0, false)
  {
    hide EncodeArc, Step;
    if arcs != [] {
      var front := arcs[..|arcs| - 1];
      ReadOfEncode(front);
      ReadAppend(START, EncodeArcs(front), EncodeArc(arcs[|arcs| - 1]));
      ReadArc(front, arcs[|arcs| - 1]);
      assert arcs == front + [arcs[|arcs| - 1]];
    }
  }

  // ---------- the octets of a list pass the test ----------

  lemma {:induction false} LeadingShape(n: nat)
    ensures forall i :: 0 <= i < |Leading(n)| ==> Leading(n)[i] >= 128
    ensures Leading(n) != [] ==> Leading(n)[0] != 128
  {
    if n > 0 {
      LeadingShape(n / 128);
    }
  }

  lemma {:induction false} EncodingShape(arcs: seq<nat>)
    ensures NoBadStart(EncodeArcs(arcs))
    ensures arcs != [] ==> WellFormed(EncodeArcs(arcs))
    ensures arcs == [] ==> EncodeArcs(arcs) == []
  {
    if arcs != [] {
      var front, last := arcs[..|arcs| - 1], arcs[|arcs| - 1];
      EncodingShape(front);
      LeadingShape(last / 128);
      var u, v := EncodeArcs(front), EncodeArc(last);
      forall i | 0 <= i < |u + v| ensures !BadStart(u + v, i) {
        if i < |u| {
          assert !BadStart(u, i);
        }
      }
    }
  }

  /** The one-pass test decides the grammar. */
  lemma WellFormedIffOid(x: seq<byte>)
    ensures WellFormed(x) <==> IsOid(x)
  {
    if WellFormed(x) {
      UnreadOfRead(x);
      var arcs := Read(START, x).arcs;
      assert EncodeArcs(arcs) == x;
      EncodingShape(arcs);
    }
    if IsOid(x) {
      var arcs: seq<nat> :| arcs != [] && EncodeArcs(arcs) == x;
      EncodingShape(arcs);
    }
  }

  lemma {:induction false} LeadingDigit(n: nat, k: nat)
    requires k < |Leading(n)|
    ensures Leading(n)[|Leading(n)| - 1 - k] == 128 + n / Pow(128, k) % 128
  {
    if k > 0 {
      LeadingDigit(n / 128, k - 1);
      DigitOfQuotient(n, Pow(128, k - 1));
    }
  }

  lemma DigitOfQuotient(n: nat, p: nat)
    requires p > 0
    ensures n / (128 * p) == n / 128 / p
  {
    var q, r := n / 128 / p, n / 128 % p;
    assert n / 128 == p * q + r && n == 128 * (n / 128) + n % 128;
    assert n == 128 * p * q + (128 * r + n % 128) by { QuotientParts(n, p, q, r); }
    assert 0 <= 128 * r + n % 128 < 128 * p;
    QuotientIs(n, 128 * p, q, 128 * r + n % 128);
  }

  lemma QuotientParts(n: nat, p: nat, q: nat, r: nat)
    requires n / 128 == p * q + r
    ensures n == 128 * p * q + (128 * r + n % 128)
  {
    assert 128 * (p * q) == 128 * p * q;
  }

  lemma QuotientIs(n: nat, d: nat, q: nat, r: nat)
    requires d > 0 && n == d * q + r && r < d
    ensures n / d == q
  {
    if n / d < q {
      MulMonotone(n / d + 1, q, d);
    } else if n / d > q {
      MulMonotone(q + 1, n / d, d);
    }
  }

  /** The octets of a number are its base-128 digits, highest first, marked in all but the last. */
  lemma ArcDigits(n: nat, k: nat)
    requires k < |EncodeArc(n)|
    ensures var x := EncodeArc(n);
            x[|x| - 1 - k] == n / Pow(128, k) % 128 + if k == 0 then 0 else 128
  {
    hide Leading;
    if k > 0 {
      LeadingDigit(n / 128, k - 1);
      DigitOfQuotient(n, Pow(128, k - 1));
    }
  }

  /** The list is determined by the octets. */
  lemma ArcsUnique(a: seq<nat>, b: seq<nat>)
    requires EncodeArcs(a) == EncodeArcs(b)
    ensures a == b
  {
    ReadOfEncode(a);
    ReadOfEncode(b);
  }

  // ---------- c2i_ASN1_OBJECT ----------

  /** The fields that the decoder reads and writes; named says whether short and long names are set. */
  class Asn1Object {
    var length: int
    var data: array?<byte>
    var dynamic: bool
    var dynamicStrings: bool
    var dynamicData: bool
    var named: bool

    constructor ()
      ensures length == 0 && data == null && dynamic && !dynamicStrings && !dynamicData && !named
    {
      length, data, dynamic, dynamicStrings, dynamicData, named := 0, null, true, false, false, false;
    }

    predicate Valid()
      reads this
    {
      0 <= length && (data != null ==> length <= data.Length)
    }

    /** Detach, grow if needed, copy, reattach. */
    method Fill(input: array<byte>, pos: nat, len: nat)
      requires Valid() && data != input && pos + len <= input.Length
      modifies this, data
      ensures Valid() && data != null && length == len && data[..len] == input[pos..pos + len]
      ensures dynamic == old(dynamic) && !named && !dynamicStrings
      ensures if old(data) != null && len <= old(length)
              then data == old(data) && dynamicData == old(dynamicData)
              else fresh(data) && dynamicData
    {
      var d := data;
      data := null;
      if d == null || length < len {
        length := 0;
        d := new byte[len];
        dynamicData := true;
      }
      forall j | 0 <= j < len {
        d[j] := input[pos + j];
      }
      assert d[..len] == input[pos..pos + len];
      if dynamicStrings {
        dynamicStrings := false;
      }
      data := d;
      length := len;
      named := false;
    }
  }

  /** The scan for a bad start. */
  method Scan(x: array<byte>, pos: nat, length: nat) returns (ok: bool)
    requires pos + length <= x.Length
    ensures ok <==> NoBadStart(x[pos..pos + length])
  {
    ghost var s := x[pos..pos + length];
    var p := pos;
    var i := 0;
    while i < length
      invariant 0 <= i <= length && p == pos + i
      invariant forall j :: 0 <= j < i ==> !BadStart(s, j)
    {
      if x[p] == 128 && (i == 0 || x[p - 1] < 128) {
        assert BadStart(s, i);
        return false;
      }
      i, p := i + 1, p + 1;
    }
    ok := true;
  }

  /**
    Reads len octets at input[pos..].  Ill-formed content is refused and changes nothing.  A dynamic
    object is overwritten, in its own buffer when that is long enough; otherwise a new one is made.
   */
  method C2i(a: Asn1Object?, input: array?<byte>, pos: nat, len: int) returns (ret: Asn1Object?, pos': nat)
    requires a != null ==> a.Valid() && (a.data != null ==> a.data != input)
    requires input != null && len >= 0 ==> pos + len <= input.Length
    modifies a, if a == null then null else a.data
    ensures ret != null <==> input != null && 0 <= len <= INT_MAX && IsOid(input[pos..pos + len])
    ensures ret == null ==> pos' == pos && (a != null ==> unchanged(a) && (a.data != null ==> unchanged(a.data)))
    ensures ret != null ==>
              && (if a != null && old(a.dynamic) then ret == a else fresh(ret))
              && pos' == pos + len
              && ret.Valid() && ret.data != null && ret.length == len
              && ret.data[..len] == old(input[pos..pos + len])
              && ret.dynamic && !ret.named && !ret.dynamicStrings
    ensures ret != null ==>
              if a != null && old(a.dynamic) && old(a.data) != null && len <= old(a.length)
              then ret.data == old(a.data) && ret.dynamicData == old(a.dynamicData)
              else fresh(ret.data) && ret.dynamicData
  {
    if input == null || len < 0 {
      return null, pos;
    }
    ghost var x := input[pos..pos + len];
    WellFormedIffOid(x);
    if len == 0 || len > INT_MAX || input[pos + len - 1] >= 128 {
      return null, pos;
    }
    var ok := Scan(input, pos, len);
    if !ok {
      return null, pos;
    }
    if a == null || !a.dynamic {
      ret := new Asn1Object();
    } else {
      ret := a;
    }
    ret.Fill(input, pos, len);
    pos' := pos + len;
  }
}
