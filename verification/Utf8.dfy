/** The UTF-8 reader and writer of one character, with the long forms up to six octets. */
module Utf8 {
  import opened Bytes
  import opened Common

  const U31 := 0x8000_0000
  const U32 := 0x1_0000_0000

  /** A character with the octets it took, or the error code; no input at all is Empty. */
  datatype GetResult = Char(value: nat, size: nat) | Bad(code: int) | Empty

  /** The first value that needs k continuation octets. */
  function Least(k: nat): nat
    requires k <= 6
  {
    if k == 0 then 0 else if k == 1 then 0x80 else if k == 2 then 0x800 else if k == 3 then 0x10000
    else if k == 4 then 0x200000 else if k == 5 then 0x4000000 else U31
  }

  function Extra(c: nat): (k: nat)
    ensures k <= 5
  {
    if c < 0x80 then 0 else if c < 0x800 then 1 else if c < 0x10000 then 2
    else if c < 0x200000 then 3 else if c < 0x4000000 then 4 else 5
  }

  /** The fixed high bits of the first octet, and how many values its low bits have. */
  function LeadBase(k: nat): nat
    requires k <= 5
  {
    if k == 0 then 0 else if k == 1 then 0xc0 else if k == 2 then 0xe0 else if k == 3 then 0xf0
    else if k == 4 then 0xf8 else 0xfc
  }

  function LeadRoom(k: nat): nat
    requires k <= 5
  {
    if k == 0 then 0x80 else if k == 1 then 0x20 else if k == 2 then 0x10 else if k == 3 then 8
    else if k == 4 then 4 else 2
  }

  /** The low bits of x that the first octet has room for. */
  function LeadBits(x: nat, k: nat): (b: nat)
    requires k <= 5
    ensures b < LeadRoom(k)
    ensures x < LeadRoom(k) ==> b == x
  {
    if k == 0 then x % 0x80 else if k == 1 then x % 0x20 else if k == 2 then x % 0x10 else if k == 3 then x % 8
    else if k == 4 then x % 4 else x % 2
  }

  /** c >> 6 * k */
  function Shift(c: nat, k: nat): nat {
    if k == 0 then c else Shift(c / 64, k - 1)
  }

  /** The low 6 * k bits as continuation octets. */
  function Tail(c: nat, k: nat): (t: seq<byte>)
    ensures |t| == k
  {
    if k == 0 then [] else Tail(c / 64, k - 1) + [128 + c % 64]
  }

  predicate IsContinuation(b: byte) {
    128 <= b < 192
  }

  function Join(head: nat, t: seq<byte>): int
    decreases |t|
  {
    if t == [] then head else 64 * Join(head, t[..|t| - 1]) + t[|t| - 1] - 128
  }

  /** UTF8_putc with room enough; above 31 bits the top bit is lost. */
  function PutChar(c: nat): (s: seq<byte>)
    requires c < U32
    ensures |s| == Extra(c) + 1
  {
    var k := Extra(c);
    [LeadBase(k) + LeadBits(Shift(c, k), k)] + Tail(c, k)
  }

  /** The continuation count that the first octet announces, if any. */
  function Announced(b: byte): (k: int)
    ensures -1 <= k <= 5
  {
    if b < 0x80 then 0 else if 0xc0 <= b < 0xe0 then 1 else if 0xe0 <= b < 0xf0 then 2
    else if 0xf0 <= b < 0xf8 then 3 else if 0xf8 <= b < 0xfc then 4 else if 0xfc <= b < 0xfe then 5
    else -1
  }

  /** UTF8_getc */
  function GetChar(s: seq<byte>): (r: GetResult)
    ensures r.Char? ==> 1 <= r.size <= |s| && r.value < U31
    ensures r.Empty? <==> s == []
    ensures r.Bad? ==> r.code < 0
  {
    if s == [] then Empty
    else
      var k := Announced(s[0]);
      if k < 0 then Bad(-2)
      else if |s| < k + 1 then Bad(-1)
      else if exists i :: 1 <= i <= k && !IsContinuation(s[i]) then Bad(-3)
      else
        JoinRange(s[0] - LeadBase(k), s[1..k + 1]);
        var v := Join(s[0] - LeadBase(k), s[1..k + 1]);
        if v < Least(k) then Bad(-4) else Char(v, k + 1)
  }

  lemma {:induction false} JoinRange(head: nat, t: seq<byte>)
    requires forall i :: 0 <= i < |t| ==> IsContinuation(t[i])
    ensures head * Pow(64, |t|) <= Join(head, t) < (head + 1) * Pow(64, |t|)
    decreases |t|
  {
    if t != [] {
      var u := t[..|t| - 1];
      JoinRange(head, u);
      assert head * Pow(64, |t|) == 64 * (head * Pow(64, |u|));
      assert (head + 1) * Pow(64, |t|) == 64 * ((head + 1) * Pow(64, |u|));
    }
  }

  lemma {:induction false} JoinOfTail(c: nat, k: nat)
    ensures Join(Shift(c, k), Tail(c, k)) == c
    ensures forall i :: 0 <= i < k ==> IsContinuation(Tail(c, k)[i])
  {
    if k > 0 {
      JoinOfTail(c / 64, k - 1);
      var t := Tail(c, k);
      assert t[..k - 1] == Tail(c / 64, k - 1);
    }
  }

  lemma {:induction false} TailOfJoin(head: nat, t: seq<byte>)
    requires forall i :: 0 <= i < |t| ==> IsContinuation(t[i])
    ensures Join(head, t) >= 0
    ensures Shift(Join(head, t), |t|) == head && Tail(Join(head, t), |t|) == t
    decreases |t|
  {
    if t != [] {
      var u := t[..|t| - 1];
      TailOfJoin(head, u);
      var v := Join(head, t);
      assert v / 64 == Join(head, u) && 128 + v % 64 == t[|t| - 1];
      assert t == u + [t[|t| - 1]];
    }
  }

  lemma {:induction false} ShiftBound(c: nat, k: nat, m: nat)
    requires c < m * Pow(64, k)
    ensures Shift(c, k) < m
  {
    if k > 0 {
      assert m * Pow(64, k) == 64 * (m * Pow(64, k - 1));
      ShiftBound(c / 64, k - 1, m);
    }
  }

  lemma ShiftRange(c: nat)
    requires c < U31
    ensures Shift(c, Extra(c)) < LeadRoom(Extra(c))
  {
    var k := Extra(c);
    assert Pow(64, 1) == 0x40 && Pow(64, 2) == 0x1000 && Pow(64, 3) == 0x40000;
    assert Pow(64, 4) == 64 * Pow(64, 3) && Pow(64, 5) == 64 * Pow(64, 4);
    ShiftBound(c, k, LeadRoom(k));
  }

  lemma HeadRange(b: byte)
    requires Announced(b) >= 0
    ensures 0 <= b - LeadBase(Announced(b)) < LeadRoom(Announced(b))
  {
  }

  lemma AnnouncedBy(k: nat, head: nat)
    requires k <= 5 && head < LeadRoom(k)
    ensures LeadBase(k) + head < 256 && Announced(LeadBase(k) + head) == k
  {
  }

  lemma ExtraIs(v: nat, k: nat)
    requires k <= 5 && Least(k) <= v < LeadRoom(k) * Pow(64, k)
    ensures Extra(v) == k
  {
    assert Pow(64, 1) == 0x40 && Pow(64, 2) == 0x1000 && Pow(64, 3) == 0x40000;
    assert Pow(64, 4) == 64 * Pow(64, 3) && Pow(64, 5) == 64 * Pow(64, 4);
  }

  lemma {:induction false} TailIsLow(c: nat, m: nat, k: nat)
    ensures Tail(c + m * Pow(64, k), k) == Tail(c, k)
    ensures Shift(c + m * Pow(64, k), k) == Shift(c, k) + m
  {
    if k > 0 {
      var p := m * Pow(64, k - 1);
      assert m * Pow(64, k) == 64 * p;
      assert (c + 64 * p) / 64 == c / 64 + p && (c + 64 * p) % 64 == c % 64;
      TailIsLow(c / 64, m, k - 1);
    }
  }

  /** The longest form has no place for the 32nd bit: a character with it is written like the one without. */
  lemma TopBitLost(c: nat)
    requires Least(5) <= c < U31
    ensures PutChar(c + U31) == PutChar(c)
  {
    hide Tail, Shift;
    assert 2 * Pow(64, 5) == U31 by { assert Pow(64, 3) == 0x40000; }
    TailIsLow(c, 2, 5);
  }

  /** The layout of section 3 of RFC 3629, and of the longer forms that came before it. */
  lemma Layout(c: nat)
    requires c < U31
    ensures PutChar(c) ==
            if c < 0x80 then [c]
            else if c < 0x800 then [0xc0 + c / 0x40, 0x80 + c % 0x40]
            else if c < 0x10000 then [0xe0 + c / 0x40 / 0x40, 0x80 + c / 0x40 % 0x40, 0x80 + c % 0x40]
            else if c < 0x20_0000 then
              [0xf0 + c / 0x40 / 0x40 / 0x40, 0x80 + c / 0x40 / 0x40 % 0x40, 0x80 + c / 0x40 % 0x40, 0x80 + c % 0x40]
            else if c < 0x400_0000 then
              [0xf8 + c / 0x40 / 0x40 / 0x40 / 0x40, 0x80 + c / 0x40 / 0x40 / 0x40 % 0x40,
               0x80 + c / 0x40 / 0x40 % 0x40, 0x80 + c / 0x40 % 0x40, 0x80 + c % 0x40]
            else
              [0xfc + c / 0x40 / 0x40 / 0x40 / 0x40 / 0x40, 0x80 + c / 0x40 / 0x40 / 0x40 / 0x40 % 0x40,
               0x80 + c / 0x40 / 0x40 / 0x40 % 0x40, 0x80 + c / 0x40 / 0x40 % 0x40, 0x80 + c / 0x40 % 0x40,
               0x80 + c % 0x40]
  {
    ShiftRange(c);
    var c1, c2, c3, c4 := c / 64, c / 64 / 64, c / 64 / 64 / 64, c / 64 / 64 / 64 / 64;
    TailNext(c4, 0);
    TailNext(c3, 0);
    TailNext(c3, 1);
    TailNext(c2, 0);
    TailNext(c2, 1);
    TailNext(c2, 2);
    TailNext(c1, 0);
    TailNext(c1, 1);
    TailNext(c1, 2);
    TailNext(c1, 3);
    TailNext(c, 0);
    TailNext(c, 1);
    TailNext(c, 2);
    TailNext(c, 3);
    TailNext(c, 4);
  }

  lemma TailNext(c: nat, k: nat)
    ensures Tail(c, k + 1) == Tail(c / 64, k) + [128 + c % 64] && Shift(c, k + 1) == Shift(c / 64, k)
    ensures Tail(c, 0) == [] && Shift(c, 0) == c
  {
  }

  /** Reading what was written gives the character back, whatever follows it. */
  lemma GetOfPut(c: nat, rest: seq<byte>)
    requires c < U31
    ensures GetChar(PutChar(c) + rest) == Char(c, |PutChar(c)|)
  {
    hide Join, Tail, Shift, Announced, LeadBase, LeadRoom, LeadBits;
    var k := Extra(c);
    var head := Shift(c, k);
    assert head < LeadRoom(k) by { ShiftRange(c); }
    JoinOfTail(c, k);
    AnnouncedBy(k, head);
    var s := PutChar(c) + rest;
    assert s[0] == LeadBase(k) + head;
    assert s[1..k + 1] == Tail(c, k);
    assert forall i :: 1 <= i <= k ==> s[i] == Tail(c, k)[i - 1];
  }

  /** The octets of an accepted character are the ones that would be written: no long form is read. */
  lemma PutOfGet(s: seq<byte>)
    requires GetChar(s).Char?
    ensures PutChar(GetChar(s).value) == s[..GetChar(s).size]
  {
    hide Join, Tail, Shift, Announced, LeadBase, LeadRoom, LeadBits, Pow, Extra;
    var Char(v, n) := GetChar(s);
    HeadRange(s[0]);
    var k := n - 1;
    var head, t := s[0] - LeadBase(k), s[1..n];
    assert forall i :: 0 <= i < k ==> t[i] == s[i + 1];
    TailOfJoin(head, t);
    JoinRange(head, t);
    MulMonotone(head + 1, LeadRoom(k), Pow(64, k));
    ExtraIs(v, k);
    assert s[..n] == [s[0]] + t;
  }
}
