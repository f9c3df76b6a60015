/** Octets, unsigned big-endian magnitudes and two's complement values. */
module Bytes {
  import opened Common

  type byte = b: int | 0 <= b < 256

  lemma {:induction false} PowMonotone(m: nat, n: nat)
    requires m <= n
    ensures Pow(256, m) <= Pow(256, n)
    ensures m < n ==> 256 * Pow(256, m) <= Pow(256, n)
    decreases n - m
  {
    if m < n {
      PowMonotone(m + 1, n);
    }
  }

  /** The value of s read as an unsigned big-endian number. */
  function Mag(s: seq<byte>): nat {
    if s == [] then 0 else 256 * Mag(s[..|s| - 1]) + s[|s| - 1]
  }

  /** The n lowest base-256 digits of v, most significant first. */
  function Octets(v: nat, n: nat): (s: seq<byte>)
    ensures |s| == n
  {
    if n == 0 then [] else Octets(v / 256, n - 1) + [v % 256]
  }

  lemma {:induction false} MagBound(s: seq<byte>)
    ensures Mag(s) < Pow(256, |s|)
  {
    if s != [] {
      MagBound(s[..|s| - 1]);
    }
  }

  lemma {:induction false} OctetsOfMag(s: seq<byte>)
    ensures Octets(Mag(s), |s|) == s
  {
    if s != [] {
      var t := s[..|s| - 1];
      OctetsOfMag(t);
      assert Mag(s) / 256 == Mag(t) && Mag(s) % 256 == s[|s| - 1];
      assert s == t + [s[|s| - 1]];
    }
  }

  lemma {:induction false} MagOfOctets(v: nat, n: nat)
    requires v < Pow(256, n)
    ensures Mag(Octets(v, n)) == v
  {
    if n > 0 {
      var front := Octets(v / 256, n - 1);
      assert v / 256 < Pow(256, n - 1);
      hide Pow;
      MagOfOctets(v / 256, n - 1);
      assert (front + [v % 256])[..n - 1] == front;
    }
  }

  lemma MagInjective(s: seq<byte>, t: seq<byte>)
    requires |s| == |t| && Mag(s) == Mag(t)
    ensures s == t
  {
    OctetsOfMag(s);
    OctetsOfMag(t);
  }

  lemma {:induction false} MagCons(b: byte, s: seq<byte>)
    ensures Mag([b] + s) == b * Pow(256, |s|) + Mag(s)
  {
    var w := [b] + s;
    if s == [] {
      assert w[..0] == [];
    } else {
      var t := s[..|s| - 1];
      assert w[..|w| - 1] == [b] + t;
      MagCons(b, t);
      assert b * Pow(256, |s|) == 256 * (b * Pow(256, |t|));
    }
  }

  lemma MagHead(s: seq<byte>)
    requires s != []
    ensures Mag(s) == s[0] * Pow(256, |s| - 1) + Mag(s[1..])
    ensures Mag(s[1..]) < Pow(256, |s| - 1)
  {
    assert s == [s[0]] + s[1..];
    MagCons(s[0], s[1..]);
    MagBound(s[1..]);
  }

  lemma MulMonotone(a: int, b: int, p: int)
    requires a <= b && p >= 0
    ensures a * p <= b * p
  {
  }

  lemma MulPlus(a: int, b: int, p: int)
    ensures (a + b) * p == a * p + b * p
  {
  }

  /** Comparing the leading octet with c compares the whole magnitude with c in that place. */
  lemma HeadBound(s: seq<byte>, c: nat)
    requires s != []
    ensures s[0] >= c ==> Mag(s) >= c * Pow(256, |s| - 1)
    ensures s[0] < c ==> Mag(s) < c * Pow(256, |s| - 1)
  {
    MagHead(s);
    HeadCompare(s[0], c, Pow(256, |s| - 1));
  }

  lemma HeadCompare(b: int, c: int, p: int)
    requires p >= 0
    ensures b >= c ==> b * p >= c * p
    ensures b < c ==> b * p + p <= c * p
  {
    if b >= c {
      MulMonotone(c, b, p);
    } else {
      MulMonotone(b + 1, c, p);
      MulPlus(b, 1, p);
    }
  }

  predicate AllZero(s: seq<byte>) {
    forall i :: 0 <= i < |s| ==> s[i] == 0
  }

  lemma {:induction false} MagZero(s: seq<byte>)
    ensures Mag(s) == 0 <==> AllZero(s)
  {
    if s != [] {
      var t := s[..|s| - 1];
      MagZero(t);
      assert s == t + [s[|s| - 1]];
    }
  }

  // ---------- two's complement ----------

  /** Half the range of n octets: the two's complement values are -Half(n) .. Half(n) - 1. */
  function Half(n: nat): int
    requires n >= 1
  {
    128 * Pow(256, n - 1)
  }

  predicate Fits(v: int, n: nat) {
    n >= 1 && -Half(n) <= v < Half(n)
  }

  /** The value of content octets, section 8.3.3 of X.690; no octets at all is read as zero. */
  function Twos(x: seq<byte>): int {
    if x != [] && x[0] >= 128 then Mag(x) - Pow(256, |x|) else Mag(x)
  }

  /** The two's complement octets of v in n places. */
  function ToTwos(v: int, n: nat): (x: seq<byte>)
    requires Fits(v, n)
    ensures |x| == n
  {
    Octets(if v < 0 then v + Pow(256, n) else v, n)
  }

  lemma TwosFits(x: seq<byte>)
    requires x != []
    ensures Fits(Twos(x), |x|)
  {
    HeadBound(x, 128);
    MagBound(x);
  }

  lemma TwosOfToTwos(v: int, n: nat)
    requires Fits(v, n)
    ensures Twos(ToTwos(v, n)) == v
  {
    var x := ToTwos(v, n);
    MagOfOctets(if v < 0 then v + Pow(256, n) else v, n);
    HeadBound(x, 128);
  }

  lemma TwosInjective(x: seq<byte>, y: seq<byte>)
    requires |x| == |y| && Twos(x) == Twos(y)
    ensures x == y
  {
    MagBound(x);
    MagBound(y);
    MagInjective(x, y);
  }

  lemma FitsMonotone(v: int, m: nat, n: nat)
    requires m <= n && Fits(v, m)
    ensures Fits(v, n)
  {
    PowMonotone(m - 1, n - 1);
  }

  /** Section 8.3.2 of X.690: the first nine bits are not all equal. */
  predicate IsMinimal(x: seq<byte>) {
    && x != []
    && (|x| >= 2 ==> !(x[0] == 0 && x[1] < 128) && !(x[0] == 255 && x[1] >= 128))
  }

  /** A string of two or more octets breaks the nine-bit rule exactly when its value needs no first octet. */
  lemma MinimalIffTight(x: seq<byte>)
    requires |x| >= 2
    ensures IsMinimal(x) <==> !Fits(Twos(x), |x| - 1)
    ensures !IsMinimal(x) ==> Twos(x[1..]) == Twos(x)
  {
    var y := x[1..];
    MagHead(x);
    HeadBound(y, 128);
    MagBound(y);
    HeadBound(x, 1);
    HeadBound(x, 128);
    HeadBound(x, 255);
    MagBound(x);
    assert Pow(256, |x| - 1) == 256 * Pow(256, |x| - 2);
  }

  /** Minimal octets are the shortest with their value, and only they are. */
  lemma MinimalIsShortest(x: seq<byte>)
    requires x != []
    ensures IsMinimal(x) <==> forall y: seq<byte> | y != [] && Twos(y) == Twos(x) :: |x| <= |y|
  {
    if |x| >= 2 {
      MinimalIffTight(x);
      if IsMinimal(x) {
        forall y: seq<byte> | y != [] && Twos(y) == Twos(x)
          ensures |x| <= |y|
        {
          TwosFits(y);
          if |y| < |x| {
            FitsMonotone(Twos(x), |y|, |x| - 1);
          }
        }
      } else {
        assert x[1..] != [] && Twos(x[1..]) == Twos(x);
      }
    }
  }

  lemma MinimalIsUnique(x: seq<byte>, y: seq<byte>)
    requires IsMinimal(x) && IsMinimal(y) && Twos(x) == Twos(y)
    ensures x == y
  {
    MinimalIsShortest(x);
    MinimalIsShortest(y);
    TwosInjective(x, y);
  }
}
