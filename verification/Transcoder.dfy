/**
  ASN1_mbstring_ncopy: a first pass decodes the input and narrows the mask of permitted string
  types, a second re-encodes into the first type left.  ASN1_PRINTABLE_type is the early-exit form
  for Latin-1 text.
 */
module Transcoder {
  import opened Common
  import opened Bytes
  import Utf8

  datatype Format = Latin1 | Bmp | Univ | Utf | Unknown

  /** The bits of the mask; OtherString stands for every bit that names no type written here. */
  datatype StringType = PrintableString | IA5String | T61String | BMPString | UniversalString | UTF8String | OtherString

  // ---------- code points and their encodings ----------

  /** Section 3 of RFC 3629 without surrogates, and without the noncharacters of Unicode. */
  predicate ValidCodePoint(c: int) {
    && 0 <= c <= 0x10ffff
    && !(0xd800 <= c <= 0xdfff)
    && !(0xfdd0 <= c <= 0xfdef)
    && c % 0x10000 < 0xfffe
  }

  function Checked(c: int, size: nat): Option<(int, nat)> {
    if ValidCodePoint(c) then Some((c, size)) else None
  }

  function Wide(high: int, low: int): int {
    256 * high + low
  }

  /** The first code point and the octets it takes, if they are well formed. */
  function DecodeOne(f: Format, s: seq<byte>): (r: Option<(int, nat)>)
    requires s != []
    ensures r.Some? ==> ValidCodePoint(r.value.0) && 1 <= r.value.1 <= |s|
  {
    match f
    case Latin1 => Some((s[0], 1))
    case Bmp => if |s| < 2 then None else Checked(Wide(s[0], s[1]), 2)
    case Univ =>
      if |s| < 4 then None
      else Checked(0x10000 * Wide(s[0], s[1]) + Wide(s[2], s[3]), 4)
    case Utf =>
      var g := Utf8.GetChar(s);
      if g.Char? && g.size <= 4 then Checked(g.value, g.size) else None
    case Unknown => None
  }

  function EncodeOne(f: Format, c: int): (r: Option<seq<byte>>)
    ensures r.Some? ==> r.value != []
  {
    match f
    case Latin1 => if 0 <= c <= 0xff then Some([c]) else None
    case Bmp => if ValidCodePoint(c) && c <= 0xffff then Some([c / 256, c % 256]) else None
    case Univ => if ValidCodePoint(c) then Some([0, c / 0x10000, c / 256 % 256, c % 256]) else None
    case Utf => if ValidCodePoint(c) then Some(Utf8.PutChar(c)) else None
    case Unknown => None
  }

  function DecodeAll(f: Format, s: seq<byte>): (r: Option<seq<int>>)
    decreases |s|
  {
    if s == [] then Some([])
    else
      var one := DecodeOne(f, s);
      if one.None? then None
      else Prepend([one.value.0], DecodeAll(f, s[one.value.1..]))
  }

  function Prepend(cs: seq<int>, rest: Option<seq<int>>): Option<seq<int>> {
    if rest.None? then None else Some(cs + rest.value)
  }

  function EncodeAll(f: Format, cs: seq<int>): Option<seq<byte>> {
    if cs == [] then Some([])
    else
      var front, one := EncodeAll(f, cs[..|cs| - 1]), EncodeOne(f, cs[|cs| - 1]);
      if front.Some? && one.Some? then Some(front.value + one.value) else None
  }

  lemma WideOfParts(c: int)
    requires 0 <= c <= 0x10ffff
    ensures Wide(c / 256 % 256, c % 256) == c % 0x10000
    ensures 0x10000 * Wide(0, c / 0x10000) + c % 0x10000 == c
  {
  }

  lemma UtfOfOne(c: int, rest: seq<byte>)
    requires ValidCodePoint(c)
    ensures DecodeOne(Utf, Utf8.PutChar(c) + rest) == Some((c, |Utf8.PutChar(c)|))
  {
    hide Utf8.GetChar, Utf8.PutChar;
    Utf8.GetOfPut(c, rest);
  }

  lemma DecodeOfEncodeOne(f: Format, c: int, rest: seq<byte>)
    requires EncodeOne(f, c).Some?
    ensures DecodeOne(f, EncodeOne(f, c).value + rest) == Some((c, |EncodeOne(f, c).value|))
  {
    hide Utf8.GetChar, Utf8.PutChar, Wide;
    match f
    case Utf => UtfOfOne(c, rest);
    case Univ => WideOfParts(c);
    case Bmp => WideOfParts(c);
    case _ =>
  }

  lemma {:induction false} DecodeOfEncodeThen(f: Format, cs: seq<int>, rest: seq<byte>)
    requires EncodeAll(f, cs).Some?
    ensures DecodeAll(f, EncodeAll(f, cs).value + rest) == Prepend(cs, DecodeAll(f, rest))
    decreases |cs|
  {
    hide DecodeOne, EncodeOne;
    if cs == [] {
      assert [] + rest == rest;
      assert DecodeAll(f, rest).Some? ==> [] + DecodeAll(f, rest).value == DecodeAll(f, rest).value;
    } else {
      var front, c := cs[..|cs| - 1], cs[|cs| - 1];
      var e := EncodeOne(f, c).value;
      DecodeOfEncodeThen(f, front, e + rest);
      DecodeOfEncodeOne(f, c, rest);
      assert (e + rest)[|e|..] == rest;
      assert EncodeAll(f, cs).value + rest == EncodeAll(f, front).value + (e + rest);
      assert cs == front + [c];
      if DecodeAll(f, rest).Some? {
        assert front + ([c] + DecodeAll(f, rest).value) == cs + DecodeAll(f, rest).value;
      }
    }
  }

  lemma DecodeOfEncode(f: Format, cs: seq<int>)
    requires EncodeAll(f, cs).Some?
    ensures DecodeAll(f, EncodeAll(f, cs).value) == Some(cs)
  {
    DecodeOfEncodeThen(f, cs, []);
    assert EncodeAll(f, cs).value + [] == EncodeAll(f, cs).value;
    assert cs + [] == cs;
  }

  /** A character of fixed width is the big-endian number of its octets, if that is a code point. */
  lemma OneIsBigEndian(s: seq<byte>)
    requires s != []
    ensures DecodeOne(Latin1, s) == Some((Mag(s[..1]), 1))
    ensures DecodeOne(Bmp, s) ==
            if |s| >= 2 && ValidCodePoint(Mag(s[..2])) then Some((Mag(s[..2]), 2)) else None
    ensures DecodeOne(Univ, s) ==
            if |s| >= 4 && ValidCodePoint(Mag(s[..4])) then Some((Mag(s[..4]), 4)) else None
  {
    hide ValidCodePoint;
    MagOfOne(s[0]);
    assert s[..1] == [s[0]];
    if |s| >= 2 {
      assert s[..2][..1] == [s[0]];
      if |s| >= 4 {
        assert s[..4][..3] == s[..3] && s[..3][..2] == s[..2];
        assert Mag(s[..3]) == 256 * Mag(s[..2]) + s[2];
      }
    }
  }

  lemma MagOfOne(b: byte)
    ensures Mag([b]) == b
  {
    assert [b][..0] == [];
  }

  // ---------- types ----------

  predicate IsPrintable(c: int) {
    || 'a' as int <= c <= 'z' as int
    || 'A' as int <= c <= 'Z' as int
    || '0' as int <= c <= '9' as int
    || c == ' ' as int || c == '\'' as int || c == '(' as int || c == ')' as int
    || c == '+' as int || c == ',' as int || c == '-' as int || c == '.' as int
    || c == '/' as int || c == ':' as int || c == '=' as int || c == '?' as int
  }

  predicate Holds(t: StringType, c: int) {
    match t
    case PrintableString => IsPrintable(c)
    case IA5String => c <= 127
    case T61String => c <= 0xff
    case BMPString => c <= 0xffff
    case _ => true
  }

  predicate HoldsAll(t: StringType, cs: seq<int>) {
    forall c | c in cs :: Holds(t, c)
  }

  function FormatOf(t: StringType): Format {
    match t
    case BMPString => Bmp
    case UniversalString => Univ
    case UTF8String => Utf
    case _ => Latin1
  }

  function Narrowed(mask: set<StringType>, cs: seq<int>): set<StringType> {
    set t | t in mask && HoldsAll(t, cs)
  }

  /** The chain of tests on the narrowed mask. */
  function First(mask: set<StringType>): Option<StringType> {
    if PrintableString in mask then Some(PrintableString)
    else if IA5String in mask then Some(IA5String)
    else if T61String in mask then Some(T61String)
    else if BMPString in mask then Some(BMPString)
    else if UniversalString in mask then Some(UniversalString)
    else if UTF8String in mask then Some(UTF8String)
    else None
  }

  function Choose(mask: set<StringType>, cs: seq<int>): Option<StringType> {
    First(Narrowed(mask, cs))
  }

  function Rank(t: StringType): nat {
    match t
    case PrintableString => 0
    case IA5String => 1
    case T61String => 2
    case BMPString => 3
    case UniversalString => 4
    case UTF8String => 5
    case OtherString => 6
  }

  /** The type chosen is the permitted one of least rank that holds every character. */
  lemma ChooseIsMinimal(mask: set<StringType>, cs: seq<int>, t: StringType)
    ensures Choose(mask, cs) == Some(t) <==>
            && t != OtherString && t in mask && HoldsAll(t, cs)
            && forall u | u in mask && HoldsAll(u, cs) :: Rank(t) <= Rank(u)
    ensures Choose(mask, cs) == None <==> forall u | u in mask && u != OtherString :: !HoldsAll(u, cs)
  {
    var narrowed := Narrowed(mask, cs);
    assert forall u :: u in narrowed <==> u in mask && HoldsAll(u, cs);
  }

  /** Characters that a type holds can be written in its encoding, so the second pass cannot fail on one. */
  lemma HeldIsEncodable(t: StringType, c: int)
    requires t != OtherString && ValidCodePoint(c) && Holds(t, c)
    ensures EncodeOne(FormatOf(t), c).Some?
  {
  }

  // ---------- sizes ----------

  function Utf8Size(c: int): nat {
    if 0 <= c then Utf8.Extra(c) + 1 else 1
  }

  function Utf8Sizes(cs: seq<int>): nat {
    if cs == [] then 0 else Utf8Sizes(cs[..|cs| - 1]) + Utf8Size(cs[|cs| - 1])
  }

  /** size_estimate */
  function Estimate(t: StringType, nchar: nat, utf8Len: nat): nat {
    match t
    case BMPString => 2 * nchar
    case UniversalString => 4 * nchar
    case UTF8String => utf8Len
    case _ => nchar
  }

  lemma {:induction false} EncodedSize(t: StringType, cs: seq<int>)
    requires t != OtherString && EncodeAll(FormatOf(t), cs).Some?
    ensures |EncodeAll(FormatOf(t), cs).value| == Estimate(t, |cs|, Utf8Sizes(cs))
    decreases |cs|
  {
    if cs != [] {
      EncodedSize(t, cs[..|cs| - 1]);
    }
  }

  lemma {:induction false} AllEncodable(t: StringType, cs: seq<int>)
    requires t != OtherString && HoldsAll(t, cs) && forall c | c in cs :: ValidCodePoint(c)
    ensures EncodeAll(FormatOf(t), cs).Some?
    decreases |cs|
  {
    if cs != [] {
      var front := cs[..|cs| - 1];
      assert forall c | c in front :: c in cs;
      AllEncodable(t, front);
      HeldIsEncodable(t, cs[|cs| - 1]);
    }
  }

  lemma {:induction false} DecodedAreValid(f: Format, s: seq<byte>)
    requires DecodeAll(f, s).Some?
    ensures forall c | c in DecodeAll(f, s).value :: ValidCodePoint(c)
    ensures forall c | c in DecodeAll(f, s).value ::
              0 <= c <= 0x10ffff && !(0xd800 <= c <= 0xdfff) && !(0xfdd0 <= c <= 0xfdef) && c % 0x10000 < 0xfffe
    decreases |s|
  {
    hide DecodeOne;
    if s != [] {
      DecodedAreValid(f, s[DecodeOne(f, s).value.1..]);
    }
  }

  // ---------- what a call returns ----------

  const DIRECTORY_STRING: set<StringType> := {PrintableString, T61String, BMPString, UTF8String}

  function EffectiveMask(mask: set<StringType>): set<StringType> {
    if mask == {} then DIRECTORY_STRING else mask
  }

  predicate StartsWithMark(f: Format, cs: seq<int>) {
    (f == Bmp || f == Univ) && cs != [] && cs[0] == 0xfeff
  }

  predicate SizeOk(n: nat, minsize: int, maxsize: int) {
    !(minsize > 0 && n < minsize) && !(maxsize > 0 && n > maxsize)
  }

  /** The type decided on before any output: none if the input is refused. */
  function Plan(f: Format, s: seq<byte>, mask: set<StringType>, minsize: int, maxsize: int): (r: Option<StringType>) {
    if f == Unknown then None
    else
      var cs := DecodeAll(f, s);
      if cs.None? || StartsWithMark(f, cs.value) || !SizeOk(|cs.value|, minsize, maxsize) then None
      else Choose(EffectiveMask(mask), cs.value)
  }

  /**
    What is decided: the first of the six types that is permitted and holds every character of decoded
    text, if that does not start with a byte-order mark and its length is within the limits that are
    above zero.  An empty mask permits the four types of a directory string.
   */
  lemma PlanIs(f: Format, s: seq<byte>, mask: set<StringType>, minsize: int, maxsize: int, t: StringType)
    ensures var order := [PrintableString, IA5String, T61String, BMPString, UniversalString, UTF8String];
            var permitted := if mask == {} then {PrintableString, T61String, BMPString, UTF8String} else mask;
            Plan(f, s, mask, minsize, maxsize) == Some(t) <==>
              && f != Unknown && DecodeAll(f, s).Some?
              && var cs := DecodeAll(f, s).value;
              && !((f == Bmp || f == Univ) && cs != [] && cs[0] == 0xfeff)
              && (minsize <= 0 || minsize <= |cs|) && (maxsize <= 0 || |cs| <= maxsize)
              && exists i | 0 <= i < 6 ::
                   && t == order[i] && t in permitted && HoldsAll(t, cs)
                   && forall j | 0 <= j < i :: order[j] !in permitted || !HoldsAll(order[j], cs)
  {
    hide DecodeAll, HoldsAll, Narrowed;
    if DecodeAll(f, s).Some? {
      FirstIs(EffectiveMask(mask), DecodeAll(f, s).value, t);
    }
  }

  lemma FirstIs(mask: set<StringType>, cs: seq<int>, t: StringType)
    ensures var order := [PrintableString, IA5String, T61String, BMPString, UniversalString, UTF8String];
            Choose(mask, cs) == Some(t) <==>
              exists i | 0 <= i < 6 ::
                && t == order[i] && t in mask && HoldsAll(t, cs)
                && forall j | 0 <= j < i :: order[j] !in mask || !HoldsAll(order[j], cs)
  {
    hide HoldsAll;
    var order := [PrintableString, IA5String, T61String, BMPString, UniversalString, UTF8String];
    var narrowed := Narrowed(mask, cs);
    assert forall u :: u in narrowed <==> u in mask && HoldsAll(u, cs);
    assert order[0] == PrintableString && order[1] == IA5String && order[2] == T61String;
    assert order[3] == BMPString && order[4] == UniversalString && order[5] == UTF8String;
  }

  /** Which characters the types hold: those that their encodings can write, but for the two ASCII types. */
  lemma HoldsIffEncodable(t: StringType, c: int)
    requires ValidCodePoint(c)
    ensures t != OtherString && t != PrintableString && t != IA5String ==>
              (Holds(t, c) <==> EncodeOne(FormatOf(t), c).Some?)
    ensures Holds(IA5String, c) <==> c < 128
    ensures Holds(PrintableString, c) <==> IsPrintable(c)
  {
  }

  /** The string content written for a type, the input itself if it already has that encoding. */
  function Content(f: Format, s: seq<byte>, t: StringType): seq<byte> {
    if f == FormatOf(t) then s
    else
      var cs := DecodeAll(f, s);
      if cs.Some? && EncodeAll(FormatOf(t), cs.value).Some? then EncodeAll(FormatOf(t), cs.value).value else []
  }

  /** Transcoding preserves meaning: read in the type chosen, the content is the code points of the input. */
  lemma ContentKeepsMeaning(f: Format, s: seq<byte>, mask: set<StringType>, minsize: int, maxsize: int)
    requires Plan(f, s, mask, minsize, maxsize).Some?
    ensures var t := Plan(f, s, mask, minsize, maxsize).value;
            && DecodeAll(FormatOf(t), Content(f, s, t)) == DecodeAll(f, s)
            && DecodeAll(f, s).Some?
            && HoldsAll(t, DecodeAll(f, s).value)
            && (f != FormatOf(t) ==>
                  |Content(f, s, t)| == Estimate(t, |DecodeAll(f, s).value|, Utf8Sizes(DecodeAll(f, s).value)))
  {
    hide EncodeOne, DecodeOne, Holds, First;
    var t := Plan(f, s, mask, minsize, maxsize).value;
    var cs := DecodeAll(f, s).value;
    ChooseIsMinimal(EffectiveMask(mask), cs, t);
    DecodedAreValid(f, s);
    AllEncodable(t, cs);
    DecodeOfEncode(FormatOf(t), cs);
    EncodedSize(t, cs);
  }

  // ---------- the first pass ----------

  lemma NarrowOne(mask: set<StringType>, cs: seq<int>, c: int)
    ensures Narrowed(mask, cs + [c]) == set t | t in Narrowed(mask, cs) && Holds(t, c)
  {
    hide Holds;
    forall t ensures HoldsAll(t, cs + [c]) == (HoldsAll(t, cs) && Holds(t, c)) {
      assert c in cs + [c];
      assert forall d | d in cs :: d in cs + [c];
    }
  }

  lemma NarrowMore(mask: set<StringType>, cs: seq<int>, more: seq<int>)
    requires cs <= more
    ensures Narrowed(mask, more) <= Narrowed(mask, cs)
  {
    hide Holds;
  }

  /** Which types the next character rules out. */
  method NarrowMask(mask0: set<StringType>, c: int) returns (mask: set<StringType>)
    ensures mask == set t | t in mask0 && Holds(t, c)
  {
    mask := mask0;
    if PrintableString in mask && !IsPrintable(c) {
      mask := mask - {PrintableString};
    }
    if IA5String in mask && c > 127 {
      mask := mask - {IA5String};
    }
    if T61String in mask && c > 0xff {
      mask := mask - {T61String};
    }
    if BMPString in mask && c > 0xffff {
      mask := mask - {BMPString};
    }
  }

  /** What a refusal by the first pass means. */
  predicate Refused(f: Format, s: seq<byte>, mask: set<StringType>) {
    var cs := DecodeAll(f, s);
    cs.None? || StartsWithMark(f, cs.value) || Choose(mask, cs.value).None?
  }

  lemma DecodeStep(f: Format, s: seq<byte>, p: nat, cs: seq<int>)
    requires p < |s| && DecodeAll(f, s) == Prepend(cs, DecodeAll(f, s[p..]))
    ensures DecodeOne(f, s[p..]).None? ==> DecodeAll(f, s).None?
    ensures DecodeOne(f, s[p..]).Some? ==>
              var (c, n) := DecodeOne(f, s[p..]).value;
              DecodeAll(f, s) == Prepend(cs + [c], DecodeAll(f, s[p + n..]))
  {
    hide DecodeOne;
    var one := DecodeOne(f, s[p..]);
    if one.Some? {
      var (c, n) := one.value;
      assert s[p..][n..] == s[p + n..];
      var rest := DecodeAll(f, s[p + n..]);
      if rest.Some? {
        assert cs + ([c] + rest.value) == cs + [c] + rest.value;
      }
    }
  }

  method FirstPass(f: Format, s: seq<byte>, mask0: set<StringType>)
    returns (ok: bool, mask: set<StringType>, nchar: nat, utf8Len: nat)
    ensures !ok ==> Refused(f, s, mask0)
    ensures ok ==>
              && DecodeAll(f, s).Some?
              && !StartsWithMark(f, DecodeAll(f, s).value)
              && mask == Narrowed(mask0, DecodeAll(f, s).value)
              && nchar == |DecodeAll(f, s).value|
              && utf8Len == Utf8Sizes(DecodeAll(f, s).value)
  {
    hide DecodeOne, DecodeAll, Holds, ValidCodePoint, HoldsAll, Narrowed;
    mask, nchar, utf8Len := mask0, 0, 0;
    var p := 0;
    ghost var cs: seq<int> := [];
    FirstStep(f, s, mask0);
    while p < |s|
      invariant p <= |s|
      invariant DecodeAll(f, s) == Prepend(cs, DecodeAll(f, s[p..]))
      invariant mask == Narrowed(mask0, cs)
      invariant nchar == |cs| && utf8Len == Utf8Sizes(cs)
      invariant !StartsWithMark(f, cs)
      decreases |s| - p
    {
      var one := DecodeOne(f, s[p..]);
      DecodeStep(f, s, p, cs);
      if one.None? {
        return false, {}, 0, 0;
      }
      var (c, n) := one.value;
      if nchar == 0 && (f == Bmp || f == Univ) && c == 0xfeff {
        return false, {}, 0, 0;
      }
      NarrowOne(mask0, cs, c);
      mask := NarrowMask(mask, c);
      assert (cs + [c])[..|cs|] == cs;
      cs := cs + [c];
      if mask == {} {
        RefusedByMask(f, s, p + n, mask0, cs);
        return false, {}, 0, 0;
      }
      nchar := nchar + 1;
      utf8Len := utf8Len + Utf8Size(c);
      p := p + n;
    }
    LastStep(f, s, cs);
    ok := true;
  }

  lemma FirstStep(f: Format, s: seq<byte>, mask: set<StringType>)
    ensures DecodeAll(f, s) == Prepend([], DecodeAll(f, s[0..]))
    ensures Narrowed(mask, []) == mask
  {
    assert s[0..] == s;
    assert DecodeAll(f, s).Some? ==> [] + DecodeAll(f, s).value == DecodeAll(f, s).value;
  }

  lemma LastStep(f: Format, s: seq<byte>, cs: seq<int>)
    requires DecodeAll(f, s) == Prepend(cs, DecodeAll(f, s[|s|..]))
    ensures DecodeAll(f, s) == Some(cs)
  {
    assert s[|s|..] == [];
    assert cs + [] == cs;
  }

  lemma RefusedByMask(f: Format, s: seq<byte>, p: nat, mask: set<StringType>, cs: seq<int>)
    requires p <= |s| && DecodeAll(f, s) == Prepend(cs, DecodeAll(f, s[p..]))
    requires Narrowed(mask, cs) == {}
    ensures Refused(f, s, mask)
  {
    if DecodeAll(f, s).Some? {
      NarrowMore(mask, cs, DecodeAll(f, s).value);
    }
  }

  // ---------- the second pass ----------

  /** Decodes again and encodes; it fails on no input that passed the first pass. */
  method SecondPass(f: Format, s: seq<byte>, ghost all: seq<int>, t: StringType) returns (ok: bool, cbb: seq<byte>)
    requires DecodeAll(f, s) == Some(all)
    requires t != OtherString && HoldsAll(t, all)
    ensures ok && EncodeAll(FormatOf(t), all) == Some(cbb)
  {
    hide DecodeOne, EncodeOne, Holds, DecodeAll;
    cbb := [];
    var p := 0;
    ghost var cs: seq<int> := [];
    FirstStep(f, s, {});
    while p < |s|
      invariant p <= |s|
      invariant DecodeAll(f, s) == Prepend(cs, DecodeAll(f, s[p..]))
      invariant EncodeAll(FormatOf(t), cs) == Some(cbb)
      decreases |s| - p
    {
      DecodeStep(f, s, p, cs);
      var one := DecodeOne(f, s[p..]);
      if one.None? {
        return false, [];
      }
      var (c, n) := one.value;
      ghost var next := cs + [c];
      assert next[..|cs|] == cs;
      assert all[|cs|] == c;
      HeldIsEncodable(t, c);
      var e := EncodeOne(FormatOf(t), c);
      if e.None? {
        return false, [];
      }
      cbb := cbb + e.value;
      cs := next;
      p := p + n;
    }
    LastStep(f, s, cs);
    ok := true;
  }

  // ---------- ASN1_mbstring_ncopy ----------

  function Strlen(s: seq<byte>): (n: nat)
    requires 0 in s
    ensures n < |s| && s[n] == 0 && 0 !in s[..n]
  {
    if s[0] == 0 then 0 else
      assert s == [s[0]] + s[1..];
      Strlen(s[1..]) + 1
  }

  class Asn1String {
    var kind: StringType
    var length: int
    var data: array?<byte>

    constructor (kind: StringType)
      ensures this.kind == kind && length == 0 && data == null
    {
      this.kind, length, data := kind, 0, null;
    }

    predicate Valid()
      reads this
    {
      0 <= length && (if data == null then length == 0 else length <= data.Length)
    }

    function Contents(): seq<byte>
      requires Valid()
      reads this, data
    {
      if data == null then [] else data[..length]
    }

    /** Takes s and a terminating zero. */
    method Set(s: seq<byte>)
      modifies this`length, this`data
      ensures Valid() && fresh(data) && Contents() == s && data.Length == |s| + 1 && data[|s|] == 0
    {
      var c := new byte[|s| + 1];
      forall i | 0 <= i < |s| {
        c[i] := s[i];
      }
      c[|s|] := 0;
      data := c;
      length := |s|;
    }
  }

  /**
    The call on the text s.  Without an output it returns the type only.  The one failure
    after the type is decided is an output of INT_MAX octets or more.
   */
  method Copy(wantOut: bool, out: Asn1String?, s: seq<byte>, f: Format, mask0: set<StringType>,
              minsize: int, maxsize: int)
    returns (r: Option<StringType>, dest: Asn1String?)
    modifies out
    ensures var plan := Plan(f, s, mask0, minsize, maxsize);
            if plan.None? then r.None? && (out != null ==> unchanged(out))
            else if !wantOut then r == plan && (out != null ==> unchanged(out))
            else
              && r == (if f != FormatOf(plan.value) && |Content(f, s, plan.value)| >= INT_MAX then None else plan)
              && (r.Some? ==>
                    && dest != null && (if out == null then fresh(dest) else dest == out)
                    && dest.Valid() && dest.kind == plan.value
                    && dest.Contents() == Content(f, s, plan.value))
              && (r.None? && out != null ==> out.kind == plan.value && (old(out.data) != null ==> out.data == null))
  {
    hide DecodeAll, EncodeAll, Choose, Narrowed, HoldsAll, Utf8Sizes;
    dest := null;
    var mask := mask0;
    if mask == {} {
      mask := DIRECTORY_STRING;
    }
    if f == Unknown {
      return None, null;
    }
    ghost var mask1 := mask;
    var ok, nchar, utf8Len;
    ok, mask, nchar, utf8Len := FirstPass(f, s, mask);
    if !ok {
      return None, null;
    }
    ghost var cs := DecodeAll(f, s).value;
    if minsize > 0 && nchar < minsize {
      return None, null;
    }
    if maxsize > 0 && nchar > maxsize {
      return None, null;
    }
    assert First(mask) == Choose(mask1, cs) by { ChooseDef(mask1, cs); }
    var chosen := First(mask);
    if chosen.None? {
      return None, null;
    }
    var t := chosen.value;
    assert Plan(f, s, mask0, minsize, maxsize) == Some(t);
    ChooseIsMinimal(mask1, cs, t);
    if !wantOut {
      return chosen, null;
    }
    r, dest := Write(out, s, f, t, cs);
  }

  lemma ChooseDef(mask: set<StringType>, cs: seq<int>)
    ensures Choose(mask, cs) == First(Narrowed(mask, cs))
  {
  }

  /** The output half of the call. */
  method Write(out: Asn1String?, s: seq<byte>, f: Format, t: StringType, ghost cs: seq<int>)
    returns (r: Option<StringType>, dest: Asn1String)
    requires DecodeAll(f, s) == Some(cs) && t != OtherString && HoldsAll(t, cs)
    modifies out
    ensures r == if f != FormatOf(t) && |Content(f, s, t)| >= INT_MAX then None else Some(t)
    ensures if out == null then fresh(dest) else dest == out
    ensures dest.kind == t
    ensures r.Some? ==> dest.Valid() && dest.Contents() == Content(f, s, t)
    ensures r.None? && out != null && old(out.data) != null ==> out.data == null
  {
    hide DecodeAll, EncodeAll, HoldsAll;
    if out == null {
      dest := new Asn1String(t);
    } else {
      dest := out;
      if dest.data != null {
        dest.length := 0;
        dest.data := null;
      }
      dest.kind := t;
    }
    if f == FormatOf(t) {
      dest.Set(s);
      return Some(t), dest;
    }
    var ok, cbb := SecondPass(f, s, cs, t);
    if |cbb| + 1 > INT_MAX {
      return None, dest;
    }
    dest.Set(cbb);
    r := Some(t);
  }

  /** The text named by a pointer and a length, -1 asking for the terminating zero. */
  function Source(input: seq<byte>, len: int): seq<byte>
    requires -1 <= len <= |input| && (len == -1 ==> 0 in input)
  {
    if len == -1 then input[..Strlen(input)] else input[..len]
  }

  /** ASN1_mbstring_ncopy on a pointer and a length. */
  method MbstringNcopy(wantOut: bool, out: Asn1String?, input: seq<byte>, len: int, f: Format,
                       mask: set<StringType>, minsize: int, maxsize: int)
    returns (r: Option<StringType>, dest: Asn1String?)
    requires -1 <= len <= |input| && (len == -1 ==> 0 in input)
    modifies out
    ensures r.Some? ==> Plan(f, Source(input, len), mask, minsize, maxsize) == r
    ensures r.None? <==>
              var plan := Plan(f, Source(input, len), mask, minsize, maxsize);
              || plan.None?
              || (wantOut && f != FormatOf(plan.value) && |Content(f, Source(input, len), plan.value)| >= INT_MAX)
    ensures r.Some? && wantOut ==>
              && dest != null && dest.Valid() && dest.kind == r.value
              && DecodeAll(FormatOf(r.value), dest.Contents()) ==
                   DecodeAll(f, if len == -1 then input[..Strlen(input)] else input[..len])
    ensures var s := if len == -1 then input[..Strlen(input)] else input[..len];
            var permitted := if mask == {} then {PrintableString, T61String, BMPString, UTF8String} else mask;
            var decided :=
              && f != Unknown && DecodeAll(f, s).Some?
              && var cs := DecodeAll(f, s).value;
              && !((f == Bmp || f == Univ) && cs != [] && cs[0] == 0xfeff)
              && (minsize <= 0 || minsize <= |cs|) && (maxsize <= 0 || |cs| <= maxsize)
              && exists t: StringType :: t != OtherString && t in permitted && HoldsAll(t, cs);
            && (!decided ==> r.None?)
            && (decided && !wantOut ==> r.Some?)
            && (decided && r.None? ==>
                  exists t: StringType :: f != FormatOf(t) && EncodeAll(FormatOf(t), DecodeAll(f, s).value).Some? &&
                    |EncodeAll(FormatOf(t), DecodeAll(f, s).value).value| >= INT_MAX)
  {
    var s := Source(input, len);
    r, dest := Copy(wantOut, out, s, f, mask, minsize, maxsize);
    hide DecodeAll, EncodeAll, HoldsAll, Choose;
    DecidesIff(f, s, mask, minsize, maxsize);
    if Plan(f, s, mask, minsize, maxsize).Some? {
      ContentKeepsMeaning(f, s, mask, minsize, maxsize);
    }
  }

  /** Some type is decided on exactly when the text can be decoded, is within limits and some type takes it. */
  lemma DecidesIff(f: Format, s: seq<byte>, mask: set<StringType>, minsize: int, maxsize: int)
    ensures var permitted := if mask == {} then {PrintableString, T61String, BMPString, UTF8String} else mask;
            Plan(f, s, mask, minsize, maxsize).Some? <==>
              && f != Unknown && DecodeAll(f, s).Some?
              && var cs := DecodeAll(f, s).value;
              && !((f == Bmp || f == Univ) && cs != [] && cs[0] == 0xfeff)
              && (minsize <= 0 || minsize <= |cs|) && (maxsize <= 0 || |cs| <= maxsize)
              && exists t: StringType :: t != OtherString && t in permitted && HoldsAll(t, cs)
    ensures Plan(f, s, mask, minsize, maxsize).Some? ==>
              var t := Plan(f, s, mask, minsize, maxsize).value;
              f != FormatOf(t) ==> EncodeAll(FormatOf(t), DecodeAll(f, s).value) == Some(Content(f, s, t))
  {
    hide DecodeAll, EncodeAll, HoldsAll, Choose;
    if DecodeAll(f, s).Some? {
      var cs := DecodeAll(f, s).value;
      ChooseIsMinimal(EffectiveMask(mask), cs, PrintableString);
      if Plan(f, s, mask, minsize, maxsize).Some? {
        var t := Plan(f, s, mask, minsize, maxsize).value;
        ChooseIsMinimal(EffectiveMask(mask), cs, t);
        DecodedAreValid(f, s);
        AllEncodable(t, cs);
      }
    }
  }

  // ---------- ASN1_PRINTABLE_type ----------

  lemma {:induction false} Latin1IsItself(s: seq<byte>)
    ensures DecodeAll(Latin1, s) == Some(s)
  {
    if s != [] {
      Latin1IsItself(s[1..]);
      assert s == [s[0]] + s[1..];
    }
  }

  const NARROW_TYPES: set<StringType> := {PrintableString, IA5String, T61String}

  lemma PlanOfLatin1(s: seq<byte>, t: StringType)
    requires t in NARROW_TYPES && HoldsAll(t, s)
    requires forall u | u in NARROW_TYPES && Rank(u) < Rank(t) :: !HoldsAll(u, s)
    ensures Plan(Latin1, s, NARROW_TYPES, 0, 0) == Some(t)
  {
    Latin1IsItself(s);
    ChooseIsMinimal(NARROW_TYPES, s, t);
  }

  lemma NotHeld(t: StringType, s: seq<byte>, j: nat)
    requires j < |s| && !Holds(t, s[j])
    ensures !HoldsAll(t, s)
  {
    assert s[j] in s;
  }

  /** The scan that stops at the first octet above 127 agrees with the type the transcoder picks. */
  method PrintableType(input: seq<byte>, len: int) returns (t: StringType)
    requires len <= |input| && (len < 0 ==> 0 in input)
    ensures Plan(Latin1, Source(input, if len < 0 then -1 else len), NARROW_TYPES, 0, 0) == Some(t)
    ensures var s := if len < 0 then input[..Strlen(input)] else input[..len];
            t == if exists b | b in s :: b >= 128 then T61String
                 else if forall b | b in s :: IsPrintable(b) then PrintableString
                 else IA5String
  {
    hide Plan, HoldsAll;
    var n := len;
    if len < 0 {
      n := Strlen(input);
    }
    ghost var s := input[..n];
    ghost var bad := 0;
    var printable := true;
    for i := 0 to n
      invariant forall j :: 0 <= j < i ==> s[j] < 128
      invariant printable ==> forall j :: 0 <= j < i ==> IsPrintable(s[j])
      invariant !printable ==> 0 <= bad < i && !IsPrintable(s[bad])
    {
      var c := input[i];
      if c >= 128 {
        NotHeld(PrintableString, s, i);
        NotHeld(IA5String, s, i);
        HeldByAll(T61String, s);
        PlanOfLatin1(s, T61String);
        return T61String;
      }
      if !IsPrintable(c) {
        printable, bad := false, i;
      }
    }
    t := if printable then PrintableString else IA5String;
    if !printable {
      NotHeld(PrintableString, s, bad);
    }
    HeldByAll(t, s);
    PlanOfLatin1(s, t);
  }

  lemma HeldByAll(t: StringType, s: seq<byte>)
    requires forall j :: 0 <= j < |s| ==> Holds(t, s[j])
    ensures HoldsAll(t, s)
  {
  }
}
