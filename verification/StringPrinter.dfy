/**
  ASN1_STRING_print_ex: escaping, hex dumps and quoting.  The same code runs dry to count and runs
  for real to write, and the escaped text can be read back when any escaping is asked for.
 */
module StringPrinter {
  import opened Common
  import opened Bytes
  import Utf8
  import CharMap

  // ---------- flags ----------

  /**
    The bits of the flag octet and of the character table: RFC 2253 escaping, control characters,
    octets above 127, quoting instead of a backslash, and escaping of the first or last character.
   */
  datatype Flags = Flags(esc2253: bool, ctrl: bool, msb: bool, quote: bool, first: bool, last: bool) {
    function And(other: Flags): Flags {
      Flags(esc2253 && other.esc2253, ctrl && other.ctrl, msb && other.msb, quote && other.quote,
            first && other.first, last && other.last)
    }

    /** Any of the bits a caller can ask for. */
    predicate Escapes() {
      esc2253 || ctrl || msb || quote
    }

    /** Any of the bits that call for a backslash. */
    predicate Backslash() {
      esc2253 || first || last
    }
  }

  const BACKSLASH: byte := 92

  const NO_FLAGS := Flags(false, false, false, false, false, false)

  /** The table of character properties in charmap.h; its PrintableString bit is never asked about here. */
  function CharType(c: nat): Flags
    requires c < 128
  {
    if c < 32 || c == 127 then NO_FLAGS.(ctrl := true)
    else if c == ' ' as int then NO_FLAGS.(quote := true, first := true, last := true)
    else if c == '"' as int || c == BACKSLASH then NO_FLAGS.(esc2253 := true)
    else if c == '#' as int then NO_FLAGS.(quote := true, first := true)
    else if c == '+' as int || c == ',' as int || c == ';' as int || c == '<' as int || c == '>' as int then
      NO_FLAGS.(esc2253 := true, quote := true)
    else NO_FLAGS
  }

  lemma CharTypeIsTable(c: nat)
    requires c < 128
    ensures var v := CharMap.CharTypeAt(c);
            CharType(c) == Flags(CharMap.HasBit(v, 1), CharMap.HasBit(v, 2), CharMap.HasBit(v, 4), CharMap.HasBit(v, 8),
                                 CharMap.HasBit(v, 0x20), CharMap.HasBit(v, 0x40))
  {
    hide CharMap.CharTypeAt;
    CharMap.Entries(c);
  }

  /** The properties of one octet that the flags ask about. */
  function Asked(c: byte, flags: Flags): Flags {
    if c > 0x7f then NO_FLAGS.(msb := flags.msb) else CharType(c).And(flags)
  }

  // ---------- one character ----------

  function HexDigit(d: nat): byte
    requires d < 16
  {
    if d < 10 then 48 + d else 55 + d
  }

  function Hex(v: nat, n: nat): (s: seq<byte>)
    ensures |s| == n
  {
    if n == 0 then [] else Hex(v / 16, n - 1) + [HexDigit(v % 16)]
  }

  datatype Style = LongHex | WordHex | OctetHex | Backslashed | Quoted | Plain

  function StyleOf(c: nat, flags: Flags): Style {
    if c > 0xffff then LongHex
    else if c > 0xff then WordHex
    else
      var asked := Asked(c, flags);
      if asked.Backslash() then (if asked.quote then Quoted else Backslashed)
      else if asked.ctrl || asked.msb then OctetHex
      else if c == BACKSLASH && flags.Escapes() then Backslashed
      else Plain
  }

  /** What one character prints as. */
  function Escaped(c: nat, flags: Flags): (s: seq<byte>)
    requires c < Utf8.U32
    ensures 1 <= |s| <= 10
  {
    match StyleOf(c, flags)
    case LongHex => [BACKSLASH, 'W' as int] + Hex(c, 8)
    case WordHex => [BACKSLASH, 'U' as int] + Hex(c, 4)
    case OctetHex => [BACKSLASH] + Hex(c, 2)
    case Backslashed => [BACKSLASH, c]
    case Quoted => [c]
    case Plain => [c]
  }

  lemma HexDigits(d: nat)
    requires d < 16
    ensures HexDigit(d) == "0123456789ABCDEF"[d] as int
  {
  }

  lemma AskedRules(c: byte, flags: Flags)
    ensures Asked(c, flags).Backslash() <==>
              || (flags.esc2253 && c in {34, 43, 44, 59, 60, 62, 92})
              || (flags.first && (c == 32 || c == 35))
              || (flags.last && c == 32)
    ensures Asked(c, flags).quote <==> flags.quote && c in {32, 35, 43, 44, 59, 60, 62}
    ensures Asked(c, flags).ctrl || Asked(c, flags).msb <==>
              (flags.ctrl && (c < 32 || c == 127)) || (flags.msb && c > 127)
  {
  }

  /**
    The rules for one octet: a special one is left alone inside quotes or else gets a backslash, then
    come two hex digits for what is to be escaped, and a doubled backslash when anything is escaped.
   */
  lemma OctetRules(c: byte, flags: Flags)
    ensures var special := || (flags.esc2253 && c in {34, 43, 44, 59, 60, 62, 92})
                           || (flags.first && (c == 32 || c == 35))
                           || (flags.last && c == 32);
            var quoted := special && flags.quote && c in {32, 35, 43, 44, 59, 60, 62};
            var escaped := (flags.ctrl && (c < 32 || c == 127)) || (flags.msb && c > 127);
            && (StyleOf(c, flags) == Quoted <==> quoted)
            && Escaped(c, flags) ==
                 if quoted then [c]
                 else if special then [92, c]
                 else if escaped then [92] + Hex(c, 2)
                 else if c == 92 && (flags.ctrl || flags.msb || flags.quote) then [92, 92]
                 else [c]
  {
    hide Hex, Asked;
    AskedRules(c, flags);
  }

  /** Wider characters: a backslash, W or U, and eight or four hex digits. */
  lemma WideRules(c: nat, flags: Flags)
    requires 0xff < c < Utf8.U32
    ensures Escaped(c, flags) == if c > 0xffff then [92, 87] + Hex(c, 8) else [92, 85] + Hex(c, 4)
    ensures StyleOf(c, flags) != Quoted
  {
  }

  // ---------- a whole buffer ----------

  /** A character to print with the flags that count for it. */
  datatype Unit = Unit(c: nat, flags: Flags) {
    predicate Ok() {
      c < Utf8.U32
    }
  }

  predicate AllOk(units: seq<Unit>) {
    forall u | u in units :: u.Ok()
  }

  function EscapedAll(units: seq<Unit>): seq<byte>
    requires AllOk(units)
  {
    if units == [] then []
    else
      var u := units[|units| - 1];
      assert u.Ok();
      EscapedAll(units[..|units| - 1]) + Escaped(u.c, u.flags)
  }

  function WantsQuotes(u: Unit): bool {
    StyleOf(u.c, u.flags) == Quoted
  }

  predicate AnyQuotes(units: seq<Unit>) {
    exists u | u in units :: WantsQuotes(u)
  }

  function OctetUnits(s: seq<byte>, flags: Flags): (units: seq<Unit>)
    ensures AllOk(units) && |units| == |s|
    ensures forall i :: 0 <= i < |s| ==> units[i] == Unit(s[i], flags)
  {
    if s == [] then [] else OctetUnits(s[..|s| - 1], flags) + [Unit(s[|s| - 1], flags)]
  }

  /** The first character of UTF-8 octets and the octets it takes. */
  function ReadUtf8(s: seq<byte>): (r: Option<(nat, nat)>)
    ensures r.Some? ==> r.value.0 < Utf8.U32 && 1 <= r.value.1 <= |s|
  {
    var g := Utf8.GetChar(s);
    if g.Char? then Some((g.value, g.size)) else None
  }

  /** A number of big-endian octets. */
  function ReadWord(s: seq<byte>): (c: nat)
    requires |s| == 2 || |s| == 4
    ensures c < Utf8.U32 && (|s| == 2 ==> c < 0x10000)
  {
    if |s| == 2 then Word(s[0], s[1], 256) else Word(Word(s[0], s[1], 256), Word(s[2], s[3], 256), 0x10000)
  }

  /** It is the big-endian number of the octets. */
  lemma WordIsBigEndian(s: seq<byte>)
    requires |s| == 2 || |s| == 4
    ensures ReadWord(s) == Mag(s)
  {
    assert s[..1] == [s[0]] && s[..1][..0] == [];
    assert Mag(s[..1]) == s[0];
    if |s| == 4 {
      assert s[..2][..1] == s[..1] && s[..3][..2] == s[..2];
      assert Mag(s[..3]) == 256 * Mag(s[..2]) + s[2];
    } else {
      assert s[..2] == s;
    }
  }

  function Word(high: nat, low: nat, base: nat): nat {
    base * high + low
  }

  lemma EvenSum(m: nat, n: nat, width: int)
    requires EvenWidth(m, width) && EvenWidth(n, width)
    ensures EvenWidth(m + n, width)
  {
    if width == 4 {
      FoursAdd(m, n);
    } else if width == 2 {
      TwosAdd(m, n);
    }
  }

  lemma FoursAdd(m: nat, n: nat)
    requires m % 4 == 0 && n % 4 == 0
    ensures (m + n) % 4 == 0
  {
    var a, b := m / 4, n / 4;
    assert m + n == 4 * (a + b);
  }

  lemma TwosAdd(m: nat, n: nat)
    requires m % 2 == 0 && n % 2 == 0
    ensures (m + n) % 2 == 0
  {
    var a, b := m / 2, n / 2;
    assert m + n == 2 * (a + b);
  }

  lemma EvenRest(n: nat, width: int)
    requires EvenWidth(n, width) && n > 0
    ensures width == 4 || width == 2 ==> n >= width && EvenWidth(n - width, width)
  {
  }

  /** The first character read and the octets it takes. */
  function ReadOne(s: seq<byte>, width: int): (r: Option<(nat, nat)>)
    requires s != []
    requires EvenWidth(|s|, width)
    ensures r.Some? ==> r.value.0 < Utf8.U32 && 1 <= r.value.1 <= |s|
    ensures r.Some? ==> EvenWidth(|s| - r.value.1, width)
  {
    EvenRest(|s|, width);
    if width == 4 || width == 2 then Some((ReadWord(s[..width]), width))
    else if width == 1 then Some((s[0], 1))
    else if width == 0 then ReadUtf8(s)
    else None
  }

  /** The extra flag of a character read between two places: last wins over first. */
  function PlaceFlags(flags: Flags, first: bool, last: bool): Flags {
    if !flags.esc2253 then flags
    else if last then flags.(last := true)
    else if first then flags.(first := true)
    else flags
  }

  function UnitsOf(c: nat, convert: bool, flags: Flags): (units: seq<Unit>)
    requires c < Utf8.U32
    ensures AllOk(units)
  {
    if convert then OctetUnits(Utf8.PutChar(c), flags) else [Unit(c, flags)]
  }

  predicate EvenWidth(n: nat, width: int) {
    (width == 4 ==> n % 4 == 0) && (width == 2 ==> n % 2 == 0)
  }

  /** Everything do_buf prints from position p on, or none if some character cannot be read. */
  function UnitsFrom(s: seq<byte>, p: nat, width: int, convert: bool, flags: Flags): (r: Option<seq<Unit>>)
    requires p <= |s| && EvenWidth(|s| - p, width)
    ensures r.Some? ==> AllOk(r.value)
    decreases |s| - p
  {
    if p == |s| then Some([])
    else
      var one := ReadOne(s[p..], width);
      if one.None? then None
      else
        var q := p + one.value.1;
        var rest := UnitsFrom(s, q, width, convert, flags);
        if rest.None? then None
        else Some(UnitsOf(one.value.0, convert, PlaceFlags(flags, p == 0, q == |s|)) + rest.value)
  }

  function BufferUnits(s: seq<byte>, width: int, convert: bool, flags: Flags): (r: Option<seq<Unit>>)
    ensures r.Some? ==> AllOk(r.value)
  {
    if EvenWidth(|s|, width) then UnitsFrom(s, 0, width, convert, flags) else None
  }

  function Quote(quotes: bool): seq<byte> {
    if quotes then ['"' as int] else []
  }

  /** The characters of a buffer as they are printed, in quotes if some character asks for them. */
  function BufferText(s: seq<byte>, width: int, convert: bool, flags: Flags): Option<seq<byte>> {
    var units := BufferUnits(s, width, convert, flags);
    if units.None? then None
    else
      var q := Quote(AnyQuotes(units.value));
      Some(q + EscapedAll(units.value) + q)
  }

  // ---------- output ----------

  /** A stream that takes what it has room for and then fails. */
  class Bio {
    var written: seq<byte>
    var room: nat

    constructor (room: nat)
      ensures written == [] && this.room == room
    {
      written, this.room := [], room;
    }
  }

  /** What a sequence of writes of a text does: all of it, or failure when it does not fit. */
  twostate predicate Wrote(out: Bio?, text: seq<byte>, ok: bool)
    reads out
  {
    && (out == null ==> ok)
    && (out != null ==> (ok <==> |text| <= old(out.room)))
    && (out != null && ok ==> out.written == old(out.written) + text && out.room == old(out.room) - |text|)
  }

  method MaybeWrite(out: Bio?, s: seq<byte>) returns (ok: bool)
    modifies out
    ensures Wrote(out, s, ok)
  {
    if out == null {
      return true;
    }
    if |s| <= out.room {
      out.written := out.written + s;
      out.room := out.room - |s|;
      return true;
    }
    out.written := out.written + s[..out.room];
    out.room := 0;
    ok := false;
  }

  /** do_esc_char for a character of one octet. */
  method DoEscOctet(chtmp: byte, flags: Flags, quotes0: bool, out: Bio?) returns (len: int, quotes: bool)
    modifies out
    ensures Wrote(out, Escaped(chtmp, flags), len >= 0)
    ensures len == |Escaped(chtmp, flags)| || len == -1
    ensures quotes == (quotes0 || WantsQuotes(Unit(chtmp, flags)))
  {
    hide Hex, CharType;
    quotes := quotes0;
    var chflgs: Flags;
    if chtmp > 0x7f {
      chflgs := NO_FLAGS.(msb := flags.msb);
    } else {
      chflgs := CharType(chtmp).And(flags);
    }
    var ok: bool;
    if chflgs.Backslash() {
      if chflgs.quote {
        quotes := true;
        ok := MaybeWrite(out, [chtmp]);
        return if ok then 1 else -1, quotes;
      }
      ok := MaybeWrite(out, [BACKSLASH]);
      if !ok {
        return -1, quotes;
      }
      ok := MaybeWrite(out, [chtmp]);
      return if ok then 2 else -1, quotes;
    }
    if chflgs.ctrl || chflgs.msb {
      ok := MaybeWrite(out, [BACKSLASH] + Hex(chtmp, 2));
      return if ok then 3 else -1, quotes;
    }
    if chtmp == BACKSLASH && flags.Escapes() {
      ok := MaybeWrite(out, [BACKSLASH, BACKSLASH]);
      return if ok then 2 else -1, quotes;
    }
    ok := MaybeWrite(out, [chtmp]);
    return if ok then 1 else -1, quotes;
  }

  /** do_esc_char: -1 for a failed write; quotes is set when the character asks for them. */
  method DoEscChar(c: nat, flags: Flags, quotes0: bool, out: Bio?) returns (len: int, quotes: bool)
    requires c < Utf8.U32
    modifies out
    ensures Wrote(out, Escaped(c, flags), len >= 0)
    ensures len == |Escaped(c, flags)| || len == -1
    ensures quotes == (quotes0 || WantsQuotes(Unit(c, flags)))
  {
    hide Hex, Asked;
    quotes := quotes0;
    var ok: bool;
    if c > 0xffff {
      ok := MaybeWrite(out, [BACKSLASH, 'W' as int] + Hex(c, 8));
      return if ok then 10 else -1, quotes;
    }
    if c > 0xff {
      ok := MaybeWrite(out, [BACKSLASH, 'U' as int] + Hex(c, 4));
      return if ok then 6 else -1, quotes;
    }
    len, quotes := DoEscOctet(c, flags, quotes0, out);
  }

  lemma {:induction false} EscapedAppend(a: seq<Unit>, b: seq<Unit>)
    requires AllOk(a) && AllOk(b)
    ensures AllOk(a + b) && EscapedAll(a + b) == EscapedAll(a) + EscapedAll(b)
    decreases |b|
  {
    hide Escaped;
    if b == [] {
      assert a + b == a;
    } else {
      var front := b[..|b| - 1];
      assert (a + b)[..|a + b| - 1] == a + front;
      EscapedAppend(a, front);
    }
  }

  lemma QuotesAppend(a: seq<Unit>, b: seq<Unit>)
    ensures AnyQuotes(a + b) == (AnyQuotes(a) || AnyQuotes(b))
  {
    hide WantsQuotes;
    if AnyQuotes(a) || AnyQuotes(b) {
      var u :| (u in a || u in b) && WantsQuotes(u);
      assert u in a + b;
    }
  }

  lemma EscapedOne(u: Unit)
    requires u.Ok()
    ensures AllOk([u]) && EscapedAll([u]) == Escaped(u.c, u.flags)
    ensures AnyQuotes([u]) == WantsQuotes(u)
  {
    hide Escaped, WantsQuotes;
    assert u in [u];
    assert [u][..0] == [];
    assert EscapedAll([u]) == [] + Escaped(u.c, u.flags);
  }

  lemma Nothing()
    ensures AllOk([]) && EscapedAll([]) == [] && !AnyQuotes([])
  {
  }

  /** The loop over the octets that a converted character became. */
  method DoOctets(utf: seq<byte>, flags: Flags, quotes0: bool, out: Bio?) returns (len: int, quotes: bool)
    modifies out
    ensures Wrote(out, EscapedAll(OctetUnits(utf, flags)), len >= 0)
    ensures len == |EscapedAll(OctetUnits(utf, flags))| || len == -1
    ensures len >= 0 ==> quotes == (quotes0 || AnyQuotes(OctetUnits(utf, flags)))
  {
    hide Escaped, WantsQuotes, AnyQuotes, OctetUnits;
    quotes := quotes0;
    len := 0;
    ghost var units := OctetUnits(utf, flags);
    assert AllOk([]) && EscapedAll([]) == [] && !AnyQuotes([]) by { Nothing(); }
    assert units[..0] == [];
    for i := 0 to |utf|
      invariant Wrote(out, EscapedAll(units[..i]), true)
      invariant len == |EscapedAll(units[..i])|
      invariant quotes == (quotes0 || AnyQuotes(units[..i]))
    {
      EscapedNext(units, i);
      var n: int;
      n, quotes := DoEscChar(utf[i], flags, quotes, out);
      if n < 0 {
        return -1, quotes;
      }
      len := len + n;
    }
    assert units[..|utf|] == units;
  }

  /** A prefix, one unit more, and the rest. */
  lemma EscapedNext(units: seq<Unit>, i: nat)
    requires AllOk(units) && i < |units|
    ensures AllOk(units[..i]) && AllOk(units[..i + 1]) && units[i].Ok()
    ensures EscapedAll(units[..i + 1]) == EscapedAll(units[..i]) + Escaped(units[i].c, units[i].flags)
    ensures AnyQuotes(units[..i + 1]) == (AnyQuotes(units[..i]) || WantsQuotes(units[i]))
    ensures EscapedAll(units[..i + 1]) <= EscapedAll(units)
  {
    hide Escaped, WantsQuotes, AnyQuotes, EscapedAll, AllOk;
    var u, before := units[i], units[..i];
    AllOkParts(units, i);
    assert units[..i + 1] == before + [u];
    EscapedOne(u);
    EscapedAppend(before, [u]);
    QuotesAppend(before, [u]);
    EscapedPrefix(units, i + 1);
  }

  lemma EscapedPrefix(units: seq<Unit>, i: nat)
    requires AllOk(units) && i <= |units|
    ensures AllOk(units[..i]) && EscapedAll(units[..i]) <= EscapedAll(units)
  {
    hide Escaped, EscapedAll;
    var before, after := units[..i], units[i..];
    assert units == before + after;
    EscapedAppend(before, after);
  }

  lemma AllOkParts(units: seq<Unit>, i: nat)
    requires AllOk(units) && i < |units|
    ensures AllOk(units[..i]) && AllOk(units[..i + 1]) && AllOk(units[i + 1..]) && units[i].Ok()
  {
  }

  /** One character, converted first if asked. */
  method DoChar(c: nat, convert: bool, flags: Flags, quotes0: bool, out: Bio?) returns (len: int, quotes: bool)
    requires c < Utf8.U32
    modifies out
    ensures Wrote(out, EscapedAll(UnitsOf(c, convert, flags)), len >= 0)
    ensures len == |EscapedAll(UnitsOf(c, convert, flags))| || len == -1
    ensures len >= 0 ==> quotes == (quotes0 || AnyQuotes(UnitsOf(c, convert, flags)))
  {
    hide Escaped, WantsQuotes;
    if convert {
      len, quotes := DoOctets(Utf8.PutChar(c), flags, quotes0, out);
    } else {
      EscapedOne(Unit(c, flags));
      len, quotes := DoEscChar(c, flags, quotes0, out);
    }
  }

  function Append(a: seq<Unit>, b: Option<seq<Unit>>): Option<seq<Unit>> {
    if b.None? then None else Some(a + b.value)
  }

  /** do_buf: -1 for a character that cannot be read or a failed write; otherwise it ends exactly at the end. */
  method DoBuf(s: seq<byte>, width: int, convert: bool, flags: Flags, out: Bio?) returns (outlen: int, quotes: bool)
    modifies out
    ensures var units := BufferUnits(s, width, convert, flags);
            if units.None? then outlen == -1
            else
              && Wrote(out, EscapedAll(units.value), outlen >= 0)
              && (outlen == |EscapedAll(units.value)| || outlen == -1)
              && (outlen >= 0 ==> quotes == AnyQuotes(units.value))
  {
    hide Escaped, ReadOne, UnitsOf, UnitsFrom, PlaceFlags, AllOk, EscapedAll, AnyQuotes;
    quotes := false;
    Nothing();
    if width == 4 {
      if |s| % 4 != 0 {
        return -1, false;
      }
    } else if width == 2 {
      if |s| % 2 != 0 {
        return -1, false;
      }
    }
    outlen := 0;
    var p := 0;
    ghost var done: seq<Unit> := [];
    ghost var all := UnitsFrom(s, 0, width, convert, flags);
    assert all.Some? ==> [] + all.value == all.value;
    while p != |s|
      invariant p <= |s| && EvenWidth(|s| - p, width)
      invariant AllOk(done)
      invariant all == Append(done, UnitsFrom(s, p, width, convert, flags))
      invariant Wrote(out, EscapedAll(done), true)
      invariant outlen == |EscapedAll(done)| && quotes == AnyQuotes(done)
      decreases |s| - p
    {
      var one := ReadOne(s[p..], width);
      UnitsStep(s, p, width, convert, flags, done);
      if one.None? {
        return -1, quotes;
      }
      var (c, n) := one.value;
      var orflags := PlaceFlags(flags, p == 0, p + n == |s|);
      p := p + n;
      ghost var u := UnitsOf(c, convert, orflags);
      EscapedAppend(done, u);
      QuotesAppend(done, u);
      var len: int;
      len, quotes := DoChar(c, convert, orflags, quotes, out);
      if len < 0 {
        CannotFit(s, p, width, convert, flags, done + u);
        return -1, quotes;
      }
      done := done + u;
      outlen := outlen + len;
    }
    assert all == Some(done) by { UnitsEnd(s, width, convert, flags, done); }
  }

  lemma UnitsStep(s: seq<byte>, p: nat, width: int, convert: bool, flags: Flags, done: seq<Unit>)
    requires p < |s| && EvenWidth(|s| - p, width)
    ensures var one := ReadOne(s[p..], width);
            var all := Append(done, UnitsFrom(s, p, width, convert, flags));
            if one.None? then all.None?
            else
              var q := p + one.value.1;
              && q <= |s| && EvenWidth(|s| - q, width)
              && all == Append(done + UnitsOf(one.value.0, convert, PlaceFlags(flags, p == 0, q == |s|)),
                               UnitsFrom(s, q, width, convert, flags))
  {
    hide ReadOne, UnitsOf, PlaceFlags;
    var one := ReadOne(s[p..], width);
    if one.Some? {
      var q := p + one.value.1;
      var u := UnitsOf(one.value.0, convert, PlaceFlags(flags, p == 0, q == |s|));
      var rest := UnitsFrom(s, q, width, convert, flags);
      if rest.Some? {
        assert done + (u + rest.value) == done + u + rest.value;
      }
    }
  }

  lemma UnitsEnd(s: seq<byte>, width: int, convert: bool, flags: Flags, done: seq<Unit>)
    ensures Append(done, UnitsFrom(s, |s|, width, convert, flags)) == Some(done)
  {
    assert done + [] == done;
  }

  /** Text that starts with what did not fit does not fit. */
  lemma CannotFit(s: seq<byte>, p: nat, width: int, convert: bool, flags: Flags, begun: seq<Unit>)
    requires p <= |s| && EvenWidth(|s| - p, width) && AllOk(begun)
    ensures var all := Append(begun, UnitsFrom(s, p, width, convert, flags));
            all.Some? ==> AllOk(all.value) && EscapedAll(begun) <= EscapedAll(all.value)
  {
    hide UnitsFrom, Escaped;
    var rest := UnitsFrom(s, p, width, convert, flags);
    if rest.Some? {
      EscapedAppend(begun, rest.value);
    }
  }

  // ---------- dumps ----------

  function HexDump(s: seq<byte>): (t: seq<byte>)
    ensures |t| == 2 * |s|
  {
    if s == [] then [] else HexDump(s[..|s| - 1]) + [HexDigit(s[|s| - 1] / 16), HexDigit(s[|s| - 1] % 16)]
  }

  lemma {:induction false} HexDumpPrefix(s: seq<byte>, i: nat)
    requires i <= |s|
    ensures HexDump(s[..i]) <= HexDump(s)
    decreases |s|
  {
    if i == |s| {
      assert s[..i] == s;
    } else {
      HexDumpPrefix(s[..|s| - 1], i);
      assert s[..|s| - 1][..i] == s[..i];
    }
  }

  /** do_hex_dump: two digits an octet, and the same count whether or not there is a stream. */
  method DoHexDump(out: Bio?, s: seq<byte>) returns (len: int)
    modifies out
    ensures Wrote(out, HexDump(s), len >= 0)
    ensures len == |HexDump(s)| || len == -1
  {
    if out != null {
      var p := 0;
      assert s[..0] == [];
      while p != |s|
        invariant p <= |s|
        invariant Wrote(out, HexDump(s[..p]), true)
        decreases |s| - p
      {
        assert s[..p + 1][..p] == s[..p];
        HexDumpPrefix(s, p + 1);
        var ok := MaybeWrite(out, [HexDigit(s[p] / 16), HexDigit(s[p] % 16)]);
        if !ok {
          return -1;
        }
        p := p + 1;
      }
      assert s[..p] == s;
    }
    len := 2 * |s|;
  }

  /** do_dump of the content, or of the DER encoding when that is asked for and can be made. */
  method DoDump(dumpDer: bool, out: Bio?, data: seq<byte>, der: Option<seq<byte>>) returns (len: int)
    modifies out
    ensures var text := DumpText(dumpDer, data, der);
            if text.None? then len == -1
            else Wrote(out, text.value, len >= 0) && (len == |text.value| || len == -1)
  {
    hide HexDump;
    var ok := MaybeWrite(out, ['#' as int]);
    if !ok {
      return -1;
    }
    if dumpDer && der.None? {
      return -1;
    }
    len := DoHexDump(out, if dumpDer then der.value else data);
    if len < 0 {
      return -1;
    }
    len := len + 1;
  }

  function DumpText(dumpDer: bool, data: seq<byte>, der: Option<seq<byte>>): Option<seq<byte>> {
    if dumpDer && der.None? then None
    else Some(['#' as int] + HexDump(if dumpDer then der.value else data))
  }

  // ---------- ASN1_STRING_print_ex ----------

  /** Octets per character by tag: 0 for UTF-8, -1 for no string type. */
  const TAG_TO_NBYTE: seq<int> := [
    -1, -1, -1, -1, -1, -1, -1, -1, -1, -1, -1, -1, 0, -1, -1, -1,
    -1, -1, 1, 1, 1, -1, 1, 1, 1, -1, 1, -1, 4, -1, 2]

  datatype Options = Options(esc: Flags, showType: bool, dumpAll: bool, ignoreType: bool, dumpUnknown: bool,
                             dumpDer: bool, utf8Convert: bool)

  function WidthOf(kind: int, o: Options): (w: int)
  {
    if o.dumpAll then -1
    else if o.ignoreType then 1
    else
      var w := if 0 < kind < 31 then TAG_TO_NBYTE[kind] else -1;
      if w == -1 && !o.dumpUnknown then 1 else w
  }

  function Prefix(tagname: seq<byte>, o: Options): seq<byte> {
    if o.showType then tagname + [':' as int] else []
  }

  function BodyText(kind: int, data: seq<byte>, der: Option<seq<byte>>, o: Options): Option<seq<byte>> {
    var w := WidthOf(kind, o);
    if w == -1 then DumpText(o.dumpDer, data, der)
    else BufferText(data, if o.utf8Convert && w == 0 then 1 else w, o.utf8Convert && w != 0, o.esc)
  }

  /** All that the call prints, if the string can be printed. */
  function FullText(kind: int, data: seq<byte>, der: Option<seq<byte>>, tagname: seq<byte>, o: Options)
    : Option<seq<byte>>
  {
    var body := BodyText(kind, data, der, o);
    if body.None? then None else Some(Prefix(tagname, o) + body.value)
  }

  method ShowType(o: Options, tagname: seq<byte>, out: Bio?) returns (outlen: int)
    modifies out
    ensures Wrote(out, Prefix(tagname, o), outlen >= 0)
    ensures outlen == |Prefix(tagname, o)| || outlen == -1
  {
    outlen := 0;
    if o.showType {
      outlen := |tagname|;
      var ok := MaybeWrite(out, tagname);
      if !ok {
        return -1;
      }
      ok := MaybeWrite(out, [':' as int]);
      if !ok {
        return -1;
      }
      outlen := outlen + 1;
    }
  }

  /** The two passes over the characters: one dry, to count and to see about quotes, and one that writes. */
  method PrintBuffer(data: seq<byte>, width: int, convert: bool, flags: Flags, out: Bio?) returns (outlen: int)
    modifies out
    ensures var text := BufferText(data, width, convert, flags);
            if text.None? then outlen == -1
            else Wrote(out, text.value, outlen >= 0) && (outlen == |text.value| || outlen == -1)
  {
    hide BufferUnits, AnyQuotes, EscapedAll;
    var len, quotes := DoBuf(data, width, convert, flags, null);
    if len < 0 {
      return -1;
    }
    outlen := len;
    if quotes {
      outlen := outlen + 2;
    }
    if out == null {
      return;
    }
    if quotes {
      var ok := MaybeWrite(out, ['"' as int]);
      if !ok {
        return -1;
      }
    }
    var len2, _ := DoBuf(data, width, convert, flags, out);
    if len2 < 0 {
      return -1;
    }
    if quotes {
      var ok := MaybeWrite(out, ['"' as int]);
      if !ok {
        return -1;
      }
    }
  }

  /** The choice of width, then the dump or the characters. */
  method PrintBody(out: Bio?, kind: int, data: seq<byte>, der: Option<seq<byte>>, o: Options) returns (len: int)
    modifies out
    ensures var text := BodyText(kind, data, der, o);
            if text.None? then len == -1
            else Wrote(out, text.value, len >= 0) && (len == |text.value| || len == -1)
  {
    hide BufferText, HexDump, DumpText, Wrote;
    var width: int;
    if o.dumpAll {
      width := -1;
    } else if o.ignoreType {
      width := 1;
    } else {
      if 0 < kind < 31 {
        width := TAG_TO_NBYTE[kind];
      } else {
        width := -1;
      }
      if width == -1 && !o.dumpUnknown {
        width := 1;
      }
    }
    if width == -1 {
      len := DoDump(o.dumpDer, out, data, der);
      return;
    }
    var convert := false;
    if o.utf8Convert {
      if width == 0 {
        width := 1;
      } else {
        convert := true;
      }
    }
    len := PrintBuffer(data, width, convert, o.esc, out);
  }

  /**
    The count returned is the length of the text, the same without a stream as with one, and with
    a stream that has room exactly that text is written.
   */
  method PrintEx(out: Bio?, kind: int, data: seq<byte>, der: Option<seq<byte>>, tagname: seq<byte>, o: Options)
    returns (outlen: int)
    modifies out
    ensures var text := FullText(kind, data, der, tagname, o);
            if text.None? then outlen == -1
            else
              && outlen == (if out == null || |text.value| <= old(out.room) then |text.value| else -1)
              && (out != null && outlen >= 0 ==> out.written == old(out.written) + text.value)
  {
    hide BodyText, Prefix;
    outlen := ShowType(o, tagname, out);
    if outlen < 0 {
      return -1;
    }
    var len := PrintBody(out, kind, data, der, o);
    if len < 0 {
      return -1;
    }
    outlen := outlen + len;
  }

  // ---------- reading escaped text back ----------

  function HexValue(b: byte): Option<nat> {
    if 48 <= b < 58 then Some(b - 48) else if 65 <= b < 71 then Some(b - 55) else None
  }

  function FromHex(s: seq<byte>): Option<nat> {
    if s == [] then Some(0)
    else
      var front, d := FromHex(s[..|s| - 1]), HexValue(s[|s| - 1]);
      if front.Some? && d.Some? then Some(16 * front.value + d.value) else None
  }

  function Cons(c: Option<nat>, rest: Option<seq<nat>>): Option<seq<nat>> {
    if c.Some? && rest.Some? then Some([c.value] + rest.value) else None
  }

  /** Undoes the escapes: a backslash before W or U and hex digits, two hex digits, or the character itself. */
  function Unescape(t: seq<byte>): Option<seq<nat>>
    decreases |t|
  {
    if t == [] then Some([])
    else if t[0] != BACKSLASH then Cons(Some(t[0]), Unescape(t[1..]))
    else if |t| >= 10 && t[1] == 'W' as int then Cons(FromHex(t[2..10]), Unescape(t[10..]))
    else if |t| >= 6 && t[1] == 'U' as int then Cons(FromHex(t[2..6]), Unescape(t[6..]))
    else if |t| >= 3 && HexValue(t[1]).Some? then Cons(FromHex(t[1..3]), Unescape(t[3..]))
    else if |t| >= 2 then Cons(Some(t[1]), Unescape(t[2..]))
    else None
  }

  lemma {:induction false} FromHexOfHex(v: nat, n: nat)
    requires v < Pow(16, n)
    ensures FromHex(Hex(v, n)) == Some(v)
    ensures n > 0 ==> HexValue(Hex(v, n)[0]).Some?
  {
    if n > 0 {
      FromHexOfHex(v / 16, n - 1);
      assert Hex(v, n)[..n - 1] == Hex(v / 16, n - 1);
      assert HexValue(HexDigit(v % 16)) == Some(v % 16);
    }
  }

  lemma HexRanges()
    ensures Pow(16, 2) == 0x100 && Pow(16, 4) == 0x10000 && Pow(16, 8) == Utf8.U32
  {
    assert Pow(16, 4) == 0x10000;
    assert Pow(16, 6) == 256 * Pow(16, 4);
  }

  /** A backslashed octet is never a W, a U or a hex digit, and a backslash never stands for itself. */
  lemma StyleFacts(c: byte, flags: Flags)
    requires flags.Escapes()
    ensures StyleOf(c, flags) == Backslashed ==> c != 'W' as int && c != 'U' as int && HexValue(c).None?
    ensures StyleOf(c, flags) == Plain || StyleOf(c, flags) == Quoted ==> c != BACKSLASH
  {
  }

  lemma UnescapeOne(c: nat, flags: Flags, rest: seq<byte>)
    requires c < Utf8.U32 && flags.Escapes()
    ensures Unescape(Escaped(c, flags) + rest) == Cons(Some(c), Unescape(rest))
  {
    hide StyleOf, FromHex, Hex, HexValue;
    HexRanges();
    var t := Escaped(c, flags) + rest;
    match StyleOf(c, flags)
    case LongHex =>
      FromHexOfHex(c, 8);
      assert t[2..10] == Hex(c, 8) && t[10..] == rest;
    case WordHex =>
      assert c <= 0xffff by { StyleRange(c, flags); }
      FromHexOfHex(c, 4);
      assert t[2..6] == Hex(c, 4) && t[6..] == rest;
    case OctetHex =>
      assert c <= 0xff by { StyleRange(c, flags); }
      FromHexOfHex(c, 2);
      HexNotLetter(t[1]);
      assert t[1..3] == Hex(c, 2) && t[3..] == rest;
    case Backslashed =>
      assert c <= 0xff by { StyleRange(c, flags); }
      StyleFacts(c, flags);
      assert t[2..] == rest;
    case _ =>
      assert c <= 0xff by { StyleRange(c, flags); }
      StyleFacts(c, flags);
      assert t[1..] == rest;
  }

  lemma HexNotLetter(b: byte)
    requires HexValue(b).Some?
    ensures b != 'W' as int && b != 'U' as int
  {
  }

  lemma StyleRange(c: nat, flags: Flags)
    ensures StyleOf(c, flags) == LongHex <==> c > 0xffff
    ensures StyleOf(c, flags) == WordHex <==> 0xff < c <= 0xffff
  {
  }

  function Values(units: seq<Unit>): (cs: seq<nat>)
    ensures |cs| == |units| && forall i :: 0 <= i < |units| ==> cs[i] == units[i].c
  {
    if units == [] then [] else Values(units[..|units| - 1]) + [units[|units| - 1].c]
  }

  lemma {:induction false} UnescapeThen(units: seq<Unit>, rest: seq<byte>)
    requires AllOk(units) && forall u | u in units :: u.flags.Escapes()
    ensures Unescape(EscapedAll(units) + rest) ==
            if Unescape(rest).None? then None else Some(Values(units) + Unescape(rest).value)
    decreases |units|
  {
    hide Escaped, Unescape;
    if units == [] {
      assert [] + rest == rest;
      assert Unescape(rest).Some? ==> [] + Unescape(rest).value == Unescape(rest).value;
    } else {
      var front, u := units[..|units| - 1], units[|units| - 1];
      assert u in units;
      var e := Escaped(u.c, u.flags);
      UnescapeThen(front, e + rest);
      UnescapeOne(u.c, u.flags, rest);
      assert EscapedAll(units) + rest == EscapedAll(front) + (e + rest);
      if Unescape(rest).Some? {
        assert Values(front) + ([u.c] + Unescape(rest).value) == Values(units) + Unescape(rest).value;
      }
    }
  }

  /** Printed characters can be told apart: with any escaping on, the text reads back as them. */
  lemma UnescapeOfEscape(units: seq<Unit>)
    requires AllOk(units) && forall u | u in units :: u.flags.Escapes()
    ensures Unescape(EscapedAll(units)) == Some(Values(units))
  {
    UnescapeThen(units, []);
    assert EscapedAll(units) + [] == EscapedAll(units);
    assert Values(units) + [] == Values(units);
  }

  predicate AllBelow(cs: seq<nat>, bound: nat) {
    forall i :: 0 <= i < |cs| ==> cs[i] < bound
  }

  /** The characters of a buffer. */
  function CharsFrom(s: seq<byte>, p: nat, width: int): (r: Option<seq<nat>>)
    requires p <= |s| && EvenWidth(|s| - p, width)
    ensures r.Some? ==> AllBelow(r.value, Utf8.U32)
    decreases |s| - p
  {
    if p == |s| then Some([])
    else
      var one := ReadOne(s[p..], width);
      if one.None? then None else Cons(Some(one.value.0), CharsFrom(s, p + one.value.1, width))
  }

  /** The characters themselves, or their UTF-8 octets when they are converted. */
  function Spelled(cs: seq<nat>, convert: bool): seq<nat>
    requires AllBelow(cs, Utf8.U32)
  {
    if cs == [] then [] else SpelledOne(cs[0], convert) + Spelled(cs[1..], convert)
  }

  function SpelledOne(c: nat, convert: bool): seq<nat>
    requires c < Utf8.U32
  {
    if convert then Utf8.PutChar(c) else [c]
  }

  lemma ValuesAppend(a: seq<Unit>, b: seq<Unit>)
    ensures Values(a + b) == Values(a) + Values(b)
  {
  }

  lemma UnitsOfOne(c: nat, convert: bool, flags: Flags)
    requires c < Utf8.U32
    ensures Values(UnitsOf(c, convert, flags)) == SpelledOne(c, convert)
    ensures forall u | u in UnitsOf(c, convert, flags) :: u.flags == flags
  {
    hide Utf8.PutChar;
  }

  lemma PlaceKeepsEscapes(flags: Flags, first: bool, last: bool)
    ensures flags.Escapes() ==> PlaceFlags(flags, first, last).Escapes()
  {
  }

  lemma {:induction false} UnitsSpellChars(s: seq<byte>, p: nat, width: int, convert: bool, flags: Flags)
    requires p <= |s| && EvenWidth(|s| - p, width)
    ensures var units, cs := UnitsFrom(s, p, width, convert, flags), CharsFrom(s, p, width);
            && (units.Some? <==> cs.Some?)
            && (units.Some? ==> Values(units.value) == Spelled(cs.value, convert))
            && (units.Some? && flags.Escapes() ==> forall u | u in units.value :: u.flags.Escapes())
    decreases |s| - p
  {
    hide ReadOne, Values, PlaceFlags, EvenWidth, UnitsOf, SpelledOne;
    if p == |s| {
      assert Values([]) == [];
    } else {
      var one := ReadOne(s[p..], width);
      if one.Some? {
        var q := p + one.value.1;
        UnitsSpellChars(s, q, width, convert, flags);
        var rest := UnitsFrom(s, q, width, convert, flags);
        if rest.Some? {
          var place := PlaceFlags(flags, p == 0, q == |s|);
          PlaceKeepsEscapes(flags, p == 0, q == |s|);
          UnitsOfOne(one.value.0, convert, place);
          ValuesAppend(UnitsOf(one.value.0, convert, place), rest.value);
          var cs := CharsFrom(s, p, width).value;
          assert cs[1..] == CharsFrom(s, q, width).value;
        }
      }
    }
  }

  /** The characters of a whole buffer, if it has whole ones only. */
  function BufferChars(s: seq<byte>, width: int): (r: Option<seq<nat>>)
    ensures r.Some? ==> AllBelow(r.value, Utf8.U32)
  {
    if EvenWidth(|s|, width) then CharsFrom(s, 0, width) else None
  }

  function SpelledBuffer(s: seq<byte>, width: int, convert: bool): Option<seq<nat>> {
    var cs := BufferChars(s, width);
    if cs.None? then None else Some(Spelled(cs.value, convert))
  }

  lemma {:induction false} SpelledOctets(cs: seq<nat>)
    requires AllBelow(cs, Utf8.U32)
    ensures AllBelow(Spelled(cs, true), 256)
  {
    hide Utf8.PutChar;
    if cs != [] {
      SpelledOctets(cs[1..]);
    }
  }

  /** No two characters of up to 31 bits start the same octets. */
  lemma PutCharIsPrefix(c: nat, s: seq<nat>, d: nat, t: seq<nat>)
    requires c < Utf8.U31 && d < Utf8.U31 && Utf8.PutChar(c) + s == Utf8.PutChar(d) + t
    requires AllBelow(s, 256) && AllBelow(t, 256)
    ensures c == d && s == t
  {
    hide Utf8.PutChar, Utf8.GetChar;
    var rest: seq<byte>, more: seq<byte> := s, t;
    Utf8.GetOfPut(c, rest);
    Utf8.GetOfPut(d, more);
    assert Utf8.PutChar(c) + rest == Utf8.PutChar(d) + more;
    assert s == (Utf8.PutChar(c) + s)[|Utf8.PutChar(c)|..] && t == (Utf8.PutChar(d) + t)[|Utf8.PutChar(d)|..];
  }

  /** Characters of up to 31 bits have their spelling to themselves, converted or not. */
  lemma {:induction false} SpellingIsFaithful(a: seq<nat>, b: seq<nat>, convert: bool)
    requires AllBelow(a, Utf8.U32) && AllBelow(b, Utf8.U32)
    requires convert ==> AllBelow(a, Utf8.U31) && AllBelow(b, Utf8.U31)
    ensures Spelled(a, convert) == Spelled(b, convert) <==> a == b
    decreases |a|
  {
    hide Utf8.PutChar, Utf8.GetChar;
    if a != [] && b != [] && Spelled(a, convert) == Spelled(b, convert) {
      var c, d, s, t := a[0], b[0], Spelled(a[1..], convert), Spelled(b[1..], convert);
      assert SpelledOne(c, convert) + s == SpelledOne(d, convert) + t;
      if convert {
        SpelledOctets(a[1..]);
        SpelledOctets(b[1..]);
        PutCharIsPrefix(c, s, d, t);
      } else {
        assert s == ([c] + s)[1..] && t == ([d] + t)[1..];
      }
      SpellingIsFaithful(a[1..], b[1..], convert);
      assert a == [c] + a[1..] && b == [d] + b[1..];
    }
  }

  /** With any escaping on, what do_buf prints reads back as the characters of the buffer. */
  lemma BufferReadsBack(s: seq<byte>, width: int, convert: bool, flags: Flags)
    requires flags.Escapes()
    ensures var units := BufferUnits(s, width, convert, flags);
            units.Some? ==> Unescape(EscapedAll(units.value)) == SpelledBuffer(s, width, convert)
  {
    hide UnitsFrom, CharsFrom, EscapedAll, Unescape, Values, Spelled;
    if EvenWidth(|s|, width) {
      UnitsSpellChars(s, 0, width, convert, flags);
      var units := UnitsFrom(s, 0, width, convert, flags);
      if units.Some? {
        UnescapeOfEscape(units.value);
      }
    }
  }

  // ---------- which texts can be told apart ----------

  /** Two buffers that both can be printed, and print the same. */
  predicate SamePrint(a: seq<byte>, b: seq<byte>, width: int, convert: bool, flags: Flags) {
    var text := BufferText(a, width, convert, flags);
    text.Some? && text == BufferText(b, width, convert, flags)
  }

  predicate SameSpelling(a: seq<byte>, b: seq<byte>, width: int, convert: bool) {
    SpelledBuffer(a, width, convert) == SpelledBuffer(b, width, convert)
  }

  /** Characters of two octets, of four, or of UTF-8. */
  predicate Wide(width: int) {
    width == 2 || width == 4 || width == 0
  }

  predicate SameChars(a: seq<byte>, b: seq<byte>, width: int) {
    BufferChars(a, width) == BufferChars(b, width)
  }

  /** The flag octet of a call has no bit for the place of a character. */
  predicate CallerFlags(flags: Flags) {
    !flags.first && !flags.last
  }

  /** Quotes around the text show in its first octet. */
  lemma QuotesShow(units: seq<Unit>)
    requires AllOk(units) && units != [] && forall u | u in units :: u.flags.esc2253
    ensures EscapedAll(units) != [] && EscapedAll(units)[0] != '"' as int
  {
    hide Hex, EscapedAll;
    var u, rest := units[0], units[1..];
    assert u in units && units == [u] + rest && forall x | x in rest :: x in units;
    EscapedOne(u);
    EscapedAppend([u], rest);
  }

  /** Only with RFC 2253 escaping can a character ask for quotes. */
  lemma QuotedNeeds2253(units: seq<Unit>)
    requires forall u | u in units :: !u.flags.Backslash()
    ensures !AnyQuotes(units)
  {
  }

  /** The flags of the characters are those of the call, up to the bits for the first and the last. */
  lemma {:induction false} UnitFlags(s: seq<byte>, p: nat, width: int, convert: bool, flags: Flags)
    requires p <= |s| && EvenWidth(|s| - p, width) && CallerFlags(flags)
    ensures var units := UnitsFrom(s, p, width, convert, flags);
            units.Some? ==> forall u | u in units.value ::
              u.flags.esc2253 == flags.esc2253 && (!flags.esc2253 ==> u.flags == flags)
    decreases |s| - p
  {
    hide ReadOne, EvenWidth, UnitsOf;
    if p != |s| {
      var one := ReadOne(s[p..], width);
      if one.Some? {
        var q := p + one.value.1;
        UnitFlags(s, q, width, convert, flags);
        UnitsOfOne(one.value.0, convert, PlaceFlags(flags, p == 0, q == |s|));
      }
    }
  }

  /** The text shows whether it is in quotes, so that what is inside them is the same too. */
  lemma SameInside(a: seq<byte>, b: seq<byte>, width: int, convert: bool, flags: Flags)
    requires CallerFlags(flags) && SamePrint(a, b, width, convert, flags)
    ensures BufferUnits(a, width, convert, flags).Some? && BufferUnits(b, width, convert, flags).Some?
    ensures EscapedAll(BufferUnits(a, width, convert, flags).value) ==
            EscapedAll(BufferUnits(b, width, convert, flags).value)
  {
    hide EscapedAll, AnyQuotes, UnitsFrom, AllOk;
    UnitFlags(a, 0, width, convert, flags);
    UnitFlags(b, 0, width, convert, flags);
    var u, v := BufferUnits(a, width, convert, flags).value, BufferUnits(b, width, convert, flags).value;
    if flags.esc2253 {
      Unquoted(u, v);
    } else {
      QuotedNeeds2253(u);
      QuotedNeeds2253(v);
      assert [] + EscapedAll(u) + [] == EscapedAll(u) && [] + EscapedAll(v) + [] == EscapedAll(v);
    }
  }

  lemma Unquoted(u: seq<Unit>, v: seq<Unit>)
    requires AllOk(u) && AllOk(v)
    requires forall x | x in u + v :: x.flags.esc2253
    requires var p, q := Quote(AnyQuotes(u)), Quote(AnyQuotes(v)); p + EscapedAll(u) + p == q + EscapedAll(v) + q
    ensures EscapedAll(u) == EscapedAll(v)
  {
    hide EscapedAll, WantsQuotes, AllOk;
    assert forall x | x in u || x in v :: x in u + v;
    var p, q := Quote(AnyQuotes(u)), Quote(AnyQuotes(v));
    var t := p + EscapedAll(u) + p;
    assert t == q + EscapedAll(v) + q;
    Inside(u);
    Inside(v);
  }

  lemma Inside(u: seq<Unit>)
    requires AllOk(u) && forall x | x in u :: x.flags.esc2253
    ensures var q := Quote(AnyQuotes(u));
            var t := q + EscapedAll(u) + q;
            && (AnyQuotes(u) <==> t != [] && t[0] == '"' as int)
            && EscapedAll(u) == t[|q|..|t| - |q|]
  {
    hide EscapedAll, WantsQuotes, AllOk;
    if u == [] {
      assert EscapedAll(u) == [] by { Nothing(); }
    } else {
      QuotesShow(u);
    }
  }

  lemma EscapedTellsApart(a: seq<byte>, b: seq<byte>, width: int, convert: bool, flags: Flags)
    requires CallerFlags(flags) && flags.Escapes() && SamePrint(a, b, width, convert, flags)
    ensures SameSpelling(a, b, width, convert)
  {
    hide EscapedAll, Unescape, BufferUnits, SpelledBuffer, SamePrint;
    SameInside(a, b, width, convert, flags);
    BufferReadsBack(a, width, convert, flags);
    BufferReadsBack(b, width, convert, flags);
  }

  /** Octets as they are. */
  lemma {:induction false} PlainText(units: seq<Unit>)
    requires AllOk(units) && forall u | u in units :: u.flags == NO_FLAGS && u.c < 256
    ensures EscapedAll(units) == Values(units)
  {
    hide Hex;
    if units != [] {
      var front, u := units[..|units| - 1], units[|units| - 1];
      assert u in units && forall x | x in front :: x in units;
      PlainText(front);
      assert StyleOf(u.c, u.flags) == Plain;
    }
  }

  lemma {:induction false} SmallSpelling(s: seq<byte>, p: nat, width: int, convert: bool)
    requires p <= |s| && EvenWidth(|s| - p, width)
    requires convert || !Wide(width)
    ensures var units := UnitsFrom(s, p, width, convert, NO_FLAGS);
            units.Some? ==> forall u | u in units.value :: u.flags == NO_FLAGS && u.c < 256
    decreases |s| - p
  {
    hide ReadOne, EvenWidth, UnitsOf;
    if p != |s| {
      var one := ReadOne(s[p..], width);
      if one.Some? {
        SmallSpelling(s, p + one.value.1, width, convert);
        SmallUnits(s[p..], width, convert);
      }
    }
  }

  lemma SmallUnits(s: seq<byte>, width: int, convert: bool)
    requires s != [] && EvenWidth(|s|, width) && ReadOne(s, width).Some?
    requires convert || !Wide(width)
    ensures forall u | u in UnitsOf(ReadOne(s, width).value.0, convert, NO_FLAGS) :: u.flags == NO_FLAGS && u.c < 256
  {
    hide ReadWord, ReadUtf8, Utf8.PutChar;
  }

  lemma PlainTellsApart(a: seq<byte>, b: seq<byte>, width: int, convert: bool)
    requires convert || !Wide(width)
    requires SamePrint(a, b, width, convert, NO_FLAGS)
    ensures SameSpelling(a, b, width, convert)
  {
    hide EscapedAll, UnitsFrom, CharsFrom, Spelled, Values, SamePrint;
    SameInside(a, b, width, convert, NO_FLAGS);
    PlainSpelling(a, width, convert);
    PlainSpelling(b, width, convert);
  }

  lemma PlainSpelling(s: seq<byte>, width: int, convert: bool)
    requires convert || !Wide(width)
    requires BufferUnits(s, width, convert, NO_FLAGS).Some?
    ensures SpelledBuffer(s, width, convert) == Some(EscapedAll(BufferUnits(s, width, convert, NO_FLAGS).value))
  {
    hide EscapedAll, UnitsFrom, CharsFrom, Spelled, Values;
    UnitsSpellChars(s, 0, width, convert, NO_FLAGS);
    SmallSpelling(s, 0, width, convert);
    PlainText(BufferUnits(s, width, convert, NO_FLAGS).value);
  }

  /** The octets of a character below 0x10000 at a width. */
  function EncodedChar(c: nat, width: int): (s: seq<byte>)
    requires c < 0x10000 && Wide(width)
    ensures s != [] && EvenWidth(|s|, width)
  {
    if width == 0 then Utf8.PutChar(c) else if width == 2 then [c / 256, c % 256] else [0, 0, c / 256, c % 256]
  }

  function EncodedChars(cs: seq<nat>, width: int): (s: seq<byte>)
    requires AllBelow(cs, 0x10000) && Wide(width)
    ensures EvenWidth(|s|, width)
  {
    if cs == [] then []
    else
      var one, rest := EncodedChar(cs[0], width), EncodedChars(cs[1..], width);
      EvenSum(|one|, |rest|, width);
      one + rest
  }

  lemma ReadOfEncodedChar(c: nat, width: int, rest: seq<byte>)
    requires c < 0x10000 && Wide(width)
    requires EvenWidth(|rest|, width)
    ensures EvenWidth(|EncodedChar(c, width) + rest|, width)
    ensures ReadOne(EncodedChar(c, width) + rest, width) == Some((c, |EncodedChar(c, width)|))
  {
    var one := EncodedChar(c, width);
    EvenSum(|one|, |rest|, width);
    if width == 0 {
      Utf8.GetOfPut(c, rest);
    } else {
      assert (one + rest)[..width] == one;
    }
  }

  lemma {:induction false} CharsOfEncoded(before: seq<byte>, cs: seq<nat>, width: int)
    requires AllBelow(cs, 0x10000) && Wide(width)
    ensures CharsFrom(before + EncodedChars(cs, width), |before|, width) == Some(cs)
    decreases |cs|
  {
    hide ReadOne, EncodedChar, EvenWidth, CharsFrom;
    var s := before + EncodedChars(cs, width);
    if cs == [] {
      assert CharsFrom(s, |s|, width) == Some([]) by { NoChars(s, width); }
    } else {
      var one, rest := EncodedChar(cs[0], width), EncodedChars(cs[1..], width);
      ReadOfEncodedChar(cs[0], width, rest);
      assert s[|before|..] == one + rest;
      FirstChar(s, |before|, width);
      CharsOfEncoded(before + one, cs[1..], width);
      assert s == before + one + rest;
      assert [cs[0]] + cs[1..] == cs;
    }
  }

  lemma NoChars(s: seq<byte>, width: int)
    ensures CharsFrom(s, |s|, width) == Some([])
  {
  }

  lemma FirstChar(s: seq<byte>, p: nat, width: int)
    requires p < |s| && EvenWidth(|s| - p, width) && ReadOne(s[p..], width).Some?
    ensures var (c, n) := ReadOne(s[p..], width).value;
            EvenWidth(|s| - p - n, width) && CharsFrom(s, p, width) == Cons(Some(c), CharsFrom(s, p + n, width))
  {
  }

  lemma {:induction false} SpelledPlain(cs: seq<nat>)
    requires AllBelow(cs, Utf8.U32)
    ensures Spelled(cs, false) == cs
  {
    if cs != [] {
      SpelledPlain(cs[1..]);
    }
  }

  /** What a buffer of such characters prints with no flags, before it is known what they print as. */
  lemma UnescapedUnits(cs: seq<nat>, width: int) returns (units: seq<Unit>)
    requires AllBelow(cs, 0x10000) && Wide(width)
    ensures AllOk(units) && Values(units) == cs && forall u | u in units :: u.flags == NO_FLAGS
    ensures BufferText(EncodedChars(cs, width), width, false, NO_FLAGS) == Some(EscapedAll(units))
    ensures BufferChars(EncodedChars(cs, width), width) == Some(cs)
  {
    hide EscapedAll, CharsFrom, UnitsFrom, Spelled, Values, EncodedChars;
    var s := EncodedChars(cs, width);
    CharsOfEncoded([], cs, width);
    assert [] + s == s;
    UnitsSpellChars(s, 0, width, false, NO_FLAGS);
    SpelledPlain(cs);
    UnitFlags(s, 0, width, false, NO_FLAGS);
    units := BufferUnits(s, width, false, NO_FLAGS).value;
    QuotedNeeds2253(units);
    assert [] + EscapedAll(units) + [] == EscapedAll(units);
  }

  lemma WideText()
    ensures Escaped(0x100, NO_FLAGS) == [BACKSLASH, 'U' as int, 48, 49, 48, 48]
  {
    assert Hex(1, 2) == [48, 49];
    assert Hex(0x100, 4) == [48, 49, 48, 48];
  }

  /** A backslash, a U and four digits print like the one character that they are the escape of. */
  lemma Ambiguous(width: int) returns (a: seq<byte>, b: seq<byte>)
    requires Wide(width)
    ensures SamePrint(a, b, width, false, NO_FLAGS) && !SameChars(a, b, width)
  {
    hide EscapedAll, EncodedChars, Escaped, BufferText, BufferChars;
    var wide, spelled := [0x100], [BACKSLASH, 'U' as int, 48, 49, 48, 48];
    a, b := EncodedChars(wide, width), EncodedChars(spelled, width);
    var u := UnescapedUnits(wide, width);
    var v := UnescapedUnits(spelled, width);
    assert u == [Unit(0x100, NO_FLAGS)] by { assert u[0] in u; }
    EscapedOne(u[0]);
    WideText();
    PlainText(v) by {
      forall x | x in v ensures x.c < 256 {
        var i :| 0 <= i < |v| && v[i] == x;
        assert Values(v)[i] == x.c;
      }
    }
  }

  /** Without conversion each character counts with the flags of its place: last wins over first. */
  lemma {:induction false} UnitsPlaced(s: seq<byte>, p: nat, width: int, flags: Flags)
    requires p <= |s| && EvenWidth(|s| - p, width) && CharsFrom(s, p, width).Some?
    ensures UnitsFrom(s, p, width, false, flags).Some?
    ensures var units, cs := UnitsFrom(s, p, width, false, flags).value, CharsFrom(s, p, width).value;
            && |units| == |cs|
            && forall i :: 0 <= i < |cs| ==>
                 units[i] == Unit(cs[i], if !flags.esc2253 then flags
                                         else if i == |cs| - 1 then flags.(last := true)
                                         else if i == 0 && p == 0 then flags.(first := true)
                                         else flags)
    decreases |s| - p
  {
    hide ReadOne, EvenWidth;
    if p != |s| {
      var one := ReadOne(s[p..], width);
      var q := p + one.value.1;
      UnitsPlaced(s, q, width, flags);
      NoneLeft(s, q, width);
    }
  }

  lemma NoneLeft(s: seq<byte>, p: nat, width: int)
    requires p <= |s| && EvenWidth(|s| - p, width) && CharsFrom(s, p, width).Some?
    ensures CharsFrom(s, p, width).value == [] <==> p == |s|
  {
  }

  lemma PlaceKeepsRest(flags: Flags, first: bool, last: bool)
    requires CallerFlags(flags)
    ensures PlaceFlags(flags, first, last).(first := false, last := false) == flags
  {
  }

  /** With conversion each octet of a character counts with the flags of its character. */
  lemma {:induction false} ConvertedFlags(s: seq<byte>, p: nat, width: int, flags: Flags)
    requires p <= |s| && EvenWidth(|s| - p, width) && CallerFlags(flags) && UnitsFrom(s, p, width, true, flags).Some?
    ensures forall u | u in UnitsFrom(s, p, width, true, flags).value ::
              u.flags.(first := false, last := false) == flags
    decreases |s| - p
  {
    hide ReadOne, EvenWidth, UnitsOf, PlaceFlags;
    if p != |s| {
      var one := ReadOne(s[p..], width);
      var q := p + one.value.1;
      ConvertedFlags(s, q, width, flags);
      PlaceKeepsRest(flags, p == 0, q == |s|);
      UnitsOfOne(one.value.0, true, PlaceFlags(flags, p == 0, q == |s|));
    }
  }

  /** Converting ASCII changes nothing. */
  lemma {:induction false} ConvertedAscii(s: seq<byte>, p: nat, width: int, flags: Flags)
    requires p <= |s| && EvenWidth(|s| - p, width)
    requires CharsFrom(s, p, width).Some? && AllBelow(CharsFrom(s, p, width).value, 128)
    ensures UnitsFrom(s, p, width, true, flags) == UnitsFrom(s, p, width, false, flags)
    decreases |s| - p
  {
    hide ReadOne, EvenWidth, UnitsOf, PlaceFlags;
    if p != |s| {
      var one := ReadOne(s[p..], width);
      var q := p + one.value.1;
      var cs := CharsFrom(s, p, width).value;
      assert cs[0] == one.value.0 && cs[1..] == CharsFrom(s, q, width).value;
      ConvertedAscii(s, q, width, flags);
      AsciiUnits(one.value.0, PlaceFlags(flags, p == 0, q == |s|));
    }
  }

  lemma AsciiUnits(c: nat, flags: Flags)
    requires c < 128
    ensures UnitsOf(c, true, flags) == UnitsOf(c, false, flags)
  {
    hide Utf8.PutChar;
    Utf8.Layout(c);
    OneOctetUnit(c, flags);
  }

  lemma OneOctetUnit(c: byte, flags: Flags)
    requires Utf8.PutChar(c) == [c]
    ensures UnitsOf(c, true, flags) == UnitsOf(c, false, flags)
  {
    assert [c][..0] == [];
  }

  // ---------- RFC 2253 ----------

  /** Section 2.4 of RFC 2253, for octet i of a string: what has to have a backslash has one. */
  function Rfc2253Octet(s: seq<byte>, i: nat): seq<byte>
    requires i < |s|
  {
    if s[i] in {34, 43, 44, 59, 60, 62, 92} || (i == 0 && s[i] == 35) || ((i == 0 || i == |s| - 1) && s[i] == 32) then
      [92, s[i]]
    else [s[i]]
  }

  function Rfc2253Text(s: seq<byte>, n: nat): seq<byte>
    requires n <= |s|
  {
    if n == 0 then [] else Rfc2253Text(s, n - 1) + Rfc2253Octet(s, n - 1)
  }

  const RFC2253_FLAGS := NO_FLAGS.(esc2253 := true)

  lemma {:induction false} OctetChars(s: seq<byte>, p: nat)
    requires p <= |s|
    ensures CharsFrom(s, p, 1) == Some(s[p..])
    decreases |s| - p
  {
    if p == |s| {
      assert s[p..] == [];
    } else {
      OctetChars(s, p + 1);
      assert ReadOne(s[p..], 1) == Some((s[p] as nat, 1));
      assert s[p..] == [s[p]] + s[p + 1..];
    }
  }

  lemma {:induction false} EscapedOctets(s: seq<byte>, units: seq<Unit>, n: nat)
    requires n <= |units| == |s| && s != [35] && AllOk(units)
    requires forall i :: 0 <= i < |s| ==>
               units[i] == Unit(s[i], if i == |s| - 1 then RFC2253_FLAGS.(last := true)
                                      else if i == 0 then RFC2253_FLAGS.(first := true)
                                      else RFC2253_FLAGS)
    ensures AllOk(units[..n]) && EscapedAll(units[..n]) == Rfc2253Text(s, n)
  {
    hide Escaped;
    if n > 0 {
      EscapedOctets(s, units, n - 1);
      assert units[..n][..n - 1] == units[..n - 1];
      OctetRules(s[n - 1], units[n - 1].flags);
    }
  }

  /**
    With the flag of RFC 2253 alone, a string of octets is printed as the RFC requires exactly when it is
    not a single number sign: that one is first and last, which only counts as last.
   */
  lemma FollowsRfc2253(s: seq<byte>)
    ensures BufferText(s, 1, false, RFC2253_FLAGS).Some?
    ensures BufferText(s, 1, false, RFC2253_FLAGS).value == Rfc2253Text(s, |s|) <==> s != ['#' as int]
  {
    hide UnitsFrom, CharsFrom, EscapedAll, AnyQuotes, Rfc2253Text;
    OctetChars(s, 0);
    assert s[0..] == s;
    UnitsPlaced(s, 0, 1, RFC2253_FLAGS);
    var units := UnitsFrom(s, 0, 1, false, RFC2253_FLAGS).value;
    NoQuoteFlag(units);
    assert [] + EscapedAll(units) + [] == EscapedAll(units);
    if s == [35] {
      assert units == [Unit(35, RFC2253_FLAGS.(last := true))];
      NumberSignAlone(units);
    } else {
      EscapedOctets(s, units, |s|);
      assert units[..|s|] == units;
    }
  }

  lemma NoQuoteFlag(units: seq<Unit>)
    requires forall u | u in units :: !u.flags.quote
    ensures !AnyQuotes(units)
  {
    forall u | u in units ensures !WantsQuotes(u) {
      if u.c <= 0xff {
        OctetRules(u.c, u.flags);
      }
    }
  }

  lemma NumberSignAlone(units: seq<Unit>)
    requires units == [Unit(35, RFC2253_FLAGS.(last := true))]
    ensures AllOk(units) && EscapedAll(units) == [35] && Rfc2253Text([35], 1) == [92, 35]
  {
    OctetRules(35, RFC2253_FLAGS.(last := true));
    EscapedOne(units[0]);
    assert Rfc2253Text([35], 1) == Rfc2253Text([35], 0) + [92, 35];
  }

  /** Octets spelled alike: text that prints the same is spelled the same. */
  lemma PrintTellsSpelling(a: seq<byte>, b: seq<byte>, width: int, convert: bool, flags: Flags)
    requires CallerFlags(flags) && SamePrint(a, b, width, convert, flags)
    requires flags.Escapes() || convert || !Wide(width)
    ensures SameSpelling(a, b, width, convert)
  {
    hide SamePrint, SameSpelling;
    if flags.Escapes() {
      EscapedTellsApart(a, b, width, convert, flags);
    } else {
      PlainTellsApart(a, b, width, convert);
    }
  }

  lemma {:induction false} CharsBelow(s: seq<byte>, p: nat, width: int)
    requires p <= |s| && EvenWidth(|s| - p, width) && width != 4
    ensures var cs := CharsFrom(s, p, width); cs.Some? ==> AllBelow(cs.value, Utf8.U31)
    decreases |s| - p
  {
    hide ReadOne, EvenWidth;
    if p != |s| {
      var one := ReadOne(s[p..], width);
      if one.Some? {
        CharBelow(s[p..], width);
        CharsBelow(s, p + one.value.1, width);
      }
    }
  }

  lemma CharBelow(s: seq<byte>, width: int)
    requires s != [] && EvenWidth(|s|, width) && width != 4 && ReadOne(s, width).Some?
    ensures ReadOne(s, width).value.0 < Utf8.U31
  {
  }

  /** The spelling tells the characters, but for conversion from four octets. */
  lemma SpellingTellsChars(a: seq<byte>, b: seq<byte>, width: int, convert: bool)
    requires BufferChars(a, width).Some? && BufferChars(b, width).Some? && SameSpelling(a, b, width, convert)
    requires convert ==> width != 4
    ensures SameChars(a, b, width)
  {
    hide Spelled, CharsFrom, EvenWidth;
    if convert {
      CharsBelow(a, 0, width);
      CharsBelow(b, 0, width);
    }
    SpellingIsFaithful(BufferChars(a, width).value, BufferChars(b, width).value, convert);
  }

  /** What can be printed has characters. */
  lemma PrintableHasChars(s: seq<byte>, width: int, convert: bool, flags: Flags)
    requires BufferText(s, width, convert, flags).Some?
    ensures BufferChars(s, width).Some?
  {
    hide UnitsFrom, CharsFrom, EscapedAll, AnyQuotes;
    UnitsSpellChars(s, 0, width, convert, flags);
  }

  /** Two characters of four octets that are converted to the same six octets, whatever the flags. */
  lemma ConvertedAlike(flags: Flags)
    ensures SamePrint([0x84, 0, 0, 0], [4, 0, 0, 0], 4, true, flags)
    ensures !SameChars([0x84, 0, 0, 0], [4, 0, 0, 0], 4)
  {
    hide Utf8.PutChar, OctetUnits, EscapedAll, AnyQuotes;
    var a: seq<byte>, b: seq<byte> := [0x84, 0, 0, 0], [4, 0, 0, 0];
    Utf8.TopBitLost(0x400_0000);
    OneFour(a, true, flags);
    OneFour(b, true, flags);
  }

  /** A buffer of one four-octet character. */
  lemma OneFour(s: seq<byte>, convert: bool, flags: Flags)
    requires |s| == 4
    ensures BufferChars(s, 4) == Some([ReadWord(s)])
    ensures BufferUnits(s, 4, convert, flags) ==
            Some(UnitsOf(ReadWord(s), convert, PlaceFlags(flags, true, true)) + [])
  {
    hide UnitsOf, PlaceFlags, ReadWord;
    assert s[0..] == s && s[..4] == s;
    assert ReadOne(s, 4) == Some((ReadWord(s), 4));
    assert UnitsFrom(s, 4, 4, convert, flags) == Some([]);
    assert UnitsFrom(s, 0, 4, convert, flags) ==
           Some(UnitsOf(ReadWord(s), convert, PlaceFlags(flags, true, true)) + []);
    assert CharsFrom(s, 4, 4) == Some([]);
    assert [ReadWord(s)] + [] == [ReadWord(s)];
  }

  /**
    Which printed text determines the characters, for every flag octet a call can pass: converted
    text exactly when the characters are not of four octets, and other text exactly when some
    escaping is on or the characters are single octets to begin with.
   */
  lemma PrintedTellsApart(width: int, convert: bool, flags: Flags)
    requires CallerFlags(flags)
    ensures (forall a, b | SamePrint(a, b, width, convert, flags) :: SameChars(a, b, width)) <==>
            if convert then width != 4 else flags.Escapes() || !Wide(width)
  {
    hide SamePrint, SameChars, SameSpelling;
    if if convert then width != 4 else flags.Escapes() || !Wide(width) {
      forall a, b | SamePrint(a, b, width, convert, flags) ensures SameChars(a, b, width) {
        PrintTellsSpelling(a, b, width, convert, flags);
        SamePrintSome(a, b, width, convert, flags);
        PrintableHasChars(a, width, convert, flags);
        PrintableHasChars(b, width, convert, flags);
        SpellingTellsChars(a, b, width, convert);
      }
    } else if convert {
      ConvertedAlike(flags);
      assert SamePrint([0x84, 0, 0, 0], [4, 0, 0, 0], width, convert, flags);
    } else {
      assert flags == NO_FLAGS;
      var a, b := Ambiguous(width);
      assert SamePrint(a, b, width, convert, flags) && !SameChars(a, b, width);
    }
  }

  lemma SamePrintSome(a: seq<byte>, b: seq<byte>, width: int, convert: bool, flags: Flags)
    requires SamePrint(a, b, width, convert, flags)
    ensures BufferText(a, width, convert, flags).Some? && BufferText(b, width, convert, flags).Some?
  {
  }

  /** A dump reads back too: each octet is two hex digits. */
  lemma {:induction false} HexDumpReadsBack(s: seq<byte>, i: nat)
    requires i < |s|
    ensures FromHex(HexDump(s)[2 * i..2 * i + 2]) == Some(s[i])
    ensures HexDump(s)[2 * i] == HexDigit(s[i] / 16) && HexDump(s)[2 * i + 1] == HexDigit(s[i] % 16)
    decreases |s|
  {
    var front, b := s[..|s| - 1], s[|s| - 1];
    if i < |front| {
      HexDumpReadsBack(front, i);
      assert HexDump(s)[2 * i..2 * i + 2] == HexDump(front)[2 * i..2 * i + 2];
    } else {
      var d := [HexDigit(b / 16), HexDigit(b % 16)];
      assert HexDump(s)[2 * i..2 * i + 2] == d;
      assert d[..1] == [HexDigit(b / 16)] && d[..1][..0] == [];
      assert FromHex(d[..1]) == Some(b / 16);
    }
  }

  /** With control characters and high octets escaped, only printable ASCII comes out. */
  lemma EscapedIsPrintable(c: nat, flags: Flags)
    requires c < Utf8.U32 && flags.ctrl && flags.msb
    ensures forall b | b in Escaped(c, flags) :: 32 <= b < 127
  {
    HexIsPrintable(c, 8);
    HexIsPrintable(c, 4);
    HexIsPrintable(c, 2);
  }

  lemma {:induction false} HexIsPrintable(v: nat, n: nat)
    ensures forall b | b in Hex(v, n) :: 32 <= b < 127
  {
    if n > 0 {
      HexIsPrintable(v / 16, n - 1);
    }
  }
}
