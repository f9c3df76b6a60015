/**
  The transcoder and the printer together: what the one writes, the other reads at the width of its tag
  and prints as the characters of the original text.
 */
module PrintedStrings {
  import opened Common
  import opened Bytes
  import Utf8
  import CharMap
  import T = Transcoder
  import P = StringPrinter

  /** The transcoder's PrintableString characters are those marked in the printer's table. */
  lemma PrintableIsMarked(c: int)
    ensures T.IsPrintable(c) <==> 0 <= c < 128 && CharMap.HasBit(CharMap.CharTypeAt(c), 0x10)
  {
    if 0 <= c < 128 {
      CharMap.Entries(c);
    }
  }

  // ---------- widths ----------

  /** The universal tags of the string types that are written. */
  predicate IsTag(t: T.StringType, tag: int) {
    match t
    case UTF8String => tag == 12
    case PrintableString => tag == 19
    case T61String => tag == 20
    case IA5String => tag == 22
    case UniversalString => tag == 28
    case BMPString => tag == 30
    case OtherString => false
  }

  /** Octets per character, 0 for UTF-8; -1 is a dump. */
  lemma Widths(kind: int, o: P.Options)
    ensures P.WidthOf(kind, o) ==
            if o.dumpAll then -1
            else if o.ignoreType then 1
            else if kind == 12 then 0
            else if kind in {18, 19, 20, 22, 23, 24, 26} then 1
            else if kind == 28 then 4
            else if kind == 30 then 2
            else if o.dumpUnknown then -1
            else 1
  {
  }

  function WidthIn(f: T.Format): int {
    match f
    case Utf => 0
    case Bmp => 2
    case Univ => 4
    case _ => 1
  }

  lemma WidthOfTag(t: T.StringType, tag: int, o: P.Options)
    requires IsTag(t, tag) && !o.dumpAll && !o.ignoreType
    ensures P.WidthOf(tag, o) == WidthIn(T.FormatOf(t))
  {
    Widths(tag, o);
  }

  lemma {:induction false} WholeCharacters(f: T.Format, s: seq<byte>)
    requires T.DecodeAll(f, s).Some?
    ensures P.EvenWidth(|s|, WidthIn(f))
    decreases |s|
  {
    if s != [] {
      var n := T.DecodeOne(f, s).value.1;
      WholeCharacters(f, s[n..]);
      P.EvenSum(n, |s| - n, WidthIn(f));
    }
  }

  /** Both read the same first character. */
  lemma SameFirst(f: T.Format, s: seq<byte>)
    requires s != [] && T.DecodeOne(f, s).Some? && P.EvenWidth(|s|, WidthIn(f))
    ensures P.ReadOne(s, WidthIn(f)) == Some((T.DecodeOne(f, s).value.0 as nat, T.DecodeOne(f, s).value.1))
  {
    hide T.ValidCodePoint, Utf8.GetChar;
    T.OneIsBigEndian(s);
    if f == T.Univ {
      P.WordIsBigEndian(s[..4]);
    } else if f == T.Bmp {
      P.WordIsBigEndian(s[..2]);
    }
  }

  lemma {:induction false} SameChars(f: T.Format, s: seq<byte>, p: nat)
    requires p <= |s| && T.DecodeAll(f, s[p..]).Some? && P.EvenWidth(|s| - p, WidthIn(f))
    ensures P.CharsFrom(s, p, WidthIn(f)) == T.DecodeAll(f, s[p..])
    decreases |s| - p
  {
    hide T.DecodeOne, P.ReadOne, P.EvenWidth;
    if p < |s| {
      SameFirst(f, s[p..]);
      var n := T.DecodeOne(f, s[p..]).value.1;
      assert s[p..][n..] == s[p + n..];
      SameChars(f, s, p + n);
    }
  }

  /** Data that decodes under its type is read as the same characters at the width of the tag. */
  lemma ReadAtWidth(t: T.StringType, tag: int, data: seq<byte>, o: P.Options)
    requires IsTag(t, tag) && !o.dumpAll && !o.ignoreType && T.DecodeAll(T.FormatOf(t), data).Some?
    ensures P.BufferChars(data, P.WidthOf(tag, o)) == T.DecodeAll(T.FormatOf(t), data)
  {
    hide T.DecodeAll, P.CharsFrom;
    WidthOfTag(t, tag, o);
    WholeCharacters(T.FormatOf(t), data);
    assert data[0..] == data;
    SameChars(T.FormatOf(t), data, 0);
  }

  // ---------- the text ----------

  /**
    The parts of the text: the type and a colon, then a number sign and a dump, or the characters, in
    quotes if one of them asks for that.
   */
  lemma TextParts(kind: int, data: seq<byte>, der: Option<seq<byte>>, tagname: seq<byte>, o: P.Options)
    ensures var prefix := if o.showType then tagname + [':' as int] else [];
            var w := P.WidthOf(kind, o);
            P.FullText(kind, data, der, tagname, o) ==
              if w == -1 then
                if !o.dumpDer then Some(prefix + (['#' as int] + P.HexDump(data)))
                else if der.None? then None
                else Some(prefix + (['#' as int] + P.HexDump(der.value)))
              else
                var width, convert := if w == 0 && o.utf8Convert then 1 else w, w != 0 && o.utf8Convert;
                var units := P.BufferUnits(data, width, convert, o.esc);
                if units.None? then None
                else
                  var asked := exists u | u in units.value :: P.StyleOf(u.c, u.flags) == P.Quoted;
                  var mark := if asked then ['"' as int] else [];
                  Some(prefix + (mark + P.EscapedAll(units.value) + mark))
  {
    hide P.HexDump, P.BufferUnits, P.EscapedAll, P.StyleOf;
  }

  lemma FirstIsSpelled(s: seq<byte>)
    requires s != [] && P.ReadOne(s, 0).Some?
    ensures Utf8.PutChar(P.ReadOne(s, 0).value.0) == s[..P.ReadOne(s, 0).value.1]
  {
    hide Utf8.PutChar, Utf8.GetChar;
    Utf8.PutOfGet(s);
  }

  /** UTF-8 text is the octets that its characters are converted to. */
  lemma {:induction false} Utf8IsSpelled(s: seq<byte>, p: nat)
    requires p <= |s| && P.CharsFrom(s, p, 0).Some?
    ensures P.Spelled(P.CharsFrom(s, p, 0).value, true) == s[p..]
    decreases |s| - p
  {
    hide Utf8.PutChar, Utf8.GetChar, P.ReadOne;
    if p == |s| {
      assert s[p..] == [];
    } else {
      var (c, n) := P.ReadOne(s[p..], 0).value;
      assert Utf8.PutChar(c) == s[p..][..n] by { FirstIsSpelled(s[p..]); }
      Utf8IsSpelled(s, p + n);
      var cs := P.CharsFrom(s, p, 0).value;
      assert cs[1..] == P.CharsFrom(s, p + n, 0).value;
      assert s[p..] == s[p..][..n] + s[p + n..];
    }
  }

  /**
    Transcoded, then printed: whatever type is decided on, the text printed with some escape flag reads
    back as the characters of the input, or as their UTF-8 octets when conversion is asked for.
   */
  lemma PrintsTheInput(f: T.Format, s: seq<byte>, mask: set<T.StringType>, minsize: int, maxsize: int,
                       t: T.StringType, tag: int, der: Option<seq<byte>>, tagname: seq<byte>, o: P.Options)
    requires T.Plan(f, s, mask, minsize, maxsize) == Some(t) && IsTag(t, tag)
    requires !o.dumpAll && !o.ignoreType && P.CallerFlags(o.esc) && o.esc.Escapes()
    ensures T.DecodeAll(f, s).Some? && P.BufferChars(T.Content(f, s, t), P.WidthOf(tag, o)) == T.DecodeAll(f, s)
    ensures exists inner: seq<byte>, mark: seq<byte> | mark == [] || mark == ['"' as int] ::
              && P.FullText(tag, T.Content(f, s, t), der, tagname, o) ==
                   Some((if o.showType then tagname + [':' as int] else []) + (mark + inner + mark))
              && P.Unescape(inner) ==
                   (if o.utf8Convert then P.SpelledBuffer(T.Content(f, s, t), P.WidthOf(tag, o), true)
                    else T.DecodeAll(f, s))
  {
    hide T.Plan, T.DecodeAll, T.Content, P.BufferUnits, P.EscapedAll, P.Unescape, P.WidthOf, P.StyleOf, P.FullText;
    var data, w := T.Content(f, s, t), P.WidthOf(tag, o);
    T.ContentKeepsMeaning(f, s, mask, minsize, maxsize);
    ReadAtWidth(t, tag, data, o);
    WidthOfTag(t, tag, o);
    TextParts(tag, data, der, tagname, o);
    var inner := BufferInner(data, w, o);
  }

  lemma BufferInner(data: seq<byte>, w: int, o: P.Options) returns (inner: seq<byte>)
    requires P.BufferChars(data, w).Some? && P.CallerFlags(o.esc) && o.esc.Escapes()
    ensures var width, convert := if w == 0 && o.utf8Convert then 1 else w, w != 0 && o.utf8Convert;
            && P.BufferUnits(data, width, convert, o.esc).Some?
            && inner == P.EscapedAll(P.BufferUnits(data, width, convert, o.esc).value)
    ensures P.Unescape(inner) == P.SpelledBuffer(data, w, o.utf8Convert)
    ensures P.SpelledBuffer(data, w, false) == P.BufferChars(data, w)
  {
    hide P.EscapedAll, P.Unescape, P.CharsFrom, P.UnitsFrom, P.Spelled;
    var width, convert := if w == 0 && o.utf8Convert then 1 else w, w != 0 && o.utf8Convert;
    P.SpelledPlain(P.BufferChars(data, w).value);
    if w == 0 && o.utf8Convert {
      Utf8IsSpelled(data, 0);
      P.OctetChars(data, 0);
      P.SpelledPlain(P.CharsFrom(data, 0, 1).value);
      assert data[0..] == data;
      assert P.SpelledBuffer(data, 1, false) == P.SpelledBuffer(data, 0, true);
    }
    P.UnitsSpellChars(data, 0, width, convert, o.esc);
    P.BufferReadsBack(data, width, convert, o.esc);
    inner := P.EscapedAll(P.BufferUnits(data, width, convert, o.esc).value);
  }
}
