/**
  GeneralizedTime text: the parser decides a grammar of digits, an optional fraction and an optional
  zone; the printer writes the one form with seconds and Z.
 */
module GeneralizedTime {
  import opened Common
  import opened Bytes
  import opened TimeSupport

  // ---------- the grammar ----------

  datatype Zone = NoZone | Utc | Offset(ahead: bool, hours: nat, minutes: nat)

  /** What a text says; without a fraction the fraction is empty. */
  datatype Stamp = Stamp(year: nat, month: nat, day: nat, hour: nat, minute: nat, second: Option<nat>,
                         fraction: seq<byte>, zone: Zone) {
    /** Two digits each, the year as two of them. */
    function Groups(): (g: seq<nat>) {
      [year / 100, year % 100, month, day, hour, minute]
    }

    predicate InRange() {
      && year <= 9999 && 1 <= month <= 12 && 1 <= day <= 31 && hour <= 23 && minute <= 59
      && (second.Some? ==> second.value <= 59)
      && (second.None? ==> fraction == [] && zone != NoZone)
      && (forall i :: 0 <= i < |fraction| ==> IsDigit(fraction[i]))
      && (zone.Offset? ==> zone.hours <= 12 && zone.minutes <= 59)
    }

    function ToFields(): Fields {
      Fields(year - 1900, month - 1, day, hour, minute, if second.Some? then second.value else 0)
    }

    /** The seconds to add to get to UTC. */
    function Adjustment(): int {
      ZoneSeconds(zone)
    }
  }

  function ZoneSeconds(z: Zone): int {
    if z.Offset? then (if z.ahead then -1 else 1) * (z.hours * 3600 + z.minutes * 60) else 0
  }

  predicate IsDigit(b: byte) {
    48 <= b <= 57
  }

  function TwoDigits(v: nat): (s: seq<byte>)
    requires v < 100
    ensures |s| == 2
  {
    [48 + v / 10, 48 + v % 10]
  }

  predicate AllTwo(groups: seq<nat>) {
    forall i :: 0 <= i < |groups| ==> groups[i] < 100
  }

  function Digits(groups: seq<nat>): (s: seq<byte>)
    requires AllTwo(groups)
    ensures |s| == 2 * |groups|
  {
    if groups == [] then []
    else
      Digits(groups[..|groups| - 1]) + TwoDigits(groups[|groups| - 1])
  }

  function ZoneText(z: Zone): seq<byte>
    requires z.Offset? ==> z.hours < 100 && z.minutes < 100
  {
    match z
    case NoZone => []
    case Utc => ['Z' as int]
    case Offset(ahead, hours, minutes) =>
      [if ahead then '+' as int else '-' as int] + TwoDigits(hours) + TwoDigits(minutes)
  }

  predicate Writable(g: Stamp) {
    && g.year <= 9999 && g.month < 100 && g.day < 100 && g.hour < 100 && g.minute < 100
    && (g.second.Some? ==> g.second.value < 100)
    && (g.zone.Offset? ==> g.zone.hours < 100 && g.zone.minutes < 100)
  }

  function SecondText(second: Option<nat>): seq<byte>
    requires second.Some? ==> second.value < 100
  {
    if second.None? then [] else TwoDigits(second.value)
  }

  function FractionText(fraction: seq<byte>): seq<byte> {
    if fraction == [] then [] else ['.' as int] + fraction
  }

  /** The text of a stamp. */
  function Text(g: Stamp): seq<byte>
    requires Writable(g)
  {
    Digits(g.Groups()) + SecondText(g.second) + FractionText(g.fraction) + ZoneText(g.zone)
  }

  /** Two digits stand at position o. */
  predicate ShowsAt(s: seq<byte>, o: nat, v: nat) {
    o + 2 <= |s| && s[o] == 48 + v / 10 && s[o + 1] == 48 + v % 10
  }

  lemma {:induction false} DigitsShow(groups: seq<nat>, i: nat)
    requires AllTwo(groups) && i < |groups|
    ensures ShowsAt(Digits(groups), 2 * i, groups[i])
  {
    if i < |groups| - 1 {
      DigitsShow(groups[..|groups| - 1], i);
    }
  }

  /**
    The text of a stamp: two digits for the century, the year of it, the month, the day, the hour and the
    minute, then two for the second, a point and the fraction, and Z or the signed offset.
   */
  lemma TextOctets(g: Stamp)
    requires Writable(g)
    ensures var s := Text(g);
            && ShowsAt(s, 0, g.year / 100) && ShowsAt(s, 2, g.year % 100) && ShowsAt(s, 4, g.month)
            && ShowsAt(s, 6, g.day) && ShowsAt(s, 8, g.hour) && ShowsAt(s, 10, g.minute)
            && s[12..] == (match g.second case None => [] case Some(v) => [48 + v / 10, 48 + v % 10])
                          + (if g.fraction == [] then [] else ['.' as int] + g.fraction)
                          + (match g.zone
                             case NoZone => []
                             case Utc => ['Z' as int]
                             case Offset(ahead, h, m) =>
                               [if ahead then '+' as int else '-' as int]
                               + [48 + h / 10, 48 + h % 10] + [48 + m / 10, 48 + m % 10])
  {
    hide Digits;
    var head := Digits(g.Groups());
    var tail := SecondText(g.second) + FractionText(g.fraction) + ZoneText(g.zone);
    assert Text(g) == head + tail && Text(g)[12..] == tail;
    HeadShows(g);
  }

  lemma HeadShows(g: Stamp)
    requires Writable(g)
    ensures AllTwo(g.Groups())
    ensures var s := Digits(g.Groups());
            && ShowsAt(s, 0, g.year / 100) && ShowsAt(s, 2, g.year % 100) && ShowsAt(s, 4, g.month)
            && ShowsAt(s, 6, g.day) && ShowsAt(s, 8, g.hour) && ShowsAt(s, 10, g.minute)
  {
    hide Digits, ShowsAt;
    DigitsShow(g.Groups(), 0);
    DigitsShow(g.Groups(), 1);
    DigitsShow(g.Groups(), 2);
    DigitsShow(g.Groups(), 3);
    DigitsShow(g.Groups(), 4);
    DigitsShow(g.Groups(), 5);
  }

  // ---------- what the parser accepts ----------

  const FIELD_MIN: seq<nat> := [0, 0, 1, 1, 0, 0, 0, 0, 0]
  const FIELD_MAX: seq<nat> := [99, 99, 12, 31, 23, 59, 59, 12, 59]

  function Two(s: seq<byte>, o: nat): (r: Option<nat>)
    ensures r.Some? ==> o + 2 <= |s| && r.value < 100
  {
    if o + 2 <= |s| && IsDigit(s[o]) && IsDigit(s[o + 1]) then Some(10 * (s[o] - 48) + s[o + 1] - 48) else None
  }

  predicate InLimits(s: seq<byte>, o: nat, i: nat)
    requires i < 9
  {
    Two(s, o).Some? && FIELD_MIN[i] <= Two(s, o).value <= FIELD_MAX[i]
  }

  predicate ZoneMark(b: byte) {
    b == 'Z' as int || b == '+' as int || b == '-' as int
  }

  function DigitRun(s: seq<byte>, o: nat): (n: nat)
    ensures o <= |s| ==> o + n <= |s|
    ensures forall i :: o <= i < o + n ==> i < |s| && IsDigit(s[i])
    ensures o + n < |s| ==> !IsDigit(s[o + n])
    decreases |s| - o
  {
    if o < |s| && IsDigit(s[o]) then 1 + DigitRun(s, o + 1) else 0
  }

  function ZoneAt(s: seq<byte>, o: nat): Option<Zone> {
    if o == |s| then Some(NoZone)
    else if o > |s| then None
    else if s[o] == 'Z' as int then (if o + 1 == |s| then Some(Utc) else None)
    else if (s[o] == '+' as int || s[o] == '-' as int) && o + 5 == |s|
            && InLimits(s, o + 1, 7) && InLimits(s, o + 3, 8) then
      Some(Offset(s[o] == '+' as int, Two(s, o + 1).value, Two(s, o + 3).value))
    else None
  }

  /** The first n fields are two digits within their limits. */
  predicate PrefixOk(s: seq<byte>, n: nat)
    requires n <= 7
  {
    forall i :: 0 <= i < n ==> InLimits(s, 2 * i, i)
  }

  predicate HeadOk(s: seq<byte>): (ok: bool)
    ensures ok ==> |s| >= 13
  {
    |s| >= 13 && PrefixOk(s, 6)
  }

  function StampOf(s: seq<byte>, second: Option<nat>, fraction: seq<byte>, zone: Zone): Stamp
    requires HeadOk(s)
  {
    assert InLimits(s, 0, 0) && InLimits(s, 2, 1) && InLimits(s, 4, 2) && InLimits(s, 6, 3) && InLimits(s, 8, 4)
        && InLimits(s, 10, 5) by {
      assert InLimits(s, 2 * 0, 0) && InLimits(s, 2 * 1, 1) && InLimits(s, 2 * 2, 2) && InLimits(s, 2 * 3, 3)
          && InLimits(s, 2 * 4, 4) && InLimits(s, 2 * 5, 5);
    }
    Stamp(100 * Two(s, 0).value + Two(s, 2).value, Two(s, 4).value, Two(s, 6).value, Two(s, 8).value, Two(s, 10).value,
          second, fraction, zone)
  }

  /** The fraction at o: its digits and where it ends. */
  function FractionAt(s: seq<byte>, o: nat): (r: Option<(seq<byte>, nat)>)
    requires o <= |s|
    ensures r.Some? ==> o <= r.value.1 <= |s|
  {
    if o < |s| && s[o] == '.' as int then
      var n := DigitRun(s, o + 1);
      if n == 0 then None else Some((s[o + 1..o + 1 + n], o + 1 + n))
    else Some(([], o))
  }

  function Parsed(s: seq<byte>): Option<Stamp> {
    if !HeadOk(s) then None
    else if ZoneMark(s[12]) then
      var z := ZoneAt(s, 12);
      if z.None? then None else Some(StampOf(s, None, [], z.value))
    else if !InLimits(s, 12, 6) then None
    else
      var f := FractionAt(s, 14);
      if f.None? then None
      else
        var z := ZoneAt(s, f.value.1);
        if z.None? then None else Some(StampOf(s, Some(Two(s, 12).value), f.value.0, z.value))
  }

  // ---------- the parser decides the grammar ----------

  lemma {:induction false} TwoOfDigits(groups: seq<nat>, rest: seq<byte>, i: nat)
    requires AllTwo(groups) && i < |groups|
    ensures Two(Digits(groups) + rest, 2 * i) == Some(groups[i])
    decreases |groups|
  {
    var front, v := groups[..|groups| - 1], groups[|groups| - 1];
    if i < |groups| - 1 {
      TwoOfDigits(front, TwoDigits(v) + rest, i);
      assert Digits(groups) + rest == Digits(front) + (TwoDigits(v) + rest);
    } else {
      TwoOfTwoDigits(Digits(front), v, rest);
      assert Digits(groups) + rest == Digits(front) + TwoDigits(v) + rest;
    }
  }

  lemma TwoOfTwoDigits(before: seq<byte>, v: nat, rest: seq<byte>)
    requires v < 100
    ensures Two(before + TwoDigits(v) + rest, |before|) == Some(v)
  {
    var s := before + TwoDigits(v) + rest;
    assert s[|before|] == 48 + v / 10 && s[|before| + 1] == 48 + v % 10;
  }

  lemma TwoDigitsOfTwo(s: seq<byte>, o: nat)
    requires Two(s, o).Some?
    ensures TwoDigits(Two(s, o).value) == s[o..o + 2]
  {
  }

  lemma {:induction false} DigitsOfTwos(s: seq<byte>, groups: seq<nat>)
    requires AllTwo(groups)
    requires 2 * |groups| <= |s|
    requires forall i :: 0 <= i < |groups| ==> Two(s, 2 * i) == Some(groups[i])
    ensures Digits(groups) == s[..2 * |groups|]
    decreases |groups|
  {
    if groups != [] {
      var n := |groups| - 1;
      DigitsOfTwos(s, groups[..n]);
      assert Two(s, 2 * n) == Some(groups[n]);
      TwoDigitsOfTwo(s, 2 * n);
      assert s[..2 * |groups|] == s[..2 * n] + s[2 * n..2 * n + 2];
    }
  }

  lemma ZoneTextOfZone(s: seq<byte>, o: nat)
    requires o <= |s| && ZoneAt(s, o).Some?
    ensures var z := ZoneAt(s, o).value;
            && (z.Offset? ==> z.hours <= 12 && z.minutes <= 59)
            && ZoneText(z) == s[o..]
  {
    if o < |s| && s[o] != 'Z' as int {
      TwoDigitsOfTwo(s, o + 1);
      TwoDigitsOfTwo(s, o + 3);
      assert s[o..] == [s[o]] + s[o + 1..o + 3] + s[o + 3..o + 5];
    }
  }

  lemma FractionTextOfFraction(s: seq<byte>, o: nat)
    requires o <= |s| && FractionAt(s, o).Some?
    ensures var (digits, end) := FractionAt(s, o).value;
            && (forall i :: 0 <= i < |digits| ==> IsDigit(digits[i]))
            && FractionText(digits) == s[o..end]
  {
    hide IsDigit;
    var (digits, end) := FractionAt(s, o).value;
    if digits == [] {
      assert s[o..end] == [];
    } else {
      assert s[o..end] == [s[o]] + s[o + 1..end];
    }
  }

  lemma TextOfMarked(s: seq<byte>)
    requires HeadOk(s) && ZoneMark(s[12]) && ZoneAt(s, 12).Some?
    ensures var g := StampOf(s, None, [], ZoneAt(s, 12).value); g.InRange() && Text(g) == s
  {
    hide InLimits, Digits, ZoneText, TwoDigits, ZoneAt, HeadOk, StampOf;
    var z := ZoneAt(s, 12).value;
    GroupsOfHead(s, None, [], z);
    ZoneTextOfZone(s, 12);
    MarkedZone(s, 12);
    assert s == s[..12] + [] + [] + s[12..];
  }

  lemma TextOfFull(s: seq<byte>)
    requires HeadOk(s) && InLimits(s, 12, 6) && FractionAt(s, 14).Some?
    requires ZoneAt(s, FractionAt(s, 14).value.1).Some?
    ensures var (digits, o) := FractionAt(s, 14).value;
            var g := StampOf(s, Some(Two(s, 12).value), digits, ZoneAt(s, o).value);
            g.InRange() && Text(g) == s
  {
    hide Digits, ZoneText, TwoDigits, ZoneAt, HeadOk, StampOf, FractionAt, FractionText, InLimits, Two;
    SecondInLimits(s);
    FractionTextOfFraction(s, 14);
    var (digits, o) := FractionAt(s, 14).value;
    var z := ZoneAt(s, o).value;
    GroupsOfHead(s, Some(Two(s, 12).value), digits, z);
    TwoDigitsOfTwo(s, 12);
    ZoneTextOfZone(s, o);
    assert s == s[..12] + s[12..14] + s[14..o] + s[o..];
  }

  /** What the parser accepts is the text of an in-range stamp. */
  lemma TextOfParsed(s: seq<byte>)
    requires Parsed(s).Some?
    ensures Parsed(s).value.InRange() && Text(Parsed(s).value) == s
  {
    hide InLimits, Digits, ZoneText, TwoDigits, ZoneAt, FractionAt, HeadOk, Text, StampOf;
    if ZoneMark(s[12]) {
      TextOfMarked(s);
    } else {
      TextOfFull(s);
    }
  }

  lemma MarkedZone(s: seq<byte>, o: nat)
    requires o < |s|
    ensures ZoneAt(s, o) != Some(NoZone)
  {
  }

  lemma SecondInLimits(s: seq<byte>)
    requires InLimits(s, 12, 6)
    ensures Two(s, 12).Some? && Two(s, 12).value <= 59
  {
  }

  lemma GroupsOfHead(s: seq<byte>, second: Option<nat>, fraction: seq<byte>, zone: Zone)
    requires HeadOk(s)
    ensures var g := StampOf(s, second, fraction, zone);
            && g.year <= 9999 && 1 <= g.month <= 12 && 1 <= g.day <= 31 && g.hour <= 23 && g.minute <= 59
            && AllTwo(g.Groups())
            && Digits(g.Groups()) == s[..12]
            && g.second == second && g.fraction == fraction && g.zone == zone
  {
    hide Digits, Two;
    var g := StampOf(s, second, fraction, zone);
    assert InLimits(s, 2 * 0, 0) && InLimits(s, 2 * 1, 1) && InLimits(s, 2 * 2, 2) && InLimits(s, 2 * 3, 3)
        && InLimits(s, 2 * 4, 4) && InLimits(s, 2 * 5, 5);
    assert g.year / 100 == Two(s, 0).value && g.year % 100 == Two(s, 2).value;
    var groups := [Two(s, 0).value, Two(s, 2).value, Two(s, 4).value,
                   Two(s, 6).value, Two(s, 8).value, Two(s, 10).value];
    assert g.Groups() == groups;
    DigitsOfTwos(s, groups);
  }

  lemma HeadOfText(g: Stamp, rest: seq<byte>)
    requires g.InRange() && rest != []
    ensures AllTwo(g.Groups())
    ensures var s := Digits(g.Groups()) + rest;
            && HeadOk(s)
            && forall second, fraction, zone :: StampOf(s, second, fraction, zone) ==
                 Stamp(g.year, g.month, g.day, g.hour, g.minute, second, fraction, zone)
  {
    var groups := g.Groups();
    var s := Digits(groups) + rest;
    forall i | 0 <= i < 6 ensures Two(s, 2 * i) == Some(groups[i]) {
      TwoOfDigits(groups, rest, i);
    }
    assert Two(s, 2 * 0) == Some(g.year / 100) && Two(s, 2 * 1) == Some(g.year % 100);
    assert Two(s, 2 * 2) == Some(g.month) && Two(s, 2 * 3) == Some(g.day);
    assert Two(s, 2 * 4) == Some(g.hour) && Two(s, 2 * 5) == Some(g.minute);
  }

  lemma ZoneOfText(before: seq<byte>, z: Zone)
    requires z.Offset? ==> z.hours <= 12 && z.minutes <= 59
    ensures ZoneAt(before + ZoneText(z), |before|) == Some(z)
  {
    if z.Offset? {
      var sign := [if z.ahead then '+' as int else '-' as int];
      var s := before + ZoneText(z);
      TwoOfTwoDigits(before + sign, z.hours, TwoDigits(z.minutes));
      assert s == before + sign + TwoDigits(z.hours) + TwoDigits(z.minutes);
      TwoOfTwoDigits(before + sign + TwoDigits(z.hours), z.minutes, []);
      assert s == before + sign + TwoDigits(z.hours) + TwoDigits(z.minutes) + [];
    }
  }

  lemma {:induction false} RunOfDigits(before: seq<byte>, digits: seq<byte>, rest: seq<byte>)
    requires forall i :: 0 <= i < |digits| ==> IsDigit(digits[i])
    requires rest == [] || !IsDigit(rest[0])
    ensures DigitRun(before + digits + rest, |before|) == |digits|
    decreases |digits|
  {
    if digits != [] {
      RunOfDigits(before + [digits[0]], digits[1..], rest);
      assert before + [digits[0]] + digits[1..] + rest == before + digits + rest;
    }
  }

  lemma FractionOfText(before: seq<byte>, fraction: seq<byte>, z: Zone)
    requires forall i :: 0 <= i < |fraction| ==> IsDigit(fraction[i])
    requires z.Offset? ==> z.hours <= 12 && z.minutes <= 59
    ensures var s := before + FractionText(fraction) + ZoneText(z);
            FractionAt(s, |before|) == Some((fraction, |before| + |FractionText(fraction)|))
  {
    hide FractionAt, ZoneText, IsDigit;
    ZoneStart(z);
    var zone := ZoneText(z);
    FractionBefore(before, fraction, zone);
    if fraction == [] {
      assert before + FractionText(fraction) + zone == before + zone;
    } else {
      assert before + FractionText(fraction) + zone == before + ['.' as int] + fraction + zone;
    }
  }

  lemma FractionBefore(before: seq<byte>, fraction: seq<byte>, rest: seq<byte>)
    requires forall i :: 0 <= i < |fraction| ==> IsDigit(fraction[i])
    requires rest == [] || (!IsDigit(rest[0]) && rest[0] != '.' as int)
    ensures var s := if fraction == [] then before + rest else before + ['.' as int] + fraction + rest;
            FractionAt(s, |before|) == Some((fraction, |before| + |FractionText(fraction)|))
  {
    hide DigitRun, IsDigit;
    if fraction != [] {
      var point := before + ['.' as int];
      var s := point + fraction + rest;
      RunOfDigits(point, fraction, rest);
      assert s[|before|] == '.' as int;
      assert s[|point|..|point| + |fraction|] == fraction;
    }
  }

  lemma ZoneStart(z: Zone)
    requires z.Offset? ==> z.hours < 100 && z.minutes < 100
    ensures ZoneText(z) != [] ==> !IsDigit(ZoneText(z)[0]) && ZoneText(z)[0] != '.' as int
  {
  }

  /** The parser reads every in-range stamp back from its text. */
  lemma ParsedOfText(g: Stamp)
    requires g.InRange()
    ensures Parsed(Text(g)) == Some(g)
  {
    hide Digits, ZoneAt, FractionAt, StampOf, HeadOk, TwoDigits;
    var head, tail := Digits(g.Groups()), SecondText(g.second) + FractionText(g.fraction) + ZoneText(g.zone);
    var s := Text(g);
    assert s == head + tail;
    HeadOfText(g, tail);
    if g.second.None? {
      ZoneOfText(head, g.zone);
      assert s == head + ZoneText(g.zone);
      assert ZoneMark(s[12]);
    } else {
      var v := g.second.value;
      TwoOfTwoDigits(head, v, FractionText(g.fraction) + ZoneText(g.zone));
      assert s == head + TwoDigits(v) + (FractionText(g.fraction) + ZoneText(g.zone));
      NotAMark(s, 12);
      FractionOfText(head + TwoDigits(v), g.fraction, g.zone);
      assert s == head + TwoDigits(v) + FractionText(g.fraction) + ZoneText(g.zone);
      ZoneOfText(head + TwoDigits(v) + FractionText(g.fraction), g.zone);
    }
  }

  lemma NotAMark(s: seq<byte>, o: nat)
    requires Two(s, o).Some?
    ensures !ZoneMark(s[o])
  {
  }

  /** Accepted texts are exactly the texts of in-range stamps, and each text has one stamp. */
  lemma ParserDecidesGrammar(s: seq<byte>, g: Stamp)
    ensures Parsed(s) == Some(g) <==> g.InRange() && Text(g) == s
  {
    if Parsed(s) == Some(g) {
      TextOfParsed(s);
    } else if g.InRange() && Text(g) == s {
      ParsedOfText(g);
    }
  }

  /** Dropping the fraction, however long, keeps a text acceptable and its time. */
  lemma FractionIsIgnored(s: seq<byte>, g: Stamp)
    requires Parsed(s) == Some(g)
    ensures var h := g.(fraction := []);
            && Writable(h)
            && Text(h) == Digits(g.Groups()) + SecondText(g.second) + ZoneText(g.zone)
            && Parsed(Text(h)) == Some(h)
            && h.ToFields() == g.ToFields() && h.Adjustment() == g.Adjustment()
  {
    hide Digits, Parsed, ZoneText, SecondText;
    TextOfParsed(s);
    var h := g.(fraction := []);
    ParsedOfText(h);
    assert Digits(g.Groups()) + SecondText(g.second) + [] == Digits(g.Groups()) + SecondText(g.second);
  }

  // ---------- asn1_generalizedtime_to_tm ----------

  /** The switch of the parser. */
  method StoreField(tm: Tm, i: nat, n: nat)
    requires i < 7
    modifies tm
    ensures tm.Get() == Stored(old(tm.Get()), i, n)
  {
    if i == 0 {
      tm.year := n * 100 - 1900;
    } else if i == 1 {
      tm.year := tm.year + n;
    } else if i == 2 {
      tm.mon := n - 1;
    } else if i == 3 {
      tm.mday := n;
    } else if i == 4 {
      tm.hour := n;
    } else if i == 5 {
      tm.min := n;
    } else {
      tm.sec := n;
    }
  }

  function Stored(f: Fields, i: nat, n: nat): Fields {
    if i == 0 then f.(year := n * 100 - 1900)
    else if i == 1 then f.(year := f.year + n)
    else if i == 2 then f.(mon := n - 1)
    else if i == 3 then f.(mday := n)
    else if i == 4 then f.(hour := n)
    else if i == 5 then f.(min := n)
    else f.(sec := n)
  }

  class TimeString {
    var isGeneralizedTime: bool
    var length: int
    var data: array?<byte>

    constructor ()
      ensures isGeneralizedTime && length == 0 && data == null
    {
      isGeneralizedTime, length, data := true, 0, null;
    }

    predicate Valid()
      reads this, data
    {
      && 0 <= length
      && (if data == null then length == 0 else length < data.Length && data[length] == 0)
    }

    function Contents(): seq<byte>
      requires Valid()
      reads this, data
    {
      if data == null then [] else data[..length]
    }

    /** A read of the parser: at most the terminating zero, never past it. */
    function At(o: nat): (b: byte)
      requires Valid() && data != null && o <= length
      reads this, data
      ensures b == if o < length then Contents()[o] else 0
    {
      data[o]
    }

    /** Two digits at o: -1 if they are not digits. */
    method ReadTwo(o: nat) returns (n: int)
      requires Valid() && data != null && o <= length
      ensures n == if Two(Contents(), o).Some? then Two(Contents(), o).value else -1
    {
      if At(o) < 48 || At(o) > 57 {
        return -1;
      }
      n := At(o) - 48;
      if o + 1 > length {
        return -1;
      }
      if At(o + 1) < 48 || At(o + 1) > 57 {
        return -1;
      }
      n := n * 10 + At(o + 1) - 48;
    }

    /** The field loop; i is 7 at the end with seconds and 6 without. */
    method ReadFields(tm: Tm?) returns (ok: bool, o: nat)
      requires Valid() && data != null && length >= 13
      modifies tm
      ensures Valid() && data == old(data) && length == old(length) && Contents() == old(Contents())
      ensures var s := Contents();
              && (ok <==> HeadOk(s) && (ZoneMark(s[12]) || InLimits(s, 12, 6)))
              && (ok ==> o == if ZoneMark(s[12]) then 12 else 14)
              && (ok && tm != null ==>
                    tm.Get() == StampOf(s, if ZoneMark(s[12]) then None else Two(s, 12), [], NoZone).ToFields())
    {
      ghost var s := Contents();
      hide InLimits, StampOf, StoredUpTo, Stored, HeadOk;
      ghost var start := if tm == null then Fields(0, 0, 0, 0, 0, 0) else tm.Get();
      o := 0;
      var i := 0;
      assert StoredUpTo(s, start, 0) == start by { StoredNone(s, start); }
      while i < 7
        invariant 0 <= i <= 7 && o == 2 * i
        invariant Valid() && data == old(data) && length == old(length) && Contents() == s
        invariant PrefixOk(s, i)
        invariant i == 7 ==> !ZoneMark(s[12])
        invariant tm != null ==> tm.Get() == StoredUpTo(s, start, i)
        invariant o <= length
      {
        if i == 6 && (At(o) == 'Z' as int || At(o) == '+' as int || At(o) == '-' as int) {
          if tm != null {
            tm.sec := 0;
          }
          StoredAll(s, start, None);
          return true, o;
        }
        var n := ReadTwo(o);
        LimitsAt(s, o, i);
        if n < 0 || n < FIELD_MIN[i] || n > FIELD_MAX[i] {
          PrefixFails(s, i);
          return false, o;
        }
        assert InLimits(s, 2 * i, i);
        StoredNext(s, start, i);
        if tm != null {
          StoreField(tm, i, n);
        }
        o := o + 2;
        i := i + 1;
      }
      PrefixSeven(s);
      StoredAll(s, start, Two(s, 12));
      ok := true;
    }

    /** The optional fraction: -1 when the point has no digit after it. */
    method SkipFraction(o0: nat) returns (o: int)
      requires Valid() && data != null && o0 <= length
      ensures o == if FractionAt(Contents(), o0).Some? then FractionAt(Contents(), o0).value.1 else -1
    {
      o := o0;
      if At(o) == '.' as int {
        o := o + 1;
        var i := o;
        while At(o) >= 48 && At(o) <= 57 && o <= length
          invariant i <= o <= length
          invariant DigitRun(Contents(), i) == o - i + DigitRun(Contents(), o)
          decreases length - o
        {
          o := o + 1;
        }
        if i == o {
          return -1;
        }
      }
    }

    /** The zone from o on: whether it is well formed up to its own end, that end, and the offset if it counts. */
    method ReadZone(o0: nat, counts: bool) returns (ok: bool, o: nat, adjustment: int)
      requires Valid() && data != null && o0 <= length
      ensures (ok && o == length) <==> ZoneAt(Contents(), o0).Some?
      ensures ok && o == length ==> adjustment == if counts then ZoneSeconds(ZoneAt(Contents(), o0).value) else 0
    {
      ghost var s := Contents();
      o := o0;
      adjustment := 0;
      if At(o) == 'Z' as int {
        o := o + 1;
      } else if At(o) == '+' as int || At(o) == '-' as int {
        var offsign := if At(o) == '-' as int then 1 else -1;
        o := o + 1;
        if o + 4 > length {
          return false, o, 0;
        }
        var hours := ReadTwo(o);
        if hours < 0 || hours < FIELD_MIN[7] || hours > FIELD_MAX[7] {
          assert !InLimits(s, o0 + 1, 7);
          return false, o, 0;
        }
        o := o + 2;
        var minutes := ReadTwo(o);
        if minutes < 0 || minutes < FIELD_MIN[8] || minutes > FIELD_MAX[8] {
          assert !InLimits(s, o0 + 3, 8);
          return false, o, 0;
        }
        o := o + 2;
        if counts {
          adjustment := offsign * (hours * 3600 + minutes * 60);
        }
      } else if At(o) != 0 {
        return false, o, 0;
      }
      ok := true;
    }

    /** asn1_generalizedtime_to_tm.  Without a tm it only checks; with one the offset is taken out of the time. */
    method Parse(tm: Tm?) returns (ok: bool)
      requires Valid()
      modifies tm
      ensures Valid() && Contents() == old(Contents())
      ensures ok <==>
                var g := Parsed(Contents());
                isGeneralizedTime && g.Some? && (tm != null ==> Result(g.value).Some?)
      ensures ok && tm != null ==> Some(tm.Get()) == Result(Parsed(Contents()).value)
    {
      hide HeadOk, InLimits, ZoneAt, StampOf, Two, Adjusted;
      if !isGeneralizedTime {
        return false;
      }
      if length < 13 {
        return false;
      }
      ghost var s := Contents();
      var o: int;
      ok, o := ReadFields(tm);
      if !ok {
        return false;
      }
      if !ZoneMark(s[12]) {
        SecondInLimits(s);
      }
      HeadInClock(s, if ZoneMark(s[12]) then None else Two(s, 12));
      o := SkipFraction(o);
      assert ZoneMark(s[12]) ==> o == 12;
      if o < 0 {
        return false;
      }
      ghost var z := ZoneAt(s, o);
      var adjustment;
      ok, o, adjustment := ReadZone(o, tm != null);
      if !ok {
        return false;
      }
      if adjustment != 0 && tm != null {
        var moved := GmtimeAdj(tm, 0, adjustment);
        if !moved {
          if o == length {
            ParsedParts(s);
          }
          return false;
        }
      }
      ok := o == length;
      if ok {
        ParsedParts(s);
      }
    }

    /** The formatting half of ASN1_GENERALIZEDTIME_adj, from the broken-down time on. */
    method Format(ts: Fields) returns (ok: bool)
      requires InClock(ts) && Valid()
      modifies this, data
      ensures ok <==> 0 <= ts.year + 1900 <= 9999
      ensures !ok ==> unchanged(this) && (data != null ==> unchanged(data))
      ensures ok ==> isGeneralizedTime && Valid() && Contents() == Text(Printed(ts))
      ensures ok ==> if old(data) != null && old(length) >= 20 then data == old(data) else fresh(data)
    {
      if ts.year < 0 - 1900 || ts.year > 9999 - 1900 {
        return false;
      }
      var p := data;
      if p == null || length < 20 {
        p := new byte[20](_ => 0);
        data := p;
      }
      var text := Text(Printed(ts));
      assert |text| == 15;
      forall i | 0 <= i < 15 {
        p[i] := text[i];
      }
      p[15] := 0;
      length := 15;
      isGeneralizedTime := true;
      ok := true;
      assert Contents() == text;
    }

    /** ASN1_GENERALIZEDTIME_adj on the broken-down time: moved, if there is an offset, and printed. */
    method Adj(ts: Tm, offDay: int, offSec: int) returns (ok: bool)
      requires InClock(ts.Get()) && Valid()
      modifies this, data, ts
      ensures var moved := if offDay == 0 && offSec == 0 then Some(old(ts.Get()))
                           else Adjusted(old(ts.Get()), offDay, offSec);
              && (ok <==> moved.Some? && 0 <= moved.value.year + 1900 <= 9999)
              && (ok ==> InClock(moved.value) && isGeneralizedTime && Valid())
              && (ok ==> Contents() == Text(Printed(moved.value)))
      ensures !ok ==> unchanged(this) && (data != null ==> unchanged(data))
    {
      hide Text, Adjusted;
      MovedInClock(ts.Get(), offDay, offSec);
      if offDay != 0 || offSec != 0 {
        ok := GmtimeAdj(ts, offDay, offSec);
        if !ok {
          return false;
        }
      }
      ok := Format(ts.Get());
    }
  }

  lemma MovedInClock(f: Fields, days: int, secs: int)
    ensures Adjusted(f, days, secs).Some? ==> InClock(Adjusted(f, days, secs).value)
  {
    hide Adjusted;
    if Adjusted(f, days, secs).Some? {
      AdjustedMeaning(f, days, secs, Adjusted(f, days, secs).value);
    }
  }

  /** How the fields, the seconds, the zone and the fraction make up an accepted text. */
  lemma ParsedParts(s: seq<byte>)
    requires HeadOk(s) && (ZoneMark(s[12]) || InLimits(s, 12, 6))
    ensures Parsed(s).Some? ==>
              var second := if ZoneMark(s[12]) then None else Two(s, 12);
              var o := if ZoneMark(s[12]) then 12 else FractionAt(s, 14).value.1;
              && Parsed(s).value.ToFields() == StampOf(s, second, [], NoZone).ToFields()
              && ZoneAt(s, o).Some?
              && Parsed(s).value.Adjustment() == ZoneSeconds(ZoneAt(s, o).value)
  {
  }

  lemma HeadInClock(s: seq<byte>, second: Option<nat>)
    requires HeadOk(s) && (second.Some? ==> second.value <= 59)
    ensures InClock(StampOf(s, second, [], NoZone).ToFields())
  {
    hide HeadOk, StampOf;
    GroupsOfHead(s, second, [], NoZone);
  }

  /** What a successful parse leaves in the broken-down time. */
  function Result(g: Stamp): Option<Fields> {
    if g.Adjustment() == 0 then Some(g.ToFields()) else Adjusted(g.ToFields(), 0, g.Adjustment())
  }

  /**
    An accepted text becomes the same instant in UTC: an offset ahead of it is taken off the local time,
    one behind is added.  It is refused exactly when its offset is not zero and leads out of the years
    1900 to 9999; with no offset, or one of zero, all years from 0 on are taken as they stand.
   */
  lemma ConvertedToUtc(g: Stamp)
    ensures var local := Fields(g.year - 1900, g.month - 1, g.day, g.hour, g.minute,
                                if g.second.Some? then g.second.value else 0);
            match g.zone
            case Offset(ahead, h, m) =>
              var t := if ahead then Instant(local) - 3600 * h - 60 * m else Instant(local) + 3600 * h + 60 * m;
              if h == 0 && m == 0 then Result(g) == Some(local)
              else
                && (Result(g).None? <==> !(ACCEPTED_FROM <= t < ACCEPTED_UNTIL))
                && (Result(g).Some? ==> InCalendar(Result(g).value) && Instant(Result(g).value) == t)
            case _ => Result(g) == Some(local)
  {
    hide Adjusted, Instant, InCalendar, YearAccepted;
    var f, secs := g.ToFields(), g.Adjustment();
    AdjustedMeaning(f, 0, secs, f);
    if Adjusted(f, 0, secs).Some? {
      AdjustedMeaning(f, 0, secs, Adjusted(f, 0, secs).value);
    }
  }

  /** The stamp that a broken-down time prints as. */
  function Printed(f: Fields): (g: Stamp)
    requires InClock(f) && PrintableYear(f)
    ensures Writable(g) && g.ToFields() == f && g.Adjustment() == 0
  {
    Stamp(f.year + 1900, f.mon + 1, f.mday, f.hour, f.min, Some(f.sec), [], Utc)
  }

  predicate PrintableYear(f: Fields) {
    -1900 <= f.year <= 9999 - 1900
  }

  /** What is printed for a time: fifteen octets, two digits of each field, the year in four, and Z. */
  lemma PrintedOctets(f: Fields)
    requires InClock(f) && PrintableYear(f)
    ensures var s := Text(Printed(f));
            && |s| == 15 && s[14] == 'Z' as int
            && ShowsAt(s, 0, (f.year + 1900) / 100) && ShowsAt(s, 2, (f.year + 1900) % 100)
            && ShowsAt(s, 4, f.mon + 1) && ShowsAt(s, 6, f.mday) && ShowsAt(s, 8, f.hour)
            && ShowsAt(s, 10, f.min) && ShowsAt(s, 12, f.sec)
  {
    hide Text;
    TextOctets(Printed(f));
    var s := Text(Printed(f));
    assert s[12..] == [48 + f.sec / 10, 48 + f.sec % 10, 'Z' as int];
    assert s[12] == s[12..][0] && s[13] == s[12..][1] && s[14] == s[12..][2];
  }

  /** A time printed with its second at 60 is not a text that the parser takes. */
  lemma SixtyRefused(g: Stamp)
    requires g.(second := Some(0)).InRange() && g.second == Some(60)
    ensures Writable(g) && Parsed(Text(g)).None?
  {
    hide Digits, TwoDigits, HeadOk, ZoneAt, FractionAt, StampOf, ZoneText, FractionText;
    var head, rest := Digits(g.Groups()), FractionText(g.fraction) + ZoneText(g.zone);
    HeadOfText(g.(second := Some(0)), TwoDigits(60) + rest);
    TwoOfTwoDigits(head, 60, rest);
    assert Text(g) == head + (TwoDigits(60) + rest) && Text(g) == head + TwoDigits(60) + rest;
    NotAMark(Text(g), 12);
  }

  /** Printed times are read back with the same fields, a second of 60 alone being refused. */
  lemma PrintedIsParsed(f: Fields)
    requires InClock(f) && PrintableYear(f)
    ensures Parsed(Text(Printed(f))) == if f.sec <= 59 then Some(Printed(f)) else None
  {
    hide Text, Parsed;
    if f.sec <= 59 {
      ParsedOfText(Printed(f));
    } else {
      SixtyRefused(Printed(f));
    }
  }

  /** A time moved, printed and parsed again is at the instant it was moved to. */
  lemma AdjReadsBack(f: Fields, days: int, secs: int)
    requires Adjusted(f, days, secs).Some?
    ensures var g := Adjusted(f, days, secs).value;
            && InClock(g) && PrintableYear(g)
            && Parsed(Text(Printed(g))) == Some(Printed(g)) && Result(Printed(g)) == Some(g)
            && Instant(g) == Instant(f) + SECS_PER_DAY * days + secs
  {
    hide Text, Parsed, Adjusted, Instant;
    var g := Adjusted(f, days, secs).value;
    AdjustedMeaning(f, days, secs, g);
    PrintedIsParsed(g);
  }

  /** The fields after the first n groups are stored. */
  function StoredUpTo(s: seq<byte>, start: Fields, n: nat): Fields
    requires n <= 7 && PrefixOk(s, n)
  {
    if n == 0 then start else
      assert InLimits(s, 2 * (n - 1), n - 1);
      Stored(StoredUpTo(s, start, n - 1), n - 1, Two(s, 2 * (n - 1)).value)
  }

  lemma StoredNone(s: seq<byte>, start: Fields)
    ensures StoredUpTo(s, start, 0) == start
  {
  }

  lemma StoredNext(s: seq<byte>, start: Fields, i: nat)
    requires i < 7 && PrefixOk(s, i) && InLimits(s, 2 * i, i)
    ensures PrefixOk(s, i + 1)
    ensures StoredUpTo(s, start, i + 1) == Stored(StoredUpTo(s, start, i), i, Two(s, 2 * i).value)
  {
  }

  lemma LimitsAt(s: seq<byte>, o: nat, i: nat)
    requires i < 9
    ensures InLimits(s, o, i) <==> Two(s, o).Some? && FIELD_MIN[i] <= Two(s, o).value <= FIELD_MAX[i]
  {
  }

  lemma PrefixFails(s: seq<byte>, i: nat)
    requires i < 7 && |s| >= 13 && !InLimits(s, 2 * i, i)
    ensures if i < 6 then !HeadOk(s) else !InLimits(s, 12, 6)
  {
  }

  lemma PrefixSeven(s: seq<byte>)
    requires |s| >= 13 && PrefixOk(s, 7)
    ensures HeadOk(s) && InLimits(s, 12, 6) && Two(s, 12).Some?
  {
    assert InLimits(s, 2 * 6, 6);
  }

  lemma StoredAll(s: seq<byte>, start: Fields, second: Option<nat>)
    requires HeadOk(s) && (second.Some? ==> PrefixOk(s, 7) && second == Two(s, 12))
    ensures var f := StampOf(s, second, [], NoZone).ToFields();
            if second.Some? then StoredUpTo(s, start, 7) == f else StoredUpTo(s, start, 6).(sec := 0) == f
  {
    assert InLimits(s, 2 * 0, 0) && InLimits(s, 2 * 1, 1) && InLimits(s, 2 * 2, 2) && InLimits(s, 2 * 3, 3)
        && InLimits(s, 2 * 4, 4) && InLimits(s, 2 * 5, 5);
    var f0 := StoredUpTo(s, start, 0);
    var f1 := StoredUpTo(s, start, 1);
    assert f1 == Stored(f0, 0, Two(s, 0).value);
    var f2 := StoredUpTo(s, start, 2);
    assert f2 == Stored(f1, 1, Two(s, 2).value);
    var f3 := StoredUpTo(s, start, 3);
    assert f3 == Stored(f2, 2, Two(s, 4).value);
    var f4 := StoredUpTo(s, start, 4);
    assert f4 == Stored(f3, 3, Two(s, 6).value);
    var f5 := StoredUpTo(s, start, 5);
    assert f5 == Stored(f4, 4, Two(s, 8).value);
    var f6 := StoredUpTo(s, start, 6);
    assert f6 == Stored(f5, 5, Two(s, 10).value);
  }
}
