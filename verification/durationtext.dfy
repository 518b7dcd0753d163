/**
 Reading the output of `formatDuration` back into its components. The parser
 is the inverse of the formatter: it shows that the phrase loses nothing of
 the days, hours and minutes the formatter chose to show.
 */
module DurationText {
  import opened Wrappers
  import Decimal
  import opened Duration

  predicate StartsWith(s: string, prefix: string) {
    |prefix| <= |s| && s[..|prefix|] == prefix
  }

  /** Reads the run of digits at the front of `s` as a number. */
  function ParseNumber(s: string): (r: Option<(nat, string)>)
    ensures r.Some? ==> |r.value.1| < |s|
  {
    var k := Decimal.DigitPrefixLength(s);
    if k == 0 then None else Some((Decimal.DigitsValue(s[..k]), s[k..]))
  }

  /** Recognises a unit name at the front of `s`. */
  function ParseUnit(s: string): (r: Option<(Unit, string)>)
    ensures r.Some? ==> |r.value.1| < |s|
  {
    if StartsWith(s, "day") then Some((Day, s[3..]))
    else if StartsWith(s, "hour") then Some((Hour, s[4..]))
    else if StartsWith(s, "minute") then Some((Minute, s[6..]))
    else None
  }

  /**
   Reads one "<n> <unit>[s]" phrase at the front of `s` and returns it with
   the unread rest; the "s" must be present exactly when n exceeds 1.
   */
  function ParseLabel(s: string): (r: Option<(Component, string)>)
    ensures r.Some? ==> |r.value.1| < |s|
  {
    match ParseNumber(s)
    case None => None
    case Some((n, afterNumber)) =>
      if n == 0 || !StartsWith(afterNumber, " ") then None
      else match ParseUnit(afterNumber[1..])
        case None => None
        case Some((u, afterUnit)) =>
          var plural := StartsWith(afterUnit, "s");
          if plural != (n > 1) then None
          else Some((Component(n, u), if plural then afterUnit[1..] else afterUnit))
  }

  /** Reads a whole `formatDuration` phrase back into its components. */
  function ParseDuration(s: string): Option<seq<Component>> {
    if s == LessThanAMinute then Some([])
    else match ParseLabel(s)
      case None => None
      case Some((first, rest)) =>
        if rest == "" then Some([first])
        else if !StartsWith(rest, Separator) then None
        else match ParseLabel(rest[|Separator|..])
          case None => None
          case Some((second, rest')) =>
            if rest' == "" then Some([first, second]) else None
  }

  lemma {:induction false} ParseNumberOfNumeral(n: nat, tail: string)
    requires tail == "" || !Decimal.IsDigit(tail[0])
    ensures ParseNumber(Decimal.NatToString(n) + tail) == Some((n, tail))
  {
    var digits := Decimal.NatToString(n);
    var s := digits + tail;
    Decimal.DigitPrefixOfNumeral(digits, tail);
    assert s[..|digits|] == digits;
    assert s[|digits|..] == tail;
    Decimal.DigitsValueOfNatToString(n);
  }

  lemma {:induction false} ParseUnitOfName(u: Unit, tail: string)
    ensures ParseUnit(UnitName(u) + tail) == Some((u, tail))
  {
    var s := UnitName(u) + tail;
    assert s[..|UnitName(u)|] == UnitName(u);
    assert s[|UnitName(u)|..] == tail;
    match u
    case Day =>
    case Hour => assert s[0] == 'h';
    case Minute => assert s[0] == 'm';
  }

  /** `ParseLabel` succeeds when its three pieces read the expected parts. */
  lemma {:induction false} ParseLabelFromPieces(s: string, c: Component, tail: string, rest: string)
    requires ParseNumber(s) == Some((c.value as nat, " " + tail))
    requires ParseUnit(tail) == Some((c.unit, (if c.value > 1 then "s" else "") + rest))
    requires rest == "" || rest[0] == ' '
    ensures ParseLabel(s) == Some((c, rest))
  {
    assert (" " + tail)[1..] == tail;
    var afterUnit := (if c.value > 1 then "s" else "") + rest;
    assert |afterUnit| > 0 ==> afterUnit[..1] == [afterUnit[0]];
    assert c.value == 1 && |rest| > 0 ==> afterUnit[0] == ' ';
    assert StartsWith(afterUnit, "s") <==> c.value > 1;
    assert (if c.value > 1 then afterUnit[1..] else afterUnit) == rest;
  }

  /** A label followed by more text, split after its numeral. */
  lemma LabelThenRest(c: Component, rest: string)
    ensures Label(c) + rest
      == Decimal.NatToString(c.value) + (" " + (UnitName(c.unit) + ((if c.value > 1 then "s" else "") + rest)))
  {
    var d, n, p := Decimal.NatToString(c.value), UnitName(c.unit), if c.value > 1 then "s" else "";
    assert Label(c) == d + " " + n + p;
    assert (d + " " + n + p) + rest == d + (" " + (n + (p + rest)));
  }

  /** A label followed by nothing or by a space is read back exactly. */
  lemma {:induction false} ParseLabelOfLabel(c: Component, rest: string)
    requires rest == "" || rest[0] == ' '
    ensures ParseLabel(Label(c) + rest) == Some((c, rest))
  {
    var suffix := if c.value > 1 then "s" else "";
    var tail := UnitName(c.unit) + (suffix + rest);
    LabelThenRest(c, rest);
    ParseNumberOfNumeral(c.value, " " + tail);
    ParseUnitOfName(c.unit, suffix + rest);
    ParseLabelFromPieces(Label(c) + rest, c, tail, rest);
  }

  /** `ParseDuration` on a phrase of one label. */
  lemma {:induction false} ParseDurationOfSingle(s: string, only: Component)
    requires s != LessThanAMinute
    requires ParseLabel(s) == Some((only, ""))
    ensures ParseDuration(s) == Some([only])
  {
  }

  /** `ParseDuration` on a phrase of two labels joined by the separator. */
  lemma {:induction false} ParseDurationOfPair(s: string, first: Component, second: Component, rest: string)
    requires s != LessThanAMinute
    requires ParseLabel(s) == Some((first, rest))
    requires StartsWith(rest, Separator)
    requires ParseLabel(rest[|Separator|..]) == Some((second, ""))
    ensures ParseDuration(s) == Some([first, second])
  {
  }

  lemma JoinOfTwo(a: string, b: string, sep: string)
    ensures Join([a, b], sep) == a + (sep + b)
  {
    assert [a, b][1..] == [b];
    assert Join([b], sep) == b;
    assert Join([a, b], sep) == a + sep + Join([b], sep);
  }

  lemma {:induction false} FormatComponentsOfOne(ps: seq<Component>)
    requires |ps| == 1
    ensures FormatComponents(ps) == Label(ps[0])
  {
    assert Labels(ps) == [Label(ps[0])];
  }

  lemma {:induction false} FormatComponentsOfTwo(ps: seq<Component>)
    requires |ps| == 2
    ensures FormatComponents(ps) == Label(ps[0]) + (Separator + Label(ps[1]))
  {
    var first, second := Label(ps[0]), Label(ps[1]);
    assert Labels(ps) == [first, second];
    JoinOfTwo(first, second, Separator);
  }

  /** A phrase of one label parses back to that label's component. */
  lemma {:induction false} ParseOneLabel(s: string, c: Component)
    requires s == Label(c)
    ensures ParseDuration(s) == Some([c])
  {
    assert s == Label(c) + "";
    ParseLabelOfLabel(c, "");
    ParseDurationOfSingle(s, c);
  }

  /** A phrase of two joined labels parses back to their components. */
  lemma {:induction false} ParseTwoLabels(s: string, first: Component, second: Component)
    requires s == Label(first) + (Separator + Label(second))
    ensures ParseDuration(s) == Some([first, second])
  {
    var rest := Separator + Label(second);
    ParseLabelOfLabel(first, rest);
    assert ParseLabel(rest[|Separator|..]) == Some((second, "")) by {
      assert rest[|Separator|..] == Label(second) + "";
      ParseLabelOfLabel(second, "");
    }
    ParseDurationOfPair(s, first, second, rest);
  }

  /**
   Parsing the phrase built from at most two components gives them back.
   */
  lemma {:induction false} ParseFormatComponents(ps: seq<Component>)
    requires |ps| <= 2
    ensures ParseDuration(FormatComponents(ps)) == Some(ps)
  {
    if |ps| == 1 {
      FormatComponentsOfOne(ps);
      ParseOneLabel(FormatComponents(ps), ps[0]);
      assert [ps[0]] == ps;
    } else if |ps| == 2 {
      FormatComponentsOfTwo(ps);
      ParseTwoLabels(FormatComponents(ps), ps[0], ps[1]);
      assert [ps[0], ps[1]] == ps;
    }
  }

  /**
   The round trip: parsing the formatted duration gives back exactly the
   components the formatter selected.
   */
  lemma ParseFormatDuration(millis: real)
    ensures ParseDuration(FormatDuration(millis)) == Some(ComponentsOf(millis))
  {
    ParseFormatComponents(ComponentsOf(millis));
  }

  /** Durations whose shown components differ are formatted differently. */
  lemma FormatDurationSeparatesComponents(a: real, b: real)
    requires ComponentsOf(a) != ComponentsOf(b)
    ensures FormatDuration(a) != FormatDuration(b)
  {
    ParseFormatDuration(a);
    ParseFormatDuration(b);
  }

  lemma NinetySecondsExample()
    ensures FormatDuration(90000.0) == "1 minute"
  {
    var ps := [Component(1, Minute)];
    NinetySecondsComponents(ps);
    NinetySecondsText(ps);
  }

  lemma NinetySecondsText(ps: seq<Component>)
    requires ps == [Component(1, Minute)]
    ensures FormatComponents(ps) == "1 minute"
  {
    LabelExample(ps[0], "1", "1 minute");
    FormatComponentsOfOne(ps);
  }

  /**
   Only unfolds `Label` for the worked examples below: it lets them name the
   numeral of a count and compare the whole label with a string literal.
   */
  lemma LabelExample(c: Component, digits: string, text: string)
    requires Decimal.NatToString(c.value) == digits
    requires text == digits + " " + UnitName(c.unit) + (if c.value > 1 then "s" else "")
    ensures Label(c) == text
  {
  }

  lemma NinetySecondsComponents(ps: seq<Component>)
    requires ps == [Component(1, Minute)]
    ensures ComponentsOf(90000.0) == ps
  {
    assert SecondsOf(90000.0) == 90;
    assert Decompose(90) == Breakdown(0, 0, 1);
    assert Candidates(Breakdown(0, 0, 1)) == ps;
    PartsAreCandidates(Breakdown(0, 0, 1));
  }

  lemma HoursAndMinutesExample()
    ensures FormatDuration((3 * 3600000 + 25 * 60000) as real) == "3 hours and 25 minutes"
  {
    var ps := [Component(3, Hour), Component(25, Minute)];
    HoursAndMinutesComponents(ps);
    HoursAndMinutesText(ps);
  }

  lemma HoursAndMinutesComponents(ps: seq<Component>)
    requires ps == [Component(3, Hour), Component(25, Minute)]
    ensures ComponentsOf((3 * 3600000 + 25 * 60000) as real) == ps
  {
    assert SecondsOf((3 * 3600000 + 25 * 60000) as real) == 12300;
    assert Decompose(12300) == Breakdown(0, 3, 25) by {
      assert JsRem(12300, SecondsPerDay) == 12300;
      assert JsRem(12300, SecondsPerHour) == 1500;
    }
    assert Candidates(Breakdown(0, 3, 25)) == ps;
    PartsAreCandidates(Breakdown(0, 3, 25));
  }

  lemma HoursAndMinutesText(ps: seq<Component>)
    requires ps == [Component(3, Hour), Component(25, Minute)]
    ensures FormatComponents(ps) == "3 hours and 25 minutes"
  {
    LabelExample(ps[0], "3", "3 hours");
    LabelExample(ps[1], "25", "25 minutes");
    FormatComponentsOfTwo(ps);
  }

  /** Minutes are dropped once days and hours are both shown. */
  lemma DayAndHoursExample()
    ensures FormatDuration((25 * 3600000 + 61 * 60000) as real) == "1 day and 2 hours"
  {
    var ps := [Component(1, Day), Component(2, Hour)];
    DayAndHoursComponents(ps);
    DayAndHoursText(ps);
  }

  lemma DayAndHoursComponents(ps: seq<Component>)
    requires ps == [Component(1, Day), Component(2, Hour)]
    ensures ComponentsOf((25 * 3600000 + 61 * 60000) as real) == ps
  {
    assert SecondsOf((25 * 3600000 + 61 * 60000) as real) == 93660;
    assert Decompose(93660) == Breakdown(1, 2, 1) by {
      assert JsRem(93660, SecondsPerDay) == 7260;
      assert JsRem(93660, SecondsPerHour) == 60;
    }
    assert Candidates(Breakdown(1, 2, 1)) == ps;
    PartsAreCandidates(Breakdown(1, 2, 1));
  }

  lemma DayAndHoursText(ps: seq<Component>)
    requires ps == [Component(1, Day), Component(2, Hour)]
    ensures FormatComponents(ps) == "1 day and 2 hours"
  {
    LabelExample(ps[0], "1", "1 day");
    LabelExample(ps[1], "2", "2 hours");
    FormatComponentsOfTwo(ps);
  }
}
