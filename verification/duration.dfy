/**
 `formatDuration`: a duration in milliseconds becomes a short English phrase
 naming at most two of its whole days, hours and minutes.
 */
module Duration {
  import Decimal

  const MillisPerSecond: int := 1000
  const SecondsPerDay: int := 86400
  const SecondsPerHour: int := 3600
  const SecondsPerMinute: int := 60
  const MillisPerMinute: int := 60000
  const LessThanAMinute: string := "less than a minute"
  const Separator: string := " and "

  /** Division rounded toward minus infinity, for a positive divisor. */
  function FloorDiv(a: int, d: int): (q: int)
    requires d > 0
    ensures q * d <= a < q * d + d
  {
    a / d
  }

  /** Division rounded toward zero, for a positive divisor. */
  function TruncDiv(a: int, d: int): int
    requires d > 0
  {
    if a >= 0 then a / d else -((-a) / d)
  }

  /**
   JavaScript's `a % d`: the remainder left by the quotient rounded toward
   zero, so that its sign follows the dividend (Dafny's `%` is never
   negative).
   */
  function JsRem(a: int, d: int): (r: int)
    requires d > 0
    ensures a == TruncDiv(a, d) * d + r
    ensures -d < r < d
    ensures a >= 0 ==> r >= 0
    ensures a < 0 ==> r <= 0
  {
    if a >= 0 then a % d else -((-a) % d)
  }

  /** Division with a remainder in [0, d) has only one answer. */
  lemma DivModUnique(a: int, d: int, q: int, r: int)
    requires d > 0 && 0 <= r < d
    requires a == q * d + r
    ensures a / d == q && a % d == r
  {
    var q', r' := a / d, a % d;
    assert a == q' * d + r';
    assert (q - q') * d == r' - r;
    ProductSign(q - q', d);
  }

  /** A non-zero multiple of `d` is at least `d` away from zero. */
  lemma ProductSign(x: int, d: int)
    requires d > 0
    ensures x >= 1 ==> x * d >= d
    ensures x <= -1 ==> x * d <= -d
  {
  }

  /** The whole seconds in a number of milliseconds, rounded toward minus infinity. */
  function SecondsOf(millis: real): (s: int)
    ensures s as real * 1000.0 <= millis < (s + 1) as real * 1000.0
  {
    (millis / MillisPerSecond as real).Floor
  }

  /** The three counters the formatter reads off a number of seconds. */
  datatype Breakdown = Breakdown(days: int, hours: int, minutes: int)

  /**
   Days by floor division; hours and minutes by floor division of a
   truncated remainder. For a non-negative input the counters are in their
   usual ranges and add back up to the input less its leftover seconds; for a
   negative input none of them is positive.
   */
  function Decompose(seconds: int): (b: Breakdown)
    ensures seconds >= 0 ==> 0 <= b.days && 0 <= b.hours <= 23 && 0 <= b.minutes <= 59
    ensures seconds >= 0 ==>
      0 <= seconds - (b.days * SecondsPerDay + b.hours * SecondsPerHour + b.minutes * SecondsPerMinute) < SecondsPerMinute
    ensures seconds < 0 ==> b.days < 0 && b.hours <= 0 && b.minutes <= 0
  {
    var b := Breakdown(
      FloorDiv(seconds, SecondsPerDay),
      FloorDiv(JsRem(seconds, SecondsPerDay), SecondsPerHour),
      FloorDiv(JsRem(seconds, SecondsPerHour), SecondsPerMinute));
    if seconds >= 0 then
      ReassembleNonNegative(seconds);
      b
    else
      b
  }

  /** The arithmetic behind the reassembly clause of `Decompose`. */
  lemma ReassembleNonNegative(s: int)
    requires s >= 0
    ensures s / 86400 * 86400 + s % 86400 / 3600 * 3600 + s % 3600 / 60 * 60 + s % 60 == s
  {
    var d, r := s / 86400, s % 86400;
    var h, m := r / 3600, r % 3600;
    assert r == h * 3600 + m;
    assert s % 3600 == m by {
      assert s == (d * 24 + h) * 3600 + m;
      DivModUnique(s, 3600, d * 24 + h, m);
    }
    var mm, sec := m / 60, m % 60;
    assert m == mm * 60 + sec;
    assert s % 60 == sec by {
      assert s == ((d * 24 + h) * 60 + mm) * 60 + sec;
      DivModUnique(s, 60, (d * 24 + h) * 60 + mm, sec);
    }
  }

  /** A positive count of one unit. */
  type Count = n: int | n >= 1 witness 1

  datatype Unit = Day | Hour | Minute

  /** One phrase of the output, such as "3 hours". */
  datatype Component = Component(value: Count, unit: Unit)

  /** Position of a unit in the output: days before hours before minutes. */
  function Rank(u: Unit): nat {
    match u
    case Day => 0
    case Hour => 1
    case Minute => 2
  }

  /** The counter of `b` that a unit reads. */
  function ValueOf(b: Breakdown, u: Unit): int {
    match u
    case Day => b.days
    case Hour => b.hours
    case Minute => b.minutes
  }

  predicate HasUnit(ps: seq<Component>, u: Unit) {
    exists i :: 0 <= i < |ps| && ps[i].unit == u
  }

  lemma HasUnitConcat(a: seq<Component>, b: seq<Component>, u: Unit)
    ensures HasUnit(a + b, u) <==> HasUnit(a, u) || HasUnit(b, u)
  {
    if HasUnit(a + b, u) {
      var i :| 0 <= i < |a + b| && (a + b)[i].unit == u;
      if i >= |a| {
        assert b[i - |a|].unit == u;
      }
    }
    if HasUnit(a, u) {
      var i :| 0 <= i < |a| && a[i].unit == u;
      assert (a + b)[i].unit == u;
    }
    if HasUnit(b, u) {
      var i :| 0 <= i < |b| && b[i].unit == u;
      assert (a + b)[|a| + i].unit == u;
    }
  }

  lemma NonEmptyHasSomeUnit(ps: seq<Component>)
    requires |ps| > 0
    ensures HasUnit(ps, Day) || HasUnit(ps, Hour) || HasUnit(ps, Minute)
  {
    assert HasUnit(ps, ps[0].unit);
  }

  /** The phrase a counter adds to the parts: one when it is positive, none otherwise. */
  function Present(n: int, u: Unit): (ps: seq<Component>)
    ensures |ps| <= 1
    ensures forall i :: 0 <= i < |ps| ==> ps[i].value == n && ps[i].unit == u
    ensures forall v :: HasUnit(ps, v) <==> n > 0 && v == u
  {
    if n > 0 then
      assert HasUnit([Component(n, u)], u) by {
        assert [Component(n, u)][0].unit == u;
      }
      [Component(n, u)]
    else []
  }

  /**
   The `parts` array before it is cut: the positive counters in the order
   days, hours, minutes, where minutes join only when fewer than two parts
   are present.
   */
  function Candidates(b: Breakdown): (all: seq<Component>)
    ensures |all| <= 2
    ensures forall i, j :: 0 <= i < j < |all| ==> Rank(all[i].unit) < Rank(all[j].unit)
    ensures forall i :: 0 <= i < |all| ==> all[i].value == ValueOf(b, all[i].unit)
    ensures HasUnit(all, Day) <==> b.days > 0
    ensures HasUnit(all, Hour) <==> b.hours > 0
    ensures HasUnit(all, Minute) <==> b.minutes > 0 && !(b.days > 0 && b.hours > 0)
  {
    var days := Present(b.days, Day);
    var hours := Present(b.hours, Hour);
    var withHours := days + hours;
    var minutes := if |withHours| < 2 then Present(b.minutes, Minute) else [];
    CandidatesUnits(b, days, hours, minutes);
    CandidatesOrder(b, days, hours, minutes);
    withHours + minutes
  }

  /** Which units the candidates hold, read off the pieces they are made of. */
  lemma CandidatesUnits(b: Breakdown, days: seq<Component>, hours: seq<Component>, minutes: seq<Component>)
    requires days == Present(b.days, Day) && hours == Present(b.hours, Hour)
    requires minutes == if |days + hours| < 2 then Present(b.minutes, Minute) else []
    ensures HasUnit(days + hours + minutes, Day) <==> b.days > 0
    ensures HasUnit(days + hours + minutes, Hour) <==> b.hours > 0
    ensures HasUnit(days + hours + minutes, Minute) <==> b.minutes > 0 && !(b.days > 0 && b.hours > 0)
  {
    forall u
      ensures HasUnit(days + hours + minutes, u) <==> HasUnit(days, u) || HasUnit(hours, u) || HasUnit(minutes, u)
    {
      HasUnitConcat(days, hours, u);
      HasUnitConcat(days + hours, minutes, u);
    }
  }

  /** The candidates come in rank order, each carrying its own counter. */
  lemma CandidatesOrder(b: Breakdown, days: seq<Component>, hours: seq<Component>, minutes: seq<Component>)
    requires days == Present(b.days, Day) && hours == Present(b.hours, Hour)
    requires minutes == if |days + hours| < 2 then Present(b.minutes, Minute) else []
    ensures |days + hours + minutes| <= 2
    ensures forall i, j :: 0 <= i < j < |days + hours + minutes| ==> Rank((days + hours + minutes)[i].unit) < Rank((days + hours + minutes)[j].unit)
    ensures forall i :: 0 <= i < |days + hours + minutes| ==> (days + hours + minutes)[i].value == ValueOf(b, (days + hours + minutes)[i].unit)
  {
  }

  /**
   The `parts` array as the formatter uses it: the candidates cut to their
   first two entries, which keeps them all.
   */
  function Parts(b: Breakdown): (ps: seq<Component>)
    ensures |ps| <= 2
    ensures forall i, j :: 0 <= i < j < |ps| ==> Rank(ps[i].unit) < Rank(ps[j].unit)
    ensures forall i :: 0 <= i < |ps| ==> ps[i].value == ValueOf(b, ps[i].unit)
    ensures HasUnit(ps, Day) <==> b.days > 0
    ensures HasUnit(ps, Hour) <==> b.hours > 0
    ensures HasUnit(ps, Minute) <==> b.minutes > 0 && !(b.days > 0 && b.hours > 0)
  {
    var all := Candidates(b);
    var ps := all[..if |all| < 2 then |all| else 2];
    assert ps == all;
    ps
  }

  /** Cutting to two entries never drops a candidate. */
  lemma PartsAreCandidates(b: Breakdown)
    ensures Parts(b) == Candidates(b)
  {
  }

  function UnitName(u: Unit): string {
    match u
    case Day => "day"
    case Hour => "hour"
    case Minute => "minute"
  }

  /** "<n> <unit>", with an "s" appended exactly when n exceeds 1. */
  function Label(c: Component): (s: string)
    ensures 1 <= |s| && Decimal.IsDigit(s[0])
    ensures s[|s| - 1] == 's' <==> c.value > 1
  {
    Decimal.NatToString(c.value) + " " + UnitName(c.unit) + if c.value > 1 then "s" else ""
  }

  function Labels(ps: seq<Component>): (ls: seq<string>)
    ensures |ls| == |ps|
    ensures forall i :: 0 <= i < |ps| ==> ls[i] == Label(ps[i])
  {
    seq(|ps|, i requires 0 <= i < |ps| => Label(ps[i]))
  }

  /** The items in order, with `sep` between each two neighbours. */
  function Join(items: seq<string>, sep: string): (s: string)
    ensures |items| == 0 ==> s == ""
    ensures |items| > 0 && |items[0]| > 0 ==> |s| > 0 && s[0] == items[0][0]
    decreases |items|
  {
    if |items| == 0 then ""
    else if |items| == 1 then items[0]
    else items[0] + sep + Join(items[1..], sep)
  }

  /** The components `formatDuration` shows for a duration. */
  function ComponentsOf(millis: real): seq<Component> {
    Parts(Decompose(SecondsOf(millis)))
  }

  /**
   `formatDuration`: the joined parts, or the fixed phrase when the join is
   the empty (falsy) string, which happens exactly below one minute.
   */
  function FormatDuration(millis: real): (s: string)
    ensures s == LessThanAMinute <==> millis < MillisPerMinute as real
  {
    NoComponentsBelowAMinute(millis);
    FormatComponents(ComponentsOf(millis))
  }

  /**
   The last line of `formatDuration`: the labels joined by " and ", or the
   fixed phrase when that join is the empty (falsy) string.
   */
  function FormatComponents(parts: seq<Component>): (s: string)
    ensures s == LessThanAMinute <==> |parts| == 0
  {
    var text := Join(Labels(parts), Separator);
    if text == "" then LessThanAMinute else text
  }

  /** Below one minute no counter is positive; from one minute on, one is. */
  lemma NoComponentsBelowAMinute(millis: real)
    ensures |ComponentsOf(millis)| == 0 <==> millis < MillisPerMinute as real
  {
    var s := SecondsOf(millis);
    var b := Decompose(s);
    var ps := Parts(b);
    if |ps| > 0 {
      NonEmptyHasSomeUnit(ps);
    }
    if millis < MillisPerMinute as real {
      assert s < 60;
      if s >= 0 {
        assert b.days == 0 && b.hours == 0 && b.minutes == 0;
      }
      assert !HasUnit(ps, Day) && !HasUnit(ps, Hour) && !HasUnit(ps, Minute);
    } else {
      assert s >= 60;
      assert b.days > 0 || b.hours > 0 || b.minutes > 0;
      assert HasUnit(ps, Day) || HasUnit(ps, Hour) || HasUnit(ps, Minute);
    }
  }
}
