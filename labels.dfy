/**
 * The relative-age label shown above an older notification, "N minute(s) ago"
 * or "N hour(s) ago": the age floor-divided by the largest unit that fits,
 * singular exactly when the count is one.
 */
module AgeLabels {
  import opened Optional

  const SECONDS_PER_MINUTE: int := 60
  const SECONDS_PER_HOUR: int := 3600

  predicate IsDigit(c: char) {
    '0' <= c <= '9'
  }

  function DigitChar(d: nat): (c: char)
    requires d < 10
    ensures IsDigit(c) && c as int - '0' as int == d
  {
    ('0' as int + d) as char
  }

  /** Python's `str(n)` for a non-negative integer: decimal, no leading zeros. */
  function DecimalString(n: nat): (s: string)
    ensures |s| >= 1
    ensures forall i :: 0 <= i < |s| ==> IsDigit(s[i])
    ensures s[0] == '0' ==> n == 0
  {
    if n < 10 then [DigitChar(n)] else DecimalString(n / 10) + [DigitChar(n % 10)]
  }

  /** The number a string of decimal digits denotes. */
  function DecimalValue(s: string): nat
    requires forall i :: 0 <= i < |s| ==> IsDigit(s[i])
  {
    if s == [] then 0
    else
      assert IsDigit(s[|s| - 1]);
      10 * DecimalValue(s[..|s| - 1]) + (s[|s| - 1] as int - '0' as int)
  }

  lemma {:induction false} DecimalRoundTrip(n: nat)
    ensures DecimalValue(DecimalString(n)) == n
  {
    if n >= 10 {
      DecimalRoundTrip(n / 10);
      var s := DecimalString(n);
      assert s[..|s| - 1] == DecimalString(n / 10);
    }
  }

  datatype Unit = Minute | Hour

  function UnitSeconds(u: Unit): int {
    match u
    case Minute => SECONDS_PER_MINUTE
    case Hour => SECONDS_PER_HOUR
  }

  function UnitWord(u: Unit): string {
    match u
    case Minute => "minute"
    case Hour => "hour"
  }

  /** What follows the count: the unit word, plural unless the count is one. */
  function Suffix(unit: Unit, count: int): string {
    " " + UnitWord(unit) + (if count == 1 then "" else "s") + " ago"
  }

  /** The largest unit that fits into an age of at least a minute. */
  function UnitFor(seconds: int): Unit {
    if seconds >= SECONDS_PER_HOUR then Hour else Minute
  }

  /**
   * The label for an age of `seconds`, from a minute on: the count of the
   * largest unit that fits, then the unit word.
   */
  function AgeLabel(seconds: int): string
    requires seconds >= SECONDS_PER_MINUTE
  {
    var count := seconds / UnitSeconds(UnitFor(seconds));
    DecimalString(count) + Suffix(UnitFor(seconds), count)
  }

  /** The four forms a label takes. */
  lemma AgeLabelForms(seconds: int)
    requires seconds >= SECONDS_PER_MINUTE
    ensures var hours := seconds / SECONDS_PER_HOUR;
      seconds >= SECONDS_PER_HOUR && hours == 1 ==> AgeLabel(seconds) == DecimalString(hours) + " hour ago"
    ensures var hours := seconds / SECONDS_PER_HOUR;
      seconds >= SECONDS_PER_HOUR && hours != 1 ==> AgeLabel(seconds) == DecimalString(hours) + " hours ago"
    ensures var minutes := seconds / SECONDS_PER_MINUTE;
      seconds < SECONDS_PER_HOUR && minutes == 1 ==> AgeLabel(seconds) == DecimalString(minutes) + " minute ago"
    ensures var minutes := seconds / SECONDS_PER_MINUTE;
      seconds < SECONDS_PER_HOUR && minutes != 1 ==> AgeLabel(seconds) == DecimalString(minutes) + " minutes ago"
  {
  }

  /** What a label says: a count of whole units. */
  datatype Reading = Reading(count: nat, unit: Unit)

  /** Length of the run of decimal digits that starts `s`. */
  function LeadingDigits(s: string): (k: nat)
    ensures k <= |s|
    ensures forall i :: 0 <= i < k ==> IsDigit(s[i])
    ensures k < |s| ==> !IsDigit(s[k])
  {
    if s == [] || !IsDigit(s[0]) then 0 else 1 + LeadingDigits(s[1..])
  }

  /**
   * Reads a label back: a decimal count and then the suffix of a unit, which
   * is singular when the count is one and plural otherwise.
   */
  function ReadLabel(text: string): Option<Reading> {
    var k := LeadingDigits(text);
    if k == 0 then None
    else
      var n := DecimalValue(text[..k]);
      var rest := text[k..];
      if rest == Suffix(Minute, n) then Some(Reading(n, Minute))
      else if rest == Suffix(Hour, n) then Some(Reading(n, Hour))
      else None
  }

  /** A count followed by a unit word is read back as that count and unit. */
  lemma ReadCountAndUnit(n: nat, suffix: string)
    requires |suffix| > 0 && suffix[0] == ' '
    ensures LeadingDigits(DecimalString(n) + suffix) == |DecimalString(n)|
    ensures (DecimalString(n) + suffix)[..|DecimalString(n)|] == DecimalString(n)
    ensures (DecimalString(n) + suffix)[|DecimalString(n)|..] == suffix
  {
    var d := DecimalString(n);
    var s := d + suffix;
    assert forall i :: 0 <= i < |d| ==> s[i] == d[i];
    assert s[|d|] == ' ';
    assert s[..|d|] == d;
    assert s[|d|..] == suffix;
  }

  /** A count followed by its suffix reads back as that count and unit. */
  lemma ReadsBackAs(count: nat, unit: Unit)
    ensures ReadLabel(DecimalString(count) + Suffix(unit, count)) == Some(Reading(count, unit))
  {
    var suffix := Suffix(unit, count);
    ReadCountAndUnit(count, suffix);
    DecimalRoundTrip(count);
    if unit == Hour {
      assert suffix[1] == 'h' && Suffix(Minute, count)[1] == 'm';
    }
  }

  /**
   * Every label is grammatical and true: it reads back as a count of the
   * largest unit not exceeding the age (hours from an hour on, minutes before),
   * and that count is the age floor-divided by the unit.
   */
  lemma LabelReadsBack(seconds: int)
    requires seconds >= SECONDS_PER_MINUTE
    ensures ReadLabel(AgeLabel(seconds)).Some?
    ensures var r := ReadLabel(AgeLabel(seconds)).value;
      && r.count >= 1
      && (r.unit == Hour <==> seconds >= SECONDS_PER_HOUR)
      && r.count * UnitSeconds(r.unit) <= seconds < (r.count + 1) * UnitSeconds(r.unit)
  {
    var unit := UnitFor(seconds);
    ReadsBackAs(seconds / UnitSeconds(unit), unit);
  }

  /** The boundary ages of the minute range. */
  lemma MinuteBoundaries()
    ensures AgeLabel(60) == "1 minute ago"
    ensures AgeLabel(119) == "1 minute ago"
    ensures AgeLabel(120) == "2 minutes ago"
  {
    assert DecimalString(1) + Suffix(Minute, 1) == "1 minute ago";
    assert AgeLabel(60) == DecimalString(1) + Suffix(Minute, 1);
    assert AgeLabel(119) == DecimalString(1) + Suffix(Minute, 1);
    assert DecimalString(2) + Suffix(Minute, 2) == "2 minutes ago";
    assert AgeLabel(120) == DecimalString(2) + Suffix(Minute, 2);
  }

  lemma FiftyNineMinutesText()
    ensures DecimalString(59) + Suffix(Minute, 59) == "59 minutes ago"
  {
    assert DecimalString(59) == DecimalString(5) + "9";
    assert Suffix(Minute, 59) == " minutes ago";
  }

  /** The last age before the hour range. */
  lemma LastMinuteBoundary()
    ensures AgeLabel(3599) == "59 minutes ago"
  {
    FiftyNineMinutesText();
    assert 3599 / SECONDS_PER_MINUTE == 59;
    assert AgeLabel(3599) == DecimalString(59) + Suffix(Minute, 59);
  }

  /** The boundary ages of the hour range. */
  lemma HourBoundaries()
    ensures AgeLabel(3600) == "1 hour ago"
    ensures AgeLabel(7199) == "1 hour ago"
    ensures AgeLabel(7200) == "2 hours ago"
  {
    assert DecimalString(1) + Suffix(Hour, 1) == "1 hour ago";
    assert AgeLabel(3600) == DecimalString(1) + Suffix(Hour, 1);
    assert AgeLabel(7199) == DecimalString(1) + Suffix(Hour, 1);
    assert DecimalString(2) + Suffix(Hour, 2) == "2 hours ago";
    assert AgeLabel(7200) == DecimalString(2) + Suffix(Hour, 2);
  }
}
