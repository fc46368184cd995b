/** How a claim's annotations resolve to a schedule and a maximum snapshot
    count (shooter/__main__.py: the constant tables and the first and last
    steps of the per-claim loop). */
module Policy {
  import opened Types

  const ScheduleAnnotation := "snapshooter.smp.io/schedule"
  const SnapclassAnnotation := "snapshooter.smp.io/snapclass"
  const MaxcountAnnotation := "snapshooter.smp.io/maxcount"

  /** Microseconds in one day: instants and intervals are counted in
      microseconds, the resolution of Python's `datetime`. */
  const MicrosPerDay := 86_400_000_000

  /** The keys of `schedule_intervals`. */
  datatype Schedule = Daily | Weekly | Monthly | Never

  const DefaultSchedule := Daily

  /** The key under which a schedule appears in the tables. */
  function Name(s: Schedule): string {
    match s
    case Daily => "daily"
    case Weekly => "weekly"
    case Monthly => "monthly"
    case Never => "never"
  }

  /** `schedule_intervals`: days as microseconds; `never` has none. */
  function Interval(s: Schedule): (r: Option<int>)
    ensures r.None? <==> s == Never
    ensures r.Some? ==> r.value >= MicrosPerDay && r.value % MicrosPerDay == 0
  {
    match s
    case Daily => Some(1 * MicrosPerDay)
    case Weekly => Some(7 * MicrosPerDay)
    case Monthly => Some(30 * MicrosPerDay)
    case Never => None
  }

  /** `default_maxcount_map`. */
  function DefaultMaxCount(s: Schedule): (r: nat)
    ensures r == 0 <==> s == Never
  {
    match s
    case Daily => 7
    case Weekly => 2
    case Monthly => 1
    case Never => 0
  }

  // ---------------------------------------------------------------- schedule

  /** `str.lower()` on one character (ASCII letters only). */
  function LowerChar(c: char): (r: char)
    ensures 'A' <= c <= 'Z' ==> r as int == c as int + 32
    ensures !('A' <= c <= 'Z') ==> r == c
  {
    if 'A' <= c <= 'Z' then (c as int + 32) as char else c
  }

  /** `str.lower()`. */
  function Lower(s: string): (r: string)
    ensures |r| == |s|
    ensures forall i :: 0 <= i < |s| ==> r[i] == LowerChar(s[i])
  {
    if s == [] then [] else [LowerChar(s[0])] + Lower(s[1..])
  }

  /** The schedule whose table key is exactly `key`, if any. */
  function Lookup(key: string): (r: Option<Schedule>)
    ensures r.Some? ==> Name(r.value) == key
    ensures r.None? ==> forall s: Schedule :: Name(s) != key
  {
    if key == "daily" then Some(Daily)
    else if key == "weekly" then Some(Weekly)
    else if key == "monthly" then Some(Monthly)
    else if key == "never" then Some(Never)
    else None
  }

  /** The schedule of a claim: its annotation (default `daily`) lower-cased,
      replaced by `daily` when it is not a key of the table. */
  function ResolveSchedule(annotations: map<string, string>): (r: Schedule)
    // a missing annotation, or one that names no schedule, gives `daily`
    ensures ScheduleAnnotation !in annotations ==> r == Daily
    ensures (ScheduleAnnotation in annotations &&
             forall s: Schedule :: Name(s) != Lower(annotations[ScheduleAnnotation])) ==> r == Daily
    // an annotation that names a schedule in any mix of cases selects it
    ensures forall s: Schedule ::
      (ScheduleAnnotation in annotations && Name(s) == Lower(annotations[ScheduleAnnotation])) ==> r == s
  {
    var requested := if ScheduleAnnotation in annotations then annotations[ScheduleAnnotation] else Name(DefaultSchedule);
    match Lookup(Lower(requested))
    case Some(s) => s
    case None => DefaultSchedule
  }

  /** The upper-case annotation `WEEKLY` selects the weekly schedule. */
  lemma UpperCaseWeekly()
    ensures ResolveSchedule(map[ScheduleAnnotation := "WEEKLY"]) == Weekly
  {
    assert Lower("WEEKLY") == "weekly";
  }

  /** The unknown schedule `hourly` falls back to daily. */
  lemma HourlyIsDaily()
    ensures ResolveSchedule(map[ScheduleAnnotation := "hourly"]) == Daily
  {
    assert Lower("hourly") == "hourly";
  }

  // ---------------------------------------------------------------- maxcount

  predicate IsDigit(c: char) {
    '0' <= c <= '9'
  }

  /** The value of a run of decimal digits (0 for none). */
  function DigitsValue(s: string): (r: nat)
    requires forall i :: 0 <= i < |s| ==> IsDigit(s[i])
  {
    if s == [] then 0
    else
      assert IsDigit(s[|s| - 1]);
      DigitsValue(s[..|s| - 1]) * 10 + (s[|s| - 1] as int - '0' as int)
  }

  /** `int()` on an annotation value: an optional sign followed by one or more
      decimal digits; anything else raises (None). */
  function ParseInt(s: string): (r: Option<int>)
    // what parses: a sign or a digit, then digits only
    ensures r.Some? ==> |s| > 0 && (IsDigit(s[0]) || s[0] == '-' || s[0] == '+')
    ensures r.Some? ==> forall i :: 1 <= i < |s| ==> IsDigit(s[i])
    ensures (|s| > 0 && IsDigit(s[0])) ==>
      (r.Some? <==> forall i :: 0 <= i < |s| ==> IsDigit(s[i]))
  {
    var negative := |s| > 0 && s[0] == '-';
    var digits := if |s| > 0 && (s[0] == '-' || s[0] == '+') then s[1..] else s;
    if |digits| > 0 && forall i :: 0 <= i < |digits| ==> IsDigit(digits[i]) then
      var v: int := DigitsValue(digits);
      Some(if negative then -v else v)
    else None
  }

  /** Decimal text of a natural number, as `str()` writes it. */
  function DecimalText(n: nat): (r: string)
    ensures |r| > 0
    ensures forall i :: 0 <= i < |r| ==> IsDigit(r[i])
  {
    if n < 10 then [('0' as int + n) as char]
    else DecimalText(n / 10) + [('0' as int + n % 10) as char]
  }

  /** The digit parser reads back what `DecimalText` writes. */
  lemma {:induction false} DigitsValueOfText(n: nat)
    ensures DigitsValue(DecimalText(n)) == n
  {
    var t := DecimalText(n);
    if n >= 10 {
      DigitsValueOfText(n / 10);
      assert t[..|t| - 1] == DecimalText(n / 10);
    }
  }

  /** `int()` reads back any integer written in decimal with an optional minus
      sign, so a well-formed annotation is taken at its value. */
  lemma ParseIntRoundTrip(n: int)
    ensures n >= 0 ==> ParseInt(DecimalText(n)) == Some(n)
    ensures n < 0 ==> ParseInt("-" + DecimalText(-n)) == Some(n)
  {
    if n >= 0 {
      DigitsValueOfText(n);
    } else {
      DigitsValueOfText(-n);
      assert ("-" + DecimalText(-n))[1..] == DecimalText(-n);
    }
  }

  /** The maximum count of a claim: the schedule's default when the
      annotation is absent, its integer value when it parses, and 1 when it
      does not. */
  function ResolveMaxCount(annotations: map<string, string>, schedule: Schedule): (r: int)
    ensures MaxcountAnnotation !in annotations ==> r == DefaultMaxCount(schedule)
    ensures MaxcountAnnotation in annotations && ParseInt(annotations[MaxcountAnnotation]).None? ==> r == 1
    ensures MaxcountAnnotation in annotations && ParseInt(annotations[MaxcountAnnotation]).Some? ==>
      r == ParseInt(annotations[MaxcountAnnotation]).value
  {
    if MaxcountAnnotation !in annotations then DefaultMaxCount(schedule)
    else
      match ParseInt(annotations[MaxcountAnnotation])
      case Some(n) => n
      case None => 1
  }

  /** The two fallbacks differ: with schedule `never`, a missing annotation
      keeps nothing while an unparsable one keeps one snapshot. */
  lemma MaxCountFallbackAsymmetry(annotations: map<string, string>)
    requires MaxcountAnnotation !in annotations
    ensures ResolveMaxCount(annotations, Never) == 0
    ensures ResolveMaxCount(annotations[MaxcountAnnotation := "abc"], Never) == 1
  {
    assert "abc"[0] == 'a';
  }

  /** An annotation `abc` gives 1 whatever the schedule's default. */
  lemma InvalidMaxCountIsOne(annotations: map<string, string>, schedule: Schedule)
    requires MaxcountAnnotation in annotations && annotations[MaxcountAnnotation] == "abc"
    ensures ResolveMaxCount(annotations, schedule) == 1
  {
    assert "abc"[0] == 'a';
  }
}
