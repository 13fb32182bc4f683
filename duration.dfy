/**
 * The duration argument of the `timeout` command (main.py:319-337): the last
 * character is the unit, everything before it goes through `int()`, and the
 * resulting `datetime.timedelta` must fit Python's range.
 */
module Duration {
  import opened Wrappers
  import opened PyInt

  datatype Unit = Second | Minute | Hour | Day

  function UnitLetter(u: Unit): char {
    match u
    case Second => 's'
    case Minute => 'm'
    case Hour => 'h'
    case Day => 'd'
  }

  /** The unit a final character names, if any; only the four lower-case letters do. */
  function UnitOf(c: char): (r: Option<Unit>)
    ensures r.Some? <==> (c == 's' || c == 'm' || c == 'h' || c == 'd')
    ensures r.Some? ==> UnitLetter(r.value) == c
  {
    if c == 's' then Some(Second)
    else if c == 'm' then Some(Minute)
    else if c == 'h' then Some(Hour)
    else if c == 'd' then Some(Day)
    else None
  }

  function UnitSeconds(u: Unit): nat {
    match u
    case Second => 1
    case Minute => 60
    case Hour => 3600
    case Day => 86400
  }

  /** An amount of some unit, as handed to `timedelta(seconds=...)`, `minutes=`, `hours=` or `days=`. */
  datatype Duration = Duration(amount: int, unit: Unit)

  function Seconds(d: Duration): int {
    d.amount * UnitSeconds(d.unit)
  }

  /**
   * The parse of a non-empty duration string. `None` is the "invalid usage"
   * reply: the prefix is not an integer, or the last character is no unit.
   */
  function ParseDuration(s: string): (r: Option<Duration>)
    ensures r.Some? <==> |s| > 0 && UnitOf(s[|s| - 1]).Some? && ParseInt(s[..|s| - 1]).Some?
    ensures r.Some? ==> UnitLetter(r.value.unit) == s[|s| - 1] && ParseInt(s[..|s| - 1]) == Some(r.value.amount)
  {
    if |s| == 0 then None
    else
      match ParseInt(s[..|s| - 1])
      case None => None
      case Some(n) =>
        match UnitOf(s[|s| - 1])
        case None => None
        case Some(u) => Some(Duration(n, u))
  }

  /** An integer followed by a unit letter parses to that many of that unit. */
  lemma ParseDurationAccepts(amount: string, n: int, u: Unit)
    requires ParseInt(amount) == Some(n)
    ensures ParseDuration(amount + [UnitLetter(u)]) == Some(Duration(n, u))
  {
    var s := amount + [UnitLetter(u)];
    assert s[..|s| - 1] == amount;
  }

  /** `str(n) + unit` parses back to `n` of that unit, for every integer, zero and negatives included. */
  lemma ParseDurationOfShow(n: int, u: Unit)
    ensures ParseDuration(Show(n) + [UnitLetter(u)]) == Some(Duration(n, u))
  {
    ParseShow(n);
    ParseDurationAccepts(Show(n), n, u);
  }

  /** A last character other than `s`, `m`, `h`, `d` is invalid usage, whatever precedes it. */
  lemma ParseDurationRejectsUnit(s: string)
    requires |s| > 0
    requires s[|s| - 1] != 's' && s[|s| - 1] != 'm' && s[|s| - 1] != 'h' && s[|s| - 1] != 'd'
    ensures ParseDuration(s) == None
  {
  }

  /** A unit without an amount (`"m"`), or with only whitespace before it, is invalid usage. */
  lemma ParseDurationRejectsBlankAmount(s: string)
    requires |s| > 0 && AllSpace(s[..|s| - 1])
    ensures ParseDuration(s) == None
  {
    ParseIntRejectsBlank(s[..|s| - 1]);
  }

  /** Python's `timedelta` range: at most 999999999 days either way. */
  const MaxTimedeltaDays: int := 999999999

  /** `timedelta` normalises to whole days rounded down (Dafny's `/` by a positive divisor floors too). */
  predicate TimedeltaRepresentable(seconds: int) {
    -MaxTimedeltaDays <= seconds / 86400 <= MaxTimedeltaDays
  }

  /** What the `timeout` command does with its member and duration arguments. */
  datatype TimeoutRequest =
    | TimeoutInvalidUsage            // usage reply, nothing else happens
    | TimeoutOverflow                // `timedelta` raises OverflowError; nothing catches it
    | Suspend(seconds: int)          // `member.timeout(until=now + seconds)` is attempted

  function TimeoutCommand(memberGiven: bool, duration: Option<string>): (r: TimeoutRequest)
    ensures r == TimeoutInvalidUsage <==>
              !memberGiven || duration == None || duration == Some("") || ParseDuration(duration.value).None?
    ensures r.Suspend? ==>
              duration.Some? && ParseDuration(duration.value).Some?
              && r.seconds == Seconds(ParseDuration(duration.value).value)
              && TimedeltaRepresentable(r.seconds)
    ensures r == TimeoutOverflow ==>
              duration.Some? && ParseDuration(duration.value).Some?
              && !TimedeltaRepresentable(Seconds(ParseDuration(duration.value).value))
  {
    if !memberGiven || duration == None || duration == Some("") then TimeoutInvalidUsage
    else
      match ParseDuration(duration.value)
      case None => TimeoutInvalidUsage
      case Some(d) =>
        if TimedeltaRepresentable(Seconds(d)) then Suspend(Seconds(d)) else TimeoutOverflow
  }

  /** `"<n><unit>"` suspends for n times the unit's length in seconds, with no positivity check. */
  lemma TimeoutOfShow(n: int, u: Unit)
    requires TimedeltaRepresentable(n * UnitSeconds(u))
    ensures TimeoutCommand(true, Some(Show(n) + [UnitLetter(u)])) == Suspend(n * UnitSeconds(u))
  {
    ParseDurationOfShow(n, u);
  }

  /** Zero and negative amounts are accepted: `"0m"` suspends for 0 seconds, `"-5s"` for -5. */
  lemma TimeoutAcceptsZeroAndNegative()
    ensures TimeoutCommand(true, Some("0m")) == Suspend(0)
    ensures TimeoutCommand(true, Some("-5s")) == Suspend(-5)
  {
    assert Show(0) + [UnitLetter(Minute)] == "0m";
    TimeoutOfShow(0, Minute);
    assert Show(-5) + [UnitLetter(Second)] == "-5s";
    TimeoutOfShow(-5, Second);
  }

  /** More than 999999999 days makes `timedelta` overflow instead of suspending. */
  lemma TimeoutOverflowsPastMaxDays(n: int)
    requires n > MaxTimedeltaDays
    ensures TimeoutCommand(true, Some(Show(n) + "d")) == TimeoutOverflow
  {
    ParseDurationOfShow(n, Day);
    assert Seconds(Duration(n, Day)) / 86400 == n;
  }
}
