/** Times of day as the exam clock sees them: the current wall-clock reading
    (hour, minute, second) and the zero-padded "HH:MM" strings an exam entry
    stores for its start and end. */
module ClockTime {

  type Hour = h: int | 0 <= h < 24
  type Minute = m: int | 0 <= m < 60
  type Second = s: int | 0 <= s < 60

  const SECONDS_PER_DAY := 86400

  /** The local wall-clock reading of one tick (what getHours, getMinutes and
      getSeconds of the current Date return). */
  datatype Now = Now(hour: Hour, minute: Minute, second: Second)

  /** The minute of the day: the hour times 60 plus the minute. */
  function MinuteOfDay(now: Now): (r: int)
    ensures 0 <= r < 1440
  {
    now.minute + now.hour * 60
  }

  /** The instant of the day, in seconds since midnight. */
  function SecondOfDay(now: Now): (r: int)
    ensures 0 <= r < SECONDS_PER_DAY
    ensures MinuteOfDay(now) * 60 <= r < MinuteOfDay(now) * 60 + 60
  {
    MinuteOfDay(now) * 60 + now.second
  }

  predicate IsDigit(c: char) {
    '0' <= c <= '9'
  }

  function DigitValue(c: char): (d: int)
    requires IsDigit(c)
    ensures 0 <= d <= 9
  {
    c as int - '0' as int
  }

  /** The number a two-digit decimal string spells. */
  function TwoDigits(hi: char, lo: char): (n: int)
    requires IsDigit(hi) && IsDigit(lo)
    ensures 0 <= n <= 99
  {
    DigitValue(hi) * 10 + DigitValue(lo)
  }

  /** A well-formed, zero-padded "HH:MM" time of day. */
  predicate IsHHMM(t: string) {
    && |t| == 5
    && IsDigit(t[0]) && IsDigit(t[1]) && t[2] == ':' && IsDigit(t[3]) && IsDigit(t[4])
    && TwoDigits(t[0], t[1]) < 24
    && TwoDigits(t[3], t[4]) < 60
  }

  type HHMM = t: string | IsHHMM(t) witness "00:00"

  /** The hour: the two digits before the colon, read as a number. */
  function HoursOf(t: HHMM): Hour {
    TwoDigits(t[0], t[1])
  }

  /** The minute: the two digits after the colon, read as a number. */
  function MinutesOf(t: HHMM): Minute {
    TwoDigits(t[3], t[4])
  }

  /** The minute of the day that an "HH:MM" string names. */
  function ClockMinutes(t: HHMM): (r: int)
    ensures 0 <= r < 1440
  {
    MinutesOf(t) + HoursOf(t) * 60
  }

  /** JavaScript's less-than on strings: lexicographic order of the
      characters, a proper prefix being smaller. */
  predicate LexLess(a: string, b: string)
    decreases |a|
  {
    if |a| == 0 then |b| > 0
    else if |b| == 0 then false
    else if a[0] == b[0] then LexLess(a[1..], b[1..])
    else a[0] < b[0]
  }

  /** Two digits compared as characters compare as the numbers they spell. */
  lemma TwoDigitOrder(a0: char, a1: char, b0: char, b1: char)
    requires IsDigit(a0) && IsDigit(a1) && IsDigit(b0) && IsDigit(b1)
    ensures TwoDigits(a0, a1) < TwoDigits(b0, b1)
        <==> a0 < b0 || (a0 == b0 && a1 < b1)
    ensures TwoDigits(a0, a1) == TwoDigits(b0, b1) <==> a0 == b0 && a1 == b1
  {
  }

  /** On well-formed "HH:MM" strings, string order is time-of-day order, so
      the `endTime < startTime` test of the active-exam resolver compares
      the two times of day. */
  lemma {:induction false} LexLessIsClockOrder(a: HHMM, b: HHMM)
    ensures LexLess(a, b) <==> ClockMinutes(a) < ClockMinutes(b)
  {
    TwoDigitOrder(a[0], a[1], b[0], b[1]);
    TwoDigitOrder(a[3], a[4], b[3], b[4]);
    assert LexLess(a, b) <==> a[0] < b[0] || (a[0] == b[0] && LexLess(a[1..], b[1..]));
    assert LexLess(a[1..], b[1..]) <==> a[1] < b[1] || (a[1] == b[1] && LexLess(a[2..], b[2..]));
    assert a[2..][1..] == a[3..] && b[2..][1..] == b[3..];
    assert LexLess(a[2..], b[2..]) <==> LexLess(a[3..], b[3..]);
    assert a[3..][1..] == a[4..] && b[3..][1..] == b[4..];
    assert LexLess(a[3..], b[3..]) <==> a[3] < b[3] || (a[3] == b[3] && LexLess(a[4..], b[4..]));
    assert a[4..][1..] == [] && b[4..][1..] == [];
    assert LexLess(a[4..], b[4..]) <==> a[4] < b[4];
  }
}
