/** Record normalisation: one judge-table row becomes a typed submission
    (kattis2canvas.py:476-489, main.py:409-422).

    Instants are integers counting microseconds since 0001-01-01T00:00:00 UTC, the moment
    `datetime.fromordinal(1)` denotes. The reference instant `now` is a parameter; it is UTC,
    so days are exactly 24 hours long. */
module Normalize {
  import opened Base
  import opened Text

  const MicrosPerSecond: int := 1_000_000
  const SecondsPerDay: int := 86_400
  const MicrosPerDay: int := 86_400_000_000

  /** One row of the judge table after cell extraction: for each column, the cell's link
      target or its stripped text. `url` is the column with the empty header. */
  datatype Row = Row(user: string, problem: string, testCases: string, date: string, url: string)

  /** The `Submission` record: user and problem are last path segments, the score is a
      percentage and the date an instant. */
  datatype Submission = Submission(user: string, problem: string, score: real, url: string, date: int)

  // ---------------------------------------------------------------------------------------
  // The short "%H:%M:%S" date form

  /** One `%H`, `%M` or `%S` field as `strptime` reads it: one or two digits. */
  function ParseClockField(s: string): Option<nat> {
    if 1 <= |s| <= 2 then ParseNat(s) else None
  }

  /** `strptime(text, "%H:%M:%S")` reduced to the seconds since midnight it denotes. */
  function ParseClock(text: string): (r: Option<nat>)
    ensures r.Some? ==> r.value < SecondsPerDay
  {
    var parts := Split(text, ':');
    if |parts| != 3 then None
    else
      match (ParseClockField(parts[0]), ParseClockField(parts[1]), ParseClockField(parts[2]))
      case (Some(h), Some(m), Some(s)) =>
        if h < 24 && m < 60 && s < 60 then Some(h * 3600 + m * 60 + s) else None
      case _ => None
  }

  function Pad2(n: nat): string
    requires n < 100
  {
    [DigitChar(n / 10), DigitChar(n % 10)]
  }

  /** How the judge shows the time of day of a recent submission. */
  function FormatClock(t: nat): string
    requires t < SecondsPerDay
  {
    Pad2(t / 3600) + ":" + Pad2(t / 60 % 60) + ":" + Pad2(t % 60)
  }

  lemma Pad2Value(n: nat)
    requires n < 100
    ensures ':' !in Pad2(n) && ParseClockField(Pad2(n)) == Some(n)
  {
    var s := Pad2(n);
    assert s[0] == DigitChar(n / 10) && s[1] == DigitChar(n % 10);
    assert AllDigits(s);
    assert s[..1] == [DigitChar(n / 10)] && s[..1][..0] == [];
    assert DigitsValue(s[..1]) == n / 10;
    assert DigitsValue(s) == DigitsValue(s[..1]) * 10 + n % 10;
    assert ParseNat(s) == Some(n);
  }

  lemma FormatClockPieces(t: nat)
    requires t < SecondsPerDay
    ensures Split(FormatClock(t), ':') == [Pad2(t / 3600), Pad2(t / 60 % 60), Pad2(t % 60)]
  {
    Pad2Value(t / 3600);
    Pad2Value(t / 60 % 60);
    Pad2Value(t % 60);
    SplitClockFields(Pad2(t / 3600), Pad2(t / 60 % 60), Pad2(t % 60));
  }

  lemma SplitClockFields(h: string, m: string, sec: string)
    requires ':' !in h && ':' !in m && ':' !in sec
    ensures Split(h + ":" + m + ":" + sec, ':') == [h, m, sec]
  {
    assert h + ":" + m + ":" + sec == h + [':'] + (m + [':'] + sec);
    SplitAfterPiece(h, ':', m + [':'] + sec);
    SplitAfterPiece(m, ':', sec);
    SplitWithoutSeparator(sec, ':');
  }

  lemma ClockDecomposition(t: nat)
    ensures (t / 3600) * 3600 + (t / 60 % 60) * 60 + t % 60 == t
  {
    DivModUnique(t / 60, 60, t / 3600, t / 60 % 60);
  }

  /** Every time of day, written as the judge writes it, reads back as itself. */
  lemma {:induction false} ParseClockOfFormat(t: nat)
    requires t < SecondsPerDay
    ensures ParseClock(FormatClock(t)) == Some(t)
  {
    FormatClockPieces(t);
    Pad2Value(t / 3600);
    Pad2Value(t / 60 % 60);
    Pad2Value(t % 60);
    ClockDecomposition(t);
  }

  /** Three fields of one or two digits, joined by ':', are accepted exactly when they name an
      hour below 24, a minute below 60 and a second below 60. */
  lemma ParseClockOfFields(h: string, m: string, sec: string)
    requires 1 <= |h| <= 2 && AllDigits(h)
    requires 1 <= |m| <= 2 && AllDigits(m)
    requires 1 <= |sec| <= 2 && AllDigits(sec)
    ensures ParseClock(h + ":" + m + ":" + sec).None? <==>
              DigitsValue(h) >= 24 || DigitsValue(m) >= 60 || DigitsValue(sec) >= 60
    ensures ParseClock(h + ":" + m + ":" + sec).Some? ==>
              ParseClock(h + ":" + m + ":" + sec).value == DigitsValue(h) * 3600 + DigitsValue(m) * 60 + DigitsValue(sec)
  {
    assert ':' !in h && ':' !in m && ':' !in sec by {
      assert !IsDigit(':');
    }
    SplitClockFields(h, m, sec);
    assert ParseClockField(h) == Some(DigitsValue(h));
    assert ParseClockField(m) == Some(DigitsValue(m));
    assert ParseClockField(sec) == Some(DigitsValue(sec));
  }

  /** Two digits are the zero-padded form of their value. */
  lemma TwoDigits(p: string)
    requires |p| == 2 && AllDigits(p)
    ensures DigitsValue(p) < 100 && p == Pad2(DigitsValue(p))
  {
    var hi, lo := p[0] as int - '0' as int, p[1] as int - '0' as int;
    assert p[..1][..0] == [] && p[..1][0] == p[0];
    assert DigitsValue(p[..1]) == hi;
    assert DigitsValue(p) == hi * 10 + lo;
  }

  /** Euclidean division has one quotient and remainder. */
  lemma DivModUnique(x: int, m: int, q: int, r: int)
    requires 0 < m && 0 <= r < m && x == m * q + r
    ensures x / m == q && x % m == r
  {
    var d := q - x / m;
    assert m * d == x % m - r;
    if d >= 1 {
      MulNonnegative(m, d - 1);
      assert false;
    } else if d <= -1 {
      MulNonnegative(m, -d - 1);
      assert false;
    }
  }

  lemma MulNonnegative(a: int, b: int)
    requires 0 <= a && 0 <= b
    ensures 0 <= a * b
  {
  }

  /** An accepted eight-character time of day is written exactly as the judge writes that time:
      together with `ParseClockOfFormat`, the short form and the clock are in one-to-one
      correspondence. */
  lemma ParseClockCanonical(text: string)
    requires |text| == 8 && ParseClock(text).Some?
    ensures text == FormatClock(ParseClock(text).value)
  {
    var parts := Split(text, ':');
    JoinSplit(text, ':');
    assert parts[1..][1..] == [parts[2]];
    assert Join(parts[1..], ':') == parts[1] + [':'] + parts[2];
    assert text == parts[0] + [':'] + (parts[1] + [':'] + parts[2]);
    TwoDigits(parts[0]);
    TwoDigits(parts[1]);
    TwoDigits(parts[2]);
    var h, m, sec := DigitsValue(parts[0]), DigitsValue(parts[1]), DigitsValue(parts[2]);
    var t := ParseClock(text).value;
    assert t == h * 3600 + m * 60 + sec;
    DivModUnique(t, 60, h * 60 + m, sec);
    DivModUnique(h * 60 + m, 60, h, m);
    DivModUnique(t, 3600, h, m * 60 + sec);
  }

  /** A short-form time of day placed on `now`'s date (keeping `now`'s microseconds, as
      `now.replace(hour=.., minute=.., second=..)` does), moved back one day when that lands
      after `now`. */
  function ResolveShortDate(clock: nat, now: int): (r: int)
    requires clock < SecondsPerDay
    ensures now - MicrosPerDay < r <= now
    ensures r % MicrosPerDay == clock * MicrosPerSecond + now % MicrosPerSecond
  {
    var midnight := now - now % MicrosPerDay;
    var sinceMidnight := clock * MicrosPerSecond + now % MicrosPerSecond;
    var candidate := midnight + sinceMidnight;
    assert midnight == MicrosPerDay * (now / MicrosPerDay);
    if candidate > now then
      DivModUnique(candidate - MicrosPerDay, MicrosPerDay, now / MicrosPerDay - 1, sinceMidnight);
      candidate - MicrosPerDay
    else
      DivModUnique(candidate, MicrosPerDay, now / MicrosPerDay, sinceMidnight);
      candidate
  }

  /** `now`'s microseconds within its second are those within its day. */
  lemma MicrosWithinSecond(now: int)
    ensures now % MicrosPerSecond == now % MicrosPerDay % MicrosPerSecond
  {
    var day := now % MicrosPerDay;
    assert now == MicrosPerSecond * (SecondsPerDay * (now / MicrosPerDay)) + day;
    assert day == MicrosPerSecond * (day / MicrosPerSecond) + day % MicrosPerSecond;
    DivModUnique(now, MicrosPerSecond, SecondsPerDay * (now / MicrosPerDay) + day / MicrosPerSecond,
                 day % MicrosPerSecond);
  }

  /** The resolved short date is the only instant in the 24 hours up to `now` that has the
      row's time of day (with `now`'s microseconds). */
  lemma ShortDateIsUnique(clock: nat, now: int, t: int)
    requires clock < SecondsPerDay
    requires now - MicrosPerDay < t <= now
    requires t % MicrosPerDay == clock * MicrosPerSecond + now % MicrosPerSecond
    ensures t == ResolveShortDate(clock, now)
  {
    var r := ResolveShortDate(clock, now);
    assert (t - r) % MicrosPerDay == 0;
  }

  /** The resolved date falls on the day before `now`'s exactly when the row's time of day is
      later than `now`'s (in whole seconds). */
  lemma ShortDateShiftsBackWhenLater(clock: nat, now: int)
    requires clock < SecondsPerDay
    ensures ResolveShortDate(clock, now) < now - now % MicrosPerDay
            <==> clock > now % MicrosPerDay / MicrosPerSecond
  {
    MicrosWithinSecond(now);
  }

  /** The `Date` cell: a value containing '-' is the full "%Y-%m-%d %H:%M:%S" form read as UTC
      (`parseFull` stands for that `strptime` call and yields whole seconds); any other value
      is the short form. */
  function ResolveDate(text: string, now: int, parseFull: string -> Option<int>): (r: Result<int>)
    ensures r.Err? ==> r.error == BadDate
    ensures r.Ok? && '-' in text ==>
              parseFull(text) == Some(r.value / MicrosPerSecond) && r.value % MicrosPerSecond == 0
    ensures r.Ok? && '-' !in text ==> now - MicrosPerDay < r.value <= now
    ensures r.Ok? && '-' !in text ==>
              ParseClock(text).Some? && r.value == ResolveShortDate(ParseClock(text).value, now)
    ensures r.Ok? <==> if '-' in text then parseFull(text).Some? else ParseClock(text).Some?
  {
    if '-' in text then
      match parseFull(text)
      case None => Err(BadDate)
      case Some(seconds) => Ok(seconds * MicrosPerSecond)
    else
      match ParseClock(text)
      case None => Err(BadDate)
      case Some(clock) => Ok(ResolveShortDate(clock, now))
  }

  // ---------------------------------------------------------------------------------------
  // The score

  /** The `Test cases` cell as a percentage: "-/-" scores 0, "p/q" scores 100·p/q (kept exact
      here), and a zero denominator raises. */
  function ParseScore(testCases: string): (r: Result<real>)
    ensures r.Ok? ==> 0.0 <= r.value
    ensures r.Err? ==> r.error == BadFraction || r.error == ZeroDenominator
    ensures testCases == "-/-" ==> r == Ok(0.0)
  {
    if testCases == "-/-" then Ok(0.0)
    else
      var parts := Split(testCases, '/');
      if |parts| != 2 then Err(BadFraction)
      else
        match (ParseNat(parts[0]), ParseNat(parts[1]))
        case (Some(p), Some(q)) =>
          if q == 0 then Err(ZeroDenominator) else Ok(100.0 * (p as real) / (q as real))
        case _ => Err(BadFraction)
  }

  function FractionText(passed: nat, total: nat): string {
    NatToString(passed) + "/" + NatToString(total)
  }

  /** "p/q" scores exactly 100·p/q, and "p/0" raises. */
  lemma {:induction false} ScoreOfFraction(passed: nat, total: nat)
    ensures ParseScore(FractionText(passed, total))
            == if total == 0 then Err(ZeroDenominator)
               else Ok(100.0 * (passed as real) / (total as real))
  {
    var a, b := NatToString(passed), NatToString(total);
    assert FractionText(passed, total)[0] == a[0];
    assert FractionText(passed, total) != "-/-";
    assert '/' !in a && '/' !in b;
    SplitAfterPiece(a, '/', b);
    SplitWithoutSeparator(b, '/');
    ParseNatToString(passed);
    ParseNatToString(total);
  }

  /** When no more tests pass than exist, the score is a percentage in [0, 100], and it is 100
      exactly when every test passes. */
  lemma ScoreWithinRange(passed: nat, total: nat)
    requires 0 < total && passed <= total
    ensures ParseScore(FractionText(passed, total)).Ok?
    ensures 0.0 <= ParseScore(FractionText(passed, total)).value <= 100.0
    ensures ParseScore(FractionText(passed, total)).value == 100.0 <==> passed == total
  {
    ScoreOfFraction(passed, total);
    PercentageBounds(passed as real, total as real);
  }

  lemma PercentageBounds(p: real, q: real)
    requires 0.0 < q && 0.0 <= p <= q
    ensures 0.0 <= 100.0 * p / q <= 100.0
    ensures 100.0 * p / q == 100.0 <==> p == q
  {
    var score := 100.0 * p / q;
    assert score * q == 100.0 * p;
    if p < q {
      assert score * q < 100.0 * q;
    }
  }

  // ---------------------------------------------------------------------------------------
  // A whole row

  /** A row becomes a submission: date first, then score, then user, then problem, each of
      which can raise and so stop the run. */
  function NormalizeRow(row: Row, now: int, parseFull: string -> Option<int>): (r: Result<Submission>)
    ensures r.Ok? <==> && ResolveDate(row.date, now, parseFull).Ok?
                       && ParseScore(row.testCases).Ok?
                       && '/' in row.user && '/' in row.problem
    ensures r.Ok? ==> && r.value.url == row.url
                      && r.value.date == ResolveDate(row.date, now, parseFull).value
                      && r.value.score == ParseScore(row.testCases).value
                      && Ok(r.value.user) == ExtractLast(row.user)
                      && Ok(r.value.problem) == ExtractLast(row.problem)
    ensures ResolveDate(row.date, now, parseFull).Err? ==> r == Err(BadDate)
    ensures ResolveDate(row.date, now, parseFull).Ok? && ParseScore(row.testCases).Err? ==>
              r == Err(ParseScore(row.testCases).error)
    ensures r.Err? && ResolveDate(row.date, now, parseFull).Ok? && ParseScore(row.testCases).Ok? ==>
              r.error == NoSlash
  {
    match ResolveDate(row.date, now, parseFull)
    case Err(e) => Err(e)
    case Ok(date) =>
      match ParseScore(row.testCases)
      case Err(e) => Err(e)
      case Ok(score) =>
        match ExtractLast(row.user)
        case Err(e) => Err(e)
        case Ok(user) =>
          match ExtractLast(row.problem)
          case Err(e) => Err(e)
          case Ok(problem) => Ok(Submission(user, problem, score, row.url, date))
  }
}
