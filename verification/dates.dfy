/**
 * `parse_date_range` and its inner `to_utc`: a date range given as
 * "YYYY-MM-DD" texts, dates or datetimes is widened to whole local days and
 * shifted to UTC. The shift from the local zone to UTC is a parameter,
 * `localToUtc`, of which nothing is assumed.
 */
module DateRange {
  import opened Wrappers

  datatype Date = Date(year: int, month: int, day: int)

  predicate IsLeapYear(y: int)
  {
    y % 4 == 0 && (y % 100 != 0 || y % 400 == 0)
  }

  function DaysInMonth(y: int, m: int): int
    requires 1 <= m <= 12
  {
    if m == 2 then (if IsLeapYear(y) then 29 else 28)
    else if m == 4 || m == 6 || m == 9 || m == 11 then 30
    else 31
  }

  /** What `date(year, month, day)` accepts. */
  predicate ValidDate(d: Date)
  {
    1 <= d.year <= 9999 && 1 <= d.month <= 12 && 1 <= d.day <= DaysInMonth(d.year, d.month)
  }

  /** A Python `date` object. */
  type CalendarDate = d: Date | ValidDate(d) witness Date(1, 1, 1)

  datatype TimeOfDay = TimeOfDay(hour: int, minute: int, second: int, microsecond: int)

  /** `time.min` */
  const StartOfDay := TimeOfDay(0, 0, 0, 0)
  /** `time.max` */
  const EndOfDay := TimeOfDay(23, 59, 59, 999999)

  datatype DateTime = DateTime(date: CalendarDate, time: TimeOfDay)

  /** An argument of `parse_date_range`: a text, a `date`, or a `datetime`
      (which Python also counts as a `date`). */
  datatype DateArg = Text(text: string) | Day(date: CalendarDate) | Moment(at: DateTime)

  /** The exceptions `to_utc` raises on a text it cannot read. */
  datatype DateError =
    | NotAnInteger(part: string)                  // int(part) raises ValueError
    | TooFewParts(count: nat)                     // _date[1] or _date[2] raises IndexError
    | InvalidDate(year: int, month: int, day: int) // date(y, m, d) raises ValueError

  /** Python truthiness of an argument: None and "" are false. */
  predicate Truthy(a: Option<DateArg>)
  {
    a.Some? && a.value != Text("")
  }

  // ---------------------------------------------------------------------
  // Reading "YYYY-MM-DD"
  // ---------------------------------------------------------------------

  /** `s.split(sep)`. */
  function Split(s: string, sep: char): (parts: seq<string>)
    ensures |parts| >= 1
  {
    if s == [] then [[]]
    else
      var rest := Split(s[1..], sep);
      if s[0] == sep then [[]] + rest else [[s[0]] + rest[0]] + rest[1..]
  }

  predicate IsNumeral(s: string)
  {
    |s| > 0 && forall i :: 0 <= i < |s| ==> '0' <= s[i] <= '9'
  }

  function NumeralValue(s: string): nat
    requires forall i :: 0 <= i < |s| ==> '0' <= s[i] <= '9'
  {
    if s == [] then 0 else NumeralValue(s[..|s| - 1]) * 10 + (s[|s| - 1] as int - '0' as int)
  }

  /** `int(part)`. */
  function ParseInt(part: string): Result<int, DateError>
  {
    if IsNumeral(part) then Success(NumeralValue(part)) else Failure(NotAnInteger(part))
  }

  /** `list(map(int, parts))`: every part is converted before any is used. */
  function ParseInts(parts: seq<string>): (r: Result<seq<int>, DateError>)
    ensures r.Success? ==> |r.value| == |parts|
    ensures r.Success? ==> forall i :: 0 <= i < |parts| ==> ParseInt(parts[i]) == Success(r.value[i])
    ensures r.Failure? ==> exists i :: 0 <= i < |parts| && ParseInt(parts[i]) == Failure(r.error)
  {
    if parts == [] then Success([])
    else match ParseInt(parts[0])
      case Failure(e) => Failure(e)
      case Success(n) =>
        match ParseInts(parts[1..])
        case Failure(e) =>
          assert forall i :: 0 <= i < |parts| - 1 ==> parts[1..][i] == parts[i + 1];
          Failure(e)
        case Success(ns) =>
          assert forall i :: 1 <= i < |parts| ==> parts[i] == parts[1..][i - 1];
          Success([n] + ns)
  }

  /** The `str` branch of `to_utc`: split on "-", convert every part, take the
      first three as year, month and day; later parts are ignored. */
  function ParseIsoDate(s: string): Result<CalendarDate, DateError>
  {
    match ParseInts(Split(s, '-'))
    case Failure(e) => Failure(e)
    case Success(nums) =>
      if |nums| < 3 then Failure(TooFewParts(|nums|))
      else
        var d := Date(nums[0], nums[1], nums[2]);
        if ValidDate(d) then Success(d) else Failure(InvalidDate(d.year, d.month, d.day))
  }

  /** The day `to_utc` widens: the parsed text, the date itself, or the date
      part of a datetime (caught by the `date` branch). */
  function CalendarDay(arg: DateArg): Result<CalendarDate, DateError>
  {
    match arg
    case Text(s) => ParseIsoDate(s)
    case Day(d) => Success(d)
    case Moment(dt) => Success(dt.date)
  }

  /** `to_utc(input_date, is_end)`: the start (`time.min`) or end (`time.max`)
      of the argument's day in the local zone, shifted to UTC. */
  function ToUtc(arg: DateArg, isEnd: bool, localToUtc: DateTime -> DateTime): (r: Result<DateTime, DateError>)
    ensures r.Success? <==> CalendarDay(arg).Success?
    ensures r.Failure? ==> r.error == CalendarDay(arg).error
  {
    match CalendarDay(arg)
    case Failure(e) => Failure(e)
    case Success(d) => Success(localToUtc(DateTime(d, if isEnd then EndOfDay else StartOfDay)))
  }

  /** `parse_date_range(from_date, to_date)`. */
  function ParseDateRange(from: Option<DateArg>, to: Option<DateArg>, localToUtc: DateTime -> DateTime)
    : (r: Result<(Option<DateArg>, Option<DateArg>), DateError>)
    // no `to`: both arguments come back as they were (None stays None, a lone `from` is not converted)
    ensures !Truthy(to) ==> r == Success((from, to))
    // with `to`: fails exactly when a day to be converted cannot be read, `from` first
    ensures Truthy(to) ==>
      (r.Success? <==> CalendarDay(to.value).Success? && (Truthy(from) ==> CalendarDay(from.value).Success?))
    ensures Truthy(to) && Truthy(from) && CalendarDay(from.value).Failure? ==>
      r == Failure(CalendarDay(from.value).error)
    ensures Truthy(to) && r.Failure? && !(Truthy(from) && CalendarDay(from.value).Failure?) ==>
      r.error == CalendarDay(to.value).error
    // `from` becomes the start of its own day (of `to`'s day when absent), `to` the end of its day
    ensures r.Success? && Truthy(to) ==>
      var first := CalendarDay(if Truthy(from) then from.value else to.value).value;
      var last := CalendarDay(to.value).value;
      r.value == (Some(Moment(localToUtc(DateTime(first, StartOfDay)))), Some(Moment(localToUtc(DateTime(last, EndOfDay)))))
  {
    if Truthy(to) && !Truthy(from) then
      match ToUtc(to.value, false, localToUtc)
      case Failure(e) => Failure(e)
      case Success(a) =>
        match ToUtc(to.value, true, localToUtc)
        case Failure(e) => Failure(e)
        case Success(b) => Success((Some(Moment(a)), Some(Moment(b))))
    else if Truthy(from) && Truthy(to) then
      match ToUtc(from.value, false, localToUtc)
      case Failure(e) => Failure(e)
      case Success(a) =>
        match ToUtc(to.value, true, localToUtc)
        case Failure(e) => Failure(e)
        case Success(b) => Success((Some(Moment(a)), Some(Moment(b))))
    else
      Success((from, to))
  }

  /** Lemma: a datetime is read through the `date` branch; its time of day is
      discarded, so two datetimes of the same day convert alike, and alike to
      the date itself. */
  lemma MomentTakesDateBranch(dt: DateTime, other: TimeOfDay, isEnd: bool, localToUtc: DateTime -> DateTime)
    ensures ToUtc(Moment(dt), isEnd, localToUtc) == ToUtc(Day(dt.date), isEnd, localToUtc)
    ensures ToUtc(Moment(dt), isEnd, localToUtc) == ToUtc(Moment(DateTime(dt.date, other)), isEnd, localToUtc)
  {
  }

  // ---------------------------------------------------------------------
  // "YYYY-MM-DD" round trip
  // ---------------------------------------------------------------------

  function Pow10(n: nat): nat
  {
    if n == 0 then 1 else 10 * Pow10(n - 1)
  }

  /** `n` written with exactly `width` decimal digits, zero-padded. */
  function Digits(n: nat, width: nat): (s: string)
    ensures |s| == width
    ensures forall i :: 0 <= i < |s| ==> '0' <= s[i] <= '9'
  {
    if width == 0 then []
    else Digits(n / 10, width - 1) + [('0' as int + n % 10) as char]
  }

  /** `date.isoformat()`. */
  function IsoFormat(d: CalendarDate): string
  {
    Digits(d.year, 4) + ['-'] + Digits(d.month, 2) + ['-'] + Digits(d.day, 2)
  }

  lemma {:induction false} DigitsValue(n: nat, width: nat)
    requires n < Pow10(width)
    ensures NumeralValue(Digits(n, width)) == n
  {
    if width > 0 {
      var s := Digits(n, width);
      assert s[..|s| - 1] == Digits(n / 10, width - 1);
      DigitsValue(n / 10, width - 1);
    }
  }

  lemma {:induction false} SplitWithout(a: string, sep: char)
    requires sep !in a
    ensures Split(a, sep) == [a]
  {
    if a != [] {
      SplitWithout(a[1..], sep);
      assert [a[0]] + a[1..] == a;
    }
  }

  lemma {:induction false} SplitAt(a: string, sep: char, b: string)
    requires sep !in a
    ensures Split(a + [sep] + b, sep) == [a] + Split(b, sep)
  {
    var s := a + [sep] + b;
    if a == [] {
      assert s[1..] == b;
    } else {
      assert s[1..] == a[1..] + [sep] + b;
      SplitAt(a[1..], sep, b);
      assert [a[0]] + a[1..] == a;
    }
  }

  lemma SplitIso(d: CalendarDate)
    ensures Split(IsoFormat(d), '-') == [Digits(d.year, 4), Digits(d.month, 2), Digits(d.day, 2)]
  {
    var y, m, dd := Digits(d.year, 4), Digits(d.month, 2), Digits(d.day, 2);
    assert '-' !in y && '-' !in m && '-' !in dd;
    SplitAt(y, '-', m + ['-'] + dd);
    SplitAt(m, '-', dd);
    SplitWithout(dd, '-');
    assert IsoFormat(d) == y + ['-'] + (m + ['-'] + dd);
  }

  lemma ParseIntsCons(p: string, ps: seq<string>, n: int, ns: seq<int>)
    requires ParseInt(p) == Success(n) && ParseInts(ps) == Success(ns)
    ensures ParseInts([p] + ps) == Success([n] + ns)
  {
    assert ([p] + ps)[1..] == ps;
  }

  lemma DigitsParse(n: nat, width: nat)
    requires 0 < width && n < Pow10(width)
    ensures ParseInt(Digits(n, width)) == Success(n)
  {
    DigitsValue(n, width);
  }

  lemma ParseIsoParts(d: CalendarDate)
    ensures ParseInts([Digits(d.year, 4), Digits(d.month, 2), Digits(d.day, 2)]) == Success([d.year, d.month, d.day])
  {
    var y, m, dd := Digits(d.year, 4), Digits(d.month, 2), Digits(d.day, 2);
    DigitsParse(d.year, 4);
    DigitsParse(d.month, 2);
    DigitsParse(d.day, 2);
    assert ParseInts([]) == Success([]);
    ParseIntsCons(dd, [], d.day, []);
    assert [dd] + [] == [dd] && [d.day] + [] == [d.day];
    ParseIntsCons(m, [dd], d.month, [d.day]);
    assert [m] + [dd] == [m, dd] && [d.month] + [d.day] == [d.month, d.day];
    ParseIntsCons(y, [m, dd], d.year, [d.month, d.day]);
    assert [y] + [m, dd] == [y, m, dd];
    assert [d.year] + [d.month, d.day] == [d.year, d.month, d.day];
  }

  /** Lemma: the text `date.isoformat()` gives for a date is read back as that
      date, so passing either converts alike. */
  lemma IsoTextRoundTrip(d: CalendarDate, isEnd: bool, localToUtc: DateTime -> DateTime)
    ensures ParseIsoDate(IsoFormat(d)) == Success(d)
    ensures ToUtc(Text(IsoFormat(d)), isEnd, localToUtc) == ToUtc(Day(d), isEnd, localToUtc)
  {
    SplitIso(d);
    ParseIsoParts(d);
  }

  // ---------------------------------------------------------------------
  // Order of the converted bounds
  // ---------------------------------------------------------------------

  function Key(t: DateTime): seq<int>
  {
    [t.date.year, t.date.month, t.date.day, t.time.hour, t.time.minute, t.time.second, t.time.microsecond]
  }

  predicate KeyLe(a: seq<int>, b: seq<int>)
    requires |a| == |b|
  {
    a == [] || a[0] < b[0] || (a[0] == b[0] && KeyLe(a[1..], b[1..]))
  }

  /** `a <= b` for datetimes of one zone. */
  predicate NotAfter(a: DateTime, b: DateTime)
  {
    KeyLe(Key(a), Key(b))
  }

  /** Lemma: when only `to` is given and the shift to UTC keeps the order of
      local times, the range comes back as one whole day: `from` no later
      than `to`. */
  lemma OnlyToSpansOneDay(to: DateArg, localToUtc: DateTime -> DateTime)
    requires Truthy(Some(to)) && CalendarDay(to).Success?
    requires forall a, b :: NotAfter(a, b) ==> NotAfter(localToUtc(a), localToUtc(b))
    ensures ParseDateRange(None, Some(to), localToUtc).Success?
    ensures var r := ParseDateRange(None, Some(to), localToUtc).value;
      r.0.Some? && r.0.value.Moment? && r.1.Some? && r.1.value.Moment? && NotAfter(r.0.value.at, r.1.value.at)
  {
    var d := CalendarDay(to).value;
    var start, end := DateTime(d, StartOfDay), DateTime(d, EndOfDay);
    assert Key(start)[..3] == Key(end)[..3];
    assert KeyLe(Key(start)[3..], Key(end)[3..]);
    assert NotAfter(start, end);
  }
}
