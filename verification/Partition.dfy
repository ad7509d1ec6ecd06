/** internal/partition/keygen.go: partition keys of days and of ranges of days. */
module Partition {
  import opened Calendar
  import opened Listings
  import opened Text

  datatype Strategy = Daily | Weekly | Monthly | Category(keys: seq<string>)

  datatype Error = InvertedRange | UnsupportedRangeStrategy

  datatype Result<+T> = Ok(value: T) | Err(error: Error)

  /** Nanoseconds in 24 hours; instants count nanoseconds from the start of day 0. */
  const DAY := 86_400_000_000_000

  /** UTC().Truncate(24 * time.Hour) */
  function StartOfDay(t: int): int {
    t / DAY
  }

  /** The day an instant lies in; a day has 24 hours of 3600 seconds of 1 000 000 000 nanoseconds. */
  lemma StartOfDayExactly(t: int)
    ensures StartOfDay(t) * (24 * 3600 * 1_000_000_000) <= t < (StartOfDay(t) + 1) * (24 * 3600 * 1_000_000_000)
  {}

  // ----- Keys -----

  function TwoDigits(n: int): (s: string)
    requires 0 <= n < 100
    ensures |s| == 2
  {
    [DigitOf(n / 10), DigitOf(n % 10)]
  }

  /** The layout element 2006. */
  function YearText(y: int): string {
    if y < 0 then "-" + Padded(-y, 4) else Padded(y, 4)
  }

  /** The verb %d. */
  function Signed(n: int): string {
    if n < 0 then "-" + Decimal(-n) else Decimal(n)
  }

  function DateText(d: Date): string
    requires ValidDate(d)
  {
    YearText(d.year) + ("-" + TwoDigits(d.month) + "-" + TwoDigits(d.day))
  }

  function MonthText(y: int, m: int): string
    requires 1 <= m <= 12
  {
    YearText(y) + ("-" + TwoDigits(m))
  }

  function WeekText(y: int, w: int): string
    requires 1 <= w <= 53
  {
    Signed(y) + ("-W" + TwoDigits(w))
  }

  function DailyKey(n: int): string {
    DayOfItsDate(n);
    DateText(DateOf(n))
  }

  function MonthlyKey(n: int): string {
    MonthText(DateOf(n).year, DateOf(n).month)
  }

  lemma WeekInRange(n: int)
    ensures 1 <= IsoWeek(n).1 <= 53
  {
    YearHoldsDay(MondayOf(n) + 3);
  }

  function WeeklyKey(n: int): string {
    WeekInRange(n);
    WeekText(IsoWeek(n).0, IsoWeek(n).1)
  }

  predicate TimeBased(s: Strategy) {
    !s.Category?
  }

  /** The key of the window day n lies in. */
  function KeyOf(s: Strategy, n: int): string
    requires TimeBased(s)
  {
    match s
    case Daily => DailyKey(n)
    case Weekly => WeeklyKey(n)
    case Monthly => MonthlyKey(n)
  }

  /** The windows of a strategy, numbered in time order. */
  function Window(s: Strategy, n: int): int
    requires TimeBased(s)
  {
    match s
    case Daily => n
    case Weekly => n / 7
    case Monthly => MonthIndex(n)
  }

  function FirstDay(s: Strategy, w: int): int
    requires TimeBased(s)
  {
    match s
    case Daily => w
    case Weekly => 7 * w
    case Monthly => FirstOfMonth(w)
  }

  lemma WindowBounds(s: Strategy, n: int, w: int)
    requires TimeBased(s)
    ensures Window(s, n) == w <==> FirstDay(s, w) <= n < FirstDay(s, w + 1)
  {
    if s.Monthly? {
      MonthIndexExactly(n, w);
    }
  }

  lemma WindowsGrow(s: Strategy, v: int, w: int)
    requires TimeBased(s) && v <= w
    ensures FirstDay(s, v) <= FirstDay(s, w)
  {
    if s.Monthly? {
      MonthsAdvance(v, w);
    }
  }

  lemma WindowMonotone(s: Strategy, a: int, b: int)
    requires TimeBased(s)
    ensures a <= b ==> Window(s, a) <= Window(s, b)
  {
    WindowBounds(s, a, Window(s, a));
    WindowBounds(s, b, Window(s, b));
    if Window(s, b) < Window(s, a) {
      WindowsGrow(s, Window(s, b) + 1, Window(s, a));
    }
  }

  lemma WindowOfFirstDay(s: Strategy, w: int)
    requires TimeBased(s)
    ensures Window(s, FirstDay(s, w)) == w
  {
    if s.Monthly? {
      MonthStep(w);
    }
    WindowBounds(s, FirstDay(s, w), w);
  }

  // ----- What the texts say -----

  lemma TwoDigitsValue(n: int)
    requires 0 <= n < 100
    ensures AllDigits(TwoDigits(n)) && Value(TwoDigits(n)) == n
  {
    var s := TwoDigits(n);
    assert s[..1] == [DigitOf(n / 10)] && s[..1][..0] == "";
    assert Value(s[..1]) == n / 10;
  }

  /** s is the decimal notation of n, of at least `width` digits, with a minus sign when n is negative. */
  ghost predicate Denotes(s: string, n: int, width: nat) {
    if n < 0 then |s| >= 1 + width && s[0] == '-' && AllDigits(s[1..]) && Value(s[1..]) == -n
    else |s| >= width && AllDigits(s) && Value(s) == n
  }

  lemma YearDenotes(y: int)
    ensures Denotes(YearText(y), y, 4) && Denotes(Signed(y), y, 1)
  {
    PaddedValue(if y < 0 then -y else y, 4);
    DecimalValue(if y < 0 then -y else y);
    assert y < 0 ==> YearText(y)[1..] == Padded(-y, 4) && Signed(y)[1..] == Decimal(-y);
  }

  /** A monthly key reads as the year, of four digits at least, and the month, of two, of its days. */
  lemma MonthlyKeyReads(n: int)
    ensures var key, d := MonthlyKey(n), DateOf(n); var k := |key| - 3;
      k >= 0 && Denotes(key[..k], d.year, 4) && key[k] == '-' && |key[k + 1..]| == 2
        && Denotes(key[k + 1..], d.month, 2)
  {
    var d := DateOf(n);
    DayOfItsDate(n);
    YearDenotes(d.year);
    TwoDigitsValue(d.month);
    TextParts(YearText(d.year), "-", TwoDigits(d.month));
  }

  lemma TextParts(a: string, b: string, c: string)
    ensures var s := a + (b + c); s[..|a|] == a && s[|a|..|a| + |b|] == b && s[|a| + |b|..] == c
  {}

  /** A weekly key reads as the ISO year and, behind the letter W, the two digits of the ISO week of its days. */
  lemma WeeklyKeyReads(n: int)
    ensures var key := WeeklyKey(n); var k := |key| - 4;
      && k >= 0 && Denotes(key[..k], IsoWeek(n).0, 1) && key[k] == '-' && key[k + 1] == 'W'
      && |key[k + 2..]| == 2 && Denotes(key[k + 2..], IsoWeek(n).1, 2)
  {
    WeekInRange(n);
    YearDenotes(IsoWeek(n).0);
    TwoDigitsValue(IsoWeek(n).1);
    TextParts(Signed(IsoWeek(n).0), "-W", TwoDigits(IsoWeek(n).1));
    assert WeeklyKey(n) == Signed(IsoWeek(n).0) + ("-W" + TwoDigits(IsoWeek(n).1));
  }

  /** A daily key reads as the year, month and day of its day. */
  lemma DailyKeyReads(n: int)
    ensures var key, d := DailyKey(n), DateOf(n); var k := |key| - 6;
      && k >= 0 && Denotes(key[..k], d.year, 4) && key[k] == '-' == key[k + 3]
      && Denotes(key[k + 1..k + 3], d.month, 2) && |key[k + 4..]| == 2 && Denotes(key[k + 4..], d.day, 2)
  {
    var d := DateOf(n);
    DayOfItsDate(n);
    YearDenotes(d.year);
    TwoDigitsValue(d.month);
    TwoDigitsValue(d.day);
    DayText(YearText(d.year), TwoDigits(d.month), TwoDigits(d.day));
  }

  lemma DayText(y: string, m: string, d: string)
    requires |m| == 2 && |d| == 2
    ensures var s := y + ("-" + m + "-" + d);
      s[..|y|] == y && s[|y|] == '-' == s[|y| + 3] && s[|y| + 1..|y| + 3] == m && s[|y| + 4..] == d
  {}

  // ----- Keys name windows -----

  lemma YearTextInjective(y: int, z: int)
    ensures YearText(y) == YearText(z) ==> y == z
  {
    PaddedValue(if y < 0 then -y else y, 4);
    PaddedValue(if z < 0 then -z else z, 4);
    if YearText(y) == YearText(z) {
      assert YearText(y)[0] == YearText(z)[0];
      if y < 0 && z < 0 {
        assert YearText(y)[1..] == YearText(z)[1..];
      }
    }
  }

  lemma SignedInjective(y: int, z: int)
    ensures Signed(y) == Signed(z) ==> y == z
  {
    DecimalValue(if y < 0 then -y else y);
    DecimalValue(if z < 0 then -z else z);
    if Signed(y) == Signed(z) {
      assert Signed(y)[0] == Signed(z)[0];
      if y < 0 && z < 0 {
        assert Signed(y)[1..] == Signed(z)[1..];
      }
    }
  }

  /** Equal concatenations with tails of one length have equal parts. */
  lemma SplitTails(a: string, s: string, b: string, t: string)
    requires |s| == |t| && a + s == b + t
    ensures a == b && s == t
  {
    assert |a + s| == |b + t|;
    assert a == (a + s)[..|a|] && b == (b + t)[..|b|];
    assert s == (a + s)[|a|..] && t == (b + t)[|b|..];
  }

  lemma DateTextsDiffer(d: Date, e: Date)
    requires ValidDate(d) && ValidDate(e) && DateText(d) == DateText(e)
    ensures d == e
  {
    var s, t := "-" + TwoDigits(d.month) + "-" + TwoDigits(d.day), "-" + TwoDigits(e.month) + "-" + TwoDigits(e.day);
    SplitTails(YearText(d.year), s, YearText(e.year), t);
    SplitTails("-" + TwoDigits(d.month) + "-", TwoDigits(d.day), "-" + TwoDigits(e.month) + "-", TwoDigits(e.day));
    SplitTails("-" + TwoDigits(d.month), "-", "-" + TwoDigits(e.month), "-");
    SplitTails("-", TwoDigits(d.month), "-", TwoDigits(e.month));
    YearTextInjective(d.year, e.year);
  }

  lemma DailyKeysDiffer(m: int, n: int)
    ensures DailyKey(m) == DailyKey(n) ==> m == n
  {
    DayOfItsDate(m);
    DayOfItsDate(n);
    if DailyKey(m) == DailyKey(n) {
      DateTextsDiffer(DateOf(m), DateOf(n));
    }
  }

  lemma MonthTextsDiffer(y: int, m: int, z: int, k: int)
    requires 1 <= m <= 12 && 1 <= k <= 12 && MonthText(y, m) == MonthText(z, k)
    ensures y == z && m == k
  {
    SplitTails(YearText(y), "-" + TwoDigits(m), YearText(z), "-" + TwoDigits(k));
    SplitTails("-", TwoDigits(m), "-", TwoDigits(k));
    YearTextInjective(y, z);
  }

  lemma MonthTextsCount(d: Date, e: Date)
    requires 1 <= d.month <= 12 && 1 <= e.month <= 12
    ensures MonthText(d.year, d.month) == MonthText(e.year, e.month) <==> 12 * d.year + d.month == 12 * e.year + e.month
  {
    if MonthText(d.year, d.month) == MonthText(e.year, e.month) {
      MonthTextsDiffer(d.year, d.month, e.year, e.month);
    }
  }

  lemma MonthlyKeysDiffer(m: int, n: int)
    ensures MonthlyKey(m) == MonthlyKey(n) <==> MonthIndex(m) == MonthIndex(n)
  {
    MonthTextsCount(DateOf(m), DateOf(n));
  }

  lemma WeekTextsDiffer(y: int, v: int, z: int, w: int)
    requires 1 <= v <= 53 && 1 <= w <= 53 && WeekText(y, v) == WeekText(z, w)
    ensures y == z && v == w
  {
    SplitTails(Signed(y), "-W" + TwoDigits(v), Signed(z), "-W" + TwoDigits(w));
    SplitTails("-W", TwoDigits(v), "-W", TwoDigits(w));
    SignedInjective(y, z);
  }

  lemma WeeklyKeysDiffer(m: int, n: int)
    ensures WeeklyKey(m) == WeeklyKey(n) <==> m / 7 == n / 7
  {
    WeekInRange(m);
    WeekInRange(n);
    if WeeklyKey(m) == WeeklyKey(n) {
      WeekTextsDiffer(IsoWeek(m).0, IsoWeek(m).1, IsoWeek(n).0, IsoWeek(n).1);
    }
  }

  /** Two days have one key exactly when they lie in one window, also across ISO week-year boundaries. */
  lemma KeyNamesWindow(s: Strategy, m: int, n: int)
    requires TimeBased(s)
    ensures KeyOf(s, m) == KeyOf(s, n) <==> Window(s, m) == Window(s, n)
  {
    match s
    case Daily => DailyKeysDiffer(m, n);
    case Weekly => WeeklyKeysDiffer(m, n);
    case Monthly => MonthlyKeysDiffer(m, n);
  }

  // ----- Ranges -----

  /** KeyOf, Window and FirstDay of one strategy as function values. */
  function Keys(s: Strategy): int -> string
    requires TimeBased(s)
  {
    n => KeyOf(s, n)
  }

  function Windows(s: Strategy): int -> int
    requires TimeBased(s)
  {
    n => Window(s, n)
  }

  function FirstDays(s: Strategy): int -> int
    requires TimeBased(s)
  {
    w => FirstDay(s, w)
  }

  lemma KeysAreLawful(s: Strategy)
    requires TimeBased(s)
    ensures forall m, n :: Keys(s)(m) == Keys(s)(n) <==> Windows(s)(m) == Windows(s)(n)
  {
    forall m, n
      ensures Keys(s)(m) == Keys(s)(n) <==> Windows(s)(m) == Windows(s)(n)
    {
      KeyNamesWindow(s, m, n);
    }
  }

  lemma WindowsAreLawful(s: Strategy)
    requires TimeBased(s)
    ensures forall m, n :: m <= n ==> Windows(s)(m) <= Windows(s)(n)
    ensures forall w :: Windows(s)(FirstDays(s)(w)) == w
  {
    forall m, n | m <= n
      ensures Windows(s)(m) <= Windows(s)(n)
    {
      WindowMonotone(s, m, n);
    }
    forall w
      ensures Windows(s)(FirstDays(s)(w)) == w
    {
      WindowOfFirstDay(s, w);
    }
  }

  lemma StrategiesAreLawful(s: Strategy)
    requires TimeBased(s)
    ensures Lawful(Keys(s), Windows(s), FirstDays(s))
  {
    KeysAreLawful(s);
    WindowsAreLawful(s);
  }

  /** The keys of the windows v..w, in order. */
  function WindowKeys(s: Strategy, v: int, w: int): seq<string>
    requires TimeBased(s)
  {
    Listing(Keys(s), FirstDays(s), v, w)
  }

  lemma OneMore(s: Strategy, v: int, w: int)
    requires TimeBased(s) && v <= w
    ensures WindowKeys(s, v, w) == WindowKeys(s, v, w - 1) + [KeyOf(s, FirstDay(s, w))]
  {
    assert Keys(s)(FirstDays(s)(w)) == KeyOf(s, FirstDay(s, w));
  }

  lemma OneMoreDay(v: int, n: int)
    requires v <= n
    ensures WindowKeys(Daily, v, n) == WindowKeys(Daily, v, n - 1) + [DailyKey(n)]
  {
    OneMore(Daily, v, n);
  }

  lemma OneMoreWeek(v: int, w: int)
    requires v <= w
    ensures WindowKeys(Weekly, v, w) == WindowKeys(Weekly, v, w - 1) + [WeeklyKey(7 * w)]
  {
    OneMore(Weekly, v, w);
  }

  /** isoWeekStart */
  method IsoWeekStart(n: int) returns (monday: int)
    ensures monday == 7 * (n / 7)
  {
    var weekday := Weekday(n);
    if weekday == 0 {
      weekday := 7;
    }
    var daysFromMonday := weekday - 1;
    monday := n - daysFromMonday;
  }

  method DailyKeys(start: int, end: int) returns (keys: seq<string>)
    requires start <= end
    ensures keys == WindowKeys(Daily, start, end)
  {
    keys := [];
    var cur := start;
    while cur <= end
      invariant start <= cur <= end + 1
      invariant keys == WindowKeys(Daily, start, cur - 1)
    {
      OneMoreDay(start, cur);
      keys := keys + [DailyKey(cur)];
      cur := cur + 1;
    }
  }

  method WeeklyKeys(start: int, end: int) returns (keys: seq<string>)
    requires start <= end
    ensures keys == WindowKeys(Weekly, start / 7, end / 7)
  {
    var weekStart := IsoWeekStart(start);
    keys := [];
    ghost var w := start / 7;
    while weekStart <= end
      invariant weekStart == 7 * w && start / 7 <= w <= end / 7 + 1
      invariant keys == WindowKeys(Weekly, start / 7, w - 1)
      decreases end - weekStart
    {
      OneMoreWeek(start / 7, w);
      keys := keys + [WeeklyKey(weekStart)];
      weekStart := weekStart + 7;
      w := w + 1;
    }
  }

  lemma DateOfFirst(i: int)
    ensures DateOf(FirstOfMonth(i)) == Date(i / 12, i % 12 + 1, 1)
  {
    DateRoundTrip(Date(i / 12, i % 12 + 1, 1));
  }

  lemma MonthOfFirst(i: int)
    ensures MonthIndex(FirstOfMonth(i)) == i
  {
    DateOfFirst(i);
  }

  lemma MonthAdvances(i: int)
    ensures AddMonths(FirstOfMonth(i), 1) == FirstOfMonth(i + 1)
  {
    MonthOfFirst(i);
    DateOfFirst(i);
    NextMonth(FirstOfMonth(i), i);
  }

  lemma NextMonth(n: int, i: int)
    requires MonthIndex(n) == i && DateOf(n).day == 1
    ensures AddMonths(n, 1) == FirstOfMonth(i + 1)
  {}

  lemma FirstOfItsMonth(n: int)
    ensures DayOf(Date(DateOf(n).year, DateOf(n).month, 1)) == FirstOfMonth(MonthIndex(n))
  {
    IndexParts(DateOf(n).year, DateOf(n).month);
  }

  lemma {:induction false} MonthsAdvanceStrictly(i: int, j: int)
    requires i < j
    ensures FirstOfMonth(i) < FirstOfMonth(j)
  {
    MonthStep(i);
    MonthsAdvance(i + 1, j);
  }

  method MonthlyKeysFrom(first: int, endMonth: int, ghost v: int, ghost w: int) returns (keys: seq<string>)
    requires v <= w && first == FirstOfMonth(v) && endMonth == FirstOfMonth(w)
    ensures keys == WindowKeys(Monthly, v, w)
  {
    var cur := first;
    keys := [];
    ghost var i := v;
    while cur <= endMonth
      invariant cur == FirstOfMonth(i)
      invariant v <= i <= w + 1
      invariant keys == WindowKeys(Monthly, v, i - 1)
      decreases w + 1 - i
    {
      if i > w { MonthsAdvanceStrictly(w, i); }
      OneMore(Monthly, v, i);
      keys := keys + [MonthlyKey(cur)];
      MonthAdvances(i);
      cur := AddMonths(cur, 1);
      i := i + 1;
    }
    if i <= w { MonthsAdvance(i, w); }
  }

  method MonthlyKeys(start: int, end: int) returns (keys: seq<string>)
    requires start <= end
    ensures keys == WindowKeys(Monthly, MonthIndex(start), MonthIndex(end))
  {
    var cur := DayOf(Date(DateOf(start).year, DateOf(start).month, 1));
    var endMonth := DayOf(Date(DateOf(end).year, DateOf(end).month, 1));
    FirstOfItsMonth(start);
    FirstOfItsMonth(end);
    WindowMonotone(Monthly, start, end);
    keys := MonthlyKeysFrom(cur, endMonth, MonthIndex(start), MonthIndex(end));
  }

  /** The keys of the windows that days a..b meet. */
  function RangeOf(s: Strategy, a: int, b: int): Result<seq<string>> {
    if b < a then Err(InvertedRange)
    else if s.Category? then Err(UnsupportedRangeStrategy)
    else Ok(WindowKeys(s, Window(s, a), Window(s, b)))
  }

  method KeysBetween(strategy: Strategy, start: int, end: int) returns (res: Result<seq<string>>)
    ensures res == RangeOf(strategy, StartOfDay(start), StartOfDay(end))
  {
    var startDay, endDay := StartOfDay(start), StartOfDay(end);
    if endDay < startDay {
      return Err(InvertedRange);
    }
    match strategy
    case Daily =>
      var keys := DailyKeys(startDay, endDay);
      res := Ok(keys);
    case Weekly =>
      var keys := WeeklyKeys(startDay, endDay);
      res := Ok(keys);
    case Monthly =>
      var keys := MonthlyKeys(startDay, endDay);
      res := Ok(keys);
    case Category(_) =>
      res := Err(UnsupportedRangeStrategy);
  }

  lemma RangeHasDay(s: Strategy, a: int, b: int, key: string) returns (n: int)
    requires TimeBased(s) && a <= b && key in WindowKeys(s, Window(s, a), Window(s, b))
    ensures a <= n <= b && KeyOf(s, n) == key
  {
    StrategiesAreLawful(s);
    ListingIsExact(Keys(s), Windows(s), FirstDays(s), a, b, key);
    n :| a <= n <= b && Keys(s)(n) == key;
  }

  lemma DayInRange(s: Strategy, a: int, b: int, n: int)
    requires TimeBased(s) && a <= n <= b
    ensures KeyOf(s, n) in WindowKeys(s, Window(s, a), Window(s, b))
  {
    StrategiesAreLawful(s);
    ListingIsExact(Keys(s), Windows(s), FirstDays(s), a, b, Keys(s)(n));
  }

  /** A range lists exactly the keys of its days, ... */
  lemma RangeIsExact(s: Strategy, a: int, b: int, key: string)
    requires TimeBased(s) && a <= b
    ensures key in WindowKeys(s, Window(s, a), Window(s, b)) <==> exists n :: a <= n <= b && KeyOf(s, n) == key
  {
    if key in WindowKeys(s, Window(s, a), Window(s, b)) {
      var n := RangeHasDay(s, a, b, key);
    }
    if n :| a <= n <= b && KeyOf(s, n) == key {
      DayInRange(s, a, b, n);
    }
  }

  /** ... each once and in time order: a day with an earlier key is an earlier day. */
  lemma RangeIsChronological(s: Strategy, v: int, w: int, i: nat, j: nat, m: int, n: int)
    requires TimeBased(s)
    requires var keys := WindowKeys(s, v, w);
      i < |keys| && j < |keys| && KeyOf(s, m) == keys[i] && KeyOf(s, n) == keys[j]
    ensures i < j ==> m < n
    ensures WindowKeys(s, v, w)[i] == WindowKeys(s, v, w)[j] <==> i == j
  {
    StrategiesAreLawful(s);
    ListingIsChronological(Keys(s), Windows(s), FirstDays(s), v, w, i, j, m, n);
  }

  // ----- Keys of the preceding window (schedule fires, sensor fallbacks) -----

  /** One day, seven days or one month back from day n. */
  function PrecedingDay(s: Strategy, n: int): int
    requires TimeBased(s)
  {
    match s
    case Daily => n - 1
    case Weekly => n - 7
    case Monthly => AddMonths(n, -1)
  }

  /** The key of that day. */
  function PrecedingKey(s: Strategy, n: int): string
    requires TimeBased(s)
  {
    KeyOf(s, PrecedingDay(s, n))
  }

  lemma EarlierDay(now: int, k: int)
    requires k == 1 || k == 7
    ensures StartOfDay(now - k * DAY) == StartOfDay(now) - k
  {}

  /** The day a key is computed for at instant t: CurrentDailyKey(t, 24h), WeeklyKey(t - 7 days) or
      MonthlyKey(t.AddDate(0, -1, 0)). */
  function DayBefore(s: Strategy, t: int): int
    requires TimeBased(s)
  {
    match s
    case Daily => StartOfDay(t - DAY)
    case Weekly => StartOfDay(t - 7 * DAY)
    case Monthly => AddMonths(StartOfDay(t), -1)
  }

  function KeyBefore(s: Strategy, t: int): string
    requires TimeBased(s)
  {
    KeyOf(s, DayBefore(s, t))
  }

  lemma DayBeforeIsPreceding(s: Strategy, t: int)
    requires TimeBased(s)
    ensures DayBefore(s, t) == PrecedingDay(s, StartOfDay(t))
  {
    EarlierDay(t, 1);
    EarlierDay(t, 7);
  }

  lemma KeyBeforeIsPreceding(s: Strategy, t: int)
    requires TimeBased(s)
    ensures KeyBefore(s, t) == PrecedingKey(s, StartOfDay(t))
  {
    DayBeforeIsPreceding(s, t);
  }

  /** Day n's number is one the month before n's does not have. */
  predicate Overflows(n: int) {
    DateOf(n).day > LengthOfMonth(MonthIndex(n) - 1)
  }

  /** The window that day lies in: the one before n's, except that AddDate overflows into n's own month when the month
      before has no day of n's number. */
  function PrecedingWindow(s: Strategy, n: int): int
    requires TimeBased(s)
  {
    if s.Monthly? && Overflows(n) then Window(s, n) else Window(s, n) - 1
  }

  lemma OverflowExactly(m: int, w: int, day: int)
    requires m == FirstOfMonth(w) + day - 1 && 1 <= day <= 31
    ensures MonthIndex(m) == if day <= LengthOfMonth(w) then w else w + 1
  {
    MonthStep(w);
    MonthStep(w + 1);
    MonthIndexExactly(m, w);
    MonthIndexExactly(m, w + 1);
  }

  lemma DayWithinMonth(n: int)
    ensures 1 <= DateOf(n).day <= 31 && DateOf(n).day == n - FirstOfMonth(MonthIndex(n)) + 1
  {
    DayOfItsDate(n);
    FirstOfItsMonth(n);
  }

  lemma PrecedingMonth(n: int)
    ensures MonthIndex(AddMonths(n, -1)) == if Overflows(n) then MonthIndex(n) else MonthIndex(n) - 1
  {
    DayWithinMonth(n);
    OverflowExactly(AddMonths(n, -1), MonthIndex(n) - 1, DateOf(n).day);
  }

  lemma PrecedingWindowExactly(s: Strategy, n: int)
    requires TimeBased(s)
    ensures Window(s, PrecedingDay(s, n)) == PrecedingWindow(s, n)
  {
    if s.Monthly? {
      PrecedingMonth(n);
    }
  }

  lemma OverflowsAt(n: int, i: int)
    requires MonthIndex(n) == i
    ensures Overflows(n) <==> n - FirstOfMonth(i) >= LengthOfMonth(i - 1)
  {
    DayWithinMonth(n);
  }

  lemma OverflowStays(m: int, n: int, i: int)
    requires m <= n && MonthIndex(m) == i == MonthIndex(n) && Overflows(m)
    ensures Overflows(n)
  {
    OverflowsAt(m, i);
    OverflowsAt(n, i);
  }

  /** The key is that of the window named; later days never name earlier windows, and two days share a key exactly
      when they name one window. */
  lemma PrecedingKeyExactly(s: Strategy, m: int, n: int)
    requires TimeBased(s)
    ensures PrecedingKey(s, n) == KeyOf(s, FirstDay(s, PrecedingWindow(s, n)))
    ensures PrecedingKey(s, m) == PrecedingKey(s, n) <==> PrecedingWindow(s, m) == PrecedingWindow(s, n)
    ensures m <= n ==> PrecedingWindow(s, m) <= PrecedingWindow(s, n)
  {
    PrecedingWindowExactly(s, m);
    PrecedingWindowExactly(s, n);
    WindowOfFirstDay(s, PrecedingWindow(s, n));
    KeyNamesWindow(s, PrecedingDay(s, n), FirstDay(s, PrecedingWindow(s, n)));
    KeyNamesWindow(s, PrecedingDay(s, m), PrecedingDay(s, n));
    PrecedingWindowGrows(s, m, n);
  }

  lemma PrecedingWindowGrows(s: Strategy, m: int, n: int)
    requires TimeBased(s)
    ensures m <= n ==> PrecedingWindow(s, m) <= PrecedingWindow(s, n)
  {
    WindowMonotone(s, m, n);
    if m <= n && s.Monthly? && MonthIndex(m) == MonthIndex(n) && Overflows(m) {
      OverflowStays(m, n, MonthIndex(m));
    }
  }
}
