/** internal/backfill/spec.go and the key resolution of internal/sensor/evaluate.go: what partition keys users and
    sensors may hand in, against the keys the system generates. */
module Backfill {
  import opened Calendar
  import opened Partition
  import opened Text

  datatype SpecError = InvalidSpec | TooManyPartitions | CategoryKeyNotDeclared | RangeRefused(error: Partition.Error)

  datatype SpecResult<+T> = Parsed(value: T) | Refused(error: SpecError)

  const DEFAULT_MAX_PARTITIONS := 3650

  // ----- Single keys -----

  /** time.Parse("2006-01", key) succeeds. */
  predicate ParsesMonth(key: string) {
    && |key| == 7 && AllDigits(key[..4]) && key[4] == '-' && AllDigits(key[5..])
    && 1 <= Value(key[5..]) <= 12
  }

  /** time.Parse("2006-01-02", key) succeeds. */
  predicate ParsesDay(key: string) {
    && |key| == 10 && ParsesMonth(key[..7]) && key[7] == '-' && AllDigits(key[8..])
    && 1 <= Value(key[8..]) <= MonthLength(Value(key[..4]), Value(key[5..7]))
  }

  /** The instant a parsed date stands for. */
  function ParsedDay(key: string): int
    requires ParsesDay(key)
  {
    DayOf(Date(Value(key[..4]), Value(key[5..7]), Value(key[8..])))
  }

  /** The structural test of validateKeyForStrategy. */
  predicate LooksWeekly(key: string) {
    |key| >= 7 && key[4] == '-' && key[5] == 'W'
  }

  /** weeklyKeyValid */
  predicate WeeklyKeyValid(key: string) {
    && |key| == 8 && AllDigits(key[..4]) && key[4] == '-' && (key[5] == 'W' || key[5] == 'w')
    && AllDigits(key[6..]) && 1 <= Value(key[6..]) <= 53
  }

  predicate ValidCategoryKey(key: string) {
    key != "" && |key| <= 128 && '/' !in key
  }

  predicate KeyAccepted(s: Strategy, key: string) {
    match s
    case Daily => ParsesDay(key)
    case Weekly => LooksWeekly(key)
    case Monthly => ParsesMonth(key)
    case Category(keys) => ValidCategoryKey(key) && key in keys
  }

  function Verdict(s: Strategy, key: string): SpecResult<()> {
    if KeyAccepted(s, key) then Parsed(())
    else if s.Category? && ValidCategoryKey(key) then Refused(CategoryKeyNotDeclared)
    else Refused(InvalidSpec)
  }

  /** validateKeyForStrategy of an asset that has a strategy. */
  method ValidateKey(s: Strategy, key: string) returns (res: SpecResult<()>)
    ensures res == Verdict(s, key)
  {
    match s {
      case Daily => if !ParsesDay(key) { return Refused(InvalidSpec); }
      case Weekly => if |key| < 7 || key[4] != '-' || key[5] != 'W' { return Refused(InvalidSpec); }
      case Monthly => if !ParsesMonth(key) { return Refused(InvalidSpec); }
      case Category(keys) =>
        if !ValidCategoryKey(key) { return Refused(InvalidSpec); }
        var found := false;
        for i := 0 to |keys|
          invariant !found && key !in keys[..i]
        {
          if keys[i] == key {
            found := true;
            break;
          }
        }
        if !found { return Refused(CategoryKeyNotDeclared); }
    }
    return Parsed(());
  }

  // ----- Generated keys -----

  /** The year of a calendar key has four digits exactly for the years 0 to 9999. */
  lemma YearTextDigits(y: int)
    ensures var s := YearText(y);
      if 0 <= y <= 9999 then |s| == 4 && AllDigits(s) && Value(s) == y
      else s[0] == '-' || (|s| > 4 && AllDigits(s))
  {
    var a := if y < 0 then -y else y;
    PaddedValue(a, 4);
    PaddedLength(a, 4);
  }

  lemma MonthTextParsesExactly(y: int, m: int)
    requires 1 <= m <= 12
    ensures ParsesMonth(MonthText(y, m)) <==> 0 <= y <= 9999
  {
    var s, t := YearText(y), "-" + TwoDigits(m);
    YearTextDigits(y);
    TwoDigitsValue(m);
    assert MonthText(y, m) == s + t;
    if 0 <= y <= 9999 {
      assert (s + t)[..4] == s && (s + t)[5..] == TwoDigits(m);
    } else if |s| > 4 && |s + t| >= 7 {
      assert (s + t)[4] == s[4];
    }
  }

  lemma DateTextParsesExactly(d: Date)
    requires ValidDate(d)
    ensures ParsesDay(DateText(d)) <==> 0 <= d.year <= 9999
    ensures ParsesDay(DateText(d)) ==> ParsedDay(DateText(d)) == DayOf(d)
  {
    var s, t := YearText(d.year), "-" + TwoDigits(d.month) + "-" + TwoDigits(d.day);
    YearTextDigits(d.year);
    TwoDigitsValue(d.month);
    TwoDigitsValue(d.day);
    var key := s + t;
    assert DateText(d) == key;
    if 0 <= d.year <= 9999 {
      assert key[..4] == s && key[5..7] == TwoDigits(d.month) && key[8..] == TwoDigits(d.day);
      assert key[..7][..4] == s && key[..7][5..] == TwoDigits(d.month);
    } else if |key| == 10 {
      assert key[..7][..4][0] == s[0];
    }
  }

  /** The sign and digits of a week year take four characters exactly for 1000..9999 and -999..-100. */
  lemma SignedLength(y: int)
    ensures |Signed(y)| == 4 <==> 1000 <= y <= 9999 || -999 <= y <= -100
    ensures forall i | 1 <= i < |Signed(y)| :: IsDigit(Signed(y)[i])
    ensures IsDigit(Signed(y)[0]) <==> y >= 0
    ensures Signed(y) != ""
  {
    var a := if y < 0 then -y else y;
    assert Pow10(2) == 100;
    DecimalValue(a);
    DecimalLength(a, 4);
    DecimalLength(a, 3);
    DecimalLength(a, 2);
  }

  /** The backfill validator takes a week key exactly if its year takes four characters, so it also takes the years
      -999 to -100; the sensor's stricter test takes 1000 to 9999 only. */
  lemma WeekTextAcceptedExactly(y: int, w: int)
    requires 1 <= w <= 53
    ensures LooksWeekly(WeekText(y, w)) <==> 1000 <= y <= 9999 || -999 <= y <= -100
    ensures WeeklyKeyValid(WeekText(y, w)) <==> 1000 <= y <= 9999
  {
    var s, t := Signed(y), "-W" + TwoDigits(w);
    SignedLength(y);
    TwoDigitsValue(w);
    var key := s + t;
    assert key == WeekText(y, w);
    if |s| == 4 {
      assert key[..4] == s && key[4] == '-' && key[5] == 'W' && key[6..] == TwoDigits(w);
      assert AllDigits(s) <==> y >= 0;
    } else if |s| > 4 {
      assert key[4] == s[4] && IsDigit(s[4]);
    } else if |s| == 3 {
      assert key[4] == t[1] == 'W';
    }
  }

  /** Which generated keys the backfill validator takes back. */
  ghost predicate YearFits(s: Strategy, n: int)
    requires TimeBased(s)
  {
    match s
    case Weekly => var y := IsoWeek(n).0; 1000 <= y <= 9999 || -999 <= y <= -100
    case _ => 0 <= DateOf(n).year <= 9999
  }

  lemma GeneratedKeyAcceptedExactly(s: Strategy, n: int)
    requires TimeBased(s)
    ensures KeyAccepted(s, KeyOf(s, n)) <==> YearFits(s, n)
  {
    match s
    case Daily =>
      DayOfItsDate(n);
      DateTextParsesExactly(DateOf(n));
    case Weekly =>
      WeekInRange(n);
      WeekTextAcceptedExactly(IsoWeek(n).0, IsoWeek(n).1);
    case Monthly => MonthTextParsesExactly(DateOf(n).year, DateOf(n).month);
  }

  // ----- Sensor runs -----

  /** resolveSensorPartitionKey of an asset that has a strategy, at instant now. */
  function ResolveSensorKey(s: Strategy, runKey: string, now: int): string {
    match s
    case Daily => if runKey != "" && ParsesDay(runKey) then runKey else KeyBefore(s, now)
    case Weekly => if runKey != "" && WeeklyKeyValid(runKey) then runKey else KeyBefore(s, now)
    case Monthly => if runKey != "" && ParsesMonth(runKey) then runKey else KeyBefore(s, now)
    case Category(keys) => if runKey == "" then "" else if runKey in keys then runKey else ""
  }

  /** A generated key of the years 1000 to 9999 is returned unchanged at any time; outside the years a test covers,
      only if it is the fallback key of that time anyway. */
  lemma SensorKeepsKeyExactly(s: Strategy, n: int, now: int)
    requires TimeBased(s)
    ensures ResolveSensorKey(s, KeyOf(s, n), now) == KeyOf(s, n)
      <==> (if s.Weekly? then 1000 <= IsoWeek(n).0 <= 9999 else 0 <= DateOf(n).year <= 9999)
           || KeyOf(s, n) == ResolveSensorKey(s, "", now)
  {
    match s
    case Daily =>
      DayOfItsDate(n);
      DateTextParsesExactly(DateOf(n));
    case Weekly =>
      WeekInRange(n);
      WeekTextAcceptedExactly(IsoWeek(n).0, IsoWeek(n).1);
    case Monthly => MonthTextParsesExactly(DateOf(n).year, DateOf(n).month);
  }

  /** The fallback is the key that a schedule firing now would carry, whose window Partition.PrecedingKeyExactly
      names. */
  lemma FallbackIsPreceding(s: Strategy, text: string, now: int)
    requires TimeBased(s)
    ensures ResolveSensorKey(s, "", now) == PrecedingKey(s, StartOfDay(now))
    ensures ResolveSensorKey(s, text, now) != text
            ==> ResolveSensorKey(s, text, now) == PrecedingKey(s, StartOfDay(now))
  {
    KeyBeforeIsPreceding(s, now);
  }

  /** An acceptable non-empty key of the run is kept and any other replaced; a category asset has no replacement, so
      its key is empty then. */
  lemma SensorKeyExactly(s: Strategy, runKey: string, now: int)
    ensures s.Category? ==> ResolveSensorKey(s, runKey, now) == if runKey in s.keys then runKey else ""
    ensures s.Daily? && ParsesDay(runKey) ==> ResolveSensorKey(s, runKey, now) == runKey
    ensures s.Weekly? && WeeklyKeyValid(runKey) ==> ResolveSensorKey(s, runKey, now) == runKey
    ensures s.Monthly? && ParsesMonth(runKey) ==> ResolveSensorKey(s, runKey, now) == runKey
  {}

  // ----- Backfill specs -----

  /** The part before the first separator and the part behind it: strings.SplitN(s, sep, 2). */
  function Cut(s: string, sep: char): (string, string)
    requires sep in s
  {
    if s[0] == sep then ("", s[1..]) else var rest := Cut(s[1..], sep); ([s[0]] + rest.0, rest.1)
  }

  function Expanded(s: Strategy, a: int, b: int): SpecResult<seq<string>> {
    match RangeOf(s, a, b)
    case Ok(keys) => Parsed(keys)
    case Err(error) => Refused(RangeRefused(error))
  }

  function RangeSpec(s: Strategy, raw: string): SpecResult<seq<string>>
    requires ':' in raw
  {
    var start, end := TrimSpace(Cut(raw, ':').0), TrimSpace(Cut(raw, ':').1);
    if !ParsesDay(start) || !ParsesDay(end) then Refused(InvalidSpec)
    else Expanded(s, ParsedDay(start), ParsedDay(end))
  }

  function AddPiece(s: Strategy, front: SpecResult<seq<string>>, piece: string): SpecResult<seq<string>> {
    var k := TrimSpace(piece);
    if front.Refused? || k == "" then front
    else if Verdict(s, k).Refused? then Refused(Verdict(s, k).error)
    else Parsed(front.value + [k])
  }

  /** The trimmed non-empty pieces if all are acceptable, else the first one's error. */
  function PiecesSpec(s: Strategy, pieces: seq<string>): SpecResult<seq<string>>
    decreases |pieces|
  {
    if |pieces| == 0 then Parsed([])
    else AddPiece(s, PiecesSpec(s, pieces[..|pieces| - 1]), pieces[|pieces| - 1])
  }

  function ListSpec(s: Strategy, raw: string): SpecResult<seq<string>> {
    var keys := PiecesSpec(s, Split(raw, ','));
    if keys == Parsed([]) then Refused(InvalidSpec) else keys
  }

  function SingleSpec(s: Strategy, raw: string): SpecResult<seq<string>> {
    if Verdict(s, raw).Parsed? then Parsed([raw]) else Refused(Verdict(s, raw).error)
  }

  function Limit(maxPartitions: int): int {
    if maxPartitions <= 0 then DEFAULT_MAX_PARTITIONS else maxPartitions
  }

  function Limited(keys: SpecResult<seq<string>>, maxPartitions: int): SpecResult<seq<string>> {
    if keys.Parsed? && |keys.value| > Limit(maxPartitions) then Refused(TooManyPartitions) else keys
  }

  function SpecOf(s: Strategy, source: string, maxPartitions: int): SpecResult<seq<string>> {
    var raw := TrimSpace(source);
    if raw == "" then Refused(InvalidSpec)
    else if ':' in raw then Limited(RangeSpec(s, raw), maxPartitions)
    else if ',' in raw then Limited(ListSpec(s, raw), maxPartitions)
    else Limited(SingleSpec(s, raw), maxPartitions)
  }

  method ParseDateRange(s: Strategy, raw: string) returns (res: SpecResult<seq<string>>)
    requires ':' in raw
    ensures res == RangeSpec(s, raw)
  {
    var start, end := TrimSpace(Cut(raw, ':').0), TrimSpace(Cut(raw, ':').1);
    if !ParsesDay(start) { return Refused(InvalidSpec); }
    if !ParsesDay(end) { return Refused(InvalidSpec); }
    WholeDay(ParsedDay(start));
    WholeDay(ParsedDay(end));
    var keys := KeysBetween(s, ParsedDay(start) * DAY, ParsedDay(end) * DAY);
    match keys
    case Ok(value) => res := Parsed(value);
    case Err(error) => res := Refused(RangeRefused(error));
  }

  lemma WholeDay(n: int)
    ensures StartOfDay(n * DAY) == n
  {}

  method CollectPieces(s: Strategy, pieces: seq<string>) returns (res: SpecResult<seq<string>>)
    ensures res == PiecesSpec(s, pieces)
  {
    var keys: seq<string> := [];
    for i := 0 to |pieces|
      invariant PiecesSpec(s, pieces[..i]) == Parsed(keys)
    {
      NextPiece(s, pieces, i);
      var k := TrimSpace(pieces[i]);
      if k != "" {
        var ok := ValidateKey(s, k);
        if ok.Refused? {
          RefusalStays(s, pieces, i + 1);
          return Refused(ok.error);
        }
        keys := keys + [k];
      }
    }
    assert pieces[..|pieces|] == pieces;
    return Parsed(keys);
  }

  lemma NextPiece(s: Strategy, pieces: seq<string>, i: nat)
    requires i < |pieces|
    ensures PiecesSpec(s, pieces[..i + 1]) == AddPiece(s, PiecesSpec(s, pieces[..i]), pieces[i])
  {
    assert pieces[..i + 1][..i] == pieces[..i];
  }

  method ParseCommaList(s: Strategy, raw: string) returns (res: SpecResult<seq<string>>)
    ensures res == ListSpec(s, raw)
  {
    res := CollectPieces(s, Split(raw, ','));
    if res == Parsed([]) { return Refused(InvalidSpec); }
  }

  lemma {:induction false} RefusalStays(s: Strategy, pieces: seq<string>, i: nat)
    requires i <= |pieces| && PiecesSpec(s, pieces[..i]).Refused?
    ensures PiecesSpec(s, pieces) == PiecesSpec(s, pieces[..i])
    decreases |pieces| - i
  {
    if i == |pieces| {
      assert pieces[..i] == pieces;
    } else {
      assert pieces[..i + 1][..i] == pieces[..i];
      RefusalStays(s, pieces, i + 1);
    }
  }

  method ParsePartitionSpec(s: Strategy, source: string, maxPartitions: int) returns (res: SpecResult<seq<string>>)
    ensures res == SpecOf(s, source, maxPartitions)
  {
    var raw := TrimSpace(source);
    if raw == "" { return Refused(InvalidSpec); }
    var max := maxPartitions;
    if max <= 0 { max := DEFAULT_MAX_PARTITIONS; }
    if ':' in raw {
      res := ParseDateRange(s, raw);
    } else if ',' in raw {
      res := ParseCommaList(s, raw);
    } else {
      var ok := ValidateKey(s, raw);
      res := if ok.Parsed? then Parsed([raw]) else Refused(ok.error);
    }
    if res.Parsed? && |res.value| > max {
      res := Refused(TooManyPartitions);
    }
  }

  // ----- Ranges and the lists of their keys -----

  /** Characters no part of the grammar gives a meaning to. */
  predicate Plain(s: string) {
    forall i | 0 <= i < |s| :: !IsSpace(s[i]) && s[i] != ',' && s[i] != ':'
  }

  predicate NoSpace(s: string) {
    forall i | 0 <= i < |s| :: !IsSpace(s[i])
  }

  lemma {:induction false} SplitAtFirst(a: string, b: string, sep: char)
    requires sep !in a
    ensures Split(a, sep) == [a]
    ensures Split(a + [sep] + b, sep) == [a] + Split(b, sep)
    ensures Cut(a + [sep] + b, sep) == (a, b)
  {
    var s := a + [sep] + b;
    if a == "" {
      assert s[1..] == b;
    } else {
      assert s[1..] == a[1..] + [sep] + b;
      SplitAtFirst(a[1..], b, sep);
      assert a == [a[0]] + a[1..];
    }
  }

  lemma {:induction false} SplitJoin(keys: seq<string>)
    requires |keys| >= 1 && forall k | k in keys :: Plain(k)
    ensures Split(Join(keys, ','), ',') == keys
    ensures NoSpace(Join(keys, ',')) && ':' !in Join(keys, ',')
    ensures ',' in Join(keys, ',') <==> |keys| > 1
    decreases |keys|
  {
    var k := keys[0];
    assert Plain(k) && ',' !in k;
    if |keys| == 1 {
      SplitAtFirst(k, "", ',');
    } else {
      SplitJoin(keys[1..]);
      SplitAtFirst(k, Join(keys[1..], ','), ',');
      assert keys == [k] + keys[1..];
      assert Join(keys, ',')[|k|] == ',';
    }
  }

  lemma {:induction false} PiecesAccepted(s: Strategy, keys: seq<string>)
    requires forall k | k in keys :: Plain(k) && k != "" && KeyAccepted(s, k)
    ensures PiecesSpec(s, keys) == Parsed(keys)
    decreases |keys|
  {
    if |keys| > 0 {
      var front, last := keys[..|keys| - 1], keys[|keys| - 1];
      assert keys == front + [last];
      assert last in keys && forall k | k in front :: k in keys;
      PiecesAccepted(s, front);
    }
  }

  /** Acceptable keys joined by commas parse back to themselves, in their order. */
  lemma ListRoundTrip(s: Strategy, keys: seq<string>, maxPartitions: int)
    requires 1 <= |keys| <= Limit(maxPartitions)
    requires forall k | k in keys :: Plain(k) && k != "" && KeyAccepted(s, k)
    ensures SpecOf(s, Join(keys, ','), maxPartitions) == Parsed(keys)
  {
    SplitJoin(keys);
    PiecesAccepted(s, keys);
    assert keys[0] in keys;
    if |keys| == 1 {
      SingleRoundTrip(s, keys[0]);
      assert keys == [keys[0]];
    } else {
      NoSpaceIsTrimmed(Join(keys, ','));
      assert ListSpec(s, Join(keys, ',')) == Parsed(keys);
    }
  }

  lemma NoSpaceIsTrimmed(raw: string)
    requires NoSpace(raw)
    ensures TrimSpace(raw) == raw
  {}

  lemma SingleRoundTrip(s: Strategy, key: string)
    requires Plain(key) && key != "" && KeyAccepted(s, key)
    ensures TrimSpace(key) == key && ',' !in key && ':' !in key && SingleSpec(s, key) == Parsed([key])
  {
    NoSpaceIsTrimmed(key);
  }

  lemma TextsArePlain(s: Strategy, n: int)
    requires TimeBased(s)
    ensures Plain(KeyOf(s, n)) && KeyOf(s, n) != ""
  {
    match s
    case Daily =>
      DayOfItsDate(n);
      DateTextIsPlain(DateOf(n));
    case Weekly =>
      WeekInRange(n);
      WeekTextIsPlain(IsoWeek(n).0, IsoWeek(n).1);
    case Monthly => MonthTextIsPlain(DateOf(n).year, DateOf(n).month);
  }

  lemma YearTextIsPlain(y: int)
    ensures Plain(YearText(y))
  {
    PaddedValue(if y < 0 then -y else y, 4);
  }

  lemma DateTextIsPlain(d: Date)
    requires ValidDate(d)
    ensures Plain(DateText(d)) && DateText(d) != ""
  {
    YearTextIsPlain(d.year);
    TwoDigitsValue(d.month);
    TwoDigitsValue(d.day);
  }

  lemma MonthTextIsPlain(y: int, m: int)
    requires 1 <= m <= 12
    ensures Plain(MonthText(y, m)) && MonthText(y, m) != ""
  {
    YearTextIsPlain(y);
    TwoDigitsValue(m);
  }

  lemma WeekTextIsPlain(y: int, w: int)
    requires 1 <= w <= 53
    ensures Plain(WeekText(y, w)) && WeekText(y, w) != ""
  {
    DecimalValue(if y < 0 then -y else y);
    TwoDigitsValue(w);
  }

  lemma RangeSpecParts(s: Strategy, x: string, y: string)
    requires Plain(x) && Plain(y) && ParsesDay(x) && ParsesDay(y)
    ensures var raw := x + [':'] + y;
      NoSpace(raw) && ':' in raw && RangeSpec(s, raw) == Expanded(s, ParsedDay(x), ParsedDay(y))
  {
    SplitAtFirst(x, y, ':');
    assert (x + [':'] + y)[|x|] == ':';
  }

  /** A range between two days of the years 0 to 9999 selects the keys of its days. */
  lemma RangeSelectsDays(s: Strategy, a: int, b: int)
    requires TimeBased(s) && a <= b && YearFits(Daily, a) && YearFits(Daily, b)
    ensures var raw := DailyKey(a) + [':'] + DailyKey(b);
      TrimSpace(raw) == raw && ':' in raw && RangeSpec(s, raw) == Parsed(WindowKeys(s, Window(s, a), Window(s, b)))
  {
    TextsArePlain(Daily, a);
    TextsArePlain(Daily, b);
    DayReadsBack(a);
    DayReadsBack(b);
    RangeSpecParts(s, DailyKey(a), DailyKey(b));
  }

  lemma DayReadsBack(n: int)
    requires YearFits(Daily, n)
    ensures ParsesDay(DailyKey(n)) && ParsedDay(DailyKey(n)) == n
  {
    DayOfItsDate(n);
    DateTextParsesExactly(DateOf(n));
  }

  /** Submitting a range and submitting the comma list of its keys select the same partitions, whenever the
      generated keys of the range are of years the validator takes back and are not too many. */
  lemma RangeAndListAgree(s: Strategy, a: int, b: int, maxPartitions: int)
    requires TimeBased(s) && a <= b && YearFits(Daily, a) && YearFits(Daily, b)
    requires forall n | a <= n <= b :: YearFits(s, n)
    ensures var keys := WindowKeys(s, Window(s, a), Window(s, b));
      |keys| <= Limit(maxPartitions) ==>
        SpecOf(s, DailyKey(a) + [':'] + DailyKey(b), maxPartitions) == Parsed(keys)
        == SpecOf(s, Join(keys, ','), maxPartitions)
  {
    var keys := WindowKeys(s, Window(s, a), Window(s, b));
    RangeSelectsDays(s, a, b);
    WindowMonotone(s, a, b);
    forall k | k in keys
      ensures Plain(k) && k != "" && KeyAccepted(s, k)
    {
      var n := RangeHasDay(s, a, b, k);
      TextsArePlain(s, n);
      GeneratedKeyAcceptedExactly(s, n);
    }
    if |keys| <= Limit(maxPartitions) {
      ListRoundTrip(s, keys, maxPartitions);
    }
  }

  // ----- What the validators take -----

  lemma DigitsOfTheirValue(s: string, width: nat)
    requires AllDigits(s) && |s| == width && (width == 2 || width == 4)
    ensures 0 <= Value(s) < Pow10(width) && s == Padded(Value(s), width)
    ensures width == 2 ==> Value(s) < 100 && s == TwoDigits(Value(s))
  {
    ValueBelow(s);
    PaddedValue(Value(s), width);
    PaddedLength(Value(s), width);
    ValueInjective(s, Padded(Value(s), width));
    if width == 2 {
      assert Pow10(2) == 100;
      TwoDigitsValue(Value(s));
      ValueInjective(s, TwoDigits(Value(s)));
    }
  }

  lemma {:induction false} ValueBelow(s: string)
    requires AllDigits(s)
    ensures Value(s) < Pow10(|s|)
    decreases |s|
  {
    if s != "" {
      ValueBelow(s[..|s| - 1]);
    }
  }

  lemma YearDigits(s: string)
    requires AllDigits(s) && |s| == 4
    ensures 0 <= Value(s) <= 9999 && s == YearText(Value(s))
  {
    DigitsOfTheirValue(s, 4);
    assert Pow10(4) == 10_000 by { assert Pow10(2) == 100; }
  }

  /** A daily key is accepted exactly if it is the generated key of a day of the years 0 to 9999, the one it is parsed
      as. */
  lemma DayKeysExactly(key: string)
    ensures ParsesDay(key) <==> exists n :: 0 <= DateOf(n).year <= 9999 && key == DailyKey(n)
    ensures ParsesDay(key) ==> key == DailyKey(ParsedDay(key)) && 0 <= DateOf(ParsedDay(key)).year <= 9999
  {
    if ParsesDay(key) {
      ParsedDayReads(key);
    }
    if n :| 0 <= DateOf(n).year <= 9999 && key == DailyKey(n) {
      DayReadsBack(n);
    }
  }

  lemma DayParts(key: string)
    requires ParsesDay(key)
    ensures key == key[..4] + ("-" + key[5..7] + "-" + key[8..])
    ensures key[..7][..4] == key[..4] && key[..7][5..] == key[5..7]
  {}

  lemma ParsedDayReads(key: string)
    requires ParsesDay(key)
    ensures key == DailyKey(ParsedDay(key)) && 0 <= DateOf(ParsedDay(key)).year <= 9999
  {
    DayParts(key);
    DatePartsRead(key[..4], key[5..7], key[8..]);
  }

  lemma DatePartsRead(y: string, m: string, d: string)
    requires |y| == 4 && |m| == 2 == |d| && AllDigits(y) && AllDigits(m) && AllDigits(d)
    requires ValidDate(Date(Value(y), Value(m), Value(d)))
    ensures var n := DayOf(Date(Value(y), Value(m), Value(d)));
      DailyKey(n) == y + ("-" + m + "-" + d) && 0 <= DateOf(n).year <= 9999
  {
    YearDigits(y);
    DigitsOfTheirValue(m, 2);
    DigitsOfTheirValue(d, 2);
    DateRoundTrip(Date(Value(y), Value(m), Value(d)));
  }

  /** A monthly key is accepted exactly if it is the generated key of a day of those years. */
  lemma MonthKeysExactly(key: string)
    ensures ParsesMonth(key) <==> exists n :: 0 <= DateOf(n).year <= 9999 && key == MonthlyKey(n)
  {
    if ParsesMonth(key) {
      var y, m := key[..4], key[5..];
      YearDigits(y);
      DigitsOfTheirValue(m, 2);
      DateRoundTrip(Date(Value(y), Value(m), 1));
      assert key == y + ("-" + m);
      assert key == MonthlyKey(DayOf(Date(Value(y), Value(m), 1)));
    }
    if n :| 0 <= DateOf(n).year <= 9999 && key == MonthlyKey(n) {
      MonthTextParsesExactly(DateOf(n).year, DateOf(n).month);
    }
  }

  /** A year of four digits and a week of two, as the sensor reads them. */
  function WeekNotation(y: int, letter: char, w: int): string
    requires 0 <= y && 0 <= w < 100
  {
    Padded(y, 4) + (['-', letter] + TwoDigits(w))
  }

  lemma WeekNotationParts(y: int, letter: char, w: int)
    requires 0 <= y <= 9999 && 0 <= w < 100
    ensures var key := WeekNotation(y, letter, w);
      && |key| == 8 && AllDigits(key[..4]) && key[4] == '-' && key[5] == letter
      && AllDigits(key[6..]) && Value(key[6..]) == w
  {
    YearTextDigits(y);
    TwoDigitsValue(w);
    TextParts(Padded(y, 4), ['-', letter], TwoDigits(w));
  }

  lemma WeekNotationRead(key: string)
    requires WeeklyKeyValid(key)
    ensures Value(key[..4]) <= 9999 && key == WeekNotation(Value(key[..4]), key[5], Value(key[6..]))
  {
    YearDigits(key[..4]);
    DigitsOfTheirValue(key[6..], 2);
    assert key == key[..4] + ([key[4], key[5]] + key[6..]);
  }

  ghost predicate IsWeekNotation(key: string, y: int, letter: char, w: int) {
    0 <= y <= 9999 && 1 <= w <= 53 && (letter == 'W' || letter == 'w') && key == WeekNotation(y, letter, w)
  }

  /** The sensor takes a weekly key exactly if it is four digits, -W or -w, and the two digits of 1 to 53. */
  lemma WeekKeysExactly(key: string)
    ensures WeeklyKeyValid(key) <==> exists y, letter, w :: IsWeekNotation(key, y, letter, w)
  {
    if WeeklyKeyValid(key) {
      WeekNotationRead(key);
      assert IsWeekNotation(key, Value(key[..4]), key[5], Value(key[6..]));
    }
    if y, letter, w :| IsWeekNotation(key, y, letter, w) {
      WeekNotationParts(y, letter, w);
    }
  }

  /** The backfill validator looks at the length of a weekly key and at its -W alone. A category key must be declared,
      not empty, of 128 characters at most and without a slash. */
  lemma OtherKeysExactly(key: string, keys: seq<string>)
    ensures KeyAccepted(Weekly, key) <==> |key| >= 7 && key[4..6] == "-W"
    ensures KeyAccepted(Category(keys), key) <==> 1 <= |key| <= 128 && '/' !in key && key in keys
  {
    if |key| >= 7 {
      assert key[4..6] == [key[4], key[5]];
    }
  }

  // ----- What a spec selects -----

  predicate PieceAccepted(s: Strategy, piece: string) {
    TrimSpace(piece) == "" || KeyAccepted(s, TrimSpace(piece))
  }

  /** The trimmed pieces that are not empty, in order. */
  function Kept(pieces: seq<string>): seq<string> {
    if pieces == [] then []
    else (if TrimSpace(pieces[0]) == "" then [] else [TrimSpace(pieces[0])]) + Kept(pieces[1..])
  }

  lemma {:induction false} KeptAppend(pieces: seq<string>, piece: string)
    ensures Kept(pieces + [piece])
         == if TrimSpace(piece) == "" then Kept(pieces) else Kept(pieces) + [TrimSpace(piece)]
    decreases |pieces|
  {
    if pieces != [] {
      assert (pieces + [piece])[1..] == pieces[1..] + [piece];
      KeptAppend(pieces[1..], piece);
    }
  }

  lemma {:induction false} PiecesParsedExactly(s: Strategy, pieces: seq<string>)
    ensures PiecesSpec(s, pieces).Parsed? <==> forall i | 0 <= i < |pieces| :: PieceAccepted(s, pieces[i])
    decreases |pieces|
  {
    if pieces != [] {
      PiecesParsedExactly(s, pieces[..|pieces| - 1]);
    }
  }

  lemma {:induction false} ParsedPiecesAreKept(s: Strategy, pieces: seq<string>)
    requires PiecesSpec(s, pieces).Parsed?
    ensures PiecesSpec(s, pieces).value == Kept(pieces)
    decreases |pieces|
  {
    if pieces != [] {
      var front, last := pieces[..|pieces| - 1], pieces[|pieces| - 1];
      ParsedPiecesAreKept(s, front);
      KeptAppend(front, last);
      assert pieces == front + [last];
    }
  }

  /** A list of acceptable pieces gives its trimmed pieces without the empty ones. */
  lemma PiecesExactly(s: Strategy, pieces: seq<string>)
    ensures PiecesSpec(s, pieces).Parsed? <==> forall i | 0 <= i < |pieces| :: PieceAccepted(s, pieces[i])
    ensures PiecesSpec(s, pieces).Parsed? ==> PiecesSpec(s, pieces).value == Kept(pieces)
  {
    PiecesParsedExactly(s, pieces);
    if PiecesSpec(s, pieces).Parsed? {
      ParsedPiecesAreKept(s, pieces);
    }
  }

  /** Any other is refused for its first unacceptable piece, with that piece's error. */
  lemma FirstRefusalDecides(s: Strategy, pieces: seq<string>, i: nat)
    requires i < |pieces| && !PieceAccepted(s, pieces[i])
    requires forall j | 0 <= j < i :: PieceAccepted(s, pieces[j])
    ensures var key := TrimSpace(pieces[i]);
      PiecesSpec(s, pieces)
        == Refused(if s.Category? && 1 <= |key| <= 128 && '/' !in key then CategoryKeyNotDeclared else InvalidSpec)
  {
    PiecesExactly(s, pieces[..i]);
    NextPiece(s, pieces, i);
    RefusalStays(s, pieces, i + 1);
  }

  lemma {:induction false} KeptAccepted(s: Strategy, pieces: seq<string>)
    requires forall i | 0 <= i < |pieces| :: PieceAccepted(s, pieces[i])
    ensures forall key | key in Kept(pieces) :: key != "" && KeyAccepted(s, key)
  {
    if pieces != [] {
      KeptAccepted(s, pieces[1..]);
    }
  }

  /** A parsed spec never exceeds its limit; a list or single key gives acceptable keys only. */
  lemma ParsedKeysAreAccepted(s: Strategy, source: string, maxPartitions: int)
    requires SpecOf(s, source, maxPartitions).Parsed?
    ensures var keys := SpecOf(s, source, maxPartitions).value;
      && 1 <= |keys| <= (if maxPartitions <= 0 then 3650 else maxPartitions)
      && (':' !in TrimSpace(source) ==> forall key | key in keys :: key != "" && KeyAccepted(s, key))
  {
    var raw := TrimSpace(source);
    if ':' in raw {
      var start, end := TrimSpace(Cut(raw, ':').0), TrimSpace(Cut(raw, ':').1);
      WindowMonotone(s, ParsedDay(start), ParsedDay(end));
    } else if ',' in raw {
      PiecesExactly(s, Split(raw, ','));
      KeptAccepted(s, Split(raw, ','));
    }
  }

  /** Which texts of each form are parsed, and to what. */
  lemma SpecExactly(s: Strategy, source: string, maxPartitions: int)
    ensures var raw, res, max := TrimSpace(source), SpecOf(s, source, maxPartitions),
                                 if maxPartitions <= 0 then 3650 else maxPartitions;
      && (raw == "" ==> res == Refused(InvalidSpec))
      && (raw != "" && ':' !in raw && ',' !in raw && KeyAccepted(s, raw) ==> res == Parsed([raw]))
      && (raw != "" && ':' !in raw && ',' !in raw && !KeyAccepted(s, raw) ==> res.Refused?)
      && (':' !in raw && ',' in raw ==>
            var pieces := Split(raw, ',');
            && (res.Parsed? <==> (forall i | 0 <= i < |pieces| :: PieceAccepted(s, pieces[i]))
                                 && 1 <= |Kept(pieces)| <= max)
            && (res.Parsed? ==> res.value == Kept(pieces)))
  {
    var raw := TrimSpace(source);
    if ':' !in raw && ',' in raw {
      PiecesExactly(s, Split(raw, ','));
    }
  }

  /** A range gives the keys of the days from the one date to the other. */
  lemma RangeKeysExactly(s: Strategy, source: string, maxPartitions: int, key: string)
    requires ':' in TrimSpace(source) && SpecOf(s, source, maxPartitions).Parsed?
    ensures var x, y := TrimSpace(Cut(TrimSpace(source), ':').0), TrimSpace(Cut(TrimSpace(source), ':').1);
      && TimeBased(s) && ParsesDay(x) && ParsesDay(y)
      && ((key in SpecOf(s, source, maxPartitions).value)
          <==> exists n :: ParsedDay(x) <= n <= ParsedDay(y) && KeyOf(s, n) == key)
  {
    var raw := TrimSpace(source);
    RangeIsExact(s, ParsedDay(TrimSpace(Cut(raw, ':').0)), ParsedDay(TrimSpace(Cut(raw, ':').1)), key);
  }

  /** It is refused for dates that are none, dates in the wrong order, and then for a strategy without windows. */
  lemma RangeRefusedExactly(s: Strategy, source: string, maxPartitions: int)
    requires ':' in TrimSpace(source)
    ensures var x, y := TrimSpace(Cut(TrimSpace(source), ':').0), TrimSpace(Cut(TrimSpace(source), ':').1);
      var res := SpecOf(s, source, maxPartitions);
      if !ParsesDay(x) || !ParsesDay(y) then res == Refused(InvalidSpec)
      else if ParsedDay(y) < ParsedDay(x) then res == Refused(RangeRefused(InvertedRange))
      else if s.Category? then res == Refused(RangeRefused(UnsupportedRangeStrategy))
      else res.Parsed? || res == Refused(TooManyPartitions)
  {}
}
