/** internal/schedule/missed.go and fire.go: missed-window accounting of the cron scheduler. A cron expression is known
    by its Next function only; instants count nanoseconds as in Partition. */
module Schedule {
  import opened Calendar
  import opened Options
  import opened Partition

  /** Next(t) is the least window after t: it is after t, and no window lies in between. */
  ghost predicate IsCron(next: int -> int) {
    && (forall t :: t < next(t))
    && (forall t, u :: t <= u < next(t) ==> next(u) == next(t))
  }

  predicate IsWindow(next: int -> int, w: int) {
    next(w - 1) == w
  }

  /** The windows in (a, b]. */
  ghost function WindowsIn(next: int -> int, a: int, b: int): set<int> {
    set w | a < w <= b && IsWindow(next, w)
  }

  lemma NextIsWindow(next: int -> int, t: int)
    requires IsCron(next)
    ensures IsWindow(next, next(t))
    ensures forall w | t < w < next(t) :: !IsWindow(next, w)
  {
    assert t <= next(t) - 1 < next(t);
    forall w | t < w < next(t)
      ensures !IsWindow(next, w)
    {
      assert t <= w - 1 < next(t);
    }
  }

  /** Walking to the next window uses up exactly one. */
  lemma OneWindowLess(next: int -> int, a: int, b: int)
    requires IsCron(next)
    ensures next(a) > b ==> WindowsIn(next, a, b) == {}
    ensures next(a) <= b ==> |WindowsIn(next, a, b)| == 1 + |WindowsIn(next, next(a), b)|
  {
    NextIsWindow(next, a);
    if next(a) <= b {
      var rest := WindowsIn(next, next(a), b);
      assert WindowsIn(next, a, b) == {next(a)} + rest;
      assert next(a) !in rest;
    }
  }

  lemma SplitWindows(next: int -> int, a: int, b: int, c: int)
    requires a <= b <= c
    ensures |WindowsIn(next, a, c)| == |WindowsIn(next, a, b)| + |WindowsIn(next, b, c)|
  {
    var x, y := WindowsIn(next, a, b), WindowsIn(next, b, c);
    assert WindowsIn(next, a, c) == x + y;
    assert x !! y;
  }

  // ----- The latest window and the missed ones -----

  /** time.Unix(0, 0) */
  const EPOCH := 719162 * DAY

  lemma EpochIs1970()
    ensures EPOCH == DAY * DayOf(Date(1970, 1, 1))
  {
    CycleForm(1970);
  }

  /** now.AddDate(-1, 0, 0) */
  function YearBefore(now: int): int {
    DAY * AddMonths(StartOfDay(now), -12) + now % DAY
  }

  /** The same time of day twelve months back: the same day of the month, except that 29 February becomes 1 March. */
  lemma YearBeforeExactly(now: int)
    ensures var d, e := DateOf(StartOfDay(now)), DateOf(StartOfDay(YearBefore(now)));
      && YearBefore(now) % DAY == now % DAY
      && e == if d.month == 2 && d.day == 29 then Date(d.year - 1, 3, 1) else Date(d.year - 1, d.month, d.day)
  {
    SameTimeOfDay(now, AddMonths(StartOfDay(now), -12));
    YearEarlier(StartOfDay(now));
  }

  lemma SameTimeOfDay(now: int, n: int)
    ensures (DAY * n + now % DAY) / DAY == n && (DAY * n + now % DAY) % DAY == now % DAY
  {}

  lemma YearBeforeIsBefore(now: int)
    ensures YearBefore(now) <= now
  {
    EarlierMonth(StartOfDay(now), 12);
  }

  lemma EarlierMonth(n: int, k: int)
    requires k >= 0
    ensures AddMonths(n, -k) <= n
  {
    DayWithinMonth(n);
    NoLater(MonthIndex(n), k);
  }

  lemma NoLater(i: int, k: int)
    requires k >= 0
    ensures FirstOfMonth(i + -k) <= FirstOfMonth(i)
  {
    MonthsAdvance(i + -k, i);
  }

  /** A zero or pre-epoch last fire counts as never fired. */
  predicate NeverFired(last: int) {
    last < EPOCH
  }

  function WalkStart(last: int, now: int): int {
    if NeverFired(last) then YearBefore(now) else last
  }

  /** window is the greatest one not after now. */
  ghost predicate IsLatest(next: int -> int, window: int, now: int) {
    IsWindow(next, window) && window <= now < next(window)
  }

  /** What the walk returns: the next window if none has come since `from`, else the latest one, and for a row fired
      before the number of windows it skips. */
  ghost predicate Walked(next: int -> int, last: int, from: int, now: int, window: int, missed: int) {
    if next(from) > now then window == next(from) && missed == 0
    else IsLatest(next, window, now) && window > from
         && missed == if NeverFired(last) then 0 else |WindowsIn(next, last, now)| - 1
  }

  /** A walk that starts in the past and finds nothing due returns the next window, and a row never fired is walked
      from a year back. */
  lemma NothingDueYet(next: int -> int, last: int, now: int, window: int, missed: int)
    requires IsCron(next) && Walked(next, last, WalkStart(last, now), now, window, missed)
    ensures window > now && (NeverFired(last) || last <= now) ==> window == next(now)
  {
    if NeverFired(last) {
      YearBeforeIsBefore(now);
    }
  }

  method ComputeNextAndDetectMiss(next: int -> int, last: int, now: int) returns (window: int, missed: int)
    requires IsCron(next)
    ensures Walked(next, last, WalkStart(last, now), now, window, missed)
    ensures window > now && (NeverFired(last) || last <= now) ==> window == next(now)
  {
    if last < EPOCH {
      var seed := YearBefore(now);
      var candidate := next(seed);
      NextIsWindow(next, seed);
      if candidate > now {
        NothingDueYet(next, last, now, candidate, 0);
        return candidate, 0;
      }
      while true
        invariant seed < candidate <= now && IsWindow(next, candidate)
        decreases now - candidate
      {
        var n := next(candidate);
        NextIsWindow(next, candidate);
        if n > now {
          return candidate, 0;
        }
        candidate := n;
      }
    }
    var candidate := next(last);
    NextIsWindow(next, last);
    if candidate > now {
      NothingDueYet(next, last, now, candidate, 0);
      return candidate, 0;
    }
    missed := 0;
    OneWindowLess(next, last, now);
    while true
      invariant last < candidate <= now && IsWindow(next, candidate)
      invariant |WindowsIn(next, last, now)| == 1 + missed + |WindowsIn(next, candidate, now)|
      decreases now - candidate
    {
      var n := next(candidate);
      NextIsWindow(next, candidate);
      OneWindowLess(next, candidate, now);
      if n > now {
        return candidate, missed;
      }
      missed := missed + 1;
      candidate := n;
    }
  }

  /** There is one latest window. */
  lemma LatestIsUnique(next: int -> int, v: int, w: int, now: int)
    requires IsCron(next) && IsLatest(next, v, now) && IsLatest(next, w, now)
    ensures v == w
  {
    assert v < w ==> next(w - 1) == next(v);
    assert w < v ==> next(v - 1) == next(w);
  }

  // ----- Partition keys of fires -----

  /** computeFirePartitionKey of a registered asset with this strategy. */
  function FireKey(strategy: Option<Strategy>, window: int): string {
    match strategy
    case None => ""
    case Some(Category(keys)) => if |keys| == 0 then "" else keys[0]
    case Some(s) => KeyBefore(s, window)
  }

  /** An unregistered asset and one without declared keys fire with the empty key, a category asset with its first
      declared key, and any other with the key of one day, one week or one month before the window's day. */
  lemma FireKeyExactly(strategy: Option<Strategy>, window: int)
    ensures strategy.None? ==> FireKey(strategy, window) == ""
    ensures strategy == Some(Category([])) ==> FireKey(strategy, window) == ""
    ensures forall key, rest :: FireKey(Some(Category([key] + rest)), window) == key
    ensures FireKey(Some(Daily), window) == DailyKey(StartOfDay(window) - 1)
    ensures FireKey(Some(Weekly), window) == WeeklyKey(StartOfDay(window) - 7)
    ensures FireKey(Some(Monthly), window) == MonthlyKey(AddMonths(StartOfDay(window), -1))
  {
    DayBeforeIsPreceding(Daily, window);
    DayBeforeIsPreceding(Weekly, window);
    DayBeforeIsPreceding(Monthly, window);
  }

  // ----- Firing -----

  /** A run inserted by a fire, the missed count reported with it, and the two clocks' readings. */
  datatype Fire = Fire(window: int, key: string, missed: int, at: int, db: int)

  /** A schedules row and the fires committed for it. */
  datatype State = State(last: Option<int>, nextAt: Option<int>, paused: bool, fires: seq<Fire>)

  /** A tick: the scheduler's clock, the database's NOW(), and whether insert and commit succeed. */
  datatype Tick = Tick(now: int, dbNow: int, succeeds: bool)

  predicate Due(s: State, now: int) {
    s.nextAt.Some? && s.nextAt.value <= now && !s.paused
  }

  function LastOrZero(s: State): int {
    if s.last.Some? then s.last.value else 0
  }

  /** What FireOneSchedule leaves of a due row, given what the walk returned and the partition key. */
  function AfterFire(next: int -> int, s: State, t: Tick, window: int, missed: int, key: string): State {
    if !t.succeeds then s
    else if window > t.now then s.(nextAt := Some(window))
    else State(Some(t.dbNow), Some(next(t.now)), s.paused, s.fires + [Fire(window, key, missed, t.now, t.dbNow)])
  }

  ghost predicate Fired(next: int -> int, strategy: Option<Strategy>, s: State, t: Tick, after: State) {
    if !Due(s, t.now) then after == s
    else exists window, missed ::
      && Walked(next, LastOrZero(s), WalkStart(LastOrZero(s), t.now), t.now, window, missed)
      && after == AfterFire(next, s, t, window, missed, FireKey(strategy, window))
  }

  class ScheduleRow {
    const next: int -> int
    const strategy: Option<Strategy>
    var last: Option<int>
    var nextAt: Option<int>
    var paused: bool
    var fires: seq<Fire>

    constructor (next: int -> int, strategy: Option<Strategy>, nextAt: Option<int>)
      ensures this.next == next && this.strategy == strategy && Value() == State(None, nextAt, false, [])
    {
      this.next, this.strategy, this.nextAt := next, strategy, nextAt;
      last, paused, fires := None, false, [];
    }

    function Value(): State
      reads this
    {
      State(last, nextAt, paused, fires)
    }

    /** FireOneSchedule on this row; false is ErrNoDueSchedule or a rolled-back transaction. */
    method FireOne(t: Tick) returns (ok: bool)
      requires IsCron(next)
      modifies this`last, this`nextAt, this`fires
      ensures ok <==> Due(old(Value()), t.now) && t.succeeds
      ensures Fired(next, strategy, old(Value()), t, Value())
    {
      ghost var s := Value();
      if nextAt.None? || nextAt.value > t.now || paused {
        return false;
      }
      var lf := 0;
      if last.Some? {
        lf := last.value;
      }
      var window, missed := ComputeNextAndDetectMiss(next, lf, t.now);
      assert Walked(next, LastOrZero(s), WalkStart(LastOrZero(s), t.now), t.now, window, missed);
      if window > t.now {
        if !t.succeeds { return false; }
        nextAt := Some(window);
        assert Value() == AfterFire(next, s, t, window, missed, FireKey(strategy, window));
        return true;
      }
      var nextFire := next(t.now);
      var key := FireKey(strategy, window);
      if !t.succeeds { return false; }
      fires := fires + [Fire(window, key, missed, t.now, t.dbNow)];
      last, nextAt := Some(t.dbNow), Some(nextFire);
      assert Value() == AfterFire(next, s, t, window, missed, key);
      return true;
    }
  }

  // ----- Whole histories -----

  /** states[i + 1] is what a fire at ticks[i] may leave of states[i]; before it, someone may pause or resume the
      row. */
  ghost predicate FiredAt(next: int -> int, strategy: Option<Strategy>, states: seq<State>, ticks: seq<Tick>, i: nat)
    requires i < |ticks| && |states| == |ticks| + 1
  {
    exists paused :: Fired(next, strategy, states[i].(paused := paused), ticks[i], states[i + 1])
  }

  ghost predicate IsHistory(next: int -> int, strategy: Option<Strategy>, states: seq<State>, ticks: seq<Tick>) {
    && |states| == |ticks| + 1
    && states[0].last.None? && states[0].fires == []
    && forall i | 0 <= i < |ticks| :: FiredAt(next, strategy, states, ticks, i)
  }

  function Missed(fires: seq<Fire>): int
    decreases |fires|
  {
    if |fires| == 0 then 0 else Missed(fires[..|fires| - 1]) + fires[|fires| - 1].missed
  }

  ghost predicate Increasing(fires: seq<Fire>) {
    forall i, j | 0 <= i < j < |fires| :: fires[i].window < fires[j].window
  }

  /** The windows between a fire's two readings: NOW() after `now` loses them, before it counts them again. */
  ghost function Skew(next: int -> int, f: Fire): int {
    if f.at <= f.db then |WindowsIn(next, f.at, f.db)| else -|WindowsIn(next, f.db, f.at)|
  }

  ghost function Skews(next: int -> int, fires: seq<Fire>): int
    decreases |fires|
  {
    if |fires| == 0 then 0 else Skews(next, fires[..|fires| - 1]) + Skew(next, fires[|fires| - 1])
  }

  ghost predicate NoWindowBetween(next: int -> int, f: Fire) {
    forall w | IsWindow(next, w) :: !(f.at < w <= f.db) && !(f.db < w <= f.at)
  }

  /** g fires a window later than anything f's clocks read, and reports the others since f's NOW(). */
  ghost predicate Follows(next: int -> int, f: Fire, g: Fire) {
    f.at < g.window && f.db < g.window && g.missed == |WindowsIn(next, f.db, g.at)| - 1
  }

  ghost predicate FollowsAt(next: int -> int, fires: seq<Fire>, i: int)
    requires 0 < i < |fires|
  {
    Follows(next, fires[i - 1], fires[i])
  }

  /** Every fire takes the latest window of its time and follows on the one before. */
  ghost predicate Chained(next: int -> int, fires: seq<Fire>) {
    && (forall i | 0 <= i < |fires| :: IsLatest(next, fires[i].window, fires[i].at))
    && (forall i | 0 < i < |fires| :: FollowsAt(next, fires, i))
    && (fires != [] ==> fires[0].missed == 0)
  }

  /** The row is due again at the first window after the last fire; a tick that finds NOW() to be beyond that window
      rolls on to the first one after NOW(). */
  ghost predicate NextKept(next: int -> int, f: Fire, nextAt: Option<int>) {
    nextAt == Some(next(f.at)) || (nextAt == Some(next(f.db)) && next(f.at) <= f.db)
  }

  ghost predicate Tracked(next: int -> int, s: State) {
    && Chained(next, s.fires)
    && (s.last.None? <==> s.fires == [])
    && (s.fires != [] ==>
      var f := s.fires[|s.fires| - 1]; s.last == Some(f.db) && EPOCH <= f.db && NextKept(next, f, s.nextAt))
  }

  lemma LatestIsAlone(next: int -> int, window: int, now: int)
    requires IsCron(next) && IsLatest(next, window, now)
    ensures |WindowsIn(next, window - 1, now)| == 1
  {
    NextIsWindow(next, window);
    assert WindowsIn(next, window - 1, now) == {window};
  }

  lemma ChainGrows(next: int -> int, fires: seq<Fire>, g: Fire)
    requires Chained(next, fires) && IsLatest(next, g.window, g.at)
    requires if fires == [] then g.missed == 0 else Follows(next, fires[|fires| - 1], g)
    ensures Chained(next, fires + [g])
  {
    forall i | 0 < i < |fires + [g]|
      ensures FollowsAt(next, fires + [g], i)
    {
      if i < |fires| { assert FollowsAt(next, fires, i); }
    }
  }

  /** A fire that follows on the last one, or is the first. */
  lemma FireExtends(next: int -> int, s: State, t: Tick, window: int, missed: int, key: string)
    requires Tracked(next, s) && EPOCH <= t.dbNow && t.succeeds && IsLatest(next, window, t.now)
    requires if s.fires == [] then missed == 0
             else s.fires[|s.fires| - 1].at < window && s.fires[|s.fires| - 1].db < window
                  && missed == |WindowsIn(next, s.fires[|s.fires| - 1].db, t.now)| - 1
    ensures Tracked(next, AfterFire(next, s, t, window, missed, key))
  {
    ChainGrows(next, s.fires, Fire(window, key, missed, t.now, t.dbNow));
  }

  lemma FirstFire(next: int -> int, s: State, t: Tick, from: int, window: int, missed: int, key: string)
    requires Tracked(next, s) && s.fires == [] && EPOCH <= t.dbNow
    requires Walked(next, 0, from, t.now, window, missed)
    ensures Tracked(next, AfterFire(next, s, t, window, missed, key))
  {
    if t.succeeds && window <= t.now {
      FireExtends(next, s, t, window, missed, key);
    }
  }

  /** A due row's next window has come, so the latest one is after both readings of the last fire, or NOW() was ahead
      of every window that has come. */
  lemma DueSince(next: int -> int, f: Fire, nextAt: int, now: int, window: int, missed: int)
    requires IsCron(next) && NextKept(next, f, Some(nextAt)) && nextAt <= now && EPOCH <= f.db
    requires Walked(next, f.db, f.db, now, window, missed)
    ensures next(f.db) > now ==> window == next(f.db) && next(f.at) <= f.db
    ensures next(f.db) <= now ==> IsLatest(next, window, now) && f.at < window && f.db < window
                                  && missed == |WindowsIn(next, f.db, now)| - 1
  {
    NextIsWindow(next, f.at);
    if next(f.db) <= now {
      assert next(f.at) <= now;
      assert window < next(f.at) ==> next(window) == next(next(f.at) - 1);
    }
  }

  lemma LaterFire(next: int -> int, s: State, t: Tick, window: int, missed: int, key: string)
    requires IsCron(next) && Tracked(next, s) && s.fires != [] && EPOCH <= t.dbNow && Due(s, t.now)
    requires Walked(next, s.last.value, s.last.value, t.now, window, missed)
    ensures Tracked(next, AfterFire(next, s, t, window, missed, key))
  {
    DueSince(next, s.fires[|s.fires| - 1], s.nextAt.value, t.now, window, missed);
    if t.succeeds && window <= t.now {
      FireExtends(next, s, t, window, missed, key);
    }
  }

  lemma FireKeepsTrack(next: int -> int, strategy: Option<Strategy>, s: State, t: Tick, after: State)
    requires IsCron(next) && Tracked(next, s) && Fired(next, strategy, s, t, after) && EPOCH <= t.dbNow
    ensures Tracked(next, after)
  {
    if Due(s, t.now) {
      var window, missed :| Walked(next, LastOrZero(s), WalkStart(LastOrZero(s), t.now), t.now, window, missed)
        && after == AfterFire(next, s, t, window, missed, FireKey(strategy, window));
      if s.fires == [] {
        FirstFire(next, s, t, WalkStart(0, t.now), window, missed, FireKey(strategy, window));
      } else {
        LaterFire(next, s, t, window, missed, FireKey(strategy, window));
      }
    }
  }

  lemma PrefixOfHistory(next: int -> int, strategy: Option<Strategy>, states: seq<State>, ticks: seq<Tick>)
    requires IsHistory(next, strategy, states, ticks) && |ticks| > 0
    ensures IsHistory(next, strategy, states[..|ticks|], ticks[..|ticks| - 1])
    ensures FiredAt(next, strategy, states, ticks, |ticks| - 1)
  {
    var before, front := states[..|ticks|], ticks[..|ticks| - 1];
    forall i | 0 <= i < |front|
      ensures FiredAt(next, strategy, before, front, i)
    {
      assert FiredAt(next, strategy, states, ticks, i);
      SameFire(next, strategy, states, ticks, before, front, i);
    }
  }

  lemma SameFire(next: int -> int, strategy: Option<Strategy>, states: seq<State>, ticks: seq<Tick>,
                 before: seq<State>, front: seq<Tick>, i: nat)
    requires |states| == |ticks| + 1 && |before| == |front| + 1 && i < |front| && i < |ticks|
    requires before[i] == states[i] && front[i] == ticks[i] && before[i + 1] == states[i + 1]
    requires FiredAt(next, strategy, states, ticks, i)
    ensures FiredAt(next, strategy, before, front, i)
  {}

  lemma {:induction false} HistoryIsTracked(next: int -> int, strategy: Option<Strategy>, states: seq<State>,
                                            ticks: seq<Tick>)
    requires IsCron(next) && IsHistory(next, strategy, states, ticks) && forall t | t in ticks :: EPOCH <= t.dbNow
    ensures Tracked(next, states[|ticks|])
    decreases |ticks|
  {
    if |ticks| > 0 {
      var n := |ticks| - 1;
      PrefixOfHistory(next, strategy, states, ticks);
      HistoryIsTracked(next, strategy, states[..|ticks|], ticks[..n]);
      var paused :| Fired(next, strategy, states[n].(paused := paused), ticks[n], states[n + 1]);
      FireKeepsTrack(next, strategy, states[n].(paused := paused), ticks[n], states[n + 1]);
    }
  }

  // ----- Accounting -----

  lemma ChainPrefix(next: int -> int, fires: seq<Fire>, n: nat)
    requires Chained(next, fires) && n <= |fires|
    ensures Chained(next, fires[..n])
  {
    forall i | 0 < i < n
      ensures FollowsAt(next, fires[..n], i)
    {
      assert FollowsAt(next, fires, i);
    }
  }

  lemma {:induction false} ChainIncreases(next: int -> int, fires: seq<Fire>)
    requires Chained(next, fires)
    ensures Increasing(fires)
    decreases |fires|
  {
    if |fires| > 1 {
      var n := |fires| - 1;
      ChainPrefix(next, fires, n);
      ChainIncreases(next, fires[..n]);
      assert FollowsAt(next, fires, n);
      forall i | 0 <= i < n
        ensures fires[i].window < fires[n].window
      {
        assert fires[..n][i].window <= fires[..n][n - 1].window;
      }
    }
  }

  /** From one fire to the next: the windows between their times are the skew of the first, the window fired second
      and the ones it reports missed. */
  lemma WindowsToNextFire(next: int -> int, f: Fire, g: Fire)
    requires Follows(next, f, g) && g.window <= g.at
    ensures |WindowsIn(next, f.at, g.at)| == Skew(next, f) + 1 + g.missed
  {
    if f.at <= f.db {
      SplitWindows(next, f.at, f.db, g.at);
    } else {
      SplitWindows(next, f.db, f.at, g.at);
    }
  }

  ghost function WindowsUpTo(next: int -> int, fires: seq<Fire>): set<int>
    requires fires != []
  {
    WindowsIn(next, fires[0].window - 1, fires[|fires| - 1].at)
  }

  /** The account: fires, reported windows and skews make up the windows so far. */
  ghost predicate Balanced(next: int -> int, fires: seq<Fire>)
    requires fires != []
  {
    |fires| + Missed(fires) + Skews(next, fires[..|fires| - 1]) == |WindowsUpTo(next, fires)|
  }

  lemma FirstBalance(next: int -> int, f: Fire)
    requires IsCron(next) && IsLatest(next, f.window, f.at) && f.missed == 0
    ensures Balanced(next, [f])
  {
    LatestIsAlone(next, f.window, f.at);
    assert [f][..0] == [];
    assert Missed([f]) == Missed([]) + 0;
  }

  lemma BalanceGrows(next: int -> int, fires: seq<Fire>, g: Fire)
    requires fires != [] && Balanced(next, fires) && fires[0].window - 1 <= fires[|fires| - 1].at
    requires Follows(next, fires[|fires| - 1], g) && g.window <= g.at
    ensures Balanced(next, fires + [g])
  {
    var n, f := |fires|, fires[|fires| - 1];
    assert (fires + [g])[..n] == fires;
    WindowsToNextFire(next, f, g);
    SplitWindows(next, fires[0].window - 1, f.at, g.at);
  }

  lemma {:induction false} ChainBalance(next: int -> int, fires: seq<Fire>)
    requires IsCron(next) && Chained(next, fires) && fires != []
    ensures Balanced(next, fires)
    decreases |fires|
  {
    var n := |fires| - 1;
    assert fires == fires[..n] + [fires[n]];
    if n == 0 {
      FirstBalance(next, fires[0]);
    } else {
      ChainPrefix(next, fires, n);
      ChainBalance(next, fires[..n]);
      ChainIncreases(next, fires);
      assert FollowsAt(next, fires, n);
      BalanceGrows(next, fires[..n], fires[n]);
    }
  }

  /** The first n + 1 fires and what they report are together all windows from the first fired one to fire n's time. */
  ghost predicate CountsAll(next: int -> int, fires: seq<Fire>, n: nat)
    requires n < |fires|
  {
    n + 1 + Missed(fires[..n + 1]) == |WindowsIn(next, fires[0].window - 1, fires[n].at)|
  }

  lemma NoSkewExactly(next: int -> int, f: Fire)
    ensures Skew(next, f) == 0 <==> NoWindowBetween(next, f)
  {
    var lost, again := WindowsIn(next, f.at, f.db), WindowsIn(next, f.db, f.at);
    if Skew(next, f) == 0 {
      forall w | IsWindow(next, w)
        ensures !(f.at < w <= f.db) && !(f.db < w <= f.at)
      {
        assert w !in (if f.at <= f.db then lost else again);
      }
    } else {
      var w :| w in (if f.at <= f.db then lost else again);
    }
  }

  lemma {:induction false} NoSkewsExactly(next: int -> int, fires: seq<Fire>, m: nat)
    requires m <= |fires|
    ensures (forall n | 0 <= n <= m :: Skews(next, fires[..n]) == 0)
            <==> forall k | 0 <= k < m :: Skew(next, fires[k]) == 0
  {
    if m > 0 {
      NoSkewsExactly(next, fires, m - 1);
      assert fires[..m][..m - 1] == fires[..m - 1];
      assert Skews(next, fires[..m]) == Skews(next, fires[..m - 1]) + Skew(next, fires[m - 1]);
    }
  }

  lemma CountsAllAt(next: int -> int, fires: seq<Fire>, n: nat)
    requires IsCron(next) && Chained(next, fires) && n < |fires|
    ensures CountsAll(next, fires, n) <==> Skews(next, fires[..n]) == 0
  {
    ChainPrefix(next, fires, n + 1);
    ChainBalance(next, fires[..n + 1]);
    CountsAllBySkews(next, fires, n);
  }

  lemma CountsAllBySkews(next: int -> int, fires: seq<Fire>, n: nat)
    requires n < |fires| && Balanced(next, fires[..n + 1])
    ensures CountsAll(next, fires, n) <==> Skews(next, fires[..n]) == 0
  {
    assert fires[..n + 1][..n] == fires[..n];
  }

  lemma CountsAllExactly(next: int -> int, fires: seq<Fire>)
    requires IsCron(next) && Chained(next, fires) && fires != []
    ensures (forall n | 0 <= n < |fires| :: CountsAll(next, fires, n))
            <==> forall k | 0 <= k < |fires| - 1 :: NoWindowBetween(next, fires[k])
  {
    forall n | 0 <= n < |fires|
      ensures CountsAll(next, fires, n) <==> Skews(next, fires[..n]) == 0
    {
      CountsAllAt(next, fires, n);
    }
    CountsFromSkews(next, fires);
  }

  lemma CountsFromSkews(next: int -> int, fires: seq<Fire>)
    requires fires != []
    requires forall n | 0 <= n < |fires| :: CountsAll(next, fires, n) <==> Skews(next, fires[..n]) == 0
    ensures (forall n | 0 <= n < |fires| :: CountsAll(next, fires, n))
            <==> forall k | 0 <= k < |fires| - 1 :: NoWindowBetween(next, fires[k])
  {
    forall k | 0 <= k < |fires| - 1
      ensures Skew(next, fires[k]) == 0 <==> NoWindowBetween(next, fires[k])
    {
      NoSkewExactly(next, fires[k]);
    }
    NoSkewsExactly(next, fires, |fires| - 1);
  }

  /** Over any sequence of ticks, whatever the two clocks read, the fired windows strictly increase; fired and missed
      windows and the windows between the readings of a fire make up all windows from the first fired one to the last
      fire. So every window is accounted for, at every fire of the history, if and only if no window comes between the
      `now` and the NOW() of any fire but the last. */
  lemma EveryWindowIsAccounted(next: int -> int, strategy: Option<Strategy>, states: seq<State>, ticks: seq<Tick>)
    requires IsCron(next) && IsHistory(next, strategy, states, ticks) && forall t | t in ticks :: EPOCH <= t.dbNow
    ensures var fires := states[|ticks|].fires;
      && Increasing(fires)
      && (fires != [] ==> Balanced(next, fires))
      && ((forall n | 0 <= n < |fires| :: CountsAll(next, fires, n))
          <==> forall k | 0 <= k < |fires| - 1 :: NoWindowBetween(next, fires[k]))
  {
    var fires := states[|ticks|].fires;
    HistoryIsTracked(next, strategy, states, ticks);
    ChainIncreases(next, fires);
    if fires != [] {
      CountsAllExactly(next, fires);
      ChainBalance(next, fires);
    }
  }

  /** A successful tick at w - 1 whose NOW() is already w. */
  lemma EarlyTick(next: int -> int, strategy: Option<Strategy>, s: State, after: State, w: int)
    requires IsCron(next) && IsWindow(next, w) && s.fires == [] && s.last.None?
    requires Due(s, w - 1) && Fired(next, strategy, s, Tick(w - 1, w, true), after) && after.fires != []
    ensures |after.fires| == 1 && after.fires[0].at == w - 1 && after.fires[0].db == w && after.fires[0].window < w
    ensures after.nextAt == Some(w) && after.last == Some(w) && after.paused == s.paused
  {}

  /** The tick at w finds w behind NOW() already and only rolls on. */
  lemma SkippingTick(next: int -> int, strategy: Option<Strategy>, s: State, after: State, w: int)
    requires IsCron(next) && EPOCH <= w && s.last == Some(w) && s.nextAt == Some(w) && !s.paused
    requires Fired(next, strategy, s, Tick(w, w, true), after)
    ensures after == s.(nextAt := Some(next(w)))
  {}

  lemma LaterTick(next: int -> int, strategy: Option<Strategy>, s: State, after: State, later: int)
    requires s.last.Some? && s.last.value >= EPOCH && next(s.last.value) <= later && Due(s, later)
    requires Fired(next, strategy, s, Tick(later, later, true), after)
    ensures |after.fires| == |s.fires| + 1 && after.fires[..|s.fires|] == s.fires
    ensures after.fires[|s.fires|].window > s.last.value
  {}

  /** The losing history: NOW() reads the window that `now` just preceded. The tick at that window fires nothing, and
      the next fire does not report it. */
  lemma WindowBetweenClocksIsLost(next: int -> int, strategy: Option<Strategy>, states: seq<State>, w: int, later: int)
    requires IsCron(next) && IsWindow(next, w) && EPOCH <= w && next(w) <= later
    requires |states| == 4 && states[0].last.None? && states[0].fires == [] && Due(states[0], w - 1)
    requires Fired(next, strategy, states[0], Tick(w - 1, w, true), states[1]) && states[1].fires != []
    requires Fired(next, strategy, states[1], Tick(w, w, true), states[2])
    requires Fired(next, strategy, states[2], Tick(later, later, true), states[3])
    ensures |states[1].fires| == 1 && states[2].fires == states[1].fires && states[2].nextAt == Some(next(w))
    ensures var fires := states[3].fires;
      |fires| == 2 && fires[0].window < w < fires[1].window && |fires| + Missed(fires) == |WindowsUpTo(next, fires)| - 1
  {
    EarlyTick(next, strategy, states[0], states[1], w);
    SkippingTick(next, strategy, states[1], states[2], w);
    LaterTick(next, strategy, states[2], states[3], later);
    ThreeTicks(next, strategy, states, w, later);
    LostCount(next, states[3].fires, w);
  }

  lemma ThreeTicks(next: int -> int, strategy: Option<Strategy>, states: seq<State>, w: int, later: int)
    requires IsCron(next) && EPOCH <= w <= later
    requires |states| == 4 && states[0].last.None? && states[0].fires == []
    requires Fired(next, strategy, states[0], Tick(w - 1, w, true), states[1])
    requires Fired(next, strategy, states[1], Tick(w, w, true), states[2])
    requires Fired(next, strategy, states[2], Tick(later, later, true), states[3])
    ensures states[3].fires != [] ==> Balanced(next, states[3].fires)
  {
    FireKeepsTrack(next, strategy, states[0], Tick(w - 1, w, true), states[1]);
    FireKeepsTrack(next, strategy, states[1], Tick(w, w, true), states[2]);
    FireKeepsTrack(next, strategy, states[2], Tick(later, later, true), states[3]);
    if states[3].fires != [] {
      ChainBalance(next, states[3].fires);
    }
  }

  lemma LostCount(next: int -> int, fires: seq<Fire>, w: int)
    requires |fires| == 2 && IsWindow(next, w) && fires[0].at == w - 1 && fires[0].db == w && Balanced(next, fires)
    ensures |fires| + Missed(fires) == |WindowsUpTo(next, fires)| - 1
  {
    OneSkew(next, fires, w);
  }

  lemma OneSkew(next: int -> int, fires: seq<Fire>, w: int)
    requires |fires| == 2 && IsWindow(next, w) && fires[0].at == w - 1 && fires[0].db == w
    ensures Skews(next, fires[..1]) == 1
  {
    assert WindowsIn(next, w - 1, w) == {w};
    assert fires[..1][..0] == [];
    assert Skews(next, fires[..1]) == Skews(next, []) + Skew(next, fires[0]);
  }

  /** An unpaused row that has fired is due once a window has come since both readings of the last fire, and never
      before one has come since its time; the two are one when no window lies between the readings. */
  lemma DueExactly(next: int -> int, strategy: Option<Strategy>, states: seq<State>, ticks: seq<Tick>, now: int)
    requires IsCron(next) && IsHistory(next, strategy, states, ticks) && forall t | t in ticks :: EPOCH <= t.dbNow
    requires states[|ticks|].fires != [] && !states[|ticks|].paused
    ensures var s := states[|ticks|]; var f := s.fires[|s.fires| - 1];
      && (Due(s, now) ==> WindowsIn(next, f.at, now) != {})
      && (WindowsIn(next, if f.at < f.db then f.db else f.at, now) != {} ==> Due(s, now))
      && (NoWindowBetween(next, f) ==> (Due(s, now) <==> WindowsIn(next, f.at, now) != {}))
  {
    HistoryKeepsNext(next, strategy, states, ticks);
    var s := states[|ticks|];
    DueByNext(next, s.fires[|s.fires| - 1], s.nextAt.value, now);
  }

  lemma HistoryKeepsNext(next: int -> int, strategy: Option<Strategy>, states: seq<State>, ticks: seq<Tick>)
    requires IsCron(next) && IsHistory(next, strategy, states, ticks) && forall t | t in ticks :: EPOCH <= t.dbNow
    requires states[|ticks|].fires != []
    ensures var s := states[|ticks|]; NextKept(next, s.fires[|s.fires| - 1], s.nextAt)
  {
    HistoryIsTracked(next, strategy, states, ticks);
  }

  lemma DueByNext(next: int -> int, f: Fire, nextAt: int, now: int)
    requires IsCron(next) && NextKept(next, f, Some(nextAt))
    ensures nextAt <= now ==> WindowsIn(next, f.at, now) != {}
    ensures WindowsIn(next, if f.at < f.db then f.db else f.at, now) != {} ==> nextAt <= now
    ensures NoWindowBetween(next, f) ==> (nextAt <= now <==> WindowsIn(next, f.at, now) != {})
  {
    NextIsWindow(next, f.at);
    NextIsWindow(next, f.db);
    SomeWindow(next, f.at, now);
    SomeWindow(next, f.db, now);
  }

  lemma SomeWindow(next: int -> int, a: int, b: int)
    requires IsCron(next)
    ensures WindowsIn(next, a, b) != {} <==> next(a) <= b
  {
    OneWindowLess(next, a, b);
    NextIsWindow(next, a);
    if next(a) <= b {
      assert next(a) in WindowsIn(next, a, b);
    }
  }

  /** Every fire carries the key computed for its window. */
  ghost predicate Keyed(strategy: Option<Strategy>, fires: seq<Fire>) {
    forall i | 0 <= i < |fires| :: fires[i].key == FireKey(strategy, fires[i].window)
  }

  lemma FireKeepsKeys(next: int -> int, strategy: Option<Strategy>, s: State, t: Tick, after: State)
    requires Keyed(strategy, s.fires) && Fired(next, strategy, s, t, after)
    ensures Keyed(strategy, after.fires)
  {}

  lemma {:induction false} HistoryIsKeyed(next: int -> int, strategy: Option<Strategy>, states: seq<State>,
                                          ticks: seq<Tick>)
    requires IsHistory(next, strategy, states, ticks)
    ensures Keyed(strategy, states[|ticks|].fires)
    decreases |ticks|
  {
    if |ticks| > 0 {
      var n := |ticks| - 1;
      PrefixOfHistory(next, strategy, states, ticks);
      HistoryIsKeyed(next, strategy, states[..|ticks|], ticks[..n]);
      var paused :| Fired(next, strategy, states[n].(paused := paused), ticks[n], states[n + 1]);
      FireKeepsKeys(next, strategy, states[n].(paused := paused), ticks[n], states[n + 1]);
    }
  }

  /** Fire f, not later than g, carries the key of the window its strategy names: the one before the fired window's, but
      for a monthly schedule the fired window's own month when the month before is too short for its day. The two keys
      are in time order, and one exactly when they name one window. */
  ghost predicate KeysNameWindows(s: Strategy, f: Fire, g: Fire)
    requires TimeBased(s)
  {
    var v, w := PrecedingWindow(s, StartOfDay(f.window)), PrecedingWindow(s, StartOfDay(g.window));
    && f.key == KeyOf(s, FirstDay(s, v))
    && v <= w
    && (f.key == g.key <==> v == w)
  }

  lemma KeysInOrder(s: Strategy, f: Fire, g: Fire)
    requires TimeBased(s) && f.window <= g.window && f.key == FireKey(Some(s), f.window)
             && g.key == FireKey(Some(s), g.window)
    ensures KeysNameWindows(s, f, g)
  {
    KeyBeforeIsPreceding(s, f.window);
    KeyBeforeIsPreceding(s, g.window);
    PrecedingKeyExactly(s, StartOfDay(g.window), StartOfDay(f.window));
    PrecedingKeyExactly(s, StartOfDay(f.window), StartOfDay(g.window));
  }

  lemma FiresInOrder(next: int -> int, strategy: Option<Strategy>, states: seq<State>, ticks: seq<Tick>, i: nat, j: nat)
    requires IsCron(next) && IsHistory(next, strategy, states, ticks) && forall t | t in ticks :: EPOCH <= t.dbNow
    requires i <= j < |states[|ticks|].fires|
    ensures var f, g := states[|ticks|].fires[i], states[|ticks|].fires[j];
      f.window <= g.window && f.key == FireKey(strategy, f.window) && g.key == FireKey(strategy, g.window)
  {
    HistoryIsTracked(next, strategy, states, ticks);
    ChainIncreases(next, states[|ticks|].fires);
    HistoryIsKeyed(next, strategy, states, ticks);
  }

  /** In every history of a time-based schedule the fires carry such keys. */
  lemma FireKeysExactly(next: int -> int, s: Strategy, states: seq<State>, ticks: seq<Tick>, i: nat, j: nat)
    requires IsCron(next) && IsHistory(next, Some(s), states, ticks) && forall t | t in ticks :: EPOCH <= t.dbNow
    requires TimeBased(s) && i <= j < |states[|ticks|].fires|
    ensures KeysNameWindows(s, states[|ticks|].fires[i], states[|ticks|].fires[j])
  {
    FiresInOrder(next, Some(s), states, ticks, i, j);
    KeysInOrder(s, states[|ticks|].fires[i], states[|ticks|].fires[j]);
  }
}
