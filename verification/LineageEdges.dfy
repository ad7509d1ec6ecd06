/** internal/lineage/capture.go: the temporal asset_edges table under registration and run capture, and the drift
    test. */
module LineageEdges {
  import opened Names
  import opened Options
  import Lineage

  /** An asset_edges row. firstRun None is the nil UUID that registration writes; superseded is the end of its
      validity. */
  datatype Edge = Edge(from: string, to: string, hashFirst: string, hashLatest: string, firstRun: Option<string>,
                       firstSeen: int, lastRun: Option<string>, lastSeen: int, superseded: Option<int>)

  type Edges = seq<Edge>

  /** The row as the lineage queries read it. */
  function AsRead(e: Edge): Lineage.Edge<string> {
    Lineage.Edge(e.from, e.to, e.firstSeen, if e.superseded.Some? then Some(e.superseded.value) else None)
  }

  /** The as-of predicate of the lineage queries. */
  predicate Visible(e: Edge, at: int) {
    Lineage.Visible(AsRead(e), Some(at))
  }

  predicate IsActive(e: Edge, from: string, to: string) {
    e.from == from && e.to == to && e.superseded.None?
  }

  predicate HasActive(rows: Edges, from: string, to: string) {
    exists e | e in rows :: IsActive(e, from, to)
  }

  function Each(rows: Edges, f: Edge -> Edge): (after: Edges)
    ensures |after| == |rows| && forall i | 0 <= i < |rows| :: after[i] == f(rows[i])
  {
    seq(|rows|, i requires 0 <= i < |rows| => f(rows[i]))
  }

  // ----- Statements -----

  function Touched(e: Edge, from: string, to: string, hash: string, now: int): Edge {
    if IsActive(e, from, to) then e.(hashLatest := hash, lastSeen := now) else e
  }

  /** INSERT ... ON CONFLICT DO UPDATE of one edge. */
  function Upsert(rows: Edges, from: string, to: string, hash: string, now: int): Edges {
    if HasActive(rows, from, to) then Each(rows, e => Touched(e, from, to, hash, now))
    else rows + [Edge(from, to, hash, hash, None, now, None, now, None)]
  }

  function UpsertAll(rows: Edges, upstreams: seq<string>, to: string, hash: string, now: int): Edges
    decreases |upstreams|
  {
    if |upstreams| == 0 then rows
    else Upsert(UpsertAll(rows, upstreams[..|upstreams| - 1], to, hash, now), upstreams[|upstreams| - 1], to, hash, now)
  }

  function Retired(e: Edge, to: string, keep: seq<string>, now: int): Edge {
    if e.to == to && e.superseded.None? && e.from !in keep then e.(superseded := Some(now)) else e
  }

  function Retire(rows: Edges, to: string, keep: seq<string>, now: int): Edges {
    Each(rows, e => Retired(e, to, keep, now))
  }

  function Sync(rows: Edges, upstreams: seq<string>, to: string, hash: string, now: int): Edges {
    Retire(UpsertAll(rows, upstreams, to, hash, now), to, upstreams, now)
  }

  /** The run attribution of CaptureRun's third step: the first run also moves first_seen_at. */
  function Attributed(e: Edge, to: string, run: string, now: int): Edge {
    if e.to == to && e.superseded.None? then
      if e.firstRun.None? then e.(lastRun := Some(run), lastSeen := now, firstRun := Some(run), firstSeen := now)
      else e.(lastRun := Some(run), lastSeen := now)
    else e
  }

  function Attribute(rows: Edges, to: string, run: string, now: int): Edges {
    Each(rows, e => Attributed(e, to, run, now))
  }

  // ----- Validity intervals -----

  /** Of two rows for one edge the earlier has ended when the later begins. */
  ghost predicate Ordered(rows: Edges) {
    forall i, j | 0 <= i < j < |rows| && rows[i].from == rows[j].from && rows[i].to == rows[j].to ::
      rows[i].superseded.Some? && rows[i].superseded.value <= rows[j].firstSeen
  }

  ghost predicate Past(rows: Edges, clock: int) {
    forall i | 0 <= i < |rows| ::
      rows[i].firstSeen <= clock
        && (rows[i].superseded.Some? ==> rows[i].firstSeen <= rows[i].superseded.value <= clock)
  }

  ghost predicate Inv(rows: Edges, clock: int) {
    Ordered(rows) && Past(rows, clock)
  }

  /** No two rows for one edge are ever visible at one instant. */
  lemma NeverTwiceVisible(rows: Edges, clock: int, i: nat, j: nat, at: int)
    requires Inv(rows, clock) && i < |rows| && j < |rows| && rows[i].from == rows[j].from && rows[i].to == rows[j].to
    requires Visible(rows[i], at) && Visible(rows[j], at)
    ensures i == j
  {}

  lemma UpsertKeeps(rows: Edges, clock: int, from: string, to: string, hash: string, now: int)
    requires Inv(rows, clock) && clock <= now
    ensures Inv(Upsert(rows, from, to, hash, now), now)
    ensures HasActive(Upsert(rows, from, to, hash, now), from, to)
  {
    var after := Upsert(rows, from, to, hash, now);
    if HasActive(rows, from, to) {
      var e :| e in rows && IsActive(e, from, to);
      var i :| 0 <= i < |rows| && rows[i] == e;
      assert IsActive(after[i], from, to);
    } else {
      forall i | 0 <= i < |rows| && rows[i].from == from && rows[i].to == to
        ensures rows[i].superseded.Some?
      {
        assert !IsActive(rows[i], from, to);
      }
      assert IsActive(after[|rows|], from, to);
    }
  }

  /** What one statement at `now` may do to the rows without touching the past. */
  ghost predicate KeepsPast(rows: Edges, after: Edges, now: int) {
    && |rows| <= |after|
    && (forall i, at | 0 <= i < |rows| && at < now :: Visible(after[i], at) == Visible(rows[i], at))
    && (forall i | 0 <= i < |rows| :: rows[i].from == after[i].from && rows[i].to == after[i].to
          && rows[i].firstRun == after[i].firstRun && (rows[i].superseded.Some? ==> after[i] == rows[i]))
    && (forall i | |rows| <= i < |after| :: after[i].firstSeen == now)
  }

  lemma UpsertKeepsPast(rows: Edges, from: string, to: string, hash: string, now: int)
    ensures KeepsPast(rows, Upsert(rows, from, to, hash, now), now)
  {}

  /** Syncing keeps what old rows say of their origin, and inserts unattributed rows for declared upstreams only. */
  ghost predicate Inserts(rows: Edges, after: Edges, upstreams: seq<string>, to: string, hash: string, now: int) {
    && |rows| <= |after|
    && (forall i | 0 <= i < |rows| ::
          && rows[i].from == after[i].from && rows[i].to == after[i].to && rows[i].firstSeen == after[i].firstSeen
          && rows[i].firstRun == after[i].firstRun && rows[i].lastRun == after[i].lastRun
          && rows[i].hashFirst == after[i].hashFirst
          && (rows[i].superseded.Some? ==> after[i].superseded.Some?))
    && (forall i | |rows| <= i < |after| ::
          && after[i].from in upstreams && after[i].to == to && after[i].firstSeen == now
          && after[i].firstRun.None? && after[i].lastRun.None? && after[i].hashFirst == hash)
  }

  lemma {:induction false} UpsertAllInserts(rows: Edges, upstreams: seq<string>, to: string, hash: string, now: int)
    ensures Inserts(rows, UpsertAll(rows, upstreams, to, hash, now), upstreams, to, hash, now)
    decreases |upstreams|
  {
    if |upstreams| > 0 {
      UpsertAllInserts(rows, upstreams[..|upstreams| - 1], to, hash, now);
    }
  }

  lemma {:induction false} UpsertAllKeeps(rows: Edges, clock: int, upstreams: seq<string>, to: string, hash: string,
                                          now: int)
    requires Inv(rows, clock) && clock <= now
    ensures Inv(UpsertAll(rows, upstreams, to, hash, now), now)
    ensures KeepsPast(rows, UpsertAll(rows, upstreams, to, hash, now), now)
    decreases |upstreams|
  {
    if |upstreams| > 0 {
      var front, last := upstreams[..|upstreams| - 1], upstreams[|upstreams| - 1];
      var mid := UpsertAll(rows, front, to, hash, now);
      UpsertAllKeeps(rows, clock, front, to, hash, now);
      UpsertKeeps(mid, now, last, to, hash, now);
      UpsertKeepsPast(mid, last, to, hash, now);
      KeepsPastOn(rows, mid, UpsertAll(rows, upstreams, to, hash, now), now);
    }
  }

  lemma KeepsPastOn(a: Edges, b: Edges, c: Edges, now: int)
    requires KeepsPast(a, b, now) && KeepsPast(b, c, now)
    requires forall i | |a| <= i < |b| :: c[i].firstSeen == b[i].firstSeen
    ensures KeepsPast(a, c, now)
  {}

  lemma {:induction false} UpsertAllActive(rows: Edges, clock: int, upstreams: seq<string>, to: string, hash: string,
                                           now: int, u: string)
    requires Inv(rows, clock) && clock <= now && u in upstreams
    ensures HasActive(UpsertAll(rows, upstreams, to, hash, now), u, to)
    decreases |upstreams|
  {
    var front, last := upstreams[..|upstreams| - 1], upstreams[|upstreams| - 1];
    var mid := UpsertAll(rows, front, to, hash, now);
    UpsertAllKeeps(rows, clock, front, to, hash, now);
    if u == last {
      UpsertKeeps(mid, now, last, to, hash, now);
    } else {
      assert upstreams == front + [last];
      UpsertAllActive(rows, clock, front, to, hash, now, u);
      ActiveSurvives(mid, last, u, to, hash, now);
    }
  }

  lemma ActiveSurvives(rows: Edges, from: string, other: string, to: string, hash: string, now: int)
    requires HasActive(rows, other, to)
    ensures HasActive(Upsert(rows, from, to, hash, now), other, to)
  {
    var e :| e in rows && IsActive(e, other, to);
    var i :| 0 <= i < |rows| && rows[i] == e;
    assert IsActive(Upsert(rows, from, to, hash, now)[i], other, to);
  }

  lemma SyncKeeps(rows: Edges, clock: int, upstreams: seq<string>, to: string, hash: string, now: int)
    requires Inv(rows, clock) && clock <= now
    ensures Inv(Sync(rows, upstreams, to, hash, now), now) && KeepsPast(rows, Sync(rows, upstreams, to, hash, now), now)
  {
    UpsertAllKeeps(rows, clock, upstreams, to, hash, now);
    UpsertAllInserts(rows, upstreams, to, hash, now);
  }

  // ----- The writer -----

  const MAX_UPSTREAMS := 256

  datatype Error = BadInput | TooManyUpstreams | SelfEdge

  datatype Result = Ok | Err(error: Error)

  /** What SyncStaticEdges answers; the table's check constraint refuses an edge from an asset to itself. */
  function Answer(name: string, upstreams: seq<string>, hash: string): Result {
    if hash == "" then Err(BadInput)
    else if |upstreams| > MAX_UPSTREAMS then Err(TooManyUpstreams)
    else if name in upstreams then Err(SelfEdge)
    else Ok
  }

  /** What it leaves: a refused call and an empty upstream list change nothing, not even stale edges. */
  function AfterSync(rows: Edges, name: string, upstreams: seq<string>, hash: string, now: int): Edges {
    if Answer(name, upstreams, hash).Ok? && upstreams != [] then Sync(rows, upstreams, name, hash, now) else rows
  }

  class Writer {
    var rows: Edges

    constructor ()
      ensures rows == []
    {
      rows := [];
    }

    /** SyncStaticEdges; a refused insert rolls the transaction back. */
    method SyncStaticEdges(name: string, upstreams: seq<string>, hash: string, now: int) returns (res: Result)
      modifies this
      ensures res == Answer(name, upstreams, hash)
      ensures rows == AfterSync(old(rows), name, upstreams, hash, now)
    {
      if hash == "" { return Err(BadInput); }
      if |upstreams| == 0 { return Ok; }
      if |upstreams| > MAX_UPSTREAMS { return Err(TooManyUpstreams); }
      var edges := rows;
      for i := 0 to |upstreams|
        invariant edges == UpsertAll(old(rows), upstreams[..i], name, hash, now)
        invariant name !in upstreams[..i]
        invariant rows == old(rows)
      {
        assert upstreams[..i + 1][..i] == upstreams[..i];
        if upstreams[i] == name { return Err(SelfEdge); }
        edges := Upsert(edges, upstreams[i], name, hash, now);
      }
      assert upstreams[..|upstreams|] == upstreams;
      rows := Retire(edges, name, upstreams, now);
      return Ok;
    }

    /** CaptureRun's update of the asset's active edges. */
    method CaptureAttribution(run: string, name: string, now: int)
      modifies this
      ensures rows == Attribute(old(rows), name, run, now)
    {
      rows := Attribute(rows, name, run, now);
    }
  }

  // ----- Histories -----

  datatype Op =
    | Syncs(upstreams: seq<string>, to: string, hash: string, now: int)
    | Captures(run: string, to: string, now: int)

  function After(rows: Edges, op: Op): Edges {
    match op
    case Syncs(upstreams, to, hash, now) => AfterSync(rows, to, upstreams, hash, now)
    case Captures(run, to, now) => Attribute(rows, to, run, now)
  }

  function AfterAll(rows: Edges, ops: seq<Op>): Edges
    decreases |ops|
  {
    if |ops| == 0 then rows else After(AfterAll(rows, ops[..|ops| - 1]), ops[|ops| - 1])
  }

  /** The clock does not run backwards. */
  ghost predicate OneClock(clock: int, ops: seq<Op>) {
    && (forall i | 0 <= i < |ops| :: clock <= ops[i].now)
    && forall i, j | 0 <= i < j < |ops| :: ops[i].now <= ops[j].now
  }

  function ClockAfter(clock: int, ops: seq<Op>): int {
    if |ops| == 0 then clock else ops[|ops| - 1].now
  }

  lemma StepKeeps(rows: Edges, clock: int, op: Op)
    requires Inv(rows, clock) && clock <= op.now
    ensures Inv(After(rows, op), op.now) && |rows| <= |After(rows, op)|
  {
    match op
    case Syncs(upstreams, to, hash, now) =>
      SyncKeeps(rows, clock, upstreams, to, hash, now);
    case Captures(run, to, now) =>
  }

  /** Under any sequence of syncs and captures the rows for one edge follow one another without overlap. */
  lemma {:induction false} HistoryKeeps(clock: int, ops: seq<Op>)
    requires OneClock(clock, ops)
    ensures Inv(AfterAll([], ops), ClockAfter(clock, ops))
    decreases |ops|
  {
    if |ops| > 0 {
      HistoryKeeps(clock, ops[..|ops| - 1]);
      StepKeeps(AfterAll([], ops[..|ops| - 1]), ClockAfter(clock, ops[..|ops| - 1]), ops[|ops| - 1]);
    }
  }

  // ----- What a sync leaves -----

  ghost predicate NoSelfEdges(rows: Edges) {
    forall e | e in rows :: e.from != e.to
  }

  /** The active edges into the asset come from exactly these upstreams. */
  ghost predicate ActiveAre(rows: Edges, to: string, upstreams: seq<string>) {
    forall from :: HasActive(rows, from, to) <==> from in upstreams
  }

  ghost predicate NoneActive(rows: Edges, to: string) {
    forall e | e in rows && e.to == to :: e.superseded.Some?
  }

  lemma SyncInserts(rows: Edges, upstreams: seq<string>, to: string, hash: string, now: int)
    ensures Inserts(rows, Sync(rows, upstreams, to, hash, now), upstreams, to, hash, now)
  {
    UpsertAllInserts(rows, upstreams, to, hash, now);
  }

  lemma StepKeepsNoSelfEdges(rows: Edges, op: Op)
    requires NoSelfEdges(rows)
    ensures NoSelfEdges(After(rows, op))
  {
    if op.Syncs? {
      SyncInserts(rows, op.upstreams, op.to, op.hash, op.now);
    }
    forall i | 0 <= i < |After(rows, op)|
      ensures After(rows, op)[i].from != After(rows, op)[i].to
    {
      assert i < |rows| ==> rows[i] in rows;
    }
  }

  lemma {:induction false} NoHistoryMakesSelfEdges(ops: seq<Op>)
    ensures NoSelfEdges(AfterAll([], ops))
    decreases |ops|
  {
    if |ops| > 0 {
      NoHistoryMakesSelfEdges(ops[..|ops| - 1]);
      StepKeepsNoSelfEdges(AfterAll([], ops[..|ops| - 1]), ops[|ops| - 1]);
    }
  }

  lemma SyncedIsActive(rows: Edges, clock: int, upstreams: seq<string>, to: string, hash: string, now: int,
                       from: string)
    requires Inv(rows, clock) && clock <= now
    ensures HasActive(Sync(rows, upstreams, to, hash, now), from, to) <==> from in upstreams
  {
    if from in upstreams {
      UpsertAllActive(rows, clock, upstreams, to, hash, now, from);
      var mid := UpsertAll(rows, upstreams, to, hash, now);
      var e :| e in mid && IsActive(e, from, to);
      var i :| 0 <= i < |mid| && mid[i] == e;
      assert IsActive(Sync(rows, upstreams, to, hash, now)[i], from, to);
    }
  }

  lemma ActiveAreNone(rows: Edges, to: string)
    ensures ActiveAre(rows, to, []) <==> NoneActive(rows, to)
  {
    if ActiveAre(rows, to, []) {
      forall e | e in rows && e.to == to
        ensures e.superseded.Some?
      {
        assert !HasActive(rows, e.from, to);
        assert !IsActive(e, e.from, to);
      }
    }
  }

  /** After any history, a call that succeeds leaves exactly the declared upstreams active if and only if it declares
      some or none was active before: an empty list retires nothing. A refused call changes nothing, and an asset that
      names itself is never in sync. */
  lemma SyncLeavesExactly(clock: int, ops: seq<Op>, upstreams: seq<string>, to: string, hash: string, now: int)
    requires OneClock(clock, ops) && ClockAfter(clock, ops) <= now
    ensures var rows := AfterAll([], ops);
      var after, answer := AfterSync(rows, to, upstreams, hash, now), Answer(to, upstreams, hash);
      && (answer.Ok? ==> (ActiveAre(after, to, upstreams) <==> upstreams != [] || NoneActive(rows, to)))
      && (answer.Err? ==> after == rows)
      && (answer == Err(SelfEdge) ==> !ActiveAre(after, to, upstreams))
  {
    var rows := AfterAll([], ops);
    HistoryKeeps(clock, ops);
    NoHistoryMakesSelfEdges(ops);
    ActiveAreNone(rows, to);
    forall from
      ensures HasActive(Sync(rows, upstreams, to, hash, now), from, to) <==> from in upstreams
    {
      SyncedIsActive(rows, ClockAfter(clock, ops), upstreams, to, hash, now, from);
    }
    if to in upstreams {
      assert !HasActive(rows, to, to);
    }
  }

  /** So an asset that stops declaring its only upstream keeps the edge. */
  lemma StaleUpstreamStays(u: string, to: string, hash: string, now: int, later: int)
    requires u != to && hash != ""
    ensures HasActive(AfterAll([], [Syncs([u], to, hash, now), Syncs([], to, hash, later)]), u, to)
  {
    var first, ops := Syncs([u], to, hash, now), [Syncs([u], to, hash, now), Syncs([], to, hash, later)];
    assert ops[..1] == [first] && [first][..0] == [];
    assert AfterAll([], [first]) == After([], first);
    assert AfterAll([], ops) == AfterAll([], [first]);
    SyncedIsActive([], now, [u], to, hash, now, u);
  }

  // ----- Attribution to runs -----

  /** ops[i] may have inserted the row. */
  ghost predicate Declares(ops: seq<Op>, i: int, e: Edge) {
    0 <= i < |ops| && ops[i].Syncs? && e.from in ops[i].upstreams && ops[i].to == e.to && ops[i].hash == e.hashFirst
  }

  ghost predicate CapturedBetween(ops: seq<Op>, i: int, k: int, to: string) {
    exists j :: i < j < k && 0 <= j < |ops| && ops[j].Captures? && ops[j].to == to
  }

  /** ops[k] is the first capture of the row's asset after ops[i], and what the row carries as its first run. */
  ghost predicate FirstCapture(ops: seq<Op>, i: int, k: int, e: Edge) {
    && i < k < |ops| && 0 <= k && ops[k].Captures? && ops[k].to == e.to && !CapturedBetween(ops, i, k, e.to)
    && e.firstRun == Some(ops[k].run) && e.firstSeen == ops[k].now
  }

  ghost predicate Attribution(ops: seq<Op>, i: int, e: Edge) {
    && Declares(ops, i, e)
    && (e.firstRun.None? ==> e.lastRun.None? && e.firstSeen == ops[i].now)
    && (e.firstRun.None? && e.superseded.None? ==> !CapturedBetween(ops, i, |ops|, e.to))
    && (e.firstRun.Some? ==> e.lastRun.Some? && exists k :: FirstCapture(ops, i, k, e))
  }

  lemma AttributionExtends(ops: seq<Op>, op: Op, i: int, e: Edge, f: Edge)
    requires Attribution(ops, i, e) && f.from == e.from && f.to == e.to && (e.superseded.Some? ==> f.superseded.Some?)
    requires f.hashFirst == e.hashFirst
    requires op.Captures? ==> f == Attributed(e, op.to, op.run, op.now)
    requires op.Syncs? ==> f.firstSeen == e.firstSeen && f.firstRun == e.firstRun && f.lastRun == e.lastRun
    ensures Attribution(ops + [op], i, f)
  {
    var all := ops + [op];
    assert forall j | 0 <= j < |ops| :: all[j] == ops[j];
    if e.firstRun.Some? {
      var k :| FirstCapture(ops, i, k, e);
      assert FirstCapture(all, i, k, f);
    } else if f.firstRun.Some? {
      assert FirstCapture(all, i, |ops|, f);
    }
  }

  /** In every history a row stays unattributed until the first capture of its asset after the sync that declared it,
      and from then on carries that capture's run and time as its first. */
  lemma {:induction false} FirstRunIsFirstCapture(ops: seq<Op>, n: nat)
    requires n < |AfterAll([], ops)|
    ensures exists i :: Attribution(ops, i, AfterAll([], ops)[n])
    decreases |ops|
  {
    if |ops| > 0 {
      var front, op := ops[..|ops| - 1], ops[|ops| - 1];
      var rows, after := AfterAll([], front), AfterAll([], ops);
      assert ops == front + [op];
      if op.Syncs? {
        SyncInserts(rows, op.upstreams, op.to, op.hash, op.now);
      }
      if n < |rows| {
        FirstRunIsFirstCapture(front, n);
        var i :| Attribution(front, i, rows[n]);
        AttributionExtends(front, op, i, rows[n], after[n]);
      } else {
        assert Attribution(ops, |ops| - 1, after[n]);
      }
    }
  }

  // ----- What an active row says of its latest sync and run -----

  predicate CaptureOf(op: Op, e: Edge) {
    op.Captures? && op.to == e.to
  }

  /** The operation is an accepted sync that declares the edge. */
  predicate Renews(op: Op, e: Edge) {
    && op.Syncs? && op.to == e.to && e.from in op.upstreams
    && op.hash != "" && |op.upstreams| <= 256 && op.to !in op.upstreams
  }

  ghost predicate LatestSync(ops: seq<Op>, k: int, e: Edge) {
    0 <= k < |ops| && Renews(ops[k], e) && forall j | k < j < |ops| :: !Renews(ops[j], e)
  }

  ghost predicate LatestCapture(ops: seq<Op>, k: int, e: Edge) {
    0 <= k < |ops| && CaptureOf(ops[k], e) && forall j | k < j < |ops| :: !CaptureOf(ops[j], e)
  }

  ghost predicate LatestSight(ops: seq<Op>, k: int, e: Edge) {
    && 0 <= k < |ops| && (Renews(ops[k], e) || CaptureOf(ops[k], e))
    && forall j | k < j < |ops| :: !Renews(ops[j], e) && !CaptureOf(ops[j], e)
  }

  ghost predicate Current(ops: seq<Op>, e: Edge) {
    && (exists k :: LatestSync(ops, k, e) && e.hashLatest == ops[k].hash)
    && (exists k :: LatestSight(ops, k, e) && e.lastSeen == ops[k].now)
    && (e.lastRun.Some? ==> exists k :: LatestCapture(ops, k, e) && e.lastRun == Some(ops[k].run))
  }

  /** What syncing does to the hash and the time a row was last seen. */
  ghost predicate Refreshes(rows: Edges, after: Edges, upstreams: seq<string>, to: string, hash: string, now: int) {
    && |rows| <= |after|
    && (forall i | 0 <= i < |rows| && rows[i].superseded.None? ::
          if rows[i].to == to && rows[i].from in upstreams then after[i].hashLatest == hash && after[i].lastSeen == now
          else after[i].hashLatest == rows[i].hashLatest && after[i].lastSeen == rows[i].lastSeen)
    && (forall i | |rows| <= i < |after| :: after[i].hashLatest == hash && after[i].lastSeen == now)
  }

  lemma UpsertRefreshes(rows: Edges, from: string, to: string, hash: string, now: int)
    ensures Refreshes(rows, Upsert(rows, from, to, hash, now), [from], to, hash, now)
  {
    forall i | 0 <= i < |rows| && IsActive(rows[i], from, to)
      ensures HasActive(rows, from, to)
    {
      assert rows[i] in rows;
    }
  }

  lemma {:induction false} UpsertAllRefreshes(rows: Edges, upstreams: seq<string>, to: string, hash: string, now: int)
    ensures Refreshes(rows, UpsertAll(rows, upstreams, to, hash, now), upstreams, to, hash, now)
    ensures forall i | 0 <= i < |rows| ::
      UpsertAll(rows, upstreams, to, hash, now)[i].superseded == rows[i].superseded
    decreases |upstreams|
  {
    if |upstreams| > 0 {
      var front, last := upstreams[..|upstreams| - 1], upstreams[|upstreams| - 1];
      var mid := UpsertAll(rows, front, to, hash, now);
      assert upstreams == front + [last];
      UpsertAllRefreshes(rows, front, to, hash, now);
      UpsertAllInserts(rows, front, to, hash, now);
      UpsertRefreshes(mid, last, to, hash, now);
      RefreshesOn(rows, mid, Upsert(mid, last, to, hash, now), front, last, to, hash, now);
    }
  }

  lemma RefreshesOn(a: Edges, b: Edges, c: Edges, front: seq<string>, last: string, to: string, hash: string, now: int)
    requires Refreshes(a, b, front, to, hash, now) && Refreshes(b, c, [last], to, hash, now)
    requires Inserts(a, b, front, to, hash, now)
    requires forall i | 0 <= i < |a| :: b[i].superseded == a[i].superseded
    requires forall i | |a| <= i < |b| :: c[i].hashLatest == b[i].hashLatest && c[i].lastSeen == b[i].lastSeen
    ensures Refreshes(a, c, front + [last], to, hash, now)
  {}

  lemma SyncRefreshes(rows: Edges, upstreams: seq<string>, to: string, hash: string, now: int)
    ensures Refreshes(rows, Sync(rows, upstreams, to, hash, now), upstreams, to, hash, now)
  {
    UpsertAllRefreshes(rows, upstreams, to, hash, now);
  }

  lemma LatestSyncExtends(ops: seq<Op>, op: Op, e: Edge, f: Edge, k: int)
    requires LatestSync(ops, k, e) && e.hashLatest == ops[k].hash && f.from == e.from && f.to == e.to
    requires f.hashLatest == if Renews(op, e) then op.hash else e.hashLatest
    ensures exists k :: LatestSync(ops + [op], k, f) && f.hashLatest == (ops + [op])[k].hash
  {
    assert LatestSync(ops + [op], if Renews(op, e) then |ops| else k, f);
  }

  lemma LatestSightExtends(ops: seq<Op>, op: Op, e: Edge, f: Edge, k: int)
    requires LatestSight(ops, k, e) && e.lastSeen == ops[k].now && f.from == e.from && f.to == e.to
    requires f.lastSeen == if Renews(op, e) || CaptureOf(op, e) then op.now else e.lastSeen
    ensures exists k :: LatestSight(ops + [op], k, f) && f.lastSeen == (ops + [op])[k].now
  {
    assert LatestSight(ops + [op], if Renews(op, e) || CaptureOf(op, e) then |ops| else k, f);
  }

  lemma LatestCaptureExtends(ops: seq<Op>, op: Op, e: Edge, f: Edge)
    requires e.lastRun.Some? ==> exists k :: LatestCapture(ops, k, e) && e.lastRun == Some(ops[k].run)
    requires f.to == e.to && f.lastRun == if CaptureOf(op, e) then Some(op.run) else e.lastRun
    ensures f.lastRun.Some? ==> exists k :: LatestCapture(ops + [op], k, f) && f.lastRun == Some((ops + [op])[k].run)
  {
    if CaptureOf(op, e) {
      assert LatestCapture(ops + [op], |ops|, f);
    } else if e.lastRun.Some? {
      var k :| LatestCapture(ops, k, e) && e.lastRun == Some(ops[k].run);
      assert LatestCapture(ops + [op], k, f);
    }
  }

  lemma CurrentExtends(ops: seq<Op>, op: Op, e: Edge, f: Edge)
    requires Current(ops, e) && f.from == e.from && f.to == e.to
    requires f.hashLatest == if Renews(op, e) then op.hash else e.hashLatest
    requires f.lastSeen == if Renews(op, e) || CaptureOf(op, e) then op.now else e.lastSeen
    requires f.lastRun == if CaptureOf(op, e) then Some(op.run) else e.lastRun
    ensures Current(ops + [op], f)
  {
    var k :| LatestSync(ops, k, e) && e.hashLatest == ops[k].hash;
    LatestSyncExtends(ops, op, e, f, k);
    var l :| LatestSight(ops, l, e) && e.lastSeen == ops[l].now;
    LatestSightExtends(ops, op, e, f, l);
    LatestCaptureExtends(ops, op, e, f);
  }

  lemma StepRefreshes(rows: Edges, op: Op, n: nat)
    requires n < |rows| && n < |After(rows, op)| && After(rows, op)[n].superseded.None?
    ensures var e, f := rows[n], After(rows, op)[n];
      && e.superseded.None? && f.from == e.from && f.to == e.to
      && f.hashLatest == (if Renews(op, e) then op.hash else e.hashLatest)
      && f.lastSeen == (if Renews(op, e) || CaptureOf(op, e) then op.now else e.lastSeen)
      && f.lastRun == (if CaptureOf(op, e) then Some(op.run) else e.lastRun)
  {
    if op.Syncs? {
      SyncRefreshes(rows, op.upstreams, op.to, op.hash, op.now);
      SyncInserts(rows, op.upstreams, op.to, op.hash, op.now);
    }
  }

  lemma NewRowIsCurrent(rows: Edges, ops: seq<Op>, op: Op, n: nat)
    requires |rows| <= n < |After(rows, op)|
    ensures Current(ops + [op], After(rows, op)[n])
  {
    var e, all := After(rows, op)[n], ops + [op];
    if op.Syncs? {
      SyncRefreshes(rows, op.upstreams, op.to, op.hash, op.now);
      SyncInserts(rows, op.upstreams, op.to, op.hash, op.now);
    }
    assert all[|ops|] == op;
    assert LatestSync(all, |ops|, e) && LatestSight(all, |ops|, e);
  }

  /** In every history an active row carries the hash of the latest accepted sync that declared it, the run of its
      asset's latest capture once it has a run at all, and the time of the later of the two. */
  lemma {:induction false} ActiveRowsAreCurrent(ops: seq<Op>, n: nat)
    requires n < |AfterAll([], ops)| && AfterAll([], ops)[n].superseded.None?
    ensures Current(ops, AfterAll([], ops)[n])
    decreases |ops|
  {
    if |ops| > 0 {
      var front, op := ops[..|ops| - 1], ops[|ops| - 1];
      var rows := AfterAll([], front);
      assert ops == front + [op];
      if n < |rows| {
        StepRefreshes(rows, op, n);
        ActiveRowsAreCurrent(front, n);
        CurrentExtends(front, op, rows[n], After(rows, op)[n]);
      } else {
        NewRowIsCurrent(rows, front, op, n);
      }
    }
  }

  // ----- The past -----

  /** The first run of an asset rewrites the past of an edge that registration had written. */
  predicate MovesFirstSeen(e: Edge, op: Op, at: int) {
    op.Captures? && e.to == op.to && e.superseded.None? && e.firstRun.None? && e.firstSeen <= at
  }

  /** An operation changes how an existing row looks at an earlier time exactly when it is the first capture of a row
      not yet attributed to a run, and then it hides it. */
  lemma PastChangesExactly(rows: Edges, clock: int, op: Op, i: nat, at: int)
    requires Inv(rows, clock) && clock <= op.now && i < |rows| && at < op.now
    ensures |rows| <= |After(rows, op)|
    ensures Visible(After(rows, op)[i], at) != Visible(rows[i], at) <==> MovesFirstSeen(rows[i], op, at)
  {
    match op
    case Syncs(upstreams, to, hash, now) =>
      SyncKeeps(rows, clock, upstreams, to, hash, now);
    case Captures(run, to, now) =>
  }

  function TableOf(rows: Edges): set<Lineage.Edge<string>> {
    set e | e in rows :: AsRead(e)
  }

  /** The table the lineage queries read has exactly the rows, in their terms. */
  lemma TableExactly(rows: Edges, from: string, to: string, firstSeen: int, superseded: Option<int>)
    ensures (exists e :: e in TableOf(rows) && e.from == from && e.to == to && e.firstSeenAt == firstSeen
               && e.supersededAt == superseded)
      <==> exists r :: r in rows && r.from == from && r.to == to && r.firstSeen == firstSeen
             && r.superseded == superseded
  {
    if r :| r in rows && r.from == from && r.to == to && r.firstSeen == firstSeen && r.superseded == superseded {
      assert AsRead(r) in TableOf(rows);
    }
  }

  lemma HopsNeverShrink(rows: Edges, clock: int, op: Op, direction: string, at: int, h: (string, string))
    requires Inv(rows, clock) && clock <= op.now && at < op.now
    requires forall e | e in rows :: !MovesFirstSeen(e, op, at)
    ensures h in Lineage.Hops(TableOf(rows), direction, Some(at))
      ==> h in Lineage.Hops(TableOf(After(rows, op)), direction, Some(at))
  {
    if h in Lineage.Hops(TableOf(rows), direction, Some(at)) {
      var e :| e in rows && Visible(e, at) && Lineage.Hop(direction, AsRead(e)) == h;
      var i :| 0 <= i < |rows| && rows[i] == e;
      PastChangesExactly(rows, clock, op, i, at);
      StepKeepsAttribution(rows, clock, op, i);
      var f := After(rows, op)[i];
      assert f in After(rows, op) && AsRead(f) in TableOf(After(rows, op));
    }
  }

  lemma HopsNeverGrow(rows: Edges, clock: int, op: Op, direction: string, at: int, h: (string, string))
    requires Inv(rows, clock) && clock <= op.now && at < op.now
    requires forall e | e in rows :: !MovesFirstSeen(e, op, at)
    ensures h in Lineage.Hops(TableOf(After(rows, op)), direction, Some(at))
      ==> h in Lineage.Hops(TableOf(rows), direction, Some(at))
  {
    var after := After(rows, op);
    if h in Lineage.Hops(TableOf(after), direction, Some(at)) {
      var e :| e in after && Visible(e, at) && Lineage.Hop(direction, AsRead(e)) == h;
      assert Visible(e, at) && e.firstSeen <= at;
      var i :| 0 <= i < |after| && after[i] == e;
      StepAddsNow(rows, clock, op);
      assert after[i].firstSeen < op.now;
      PastChangesExactly(rows, clock, op, i, at);
      StepKeepsAttribution(rows, clock, op, i);
      assert rows[i] in rows && AsRead(rows[i]) in TableOf(rows);
    }
  }

  lemma StepAddsNow(rows: Edges, clock: int, op: Op)
    requires Inv(rows, clock) && clock <= op.now
    ensures forall i | |rows| <= i < |After(rows, op)| :: After(rows, op)[i].firstSeen == op.now
  {
    match op
    case Syncs(upstreams, to, hash, now) =>
      SyncKeeps(rows, clock, upstreams, to, hash, now);
    case Captures(run, to, now) =>
  }

  /** A traversal as of a past instant answers the same before and after an operation that captures no edge for the
      first time which that instant still saw. */
  lemma PastTraversalIsFixed(rows: Edges, clock: int, op: Op, direction: string, root: string, at: int, depth: int)
    requires Inv(rows, clock) && clock <= op.now && at < op.now
    requires forall e | e in rows :: !MovesFirstSeen(e, op, at)
    ensures Lineage.Traverse(TableOf(After(rows, op)), direction, root, Lineage.AssetKey, Some(at), depth)
         == Lineage.Traverse(TableOf(rows), direction, root, Lineage.AssetKey, Some(at), depth)
  {
    var before, after := Lineage.Hops(TableOf(rows), direction, Some(at)),
      Lineage.Hops(TableOf(After(rows, op)), direction, Some(at));
    forall h
      ensures h in before <==> h in after
    {
      HopsNeverShrink(rows, clock, op, direction, at, h);
      HopsNeverGrow(rows, clock, op, direction, at, h);
    }
    assert before == after;
  }

  lemma StepKeepsAttribution(rows: Edges, clock: int, op: Op, i: nat)
    requires Inv(rows, clock) && clock <= op.now && i < |rows|
    ensures |rows| <= |After(rows, op)|
    ensures rows[i].firstRun.Some? ==> After(rows, op)[i].firstRun == rows[i].firstRun
    ensures rows[i].from == After(rows, op)[i].from && rows[i].to == After(rows, op)[i].to
  {
    match op
    case Syncs(upstreams, to, hash, now) =>
      SyncKeeps(rows, clock, upstreams, to, hash, now);
    case Captures(run, to, now) =>
  }

  /** Once a row is attributed to a run, no later operation changes whether it is visible at any earlier time. */
  lemma {:induction false} AttributedPastIsFixed(rows: Edges, clock: int, ops: seq<Op>, i: nat, at: int)
    requires Inv(rows, clock) && OneClock(clock, ops) && i < |rows| && rows[i].firstRun.Some?
    requires forall k | 0 <= k < |ops| :: at < ops[k].now
    ensures Inv(AfterAll(rows, ops), ClockAfter(clock, ops)) && i < |AfterAll(rows, ops)|
    ensures Visible(AfterAll(rows, ops)[i], at) == Visible(rows[i], at)
    ensures AfterAll(rows, ops)[i].firstRun == rows[i].firstRun
    decreases |ops|
  {
    if |ops| > 0 {
      var front, last := ops[..|ops| - 1], ops[|ops| - 1];
      AttributedPastIsFixed(rows, clock, front, i, at);
      var mid := AfterAll(rows, front);
      StepKeeps(mid, ClockAfter(clock, front), last);
      PastChangesExactly(mid, ClockAfter(clock, front), last, i, at);
      StepKeepsAttribution(mid, ClockAfter(clock, front), last, i);
    }
  }

  // ----- Drift -----

  lemma {:induction false} InsertMultiset(names: seq<string>, x: string)
    ensures multiset(Insert(names, x)) == multiset(names) + multiset{x}
  {
    if names != [] && !Leq(x, names[0]) {
      InsertMultiset(names[1..], x);
      assert names == [names[0]] + names[1..];
    }
  }

  /** The copy sort.Strings sorts. */
  function SortedCopy(names: seq<string>): seq<string> {
    if names == [] then [] else Insert(SortedCopy(names[1..]), names[0])
  }

  predicate InOrder(names: seq<string>) {
    forall i, j | 0 <= i < j < |names| :: Leq(names[i], names[j])
  }

  lemma {:induction false} InsertInOrder(names: seq<string>, x: string)
    requires InOrder(names)
    ensures InOrder(Insert(names, x))
  {
    if names != [] {
      LeqTotal(x, names[0]);
      if Leq(x, names[0]) {
        forall i | 0 <= i < |names|
          ensures Leq(x, names[i])
        {
          if i > 0 { LeqTransitive(x, names[0], names[i]); }
        }
      } else {
        InsertInOrder(names[1..], x);
        var rest := Insert(names[1..], x);
        InsertMultiset(names[1..], x);
        forall i | 0 <= i < |rest|
          ensures Leq(names[0], rest[i])
        {
          assert rest[i] in multiset(rest);
          assert rest[i] == x || rest[i] in names[1..];
        }
      }
    }
  }

  lemma {:induction false} SortedCopySorts(names: seq<string>)
    ensures InOrder(SortedCopy(names)) && multiset(SortedCopy(names)) == multiset(names)
  {
    if names != [] {
      SortedCopySorts(names[1..]);
      InsertInOrder(SortedCopy(names[1..]), names[0]);
      InsertMultiset(SortedCopy(names[1..]), names[0]);
      assert names == [names[0]] + names[1..];
    }
  }

  lemma LeastFirst(a: seq<string>, x: string)
    requires InOrder(a) && x in multiset(a) && a != []
    ensures Leq(a[0], x)
  {
    var i :| 0 <= i < |a| && a[i] == x;
    LeqTotal(x, x);
  }

  lemma TailMultiset(a: seq<string>)
    requires a != []
    ensures multiset(a[1..]) == multiset(a) - multiset{a[0]}
  {
    assert a == [a[0]] + a[1..];
  }

  lemma {:induction false} OrderedIsUnique(a: seq<string>, b: seq<string>)
    requires InOrder(a) && InOrder(b) && multiset(a) == multiset(b)
    ensures a == b
    decreases |a|
  {
    assert |a| == |multiset(a)| == |multiset(b)| == |b|;
    if a != [] {
      assert a[0] in multiset(a) && b[0] in multiset(b);
      LeastFirst(a, b[0]);
      LeastFirst(b, a[0]);
      LeqTotal(a[0], b[0]);
      TailMultiset(a);
      TailMultiset(b);
      OrderedIsUnique(a[1..], b[1..]);
      assert a == [a[0]] + a[1..] && b == [b[0]] + b[1..];
    }
  }

  lemma SameLength(a: seq<string>, b: seq<string>)
    requires multiset(a) == multiset(b)
    ensures |a| == |b|
  {
    assert |multiset(a)| == |a| && |multiset(b)| == |b|;
  }

  lemma SortedCopiesDecide(a: seq<string>, b: seq<string>)
    ensures |SortedCopy(a)| == |a| && (SortedCopy(a) == SortedCopy(b) <==> multiset(a) == multiset(b))
  {
    SortedCopySorts(a);
    SortedCopySorts(b);
    SameLength(a, SortedCopy(a));
    if multiset(a) == multiset(b) {
      OrderedIsUnique(SortedCopy(a), SortedCopy(b));
    }
  }

  /** sameSet compares sorted copies, so it counts repetitions. */
  method SameSet(a: seq<string>, b: seq<string>) returns (same: bool)
    ensures same <==> multiset(a) == multiset(b)
  {
    if |a| != |b| {
      if multiset(a) == multiset(b) { SameLength(a, b); }
      return false;
    }
    SortedCopiesDecide(a, b);
    SortedCopiesDecide(b, a);
    var x, y := SortedCopy(a), SortedCopy(b);
    same := EqualElements(x, y);
  }

  method EqualElements(x: seq<string>, y: seq<string>) returns (same: bool)
    requires |x| == |y|
    ensures same <==> x == y
  {
    for i := 0 to |x|
      invariant forall k | 0 <= k < i :: x[k] == y[k]
    {
      if x[i] != y[i] { return false; }
    }
    return true;
  }

  function SetOf(names: seq<string>): set<string> {
    set x | x in names
  }

  /** setDiff, each side sorted. */
  method SetDiff(declared: seq<string>, observed: seq<string>) returns (missing: seq<string>, extra: seq<string>)
    ensures missing == Sorted(SetOf(declared) - SetOf(observed))
    ensures extra == Sorted(SetOf(observed) - SetOf(declared))
    ensures StrictlySorted(missing) && forall x :: x in missing <==> x in declared && x !in observed
    ensures StrictlySorted(extra) && forall x :: x in extra <==> x in observed && x !in declared
  {
    missing := SortedKeys(SetOf(declared) - SetOf(observed));
    extra := SortedKeys(SetOf(observed) - SetOf(declared));
  }

  /** Nothing is missing and nothing extra exactly when both lists name the same upstreams; equal lists up to order do,
      but drift is also reported for lists that only repeat some name differently. */
  lemma EmptyDriftExactly(declared: seq<string>, observed: seq<string>)
    ensures Sorted(SetOf(declared) - SetOf(observed)) == [] && Sorted(SetOf(observed) - SetOf(declared)) == []
      <==> forall x :: x in declared <==> x in observed
    ensures multiset(declared) == multiset(observed) ==> forall x :: x in declared <==> x in observed
  {
    var missing, extra := SetOf(declared) - SetOf(observed), SetOf(observed) - SetOf(declared);
    assert Lists(Sorted(missing), missing) && Lists(Sorted(extra), extra);
    if Sorted(missing) == [] && Sorted(extra) == [] {
      forall x
        ensures x in declared <==> x in observed
      {
        assert x in declared <==> x in SetOf(declared);
        assert x in observed <==> x in SetOf(observed);
        assert x !in Sorted(missing) && x !in Sorted(extra);
      }
    }
    if forall x :: x in declared <==> x in observed {
      assert SetOf(declared) == SetOf(observed);
      assert missing == {} && extra == {};
      SortedIsUnique(Sorted(missing), []);
    }
    if multiset(declared) == multiset(observed) {
      forall x
        ensures x in declared <==> x in observed
      {
        assert x in declared <==> x in multiset(declared);
        assert x in observed <==> x in multiset(observed);
      }
    }
  }
}
