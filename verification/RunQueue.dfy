/** The leaderless run queue: internal/run/claim.go, reaper.go, lifecycle.go, priority.go and the
    state transitions of internal/runtime/executor.go. */
module RunQueue {
  import opened Options

  datatype RunState = Queued | Starting | Running | Succeeded | Failed | Canceled

  /** legalTransitions. */
  predicate LegalEdge(from: RunState, to: RunState) {
    match from
    case Queued => to == Starting || to == Canceled
    case Starting => to == Running || to == Failed || to == Canceled
    case Running => to == Succeeded || to == Failed || to == Canceled
    case _ => false
  }

  /** resetTransitions. */
  predicate ResetEdge(from: RunState, to: RunState) {
    (from == Starting || from == Running) && to == Queued
  }

  /** The edges of the two tables. */
  lemma EdgesExactly(from: RunState, to: RunState)
    ensures LegalEdge(from, to)
      <==> (from, to) in {(Queued, Starting), (Queued, Canceled),
                          (Starting, Running), (Starting, Failed), (Starting, Canceled),
                          (Running, Succeeded), (Running, Failed), (Running, Canceled)}
    ensures ResetEdge(from, to) <==> (from, to) in {(Starting, Queued), (Running, Queued)}
  {}

  predicate IsTerminal(s: RunState) {
    s == Succeeded || s == Failed || s == Canceled
  }

  function PriorityOrder(p: string): int {
    if p == "critical" then 0 else if p == "backfill" then 2 else 1
  }

  /** A row of the runs table. */
  datatype Run = Run(state: RunState, priority: string, queuedAt: int, claimedBy: Option<string>,
                     lastHeartbeat: Option<int>)

  type Id = string // a uuid

  type Runs = map<Id, Run>

  predicate Active(r: Run) {
    r.state == Starting || r.state == Running
  }

  /** The reaper's guard: in flight and last heard of before the cutoff. */
  predicate Stale(r: Run, cutoff: int) {
    Active(r) && r.lastHeartbeat.Some? && r.lastHeartbeat.value < cutoff
  }

  function Reset(r: Run): Run {
    r.(state := Queued, claimedBy := None, lastHeartbeat := None)
  }

  function Claimed(r: Run, worker: string, now: int): Run {
    r.(state := Starting, claimedBy := Some(worker), lastHeartbeat := Some(now))
  }

  /** Claim order: priority tier first, then first queued. */
  predicate Before(a: Run, b: Run) {
    PriorityOrder(a.priority) < PriorityOrder(b.priority)
    || (PriorityOrder(a.priority) == PriorityOrder(b.priority) && a.queuedAt <= b.queuedAt)
  }

  /** What SELECT ... FOR UPDATE SKIP LOCKED LIMIT 1 may return. */
  predicate NextToClaim(runs: Runs, locked: set<Id>, id: Id) {
    && id in runs && id !in locked && runs[id].state == Queued
    && forall x | x in runs && x !in locked && runs[x].state == Queued :: Before(runs[id], runs[x])
  }

  /** The claim order in the rows' own fields: id is queued and not locked; it is critical if any such run is, and of
      the backfill tier only if all are, every other priority ranking as normal; and none of its own tier was queued
      earlier. */
  ghost predicate FirstInLine(runs: Runs, locked: set<Id>, id: Id) {
    && id in runs && id !in locked && runs[id].state == Queued
    && forall x | x in runs && x !in locked && runs[x].state == Queued ::
         && (runs[x].priority == "critical" ==> runs[id].priority == "critical")
         && (runs[id].priority == "backfill" ==> runs[x].priority == "backfill")
         && (SameTier(runs[x].priority, runs[id].priority) ==> runs[id].queuedAt <= runs[x].queuedAt)
  }

  predicate SameTier(p: string, q: string) {
    (p == "critical" <==> q == "critical") && (p == "backfill" <==> q == "backfill")
  }

  /** The query's ordering is that order, in both directions. */
  lemma FirstInLineExactly(runs: Runs, locked: set<Id>, id: Id)
    ensures NextToClaim(runs, locked, id) <==> FirstInLine(runs, locked, id)
  {
    if NextToClaim(runs, locked, id) {
      forall x | x in runs && x !in locked && runs[x].state == Queued
        ensures Before(runs[id], runs[x])
      {}
    }
    if FirstInLine(runs, locked, id) {
      forall x | x in runs && x !in locked && runs[x].state == Queued
        ensures Before(runs[id], runs[x])
      {
        BeforeExactly(runs[id], runs[x]);
      }
    }
  }

  lemma BeforeExactly(a: Run, b: Run)
    ensures Before(a, b)
      <==> (b.priority == "critical" ==> a.priority == "critical")
           && (a.priority == "backfill" ==> b.priority == "backfill")
           && (SameTier(a.priority, b.priority) ==> a.queuedAt <= b.queuedAt)
  {}

  // ----- One caller at a time -----

  class RunTable {
    var runs: Runs

    constructor (runs: Runs)
      ensures this.runs == runs
    {
      this.runs := runs;
    }

    /** ClaimNext: none exactly when every queued row is locked; otherwise the first in claim order
        becomes starting, and nothing else changes. */
    method ClaimNext(worker: string, now: int, locked: set<Id>) returns (claimed: Option<Id>)
      modifies this
      ensures claimed.None? <==> forall x | x in old(runs) && x !in locked :: old(runs)[x].state != Queued
      ensures claimed.None? ==> runs == old(runs)
      ensures claimed.Some? ==> FirstInLine(old(runs), locked, claimed.value)
      ensures claimed.Some? ==>
                var r := old(runs)[claimed.value];
                runs == old(runs)[claimed.value := Run(Starting, r.priority, r.queuedAt, Some(worker), Some(now))]
    {
      var rows := set x | x in runs && x !in locked && runs[x].state == Queued;
      if rows == {} {
        assert forall x | x in runs && x !in locked :: x !in rows;
        return None;
      }
      var best: Id :| best in rows;
      var rest := rows - {best};
      while rest != {}
        invariant rest <= rows && best in rows
        invariant forall x | x in rows - rest :: Before(runs[best], runs[x])
        decreases rest
      {
        var x :| x in rest;
        rest := rest - {x};
        if !Before(runs[best], runs[x]) {
          best := x;
        }
      }
      FirstInLineExactly(runs, locked, best);
      runs := runs[best := Claimed(runs[best], worker, now)];
      claimed := Some(best);
    }

    method Heartbeat(id: Id, now: int)
      modifies this
      ensures runs == HeartbeatRuns(old(runs), id, now)
    {
      if id in runs && Active(runs[id]) {
        runs := runs[id := runs[id].(lastHeartbeat := Some(now))];
      }
    }

    /** Executor.transition: an illegal edge is refused; a row not in `from` is left alone. */
    method Transition(id: Id, from: RunState, to: RunState) returns (ok: bool)
      modifies this
      ensures ok <==> LegalEdge(from, to)
      ensures runs == if ok then TransitionRuns(old(runs), id, from, to) else old(runs)
    {
      if !LegalEdge(from, to) {
        return false;
      }
      if id in runs && runs[id].state == from {
        runs := runs[id := runs[id].(state := to)];
      }
      ok := true;
    }

    /** SweepOnce, without errors or interference: exactly the stale runs are reset, each once. */
    method SweepOnce(cutoff: int) returns (reclaimed: nat)
      modifies this
      ensures runs.Keys == old(runs).Keys
      ensures forall id | id in runs ::
                runs[id] == if Stale(old(runs)[id], cutoff) then Reset(old(runs)[id]) else old(runs)[id]
      ensures reclaimed == |set id | id in old(runs) && Stale(old(runs)[id], cutoff)|
    {
      var candidates := set id | id in runs && Stale(runs[id], cutoff);
      var todo := candidates;
      reclaimed := 0;
      while todo != {}
        invariant todo <= candidates && runs.Keys == old(runs).Keys
        invariant forall id | id in runs ::
                    runs[id] == if id in candidates - todo then Reset(old(runs)[id]) else old(runs)[id]
        invariant reclaimed == |candidates - todo|
        decreases todo
      {
        var id :| id in todo;
        assert candidates - (todo - {id}) == (candidates - todo) + {id};
        todo := todo - {id};
        if ResetEdge(runs[id].state, Queued) && Stale(runs[id], cutoff) {
          runs := runs[id := Reset(runs[id])];
          reclaimed := reclaimed + 1;
        }
      }
    }
  }

  function HeartbeatRuns(runs: Runs, id: Id, now: int): Runs {
    if id in runs && Active(runs[id]) then runs[id := runs[id].(lastHeartbeat := Some(now))] else runs
  }

  function TransitionRuns(runs: Runs, id: Id, from: RunState, to: RunState): Runs {
    if id in runs && runs[id].state == from then runs[id := runs[id].(state := to)] else runs
  }

  // ----- Everyone at once -----

  /** A sweep in flight: its cutoff is fixed before its candidates are read, and they are updated one by one. */
  datatype Sweep = Begun(cutoff: int) | Selected(cutoff: int, todo: set<Id>)

  /** An open claim transaction: the row it has locked, and the time its update has stamped. */
  datatype Claim = Claim(id: Id, stamp: Option<int>)

  /** executors: the claims that workers believe they hold, whether or not the row still says so. */
  datatype Queue = Queue(now: int, runs: Runs, claims: map<string, Claim>, executors: set<(string, Id)>,
                         sweeps: map<int, Sweep>)

  datatype Step =
    | Tick(elapsed: nat)
    | Enqueue(id: Id, priority: string)
    | ClaimSelect(worker: string, id: Id)
    | ClaimUpdate(worker: string)
    | ClaimCommit(worker: string)
    | ClaimRollback(worker: string)
    | Heartbeat(worker: string, id: Id)
    | Execute(worker: string, id: Id, from: RunState, to: RunState)
    | Stop(worker: string, id: Id)
    | SweepBegin(sweep: int)
    | SweepSelect(sweep: int)
    | SweepUpdate(sweep: int, id: Id)
    | SweepEnd(sweep: int)

  function LockedRows(q: Queue): set<Id> {
    set w | w in q.claims :: q.claims[w].id
  }

  /** The edges Executor.Run asks for. */
  predicate ExecutorEdge(from: RunState, to: RunState) {
    (from == Starting && to == Running) || (from == Running && (to == Succeeded || to == Failed))
  }

  /** A step that is not enabled changes nothing. staleAfter is the reapers' common threshold. */
  function Do(q: Queue, step: Step, staleAfter: int): Queue {
    match step
    case Tick(elapsed) => q.(now := q.now + elapsed)
    case Enqueue(id, priority) =>
      if id in q.runs then q else q.(runs := q.runs[id := Run(Queued, priority, q.now, None, None)])
    case ClaimSelect(w, id) =>
      if w !in q.claims && NextToClaim(q.runs, LockedRows(q), id) then q.(claims := q.claims[w := Claim(id, None)])
      else q
    case ClaimUpdate(w) =>
      if w in q.claims then q.(claims := q.claims[w := q.claims[w].(stamp := Some(q.now))]) else q
    case ClaimCommit(w) =>
      if w in q.claims && q.claims[w].stamp.Some? then
        q.(runs := ClaimRuns(q, w), claims := q.claims - {w}, executors := q.executors + {(w, q.claims[w].id)})
      else q
    case ClaimRollback(w) => q.(claims := q.claims - {w})
    case Heartbeat(w, id) => if (w, id) in q.executors then q.(runs := HeartbeatRuns(q.runs, id, q.now)) else q
    case Execute(w, id, from, to) =>
      if (w, id) in q.executors && ExecutorEdge(from, to) then
        q.(runs := TransitionRuns(q.runs, id, from, to),
           executors := if IsTerminal(to) then q.executors - {(w, id)} else q.executors)
      else q
    case Stop(w, id) => q.(executors := q.executors - {(w, id)})
    case SweepBegin(k) =>
      if k in q.sweeps then q else q.(sweeps := q.sweeps[k := Begun(q.now - staleAfter)])
    case SweepSelect(k) =>
      if k in q.sweeps && q.sweeps[k].Begun? then
        var cutoff := q.sweeps[k].cutoff;
        q.(sweeps := q.sweeps[k := Selected(cutoff, set id | id in q.runs && Stale(q.runs[id], cutoff))])
      else q
    case SweepUpdate(k, id) =>
      if k in q.sweeps && q.sweeps[k].Selected? && id in q.sweeps[k].todo then
        var sw := q.sweeps[k];
        q.(runs := if id in q.runs && Stale(q.runs[id], sw.cutoff) then q.runs[id := Reset(q.runs[id])] else q.runs,
           sweeps := q.sweeps[k := sw.(todo := sw.todo - {id})])
      else q
    case SweepEnd(k) =>
      if k in q.sweeps && q.sweeps[k].Selected? && q.sweeps[k].todo == {} then q.(sweeps := q.sweeps - {k}) else q
  }

  /** The claim's UPDATE ... WHERE id = $3 AND state = 'queued'. */
  function ClaimRuns(q: Queue, w: string): Runs
    requires w in q.claims && q.claims[w].stamp.Some?
  {
    var c := q.claims[w];
    if c.id in q.runs && q.runs[c.id].state == Queued then q.runs[c.id := Claimed(q.runs[c.id], w, c.stamp.value)]
    else q.runs
  }

  function DoAll(q: Queue, steps: seq<Step>, staleAfter: int): Queue {
    if |steps| == 0 then q else Do(DoAll(q, steps[..|steps| - 1], staleAfter), steps[|steps| - 1], staleAfter)
  }

  const EMPTY := Queue(0, map[], map[], {}, map[])

  /** A claim transaction takes a row exactly when it is first in line among the rows no other open claim holds. */
  lemma ClaimSelectsFirst(q: Queue, w: string, id: Id, staleAfter: int)
    requires w !in q.claims
    ensures var t := Do(q, ClaimSelect(w, id), staleAfter);
      && (w in t.claims <==> FirstInLine(q.runs, set v | v in q.claims :: q.claims[v].id, id))
      && (w in t.claims ==> t.claims == q.claims[w := Claim(id, None)])
      && t.runs == q.runs
  {
    FirstInLineExactly(q.runs, LockedRows(q), id);
  }

  /** What executors and sweeps do to rows: a heartbeat of a worker that believes to hold the run stamps it while it is
      in flight; that worker alone moves it, from starting to running and from running to succeeded or failed, if it
      still is where the worker thinks; a sweep resets a candidate that is in flight and was last heard of before the
      instant that lay staleAfter back when the sweep began. */
  lemma HeartbeatExactly(q: Queue, w: string, id: Id, staleAfter: int)
    ensures Do(q, Heartbeat(w, id), staleAfter)
      == if (w, id) in q.executors && id in q.runs && q.runs[id].state in {Starting, Running}
         then q.(runs := q.runs[id := q.runs[id].(lastHeartbeat := Some(q.now))]) else q
  {}

  lemma ExecuteExactly(q: Queue, w: string, id: Id, from: RunState, to: RunState, staleAfter: int)
    ensures var t := Do(q, Execute(w, id, from, to), staleAfter);
      var asked := (w, id) in q.executors
                   && (from, to) in {(Starting, Running), (Running, Succeeded), (Running, Failed)};
      && t == q.(runs := t.runs, executors := t.executors)
      && t.runs == (if asked && id in q.runs && q.runs[id].state == from then q.runs[id := q.runs[id].(state := to)]
                    else q.runs)
      && t.executors == if asked && to != Running then q.executors - {(w, id)} else q.executors
  {}

  lemma SweepExactly(q: Queue, k: int, id: Id, staleAfter: int)
    requires k !in q.sweeps
    ensures var a := Do(q, SweepBegin(k), staleAfter); var b := Do(a, SweepSelect(k), staleAfter);
      var c := Do(b, SweepUpdate(k, id), staleAfter);
      c.runs == if id in q.runs && q.runs[id].state in {Starting, Running} && q.runs[id].lastHeartbeat.Some?
                   && q.runs[id].lastHeartbeat.value < q.now - staleAfter
                then q.runs[id := Run(Queued, q.runs[id].priority, q.runs[id].queuedAt, None, None)] else q.runs
  {}

  /** A worker comes to believe it holds a run by committing a claim of it, and gives the belief up by stopping or by
      asking to end the run; a sweep keeps its cutoff until it ends. */
  lemma BeliefsExactly(q: Queue, step: Step, staleAfter: int, w: string, id: Id, k: int)
    ensures var t := Do(q, step, staleAfter); var held, holds := (w, id) in q.executors, (w, id) in t.executors;
      && (!held && holds ==> step == ClaimCommit(w) && w in q.claims && q.claims[w].id == id)
      && (held && !holds ==> step == Stop(w, id)
                             || (exists from, to :: step == Execute(w, id, from, to) && to != Running))
      && (step == Stop(w, id) ==> !holds)
      && (k in q.sweeps && k in t.sweeps ==> t.sweeps[k].cutoff == q.sweeps[k].cutoff)
  {}

  // ----- Invariants of every interleaving -----

  predicate RowInv(r: Run, now: int) {
    && (r.claimedBy.None? <==> r.state == Queued)
    && (r.lastHeartbeat.None? <==> r.state == Queued)
    && (r.lastHeartbeat.Some? ==> r.lastHeartbeat.value <= now)
  }

  ghost predicate RowsInv(q: Queue) {
    forall id | id in q.runs :: RowInv(q.runs[id], q.now)
  }

  /** A locked row is still queued. */
  ghost predicate LockedQueued(q: Queue) {
    forall w | w in q.claims :: q.claims[w].id in q.runs && q.runs[q.claims[w].id].state == Queued
  }

  /** No two claims hold the same row, and no stamp lies in the future. */
  ghost predicate ClaimsInv(q: Queue) {
    && (forall v, w | v in q.claims && w in q.claims && q.claims[v].id == q.claims[w].id :: v == w)
    && (forall w | w in q.claims && q.claims[w].stamp.Some? :: q.claims[w].stamp.value <= q.now)
  }

  /** A sweep's cutoff lies at least staleAfter in the past. */
  ghost predicate SweepsInv(q: Queue, staleAfter: int) {
    forall k | k in q.sweeps :: q.sweeps[k].cutoff + staleAfter <= q.now
  }

  ghost predicate Inv(q: Queue, staleAfter: int) {
    RowsInv(q) && LockedQueued(q) && ClaimsInv(q) && SweepsInv(q, staleAfter)
  }

  lemma DoKeepsRows(q: Queue, step: Step, staleAfter: int)
    requires RowsInv(q) && ClaimsInv(q)
    ensures RowsInv(Do(q, step, staleAfter))
  {}

  lemma DoKeepsLocked(q: Queue, step: Step, staleAfter: int)
    requires LockedQueued(q) && ClaimsInv(q)
    ensures LockedQueued(Do(q, step, staleAfter))
  {}

  lemma DoKeepsClaims(q: Queue, step: Step, staleAfter: int)
    requires ClaimsInv(q)
    ensures ClaimsInv(Do(q, step, staleAfter))
  {}

  lemma DoKeepsSweeps(q: Queue, step: Step, staleAfter: int)
    requires SweepsInv(q, staleAfter)
    ensures SweepsInv(Do(q, step, staleAfter), staleAfter)
  {}

  lemma DoKeepsInv(q: Queue, step: Step, staleAfter: int)
    requires Inv(q, staleAfter)
    ensures Inv(Do(q, step, staleAfter), staleAfter)
  {
    DoKeepsRows(q, step, staleAfter);
    DoKeepsLocked(q, step, staleAfter);
    DoKeepsClaims(q, step, staleAfter);
    DoKeepsSweeps(q, step, staleAfter);
  }

  lemma {:induction false} ReachableInv(steps: seq<Step>, staleAfter: int)
    ensures Inv(DoAll(EMPTY, steps, staleAfter), staleAfter)
    decreases |steps|
  {
    if |steps| > 0 {
      ReachableInv(steps[..|steps| - 1], staleAfter);
      DoKeepsInv(DoAll(EMPTY, steps[..|steps| - 1], staleAfter), steps[|steps| - 1], staleAfter);
    }
  }

  /** The ways one step can change one row. */
  lemma StepMoves(q: Queue, step: Step, staleAfter: int, id: Id)
    requires Inv(q, staleAfter) && id in q.runs
    ensures var t := Do(q, step, staleAfter);
            && id in t.runs
            && var r, r' := q.runs[id], t.runs[id];
               || r' == r
               || (step.ClaimCommit? && r.state == Queued && r'.state == Starting && r'.claimedBy == Some(step.worker))
               || (step.Heartbeat? && step.id == id && Active(r) && r' == r.(lastHeartbeat := Some(q.now)))
               || (step.Execute? && step.id == id && ExecutorEdge(r.state, r'.state) && r' == r.(state := step.to))
               || (step.SweepUpdate? && Stale(r, q.now - staleAfter) && r' == Reset(r))
  {}

  /** In every interleaving: claimed_by and last_heartbeat are null exactly on queued rows; a claim that has
      selected its row always finds it still queued, so the "claim race" error is never returned; and
      each next step moves a run only along an edge of the two tables, never out of a terminal state. */
  lemma EveryInterleaving(steps: seq<Step>, staleAfter: int, next: Step, id: Id, w: string)
    ensures var q := DoAll(EMPTY, steps, staleAfter); var t := Do(q, next, staleAfter);
            && (id in q.runs ==>
                  && (q.runs[id].claimedBy.None? <==> q.runs[id].state == Queued)
                  && (q.runs[id].lastHeartbeat.None? <==> q.runs[id].state == Queued))
            && (w in q.claims ==> q.claims[w].id in q.runs && q.runs[q.claims[w].id].state == Queued)
            && (id in q.runs ==>
                  && id in t.runs
                  && (t.runs[id].state == q.runs[id].state || LegalEdge(q.runs[id].state, t.runs[id].state)
                      || ResetEdge(q.runs[id].state, t.runs[id].state))
                  && (IsTerminal(q.runs[id].state) ==> t.runs[id] == q.runs[id]))
  {
    ReachableInv(steps, staleAfter);
    if id in DoAll(EMPTY, steps, staleAfter).runs {
      StepMoves(DoAll(EMPTY, steps, staleAfter), next, staleAfter, id);
    }
  }

  lemma {:induction false} TerminalIsFinal(q: Queue, steps: seq<Step>, staleAfter: int, id: Id)
    requires Inv(q, staleAfter) && id in q.runs && IsTerminal(q.runs[id].state)
    ensures Inv(DoAll(q, steps, staleAfter), staleAfter)
    ensures id in DoAll(q, steps, staleAfter).runs && DoAll(q, steps, staleAfter).runs[id] == q.runs[id]
    decreases |steps|
  {
    if |steps| > 0 {
      var before := DoAll(q, steps[..|steps| - 1], staleAfter);
      TerminalIsFinal(q, steps[..|steps| - 1], staleAfter, id);
      StepMoves(before, steps[|steps| - 1], staleAfter, id);
      DoKeepsInv(before, steps[|steps| - 1], staleAfter);
    }
  }

  // ----- Conservation of claims and resets -----

  function StateOf(q: Queue, id: Id): RunState {
    if id in q.runs then q.runs[id].state else Queued
  }

  function IsClaim(q: Queue, step: Step, staleAfter: int, id: Id): nat {
    if step.ClaimCommit? && StateOf(q, id) == Queued && StateOf(Do(q, step, staleAfter), id) == Starting then 1 else 0
  }

  function IsReset(q: Queue, step: Step, staleAfter: int, id: Id): nat {
    if step.SweepUpdate? && StateOf(q, id) != Queued && StateOf(Do(q, step, staleAfter), id) == Queued then 1 else 0
  }

  /** Successful claims of a run over a sequence of steps. */
  function Claims(q: Queue, steps: seq<Step>, staleAfter: int, id: Id): nat {
    if |steps| == 0 then 0
    else
      var front := steps[..|steps| - 1];
      Claims(q, front, staleAfter, id) + IsClaim(DoAll(q, front, staleAfter), steps[|steps| - 1], staleAfter, id)
  }

  /** Successful resets of a run over a sequence of steps. */
  function Resets(q: Queue, steps: seq<Step>, staleAfter: int, id: Id): nat {
    if |steps| == 0 then 0
    else
      var front := steps[..|steps| - 1];
      Resets(q, front, staleAfter, id) + IsReset(DoAll(q, front, staleAfter), steps[|steps| - 1], staleAfter, id)
  }

  function Held(q: Queue, id: Id): int {
    if StateOf(q, id) == Queued then 0 else 1
  }

  lemma StepBalance(q: Queue, step: Step, staleAfter: int, id: Id)
    requires Inv(q, staleAfter)
    ensures IsClaim(q, step, staleAfter, id) - IsReset(q, step, staleAfter, id)
            == Held(Do(q, step, staleAfter), id) - Held(q, id)
  {
    if id in q.runs {
      StepMoves(q, step, staleAfter, id);
    }
  }

  /** Successful claims minus successful resets is the change in being held. */
  lemma {:induction false} ClaimsMinusResets(q: Queue, steps: seq<Step>, staleAfter: int, id: Id)
    requires Inv(q, staleAfter)
    ensures Inv(DoAll(q, steps, staleAfter), staleAfter)
    ensures Claims(q, steps, staleAfter, id) - Resets(q, steps, staleAfter, id)
            == Held(DoAll(q, steps, staleAfter), id) - Held(q, id)
    decreases |steps|
  {
    if |steps| > 0 {
      var front, last := steps[..|steps| - 1], steps[|steps| - 1];
      ClaimsMinusResets(q, front, staleAfter, id);
      StepBalance(DoAll(q, front, staleAfter), last, staleAfter, id);
      DoKeepsInv(DoAll(q, front, staleAfter), last, staleAfter);
    }
  }

  /** From the empty queue: claims minus resets is 0 while queued and 1 otherwise. */
  lemma ClaimBalance(steps: seq<Step>, staleAfter: int, id: Id)
    ensures Claims(EMPTY, steps, staleAfter, id) - Resets(EMPTY, steps, staleAfter, id)
            == if StateOf(DoAll(EMPTY, steps, staleAfter), id) == Queued then 0 else 1
  {
    ClaimsMinusResets(EMPTY, steps, staleAfter, id);
  }

  // ----- Claimants -----

  /** The worker of the last successful claim of the run in a sequence of steps. */
  function LastClaim(q: Queue, steps: seq<Step>, staleAfter: int, id: Id): Option<string> {
    if |steps| == 0 then None
    else
      var front, last := steps[..|steps| - 1], steps[|steps| - 1];
      if IsClaim(DoAll(q, front, staleAfter), last, staleAfter, id) == 1 then Some(last.worker)
      else LastClaim(q, front, staleAfter, id)
  }

  lemma StepClaimant(q: Queue, step: Step, staleAfter: int, id: Id)
    requires Inv(q, staleAfter) && StateOf(Do(q, step, staleAfter), id) != Queued
    ensures Do(q, step, staleAfter).runs[id].claimedBy
         == if IsClaim(q, step, staleAfter, id) == 1 then Some(step.worker)
            else if id in q.runs then q.runs[id].claimedBy else None
    ensures IsClaim(q, step, staleAfter, id) != 1 ==> StateOf(q, id) != Queued
  {
    if id in q.runs {
      StepMoves(q, step, staleAfter, id);
    }
  }

  /** claimed_by of a run that is not queued is the worker of the last claim. */
  lemma {:induction false} LastClaimIsClaimant(q: Queue, steps: seq<Step>, staleAfter: int, id: Id)
    requires Inv(q, staleAfter) && StateOf(DoAll(q, steps, staleAfter), id) != Queued
    ensures DoAll(q, steps, staleAfter).runs[id].claimedBy
         == if LastClaim(q, steps, staleAfter, id).Some? then LastClaim(q, steps, staleAfter, id)
            else if id in q.runs then q.runs[id].claimedBy else None
    decreases |steps|
  {
    if |steps| > 0 {
      var front, last := steps[..|steps| - 1], steps[|steps| - 1];
      ClaimsMinusResets(q, front, staleAfter, id);
      StepClaimant(DoAll(q, front, staleAfter), last, staleAfter, id);
      if IsClaim(DoAll(q, front, staleAfter), last, staleAfter, id) != 1 {
        LastClaimIsClaimant(q, front, staleAfter, id);
      }
    }
  }

  /** The transition's guard asks for the state only. In every interleaving a worker's terminal transition finds the run
      claimed by that worker exactly when no other worker has claimed it last; it goes through all the same. */
  lemma FinisherIsClaimant(steps: seq<Step>, staleAfter: int, w: string, id: Id, to: RunState)
    requires var q := DoAll(EMPTY, steps, staleAfter); (w, id) in q.executors && StateOf(q, id) == Running
    requires to == Succeeded || to == Failed
    ensures var q := DoAll(EMPTY, steps, staleAfter); var t := Do(q, Execute(w, id, Running, to), staleAfter);
      && t.runs == q.runs[id := q.runs[id].(state := to)]
      && (t.runs[id].claimedBy == Some(w) <==> LastClaim(EMPTY, steps, staleAfter, id) == Some(w))
  {
    ReachableInv([], staleAfter);
    LastClaimIsClaimant(EMPTY, steps, staleAfter, id);
    EveryInterleaving(steps, staleAfter, Execute(w, id, Running, to), id, w);
  }

  lemma {:induction false} NoClaimsNoLast(q: Queue, steps: seq<Step>, staleAfter: int, id: Id)
    requires Claims(q, steps, staleAfter, id) == 0
    ensures LastClaim(q, steps, staleAfter, id).None?
    decreases |steps|
  {
    if |steps| > 0 {
      NoClaimsNoLast(q, steps[..|steps| - 1], staleAfter, id);
    }
  }

  lemma {:induction false} DoAllJoin(q: Queue, a: seq<Step>, b: seq<Step>, staleAfter: int)
    ensures DoAll(q, a + b, staleAfter) == DoAll(DoAll(q, a, staleAfter), b, staleAfter)
    decreases |b|
  {
    if |b| == 0 {
      assert a + b == a;
    } else {
      var front := b[..|b| - 1];
      DoAllJoin(q, a, front, staleAfter);
      assert (a + b)[..|a + b| - 1] == a + front;
    }
  }

  lemma ThreeSteps(q: Queue, a: Step, b: Step, c: Step, staleAfter: int)
    ensures DoAll(q, [a, b, c], staleAfter) == Do(Do(Do(q, a, staleAfter), b, staleAfter), c, staleAfter)
  {
    assert [a, b, c][..2] == [a, b] && [a, b][..1] == [a] && [a][..0] == [];
    assert DoAll(q, [a], staleAfter) == Do(DoAll(q, [], staleAfter), a, staleAfter);
    assert DoAll(q, [a, b], staleAfter) == Do(DoAll(q, [a], staleAfter), b, staleAfter);
  }

  /** One run and no open transactions. */
  predicate Only(q: Queue, id: Id, r: Run) {
    q.runs == map[id := r] && q.claims == map[] && q.sweeps == map[]
  }

  lemma ClaimAlone(q: Queue, staleAfter: int, w: string, id: Id, r: Run)
    requires Only(q, id, r) && r.state == Queued
    ensures var t := DoAll(q, [ClaimSelect(w, id), ClaimUpdate(w), ClaimCommit(w)], staleAfter);
      Only(t, id, Claimed(r, w, q.now)) && t.now == q.now && t.executors == q.executors + {(w, id)}
  {
    ThreeSteps(q, ClaimSelect(w, id), ClaimUpdate(w), ClaimCommit(w), staleAfter);
    var q1 := Do(q, ClaimSelect(w, id), staleAfter);
    assert q1.claims == map[w := Claim(id, None)];
    var q2 := Do(q1, ClaimUpdate(w), staleAfter);
    assert q2.claims == map[w := Claim(id, Some(q.now))];
  }

  lemma SweepAlone(q: Queue, staleAfter: int, k: int, id: Id, r: Run)
    requires Only(q, id, r) && Stale(r, q.now - staleAfter)
    ensures var t := DoAll(q, [SweepBegin(k), SweepSelect(k), SweepUpdate(k, id)], staleAfter);
      var u := Do(t, SweepEnd(k), staleAfter);
      Only(u, id, Reset(r)) && u.now == q.now && u.executors == q.executors
  {
    ThreeSteps(q, SweepBegin(k), SweepSelect(k), SweepUpdate(k, id), staleAfter);
    var q1 := Do(q, SweepBegin(k), staleAfter);
    var q2 := Do(q1, SweepSelect(k), staleAfter);
    assert q2.sweeps[k].todo == {id};
    var q3 := Do(q2, SweepUpdate(k, id), staleAfter);
    assert q3.sweeps[k].todo == {};
  }

  /** The claim of an only run, and its start. */
  lemma ClaimAndStart(q: Queue, staleAfter: int, w: string, id: Id, r: Run) returns (steps: seq<Step>)
    requires Only(q, id, r) && r.state == Queued
    ensures var t := DoAll(q, steps, staleAfter);
      && Only(t, id, Claimed(r, w, q.now).(state := Running)) && t.now == q.now
         && t.executors == q.executors + {(w, id)}
  {
    var claim: seq<Step> := [ClaimSelect(w, id), ClaimUpdate(w), ClaimCommit(w)];
    var start := Execute(w, id, Starting, Running);
    ClaimAlone(q, staleAfter, w, id, r);
    steps := claim + [start];
    assert steps[..|steps| - 1] == claim;
  }

  /** Silence, and the sweep that follows it. */
  lemma StallAndSweep(q: Queue, staleAfter: nat, id: Id, r: Run) returns (steps: seq<Step>)
    requires Only(q, id, r) && Active(r) && r.lastHeartbeat == Some(q.now)
    ensures var t := DoAll(q, steps, staleAfter); Only(t, id, Reset(r)) && t.executors == q.executors
  {
    var tick := Tick(staleAfter + 1);
    var later := Do(q, tick, staleAfter);
    var sweep: seq<Step> := [SweepBegin(0), SweepSelect(0), SweepUpdate(0, id)];
    SweepAlone(later, staleAfter, 0, id, r);
    steps := [tick] + (sweep + [SweepEnd(0)]);
    assert (sweep + [SweepEnd(0)])[..3] == sweep;
    assert [tick][..0] == [] && DoAll(q, [tick], staleAfter) == Do(DoAll(q, [], staleAfter), tick, staleAfter);
    DoAllJoin(q, [tick], sweep + [SweepEnd(0)], staleAfter);
  }

  /** The history in which another worker's terminal transition ends the current claim: v stalls, the reaper resets its
      run, w claims it and starts, and then v returns. */
  lemma DisplacedWorkerFinishes(staleAfter: nat, v: string, w: string, id: Id, priority: string)
    returns (steps: seq<Step>)
    requires v != w
    ensures var q := DoAll(EMPTY, steps, staleAfter);
      && (v, id) in q.executors && StateOf(q, id) == Running && q.runs[id].claimedBy == Some(w)
      && LastClaim(EMPTY, steps, staleAfter, id) == Some(w)
      && var t := Do(q, Execute(v, id, Running, Succeeded), staleAfter);
         StateOf(t, id) == Succeeded && t.runs[id].claimedBy == Some(w)
  {
    var r := Run(Queued, priority, 0, None, None);
    var a := [Enqueue(id, priority)];
    assert a[..0] == [] && DoAll(EMPTY, a, staleAfter) == Do(DoAll(EMPTY, [], staleAfter), a[0], staleAfter);
    var q1 := DoAll(EMPTY, a, staleAfter);
    assert q1.runs == map[id := r];
    var b := ClaimAndStart(q1, staleAfter, v, id, r);
    var q2 := DoAll(q1, b, staleAfter);
    var c := StallAndSweep(q2, staleAfter, id, q2.runs[id]);
    var q3 := DoAll(q2, c, staleAfter);
    var d := ClaimAndStart(q3, staleAfter, w, id, q3.runs[id]);
    steps := a + b + c + d;
    DoAllJoin(EMPTY, a, b, staleAfter);
    DoAllJoin(EMPTY, a + b, c, staleAfter);
    DoAllJoin(EMPTY, a + b + c, d, staleAfter);
    ReachableInv([], staleAfter);
    LastClaimIsClaimant(EMPTY, steps, staleAfter, id);
  }

  // ----- Heartbeats and the reaper -----

  predicate HeardWithin(q: Queue, id: Id, h: int) {
    id in q.runs && Active(q.runs[id]) && q.runs[id].lastHeartbeat.Some? ==> q.now - q.runs[id].lastHeartbeat.value <= h
  }

  /** A run that is never silent for longer than h < staleAfter while in flight is never reset, whatever
      the sweeps, although each fixes its cutoff before it selects and updates. */
  lemma {:induction false} HeartbeatingRunIsNeverReset(q: Queue, steps: seq<Step>, staleAfter: int, id: Id, h: int)
    requires Inv(q, staleAfter) && h < staleAfter
    requires forall n | 0 <= n < |steps| :: HeardWithin(DoAll(q, steps[..n], staleAfter), id, h)
    ensures Inv(DoAll(q, steps, staleAfter), staleAfter)
    ensures Resets(q, steps, staleAfter, id) == 0
    decreases |steps|
  {
    if |steps| > 0 {
      var front, last := steps[..|steps| - 1], steps[|steps| - 1];
      forall n | 0 <= n < |front|
        ensures HeardWithin(DoAll(q, front[..n], staleAfter), id, h)
      {
        assert front[..n] == steps[..n];
      }
      HeartbeatingRunIsNeverReset(q, front, staleAfter, id, h);
      var before := DoAll(q, front, staleAfter);
      assert HeardWithin(before, id, h);
      if id in before.runs {
        StepMoves(before, last, staleAfter, id);
      }
      DoKeepsInv(DoAll(q, front, staleAfter), last, staleAfter);
    }
  }

  /** While a run is heard of within h, its claim stays with the worker that holds it. */
  lemma HeardRunKeepsClaimant(q: Queue, steps: seq<Step>, staleAfter: int, id: Id, h: int)
    requires Inv(q, staleAfter) && h < staleAfter && StateOf(q, id) != Queued
    requires forall n | 0 <= n < |steps| :: HeardWithin(DoAll(q, steps[..n], staleAfter), id, h)
    ensures StateOf(DoAll(q, steps, staleAfter), id) != Queued
    ensures DoAll(q, steps, staleAfter).runs[id].claimedBy == q.runs[id].claimedBy
  {
    HeartbeatingRunIsNeverReset(q, steps, staleAfter, id, h);
    ClaimsMinusResets(q, steps, staleAfter, id);
    NoClaimsNoLast(q, steps, staleAfter, id);
    LastClaimIsClaimant(q, steps, staleAfter, id);
  }

  /** Steps by which a worker shows a sign of life of the run. */
  predicate SignOfLife(step: Step, id: Id) {
    match step
    case Heartbeat(_, x) => x == id
    case Execute(_, x, _, _) => x == id
    case _ => false
  }

  /** The run is still to be reset by sweep k. */
  ghost predicate Doomed(q: Queue, k: int, id: Id) {
    && k in q.sweeps && id in q.runs && Stale(q.runs[id], q.sweeps[k].cutoff)
    && (q.sweeps[k].Selected? ==> id in q.sweeps[k].todo)
  }

  lemma DoomedStep(q: Queue, step: Step, staleAfter: int, k: int, id: Id)
    requires Inv(q, staleAfter) && Doomed(q, k, id) && !SignOfLife(step, id)
    ensures IsReset(q, step, staleAfter, id) == 1 || Doomed(Do(q, step, staleAfter), k, id)
  {
    StepMoves(q, step, staleAfter, id);
  }

  lemma {:induction false} DoomedUntilReset(q: Queue, steps: seq<Step>, staleAfter: int, k: int, id: Id)
    requires Inv(q, staleAfter) && Doomed(q, k, id)
    requires forall s | s in steps :: !SignOfLife(s, id)
    ensures Inv(DoAll(q, steps, staleAfter), staleAfter)
    ensures Resets(q, steps, staleAfter, id) >= 1 || Doomed(DoAll(q, steps, staleAfter), k, id)
    decreases |steps|
  {
    if |steps| > 0 {
      var front, last := steps[..|steps| - 1], steps[|steps| - 1];
      assert steps == front + [last];
      DoomedUntilReset(q, front, staleAfter, k, id);
      if Doomed(DoAll(q, front, staleAfter), k, id) {
        DoomedStep(DoAll(q, front, staleAfter), last, staleAfter, k, id);
      }
      DoKeepsInv(DoAll(q, front, staleAfter), last, staleAfter);
    }
  }

  /** A run in flight and silent for more than staleAfter when a sweep begins is reset before that sweep ends,
      whatever else happens, and only once unless it is claimed again in between. */
  lemma SilentRunIsReset(q: Queue, steps: seq<Step>, staleAfter: int, k: int, id: Id)
    requires Inv(q, staleAfter) && k !in q.sweeps
    requires id in q.runs && Active(q.runs[id]) && q.runs[id].lastHeartbeat.value + staleAfter < q.now
    requires forall s | s in steps :: !(s.Heartbeat? && s.id == id) && !(s.Execute? && s.id == id)
    requires k !in DoAll(Do(q, SweepBegin(k), staleAfter), steps, staleAfter).sweeps
    ensures var q0 := Do(q, SweepBegin(k), staleAfter);
            1 <= Resets(q0, steps, staleAfter, id) <= 1 + Claims(q0, steps, staleAfter, id)
  {
    var q0 := Do(q, SweepBegin(k), staleAfter);
    DoKeepsInv(q, SweepBegin(k), staleAfter);
    DoomedUntilReset(q0, steps, staleAfter, k, id);
    ClaimsMinusResets(q0, steps, staleAfter, id);
  }
}
