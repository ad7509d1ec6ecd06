/** internal/governance/workflow.go, auto_approval.go and the executor's materialization gate:
    the review state machine over the vote ledger. */
module Governance {
  import opened Ledger
  import opened Options
  import opened Text

  type Version = (string, string) // asset and code hash

  datatype Status = InReview | Approved | Rejected | AutoApproved

  /** asset_versions.governance_state. */
  datatype GovState = Draft | UnderReview | Active | Refused

  /** A governance_reviews row; comment is the vote ledger. */
  datatype Review = Review(version: Version, submitter: Uuid, quorum: int, roles: seq<string>, status: Status,
                           decidedAt: Option<int>, decidedBy: Option<Uuid>, comment: string)

  /** The audit entries the workflow writes in its transactions. */
  datatype Event =
    | Submitted(review: int, version: Version, probes: Probes)
    | Decided(review: int, version: Version, vote: Vote, terminal: bool)

  datatype State = State(reviews: map<int, Review>, versions: map<Version, GovState>, log: seq<Event>)

  datatype Error = VersionNotFound | CheckFailed | InsertRefused | ReviewNotFound | AlreadyDecided | SelfApproval
                 | DuplicateVote | CommentRequired

  datatype Result = Ok | Err(error: Error)

  // ----- The auto-approval pipeline -----

  datatype Decision = AutoApprove | MustHumanReview | Blocked

  datatype CheckResult = CheckResult(decision: Decision, reason: string, failedChecks: seq<string>)

  /** What the database probes of AutoApprovalChecker.Check report about the asset. */
  datatype Probes = Probes(breakingChange: bool, hasPii: bool, piiWithoutPolicy: bool, missingColumn: string,
                           driftPending: bool, requireHumanReview: bool)

  predicate AllChecksPass(p: Probes) {
    !p.breakingChange && !p.hasPii && !p.piiWithoutPolicy && p.missingColumn == "" && !p.driftPending
      && !p.requireHumanReview
  }

  predicate HardCheckFails(p: Probes) {
    p.breakingChange || p.piiWithoutPolicy || p.missingColumn != "" || p.driftPending
  }

  function AddedIf(checks: seq<string>, failed: bool, name: string): seq<string> {
    if failed then checks + [name] else checks
  }

  function HardFailures(p: Probes): seq<string> {
    var schema := AddedIf([], p.breakingChange, "schema_break_ack");
    var policy := AddedIf(schema, p.piiWithoutPolicy, "pii_policy_consistency");
    var quality := AddedIf(policy, p.missingColumn != "", "quality_config_sanity");
    AddedIf(quality, p.driftPending, "lineage_drift")
  }

  lemma HardFailuresAreNamed(p: Probes)
    ensures HardFailures(p) == [] <==> !HardCheckFails(p)
    ensures "pii_presence" !in HardFailures(p)
  {}

  /** The reason of the first hard check that failed. */
  function HardReason(p: Probes): string {
    if p.breakingChange then "unacknowledged breaking schema change"
    else if p.piiWithoutPolicy then "PII column without policy"
    else if p.missingColumn != "" then "quality rule references missing column"
    else if p.driftPending then "lineage drift unacknowledged"
    else ""
  }

  /** Check. Auto-approval, an empty list of failed checks and every probe passing are one and the same;
      a hard failure blocks, a soft one asks for a human. */
  method Check(p: Probes) returns (res: CheckResult)
    ensures res.decision == AutoApprove <==> AllChecksPass(p)
    ensures res.decision == Blocked <==> HardCheckFails(p)
    ensures res.failedChecks == [] <==> AllChecksPass(p)
    ensures "pii_presence" in res.failedChecks <==> p.hasPii && !HardCheckFails(p)
    ensures res.decision == AutoApprove <==> res.reason == ""
    ensures HardCheckFails(p) ==> res == CheckResult(Blocked, HardReason(p), HardFailures(p))
    ensures !HardCheckFails(p) && p.hasPii ==>
      res == CheckResult(MustHumanReview, "PII columns require human review", ["pii_presence"])
    ensures !HardCheckFails(p) && !p.hasPii && p.requireHumanReview ==>
      res == CheckResult(MustHumanReview, "Builder.RequireHumanReview() forces human path", ["require_human_review"])
  {
    res := CheckResult(AutoApprove, "", []);
    if p.breakingChange {
      res := CheckResult(Blocked, "unacknowledged breaking schema change", res.failedChecks + ["schema_break_ack"]);
    }
    if p.piiWithoutPolicy {
      res := CheckResult(Blocked, if res.reason == "" then "PII column without policy" else res.reason,
                         res.failedChecks + ["pii_policy_consistency"]);
    }
    if p.missingColumn != "" {
      res := CheckResult(Blocked, if res.reason == "" then "quality rule references missing column" else res.reason,
                         res.failedChecks + ["quality_config_sanity"]);
    }
    if p.driftPending {
      res := CheckResult(Blocked, if res.reason == "" then "lineage drift unacknowledged" else res.reason,
                         res.failedChecks + ["lineage_drift"]);
    }
    assert res == if HardCheckFails(p) then CheckResult(Blocked, HardReason(p), HardFailures(p))
                  else CheckResult(AutoApprove, "", []);
    HardFailuresAreNamed(p);
    if res.decision == AutoApprove && p.hasPii {
      res := CheckResult(MustHumanReview, "PII columns require human review", res.failedChecks + ["pii_presence"]);
    }
    if p.requireHumanReview && res.decision == AutoApprove {
      res := CheckResult(MustHumanReview, "Builder.RequireHumanReview() forces human path",
                         res.failedChecks + ["require_human_review"]);
    }
  }

  // ----- Transitions as functions of the tables -----

  /** What Submit is called with. `probes` is None when a probe hits an infrastructure fault. */
  datatype Submission = Submission(version: Version, submitter: Uuid, roles: seq<string>, quorum: int,
                                   probes: Option<Probes>)

  const QUORUM_ALL := -1

  function NormaliseQuorum(q: int, poolSize: nat): int {
    if q == QUORUM_ALL then if poolSize < 1 then 1 else poolSize
    else if q < 1 then 1
    else q
  }

  /** dedupRoles: the first occurrence of each role. */
  function DedupRoles(roles: seq<string>): seq<string> {
    if |roles| == 0 then []
    else
      var front, last := DedupRoles(roles[..|roles| - 1]), roles[|roles| - 1];
      if last in front then front else front + [last]
  }

  function PoolRoles(sub: Submission, p: Probes): seq<string> {
    if p.hasPii && !HardCheckFails(p) then DedupRoles(sub.roles + ["privacy-team"]) else sub.roles
  }

  predicate HasOpenReview(s: State, v: Version) {
    exists id | id in s.reviews :: s.reviews[id].version == v && s.reviews[id].decidedAt.None?
  }

  /** The event set the state of version v. */
  predicate Flips(e: Event, v: Version) {
    e.version == v && (e.Decided? ==> e.terminal)
  }

  function StateAfter(e: Event): GovState {
    match e
    case Submitted(_, _, p) => if AllChecksPass(p) then Active else UnderReview
    case Decided(_, _, vote, _) => if vote.reject then Refused else Active
  }

  /** The effect Submit and decide share: one row written, one event logged, the version flipped by it. */
  function Logged(s: State, id: int, r: Review, e: Event): State {
    State(s.reviews[id := r],
          if Flips(e, r.version) then s.versions[r.version := StateAfter(e)] else s.versions,
          s.log + [e])
  }

  /** Submit; `id` is the new row's id. The insert is refused on an id already taken and, by the partial unique
      index on undecided reviews, while the version has an undecided review. */
  function SubmitStep(s: State, id: int, sub: Submission): (State, Result) {
    if sub.version !in s.versions then (s, Err(VersionNotFound))
    else if sub.probes.None? then (s, Err(CheckFailed))
    else if id in s.reviews || HasOpenReview(s, sub.version) then (s, Err(InsertRefused))
    else
      var p := sub.probes.value;
      var roles := PoolRoles(sub, p);
      var row := Review(sub.version, sub.submitter, NormaliseQuorum(sub.quorum, |roles|), roles,
                        if AllChecksPass(p) then AutoApproved else InReview, None, None, "");
      (Logged(s, id, row, Submitted(id, sub.version, p)), Ok)
  }

  /** A submission is refused for an unknown version, a probe that fails, an id already taken, and exactly while the
      version has a review not yet decided; a refusal leaves nothing behind. */
  lemma SubmitRefusedExactly(s: State, id: int, sub: Submission)
    ensures var (t, res) := SubmitStep(s, id, sub);
      && ((res == Err(InsertRefused))
          <==> sub.version in s.versions && sub.probes.Some?
               && (id in s.reviews
                   || exists k :: k in s.reviews && s.reviews[k].version == sub.version
                                  && s.reviews[k].decidedAt.None?))
      && (res.Err? ==> t == s)
  {}

  /** The number of approvals decide asks for. */
  function Needed(quorum: int, poolSize: nat): int {
    if quorum == QUORUM_ALL || quorum < 0 then if poolSize < 1 then 1 else poolSize
    else if quorum < 1 then 1
    else quorum
  }

  /** The row an accepted vote leaves when `needed` approvals are asked for. */
  function RowAfter(r: Review, vote: Vote, now: int, needed: int): (Review, bool) {
    var terminal := vote.reject || CountMarked(Lines(r.comment), APPROVED) + 1 >= needed;
    (if terminal then r.(status := if vote.reject then Rejected else Approved, decidedAt := Some(now),
                         decidedBy := Some(vote.decider), comment := Append(r.comment, vote))
     else r.(comment := Append(r.comment, vote)), terminal)
  }

  /** Approve and Reject. */
  function DecideStep(s: State, id: int, vote: Vote, now: int): (State, Result) {
    if vote.reject && TrimSpace(vote.comment) == "" then (s, Err(CommentRequired))
    else if id !in s.reviews then (s, Err(ReviewNotFound))
    else
      var r := s.reviews[id];
      if r.decidedAt.Some? then (s, Err(AlreadyDecided))
      else if vote.decider == r.submitter then (s, Err(SelfApproval))
      else if HasPriorVote(r.comment, vote.decider) then (s, Err(DuplicateVote))
      else
        var (row, terminal) := RowAfter(r, vote, now, Needed(r.quorum, |r.roles|));
        (Logged(s, id, row, Decided(id, r.version, vote, terminal)), Ok)
  }

  function ReassignStep(s: State, id: int, roles: seq<string>): (State, Result) {
    if id !in s.reviews then (s, Err(ReviewNotFound))
    else if s.reviews[id].decidedAt.Some? then (s, Err(AlreadyDecided))
    else (s.(reviews := s.reviews[id := s.reviews[id].(roles := DedupRoles(roles))]), Ok)
  }

  /** CaptureRun's INSERT ... ON CONFLICT DO NOTHING: a version starts as draft. */
  function RegisterStep(s: State, v: Version): State {
    if v in s.versions then s else s.(versions := s.versions[v := Draft])
  }

  // ----- The workflow -----

  class Workflow {
    var reviews: map<int, Review>
    var versions: map<Version, GovState>
    var log: seq<Event>

    constructor (s: State)
      ensures Value() == s
    {
      reviews, versions, log := s.reviews, s.versions, s.log;
    }

    function Value(): State
      reads this
    {
      State(reviews, versions, log)
    }

    method Submit(id: int, sub: Submission) returns (r: Result)
      modifies this
      ensures (Value(), r) == SubmitStep(old(Value()), id, sub)
    {
      if sub.version !in versions {
        return Err(VersionNotFound);
      }
      if sub.probes.None? {
        return Err(CheckFailed);
      }
      var roles := sub.roles;
      var check := Check(sub.probes.value);
      if check.decision == MustHumanReview && "pii_presence" in check.failedChecks {
        roles := DedupRoles(roles + ["privacy-team"]);
      }
      var rowStatus, newGovState := InReview, UnderReview;
      if check.decision == AutoApprove {
        rowStatus, newGovState := AutoApproved, Active;
      }
      if id in reviews || HasOpenReview(Value(), sub.version) {
        return Err(InsertRefused);
      }
      var quorum := NormaliseQuorum(sub.quorum, |roles|);
      reviews := reviews[id := Review(sub.version, sub.submitter, quorum, roles, rowStatus, None, None, "")];
      versions := versions[sub.version := newGovState];
      log := log + [Submitted(id, sub.version, sub.probes.value)];
      r := Ok;
    }

    method Approve(id: int, decider: Uuid, comment: string, now: int) returns (r: Result)
      modifies this
      ensures (Value(), r) == DecideStep(old(Value()), id, Vote(decider, false, comment), now)
    {
      r := Decide(id, decider, comment, false, now);
    }

    method Reject(id: int, decider: Uuid, comment: string, now: int) returns (r: Result)
      modifies this
      ensures (Value(), r) == DecideStep(old(Value()), id, Vote(decider, true, comment), now)
    {
      if TrimSpace(comment) == "" {
        return Err(CommentRequired);
      }
      r := Decide(id, decider, comment, true, now);
    }

    method Decide(id: int, decider: Uuid, comment: string, reject: bool, now: int) returns (r: Result)
      requires reject ==> TrimSpace(comment) != ""
      modifies this
      ensures (Value(), r) == DecideStep(old(Value()), id, Vote(decider, reject, comment), now)
    {
      if id !in reviews {
        return Err(ReviewNotFound);
      }
      var row := reviews[id];
      if row.decidedAt.Some? {
        return Err(AlreadyDecided);
      }
      if decider == row.submitter {
        return Err(SelfApproval);
      }
      var voted := HasPriorVoteByDecider(row.comment, decider);
      if voted {
        return Err(DuplicateVote);
      }
      var vote := Vote(decider, reject, comment);
      var combined := Append(row.comment, vote);
      var terminal, newStatus, newGovState := false, InReview, UnderReview;
      if reject {
        terminal, newStatus, newGovState := true, Rejected, Refused;
      } else {
        var approvalsSoFar := CountApprovals(row.comment);
        var needed := row.quorum;
        if needed == QUORUM_ALL || needed < 0 {
          needed := |row.roles|;
        }
        if needed < 1 {
          needed := 1;
        }
        if approvalsSoFar + 1 >= needed {
          terminal, newStatus, newGovState := true, Approved, Active;
        }
      }
      if terminal {
        var decided := row.(status := newStatus, decidedAt := Some(now), decidedBy := Some(decider));
        reviews := reviews[id := decided.(comment := combined)];
        versions := versions[row.version := newGovState];
      } else {
        reviews := reviews[id := row.(comment := combined)];
      }
      log := log + [Decided(id, row.version, vote, terminal)];
      r := Ok;
    }

    method Reassign(id: int, newReviewers: seq<string>) returns (r: Result)
      modifies this`reviews
      ensures (Value(), r) == ReassignStep(old(Value()), id, newReviewers)
    {
      if id !in reviews {
        return Err(ReviewNotFound);
      }
      if reviews[id].decidedAt.Some? {
        return Err(AlreadyDecided);
      }
      reviews := reviews[id := reviews[id].(roles := DedupRoles(newReviewers))];
      r := Ok;
    }
  }

  // ----- Runs -----

  datatype Op =
    | Register(version: Version)
    | Submit(id: int, submission: Submission)
    | Decide(id: int, vote: Vote, now: int)
    | Reassign(id: int, roles: seq<string>)

  function Step(s: State, op: Op): State {
    match op
    case Register(v) => RegisterStep(s, v)
    case Submit(id, sub) => SubmitStep(s, id, sub).0
    case Decide(id, vote, now) => DecideStep(s, id, vote, now).0
    case Reassign(id, roles) => ReassignStep(s, id, roles).0
  }

  function Run(s: State, ops: seq<Op>): State {
    if |ops| == 0 then s else Step(Run(s, ops[..|ops| - 1]), ops[|ops| - 1])
  }

  /** No reviews yet, and only versions that are not active. */
  ghost predicate Initial(s: State) {
    s.reviews == map[] && s.log == [] && forall v | v in s.versions :: s.versions[v] != Active
  }

  // ----- What the log says -----

  /** The votes accepted on a review, oldest first. */
  function VotesOn(log: seq<Event>, id: int): seq<Vote> {
    if |log| == 0 then []
    else
      var front, last := VotesOn(log[..|log| - 1], id), log[|log| - 1];
      if last.Decided? && last.review == id then front + [last.vote] else front
  }

  /** The index of the latest event that set the state of v, or -1. */
  function LastFlip(log: seq<Event>, v: Version): (k: int)
    ensures -1 <= k < |log|
    ensures k >= 0 ==> Flips(log[k], v)
    ensures forall i | k < i < |log| :: !Flips(log[i], v)
  {
    if |log| == 0 then -1
    else if Flips(log[|log| - 1], v) then |log| - 1
    else LastFlip(log[..|log| - 1], v)
  }

  ghost predicate PairwiseDistinct(votes: seq<Vote>) {
    forall i, j | 0 <= i < j < |votes| :: votes[i].decider != votes[j].decider
  }

  /** Before any vote, or below quorum after the last one. */
  ghost predicate BelowQuorum(votes: seq<Vote>, quorum: int) {
    |votes| > 0 ==> Approvals(votes) + InjectedTotal(votes[..|votes| - 1], APPROVED) < quorum
  }

  ghost predicate ReviewInv(r: Review, votes: seq<Vote>) {
    && r.quorum >= 1
    && r.comment == LedgerOf(votes)
    && PairwiseDistinct(votes) && (forall v | v in votes :: v.decider != r.submitter)
    && (r.decidedAt.Some? <==> r.status == Approved || r.status == Rejected)
    && (r.decidedAt.None? ==> BelowQuorum(votes, r.quorum) && Approvals(votes) == |votes|)
    && (r.decidedAt.Some? ==>
          && |votes| > 0 && r.decidedBy == Some(votes[|votes| - 1].decider)
          && (r.status == Rejected <==> votes[|votes| - 1].reject)
          && BelowQuorum(votes[..|votes| - 1], r.quorum)
          && Approvals(votes[..|votes| - 1]) == |votes| - 1)
    && (r.status == Approved ==> Approvals(votes) + InjectedTotal(votes[..|votes| - 1], APPROVED) >= r.quorum)
  }

  ghost predicate EventInv(s: State, e: Event) {
    && e.review in s.reviews && s.reviews[e.review].version == e.version
    && (e.Decided? && e.terminal ==> s.reviews[e.review].status == if e.vote.reject then Rejected else Approved)
  }

  ghost predicate ReviewsInv(s: State) {
    forall id | id in s.reviews :: ReviewInv(s.reviews[id], VotesOn(s.log, id)) && s.reviews[id].version in s.versions
  }

  ghost predicate LogInv(s: State) {
    forall e | e in s.log :: EventInv(s, e)
  }

  ghost predicate VersionInv(s: State, v: Version)
    requires v in s.versions
  {
    var k := LastFlip(s.log, v);
    if k < 0 then s.versions[v] != Active else s.versions[v] == StateAfter(s.log[k])
  }

  ghost predicate Inv(s: State) {
    && ReviewsInv(s)
    && LogInv(s)
    && forall v | v in s.versions :: VersionInv(s, v)
  }

  lemma {:induction false} NoVotesYet(log: seq<Event>, id: int)
    requires forall e | e in log :: e.review != id
    ensures VotesOn(log, id) == []
    decreases |log|
  {
    if |log| > 0 {
      assert log[|log| - 1] in log;
      NoVotesYet(log[..|log| - 1], id);
    }
  }

  lemma LogGrows(log: seq<Event>, e: Event, id: int, v: Version)
    ensures VotesOn(log + [e], id)
            == if e.Decided? && e.review == id then VotesOn(log, id) + [e.vote] else VotesOn(log, id)
    ensures LastFlip(log + [e], v) == if Flips(e, v) then |log| else LastFlip(log, v)
  {
    assert (log + [e])[..|log|] == log;
  }

  ghost predicate Loggable(s: State, id: int, r: Review, e: Event) {
    && e.review == id && e.version == r.version && r.version in s.versions
    && ReviewInv(r, VotesOn(s.log + [e], id))
    && (id in s.reviews ==> s.reviews[id].version == r.version && s.reviews[id].decidedAt.None?)
    && (e.Decided? && e.terminal ==> r.status == if e.vote.reject then Rejected else Approved)
  }

  lemma LoggedLog(s: State, id: int, r: Review, e: Event)
    requires Inv(s) && Loggable(s, id, r, e)
    ensures LogInv(Logged(s, id, r, e))
  {
    var t := Logged(s, id, r, e);
    forall x | x in t.log
      ensures EventInv(t, x)
    {
      if x in s.log {
        assert EventInv(s, x);
        assert ReviewInv(s.reviews[x.review], VotesOn(s.log, x.review));
      } else {
        assert x == e;
      }
    }
  }

  lemma LoggedVersion(s: State, id: int, r: Review, e: Event, v: Version)
    requires e.version == r.version && v in s.versions && VersionInv(s, v)
    ensures var t := Logged(s, id, r, e); v in t.versions && VersionInv(t, v)
  {
    LogGrows(s.log, e, id, v);
  }

  lemma LoggedKeepsInv(s: State, id: int, r: Review, e: Event)
    requires Inv(s) && Loggable(s, id, r, e)
    ensures Inv(Logged(s, id, r, e))
  {
    forall v | v in s.versions
      ensures v in Logged(s, id, r, e).versions && VersionInv(Logged(s, id, r, e), v)
    {
      LoggedVersion(s, id, r, e, v);
    }
    LoggedLog(s, id, r, e);
  }

  lemma SubmitKeepsInv(s: State, id: int, sub: Submission)
    requires Inv(s)
    ensures Inv(SubmitStep(s, id, sub).0)
  {
    var (t, res) := SubmitStep(s, id, sub);
    if res.Ok? {
      var e := Submitted(id, sub.version, sub.probes.value);
      forall x | x in s.log
        ensures x.review != id
      {
        assert EventInv(s, x);
      }
      NoVotesYet(s.log, id);
      LogGrows(s.log, e, id, sub.version);
      assert LedgerOf([]) == "";
      LoggedKeepsInv(s, id, t.reviews[id], e);
    }
  }

  /** One accepted vote. */
  lemma VoteKeepsReviewInv(r: Review, votes: seq<Vote>, vote: Vote, now: int)
    requires ReviewInv(r, votes) && r.decidedAt.None?
    requires vote.decider != r.submitter && !HasPriorVote(r.comment, vote.decider)
    ensures ReviewInv(RowAfter(r, vote, now, r.quorum).0, votes + [vote])
  {
    var more := votes + [vote];
    assert more[..|more| - 1] == votes;
    CountIsApprovalsPlusInjected(votes);
    PriorVoteExact(votes, vote.decider);
    forall i | 0 <= i < |votes|
      ensures votes[i].decider != vote.decider
    {
      assert votes[i] in votes;
    }
  }

  lemma VoteIsLoggable(s: State, id: int, after: Review, e: Event)
    requires id in s.reviews && s.reviews[id].decidedAt.None? && s.reviews[id].version == after.version
    requires e.Decided? && e.review == id && e.version == after.version && after.version in s.versions
    requires ReviewInv(after, VotesOn(s.log, id) + [e.vote])
    requires e.terminal ==> after.status == if e.vote.reject then Rejected else Approved
    ensures Loggable(s, id, after, e)
  {
    LogGrows(s.log, e, id, after.version);
    assert VotesOn(s.log + [e], id) == VotesOn(s.log, id) + [e.vote];
  }

  lemma DecideKeepsInv(s: State, id: int, vote: Vote, now: int)
    requires Inv(s)
    ensures Inv(DecideStep(s, id, vote, now).0)
  {
    if DecideStep(s, id, vote, now).1.Ok? {
      var r := s.reviews[id];
      assert ReviewInv(r, VotesOn(s.log, id));
      assert Needed(r.quorum, |r.roles|) == r.quorum;
      var (after, terminal) := RowAfter(r, vote, now, r.quorum);
      VoteKeepsReviewInv(r, VotesOn(s.log, id), vote, now);
      VoteIsLoggable(s, id, after, Decided(id, r.version, vote, terminal));
      LoggedKeepsInv(s, id, after, Decided(id, r.version, vote, terminal));
    }
  }

  lemma RegisterKeepsInv(s: State, v: Version)
    requires Inv(s)
    ensures Inv(RegisterStep(s, v))
  {
    var t := RegisterStep(s, v);
    forall e | e in s.log
      ensures EventInv(t, e) && e.version in s.versions
    {
      assert EventInv(s, e);
    }
    forall x | x in t.versions
      ensures VersionInv(t, x)
    {
      if x in s.versions {
        assert VersionInv(s, x);
      }
    }
  }

  lemma ReassignKeepsInv(s: State, id: int, roles: seq<string>)
    requires Inv(s)
    ensures Inv(ReassignStep(s, id, roles).0)
  {
    var t := ReassignStep(s, id, roles).0;
    forall e | e in s.log
      ensures EventInv(t, e)
    {
      assert EventInv(s, e);
    }
    forall v | v in t.versions
      ensures VersionInv(t, v)
    {
      assert VersionInv(s, v);
    }
  }

  lemma StepKeepsInv(s: State, op: Op)
    requires Inv(s)
    ensures Inv(Step(s, op))
  {
    match op
    case Register(v) => RegisterKeepsInv(s, v);
    case Submit(id, sub) => SubmitKeepsInv(s, id, sub);
    case Decide(id, vote, now) => DecideKeepsInv(s, id, vote, now);
    case Reassign(id, roles) => ReassignKeepsInv(s, id, roles);
  }

  /** Every reachable state satisfies the invariant. */
  lemma {:induction false} RunKeepsInv(s: State, ops: seq<Op>)
    requires Initial(s)
    ensures Inv(Run(s, ops))
    decreases |ops|
  {
    if |ops| > 0 {
      RunKeepsInv(s, ops[..|ops| - 1]);
      StepKeepsInv(Run(s, ops[..|ops| - 1]), ops[|ops| - 1]);
    }
  }

  // ----- The promises -----

  /** With n approvals cast, these and the lines injected before the last of them reach the quorum. */
  ghost predicate Reaches(votes: seq<Vote>, n: nat, quorum: int)
    requires 1 <= n <= |votes|
  {
    n + InjectedTotal(votes[..n - 1], APPROVED) >= quorum
  }

  /** Four eyes and quorum, for any comments: an approved review's votes are pairwise distinct approvals, none by the
      submitter, and the last one is the first at which the approvals cast and the lines injected before it reach the
      quorum. So there are never more approvals than the quorum, and fewer only where injected lines make up for
      them. */
  lemma ApprovedReviewVotes(s: State, ops: seq<Op>, id: int)
    requires Initial(s) && id in Run(s, ops).reviews && Run(s, ops).reviews[id].status == Approved
    ensures var t := Run(s, ops); var r, votes := t.reviews[id], VotesOn(t.log, id);
            && (forall v | v in votes :: !v.reject && v.decider != r.submitter) && PairwiseDistinct(votes)
            && 1 <= |votes| <= r.quorum
            && (forall n | 1 <= n <= |votes| :: Reaches(votes, n, r.quorum) <==> n == |votes|)
            && r.decidedBy == Some(votes[|votes| - 1].decider)
  {
    RunKeepsInv(s, ops);
    var t := Run(s, ops);
    assert ReviewInv(t.reviews[id], VotesOn(t.log, id));
    ApprovedVotes(t.reviews[id], VotesOn(t.log, id));
  }

  lemma ApprovedVotes(r: Review, votes: seq<Vote>)
    requires ReviewInv(r, votes) && r.status == Approved
    ensures forall v | v in votes :: !v.reject
    ensures 1 <= |votes| <= r.quorum
    ensures forall n | 1 <= n <= |votes| :: Reaches(votes, n, r.quorum) <==> n == |votes|
  {
    AllApprovals(votes);
    AllApprovals(votes[..|votes| - 1]);
    FirstReached(votes, r.quorum);
  }

  /** Injected lines only add up, so a quorum missed before the last vote was missed before every earlier one. */
  lemma FirstReached(votes: seq<Vote>, quorum: int)
    requires |votes| > 0 && Reaches(votes, |votes|, quorum)
    requires BelowQuorum(votes[..|votes| - 1], quorum) && Approvals(votes[..|votes| - 1]) == |votes| - 1
    ensures forall n | 1 <= n <= |votes| :: Reaches(votes, n, quorum) <==> n == |votes|
  {
    var last := |votes| - 1;
    if last > 0 {
      assert votes[..last][..last - 1] == votes[..last - 1];
    }
    forall n | 1 <= n <= last
      ensures !Reaches(votes, n, quorum)
    {
      InjectedGrows(votes, n - 1, last - 1);
    }
  }

  lemma {:induction false} InjectedGrows(votes: seq<Vote>, i: nat, j: nat)
    requires i <= j <= |votes|
    ensures InjectedTotal(votes[..i], APPROVED) <= InjectedTotal(votes[..j], APPROVED)
    decreases j
  {
    if i < j {
      assert votes[..j][..j - 1] == votes[..j - 1];
      InjectedGrows(votes, i, j - 1);
    }
  }

  lemma {:induction false} AllApprovals(votes: seq<Vote>)
    ensures Approvals(votes) <= |votes|
    ensures Approvals(votes) == |votes| <==> forall v | v in votes :: !v.reject
    decreases |votes|
  {
    if |votes| > 0 {
      AllApprovals(votes[..|votes| - 1]);
      assert votes == votes[..|votes| - 1] + [votes[|votes| - 1]];
    }
  }

  /** With newline-free comments an approved review carries exactly its stored quorum of approvals. */
  lemma ApprovedCarriesQuorum(s: State, ops: seq<Op>, id: int)
    requires Initial(s) && id in Run(s, ops).reviews && Run(s, ops).reviews[id].status == Approved
    requires forall v | v in VotesOn(Run(s, ops).log, id) :: '\n' !in v.comment
    ensures |VotesOn(Run(s, ops).log, id)| == Run(s, ops).reviews[id].quorum
  {
    ApprovedReviewVotes(s, ops, id);
    var votes := VotesOn(Run(s, ops).log, id);
    forall v | v in votes[..|votes| - 1]
      ensures Injected(v.comment, APPROVED) == 0
    {
      NewlineFreeInjectsNothing(v.comment, APPROVED);
    }
    NothingInjected(votes[..|votes| - 1], APPROVED);
    assert Reaches(votes, |votes|, Run(s, ops).reviews[id].quorum);
  }

  lemma {:induction false} DedupExactly(roles: seq<string>)
    ensures forall r :: r in DedupRoles(roles) <==> r in roles
    ensures forall i, j | 0 <= i < j < |DedupRoles(roles)| :: DedupRoles(roles)[i] != DedupRoles(roles)[j]
    decreases |roles|
  {
    if |roles| > 0 {
      DedupExactly(roles[..|roles| - 1]);
      assert roles == roles[..|roles| - 1] + [roles[|roles| - 1]];
    }
  }

  /** What a submission that is accepted asks for: its own reviewers, and once each with the privacy team among them
      when the asset has pii and no check blocks it. */
  lemma SubmittedReview(s: State, id: int, sub: Submission)
    requires SubmitStep(s, id, sub).1.Ok?
    ensures var t := SubmitStep(s, id, sub).0; var p := sub.probes.value;
      var soft := p.hasPii && !p.breakingChange && !p.piiWithoutPolicy && p.missingColumn == "" && !p.driftPending;
      var clean := !p.breakingChange && !p.hasPii && !p.piiWithoutPolicy && p.missingColumn == "" && !p.driftPending
                   && !p.requireHumanReview;
      && id !in s.reviews && id in t.reviews
      && var r := t.reviews[id];
         && r.version == sub.version && r.submitter == sub.submitter && r.decidedAt.None? && r.comment == ""
         && r.status == (if clean then AutoApproved else InReview)
         && t.versions[sub.version] == (if clean then Active else UnderReview)
         && (soft ==> (forall x :: x in r.roles <==> x in sub.roles || x == "privacy-team")
                      && forall i, j | 0 <= i < j < |r.roles| :: r.roles[i] != r.roles[j])
         && (!soft ==> r.roles == sub.roles)
         && (sub.quorum >= 1 ==> r.quorum == sub.quorum)
         && (sub.quorum == -1 ==> r.quorum == if r.roles == [] then 1 else |r.roles|)
         && (sub.quorum < 1 && sub.quorum != -1 ==> r.quorum == 1)
  {
    DedupExactly(sub.roles + ["privacy-team"]);
  }

  lemma StepKeepsQuorum(s: State, op: Op, id: int)
    requires id in s.reviews
    ensures id in Step(s, op).reviews && Step(s, op).reviews[id].quorum == s.reviews[id].quorum
  {}

  lemma {:induction false} RunKeepsQuorum(s: State, ops: seq<Op>, k: nat, n: nat, id: int)
    requires k <= n <= |ops| && id in Run(s, ops[..k]).reviews
    ensures id in Run(s, ops[..n]).reviews && Run(s, ops[..n]).reviews[id].quorum == Run(s, ops[..k]).reviews[id].quorum
    decreases n
  {
    if k < n {
      RunKeepsQuorum(s, ops, k, n - 1, id);
      assert ops[..n][..n - 1] == ops[..n - 1];
      StepKeepsQuorum(Run(s, ops[..n - 1]), ops[n - 1], id);
    }
  }

  /** From the submission to the verdict: with newline-free comments, a review submitted for a quorum of at least one
      is approved with exactly that many approvals; one submitted for everybody (-1) with one from each role its pool
      had at submission, or a single one for an empty pool; any other one with a single approval. Reassignments in
      between change nothing. */
  lemma ApprovedAsAsked(s: State, ops: seq<Op>, k: nat, id: int, sub: Submission)
    requires Initial(s) && k < |ops| && ops[k] == Submit(id, sub) && SubmitStep(Run(s, ops[..k]), id, sub).1.Ok?
    requires id in Run(s, ops).reviews && Run(s, ops).reviews[id].status == Approved
    requires forall v | v in VotesOn(Run(s, ops).log, id) :: '\n' !in v.comment
    ensures id in Run(s, ops[..k + 1]).reviews
    ensures var pool, votes := Run(s, ops[..k + 1]).reviews[id].roles, VotesOn(Run(s, ops).log, id);
      && (sub.quorum >= 1 ==> |votes| == sub.quorum)
      && (sub.quorum == -1 ==> |votes| == if pool == [] then 1 else |pool|)
      && (sub.quorum < 1 && sub.quorum != -1 ==> |votes| == 1)
  {
    assert ops[..k + 1][..k] == ops[..k] && ops[..|ops|] == ops;
    SubmittedReview(Run(s, ops[..k]), id, sub);
    RunKeepsQuorum(s, ops, k + 1, |ops|, id);
    ApprovedCarriesQuorum(s, ops, id);
  }

  /** The run in which a review asks for three approvals and is approved with two: the first comment's second line is
      counted as one. */
  lemma TwoVotesMeetQuorumOfThree(v: Version, submitter: Uuid, first: Uuid, second: Uuid, role: string, p: Probes,
                                  id: int, now: int)
    requires submitter != first && submitter != second && first != second && !AllChecksPass(p)
    ensures var s := State(map[], map[], []);
      var ops := [Register(v), Submit(id, Submission(v, submitter, [role], 3, Some(p))),
                  Decide(id, Vote(first, false, "\n" + Header(first, false)), now),
                  Decide(id, Vote(second, false, ""), now)];
      && Initial(s) && id in Run(s, ops).reviews
      && Run(s, ops).reviews[id].status == Approved && Run(s, ops).reviews[id].quorum == 3
      && |VotesOn(Run(s, ops).log, id)| == 2
  {
    var s := State(map[], map[], []);
    var one, two := Vote(first, false, "\n" + Header(first, false)), Vote(second, false, "");
    var sub := Submission(v, submitter, [role], 3, Some(p));
    var a, b, c, d := Register(v), Submit(id, sub), Decide(id, one, now), Decide(id, two, now);
    RunStep(s, [], a);
    RunStep(s, [a], b);
    RunStep(s, [a, b], c);
    RunStep(s, [a, b, c], d);
    assert [] + [a] == [a] && [a] + [b] == [a, b] && [a, b] + [c] == [a, b, c] && [a, b, c] + [d] == [a, b, c, d];
    OpensReview(s, v, id, sub);
    TwoVotesApprove(Run(s, [a, b]), id, first, second, now);
  }

  lemma OpensReview(s: State, v: Version, id: int, sub: Submission)
    requires s == State(map[], map[], []) && sub.version == v && sub.probes.Some? && !AllChecksPass(sub.probes.value)
    requires sub.quorum == 3
    ensures var t := SubmitStep(RegisterStep(s, v), id, sub).0;
      id in t.reviews && Fresh(t.reviews[id]) && t.reviews[id].submitter == sub.submitter && VotesOn(t.log, id) == []
  {
    var t := SubmitStep(RegisterStep(s, v), id, sub).0;
    assert t.log == [] + [Submitted(id, v, sub.probes.value)];
    LogGrows([], Submitted(id, v, sub.probes.value), id, v);
  }

  /** In review for three approvals, without a vote. */
  predicate Fresh(r: Review) {
    r.quorum == 3 && r.decidedAt.None? && r.comment == "" && r.status == InReview
  }

  lemma TwoVotesApprove(s: State, id: int, first: Uuid, second: Uuid, now: int)
    requires id in s.reviews && Fresh(s.reviews[id]) && VotesOn(s.log, id) == [] && first != second
    requires first != s.reviews[id].submitter && second != s.reviews[id].submitter
    ensures var t := DecideStep(s, id, Vote(first, false, "\n" + Header(first, false)), now).0;
      var u := DecideStep(t, id, Vote(second, false, ""), now).0;
      && id in u.reviews && u.reviews[id].status == Approved && u.reviews[id].quorum == 3
      && |VotesOn(u.log, id)| == 2
  {
    var r := s.reviews[id];
    var one, two := Vote(first, false, "\n" + Header(first, false)), Vote(second, false, "");
    OneVoteCountsTwice(first, second);
    var t := DecideStep(s, id, one, now).0;
    assert t.reviews[id] == r.(comment := Append("", one));
    LogGrows(s.log, Decided(id, r.version, one, false), id, r.version);
    LogGrows(t.log, Decided(id, r.version, two, true), id, r.version);
  }

  lemma RunStep(s: State, ops: seq<Op>, op: Op)
    ensures Run(s, ops + [op]) == Step(Run(s, ops), op)
  {
    assert (ops + [op])[..|ops|] == ops;
  }

  lemma OneVoteCountsTwice(first: Uuid, second: Uuid)
    requires first != second
    ensures var ledger := Append("", Vote(first, false, "\n" + Header(first, false)));
      CountMarked(Lines(ledger), APPROVED) == 2 && !HasPriorVote(ledger, second)
    ensures CountMarked(Lines(""), APPROVED) == 0 && !HasPriorVote("", first)
  {
    var vote := Vote(first, false, "\n" + Header(first, false));
    assert [vote][..0] == [] && LedgerOf([]) == "" && LedgerOf([vote]) == Append("", vote);
    InjectedLineIsCounted(first, second);
    PriorVoteExact([], first);
    CountIsApprovalsPlusInjected([]);
  }

  lemma StepKeepsDecided(s: State, op: Op, id: int)
    requires id in s.reviews && s.reviews[id].decidedAt.Some?
    ensures var t := Step(s, op);
            && id in t.reviews && t.reviews[id] == s.reviews[id]
            && (t.log == s.log || (t.log == s.log + [t.log[|s.log|]] && t.log[|s.log|].review != id))
  {}

  /** A decided review never changes again: not its status, decider, ledger or pool, nor its votes in the log. */
  lemma {:induction false} DecidedIsFinal(s: State, ops: seq<Op>, id: int)
    requires id in s.reviews && s.reviews[id].decidedAt.Some?
    ensures id in Run(s, ops).reviews && Run(s, ops).reviews[id] == s.reviews[id]
    ensures VotesOn(Run(s, ops).log, id) == VotesOn(s.log, id)
    decreases |ops|
  {
    if |ops| > 0 {
      var before := Run(s, ops[..|ops| - 1]);
      DecidedIsFinal(s, ops[..|ops| - 1], id);
      StepKeepsDecided(before, ops[|ops| - 1], id);
      var after := Run(s, ops);
      if after.log != before.log {
        LogGrows(before.log, after.log[|before.log|], id, ("", ""));
      }
    }
  }

  ghost predicate CanChange(s: State, id: int)
    requires id in s.reviews
  {
    exists op :: id !in Step(s, op).reviews || Step(s, op).reviews[id] != s.reviews[id]
  }

  /** A reachable review can still change exactly when it has no decided_at, that is while it is in review or
      auto-approved. */
  lemma OpenExactly(s: State, ops: seq<Op>, id: int)
    requires Initial(s) && id in Run(s, ops).reviews
    ensures var t := Run(s, ops); var r := t.reviews[id];
      && (CanChange(t, id) <==> r.decidedAt.None?)
      && (r.decidedAt.None? <==> r.status == InReview || r.status == AutoApproved)
  {
    RunKeepsInv(s, ops);
    var t := Run(s, ops);
    var r := t.reviews[id];
    assert ReviewInv(r, VotesOn(t.log, id));
    ChangesWhileOpen(t, id);
  }

  lemma ChangesWhileOpen(t: State, id: int)
    requires id in t.reviews
    ensures CanChange(t, id) <==> t.reviews[id].decidedAt.None?
  {
    if t.reviews[id].decidedAt.None? {
      var roles := if t.reviews[id].roles == [] then ["any"] else [];
      assert DedupRoles(roles[..0]) == [];
      assert Step(t, Reassign(id, roles)).reviews[id].roles == roles;
    } else {
      forall op
        ensures id in Step(t, op).reviews && Step(t, op).reviews[id] == t.reviews[id]
      {
        StepKeepsDecided(t, op, id);
      }
    }
  }

  // ----- Reassignment -----

  function WithoutReassignments(ops: seq<Op>): seq<Op> {
    if |ops| == 0 then []
    else
      var front, last := WithoutReassignments(ops[..|ops| - 1]), ops[|ops| - 1];
      if last.Reassign? then front else front + [last]
  }

  lemma {:induction false} OnlyReassignmentsLeftOut(ops: seq<Op>, op: Op)
    ensures multiset(WithoutReassignments(ops))[op] == if op.Reassign? then 0 else multiset(ops)[op]
    decreases |ops|
  {
    if |ops| > 0 {
      var front, last := ops[..|ops| - 1], ops[|ops| - 1];
      OnlyReassignmentsLeftOut(front, op);
      assert ops == front + [last];
    }
  }

  /** Only the reviewer pools differ. */
  ghost predicate SameButPools(s: State, t: State) {
    && s.versions == t.versions && s.log == t.log && s.reviews.Keys == t.reviews.Keys
    && forall id | id in s.reviews :: t.reviews[id] == s.reviews[id].(roles := t.reviews[id].roles)
  }

  lemma DecideIgnoresPools(s: State, t: State, id: int, vote: Vote, now: int)
    requires Inv(s) && Inv(t) && SameButPools(s, t)
    ensures SameButPools(DecideStep(s, id, vote, now).0, DecideStep(t, id, vote, now).0)
  {
    if id in s.reviews {
      assert ReviewInv(s.reviews[id], VotesOn(s.log, id)) && s.reviews[id].quorum >= 1;
      assert t.reviews[id] == s.reviews[id].(roles := t.reviews[id].roles);
    }
  }

  lemma SubmitIgnoresPools(s: State, t: State, id: int, sub: Submission)
    requires SameButPools(s, t)
    ensures SameButPools(SubmitStep(s, id, sub).0, SubmitStep(t, id, sub).0)
  {
    assert forall x | x in s.reviews ::
      t.reviews[x].version == s.reviews[x].version && t.reviews[x].decidedAt == s.reviews[x].decidedAt;
    assert HasOpenReview(s, sub.version) <==> HasOpenReview(t, sub.version);
  }

  /** Reassigning reviewers has no bearing on any verdict: in every run the reviews, their ledgers and decisions, the
      versions and the log are what they would be had nobody ever been reassigned, up to the pools themselves. The
      quorum is fixed at submission, so a pool named later is neither counted nor asked for. */
  lemma {:induction false} ReassignmentsDecideNothing(s: State, ops: seq<Op>)
    requires Initial(s)
    ensures SameButPools(Run(s, ops), Run(s, WithoutReassignments(ops)))
    decreases |ops|
  {
    if |ops| > 0 {
      var front, last := ops[..|ops| - 1], ops[|ops| - 1];
      var plain := WithoutReassignments(front);
      ReassignmentsDecideNothing(s, front);
      RunKeepsInv(s, front);
      RunKeepsInv(s, plain);
      if !last.Reassign? {
        assert (plain + [last])[..|plain|] == plain;
      }
      match last
      case Register(_) =>
      case Submit(id, sub) => SubmitIgnoresPools(Run(s, front), Run(s, plain), id, sub);
      case Decide(id, vote, now) => DecideIgnoresPools(Run(s, front), Run(s, plain), id, vote, now);
      case Reassign(_, _) =>
    }
  }

  /** Why version v is active: the event that last set its state approved a review that stays approved,
      or auto-approved a submission with every check passing. */
  ghost predicate JustifiedActive(t: State, v: Version) {
    var k := LastFlip(t.log, v);
    && k >= 0
    && match t.log[k]
       case Submitted(id, _, p) => AllChecksPass(p)
       case Decided(id, _, vote, terminal) =>
         !vote.reject && terminal && id in t.reviews && t.reviews[id].version == v && t.reviews[id].status == Approved
  }

  lemma ActiveIsJustified(s: State, ops: seq<Op>, v: Version)
    requires Initial(s) && v in Run(s, ops).versions && Run(s, ops).versions[v] == Active
    ensures JustifiedActive(Run(s, ops), v)
  {
    RunKeepsInv(s, ops);
    var t := Run(s, ops);
    var k := LastFlip(t.log, v);
    assert EventInv(t, t.log[k]);
  }

  /** The materialization gate of runStep. */
  function GatePasses(enabled: bool, queryFails: bool, versions: map<Version, GovState>, v: Version): bool {
    !enabled || queryFails || (v in versions && versions[v] == Active)
  }

  /** The gate lets a version pass exactly if it is off, its query fails, or the version is active. */
  lemma GateExactly(s: State, v: Version, enabled: bool, queryFails: bool)
    ensures enabled && !queryFails ==>
      (GatePasses(enabled, queryFails, s.versions, v) <==> v in s.versions && s.versions[v] == Active)
    ensures !enabled || queryFails ==> GatePasses(enabled, queryFails, s.versions, v)
  {}

  /** With the gate on and its query answered, only a justified version is materialized. */
  lemma GateNeedsJustification(s: State, ops: seq<Op>, v: Version)
    requires Initial(s)
    ensures GatePasses(true, false, Run(s, ops).versions, v) ==> JustifiedActive(Run(s, ops), v)
  {
    if GatePasses(true, false, Run(s, ops).versions, v) {
      ActiveIsJustified(s, ops, v);
    }
  }

  /** An auto-approved review is not decided: it blocks further submissions of its version, and a later
      rejection still takes the version out of service. */
  lemma AutoApprovalStaysOpen(s: State, id: int, sub: Submission, other: int, again: Submission, vote: Vote, now: int)
    requires SubmitStep(s, id, sub).1.Ok? && AllChecksPass(sub.probes.value)
    requires again.version == sub.version && again.probes.Some?
    requires vote.reject && vote.decider != sub.submitter && TrimSpace(vote.comment) != ""
    ensures var t := SubmitStep(s, id, sub).0;
            && t.versions[sub.version] == Active
            && SubmitStep(t, other, again).1 == Err(InsertRefused)
            && DecideStep(t, id, vote, now).1.Ok?
            && DecideStep(t, id, vote, now).0.versions[sub.version] == Refused
  {
    var t := SubmitStep(s, id, sub).0;
    assert t.reviews[id].decidedAt.None?;
    LedgerRefinesVotes([], vote.decider);
  }
}
