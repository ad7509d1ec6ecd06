/** internal/concurrency/pool.go under interleaving, and its use by runStep in
    internal/runtime/executor.go with the retry bound of internal/retry/policy.go. */
module Pool {
  import opened Options

  /** A concurrency_tokens row. */
  datatype Token = Token(run: string, asset: string, tag: string, weight: int, acquiredAt: int)

  type Tokens = seq<Token>

  /** COALESCE(SUM(weight), 0) for a tag. */
  function Weight(tokens: Tokens, tag: string): int {
    if |tokens| == 0 then 0
    else
      var last := tokens[|tokens| - 1];
      Weight(tokens[..|tokens| - 1], tag) + if last.tag == tag then last.weight else 0
  }

  function Filter(tokens: Tokens, keep: Token -> bool): Tokens {
    if |tokens| == 0 then []
    else
      var front, last := Filter(tokens[..|tokens| - 1], keep), tokens[|tokens| - 1];
      if keep(last) then front + [last] else front
  }

  function Released(tokens: Tokens, run: string, tag: string): Tokens {
    Filter(tokens, (t: Token) => !(t.run == run && t.tag == tag))
  }

  function ReleasedAll(tokens: Tokens, run: string): Tokens {
    Filter(tokens, (t: Token) => t.run != run)
  }

  function ReleasedStale(tokens: Tokens, cutoff: int): Tokens {
    Filter(tokens, (t: Token) => t.acquiredAt >= cutoff)
  }

  /** The configured limit; a tag without one has the largest 32-bit integer. */
  function Limit(capacities: map<string, int>, tag: string): int {
    if tag in capacities then capacities[tag] else 0x7FFF_FFFF
  }

  /** Acquire counts at least one unit. */
  function Units(weight: int): int {
    if weight <= 0 then 1 else weight
  }

  ghost predicate Positive(tokens: Tokens) {
    forall t | t in tokens :: t.weight > 0
  }

  lemma {:induction false} FilterElements(tokens: Tokens, keep: Token -> bool, t: Token)
    ensures t in Filter(tokens, keep) <==> t in tokens && keep(t)
    decreases |tokens|
  {
    if |tokens| > 0 {
      FilterElements(tokens[..|tokens| - 1], keep, t);
      assert tokens == tokens[..|tokens| - 1] + [tokens[|tokens| - 1]];
    }
  }

  /** Deleting rows never raises a sum. */
  lemma {:induction false} FilterLowersWeight(tokens: Tokens, keep: Token -> bool, tag: string)
    requires Positive(tokens)
    ensures 0 <= Weight(Filter(tokens, keep), tag) <= Weight(tokens, tag)
    decreases |tokens|
  {
    if |tokens| > 0 {
      var front, last := tokens[..|tokens| - 1], tokens[|tokens| - 1];
      assert last in tokens;
      FilterLowersWeight(front, keep, tag);
      assert (Filter(front, keep) + [last])[..|Filter(front, keep)|] == Filter(front, keep);
    }
  }

  lemma {:induction false} FilterConcat(a: Tokens, b: Tokens, keep: Token -> bool)
    ensures Filter(a + b, keep) == Filter(a, keep) + Filter(b, keep)
    decreases |b|
  {
    if b == [] {
      assert a + b == a;
    } else {
      assert (a + b)[..|a + b| - 1] == a + b[..|b| - 1];
      FilterConcat(a, b[..|b| - 1], keep);
    }
  }

  lemma {:induction false} FilterAll(tokens: Tokens, keep: Token -> bool)
    requires forall t | t in tokens :: keep(t)
    ensures Filter(tokens, keep) == tokens
    decreases |tokens|
  {
    if |tokens| > 0 {
      FilterAll(tokens[..|tokens| - 1], keep);
      assert tokens[|tokens| - 1] in tokens;
    }
  }

  // ----- Interleaved acquisition -----

  datatype Request = Request(run: string, asset: string, tag: string, weight: int)

  /** Where an Acquire transaction stands. Its insert is visible to others only after commit. */
  datatype Phase =
    | Locked(req: Request)
    | Summed(req: Request, used: int)
    | Inserted(req: Request, used: int, at: int)

  /** tokens: the committed rows. A transaction in `open` holds the advisory lock of its tag. */
  datatype State = State(tokens: Tokens, open: map<int, Phase>)

  datatype Step =
    | Lock(tx: int, req: Request)
    | ReadSum(tx: int)
    | Insert(tx: int, now: int)
    | Commit(tx: int)
    | Rollback(tx: int)
    | Release(run: string, tag: string)
    | ReleaseAll(run: string)
    | ReleaseStale(cutoff: int)

  /** pg_advisory_xact_lock(hashtext(tag)): granted when no open transaction holds the same key. */
  predicate LockFree(s: State, hash: string -> int, tag: string) {
    forall tx | tx in s.open :: hash(s.open[tx].req.tag) != hash(tag)
  }

  /** A step that is not enabled (a lock not free, a statement out of order) changes nothing. */
  function Do(s: State, step: Step, capacities: map<string, int>, hash: string -> int): State {
    match step
    case Lock(tx, req) =>
      if tx !in s.open && LockFree(s, hash, req.tag) then
        s.(open := s.open[tx := Locked(req.(weight := Units(req.weight)))])
      else s
    case ReadSum(tx) =>
      if tx in s.open && s.open[tx].Locked? then
        s.(open := s.open[tx := Summed(s.open[tx].req, Weight(s.tokens, s.open[tx].req.tag))])
      else s
    case Insert(tx, now) =>
      if tx in s.open && s.open[tx].Summed? then
        var p := s.open[tx];
        if p.used + p.req.weight > Limit(capacities, p.req.tag) then s.(open := s.open - {tx})
        else s.(open := s.open[tx := Inserted(p.req, p.used, now)])
      else s
    case Commit(tx) =>
      if tx in s.open && s.open[tx].Inserted? then
        State(s.tokens + [TokenOf(s.open[tx])], s.open - {tx})
      else s
    case Rollback(tx) => s.(open := s.open - {tx})
    case Release(run, tag) => s.(tokens := Released(s.tokens, run, tag))
    case ReleaseAll(run) => s.(tokens := ReleasedAll(s.tokens, run))
    case ReleaseStale(cutoff) => s.(tokens := ReleasedStale(s.tokens, cutoff))
  }

  function TokenOf(p: Phase): Token
    requires p.Inserted?
  {
    Token(p.req.run, p.req.asset, p.req.tag, p.req.weight, p.at)
  }

  function DoAll(s: State, steps: seq<Step>, capacities: map<string, int>, hash: string -> int): State {
    if |steps| == 0 then s
    else Do(DoAll(s, steps[..|steps| - 1], capacities, hash), steps[|steps| - 1], capacities, hash)
  }

  /** The sum a transaction read under the lock stays an upper bound until it commits. */
  ghost predicate PhaseInv(tokens: Tokens, p: Phase, capacities: map<string, int>) {
    && p.req.weight > 0
    && (!p.Locked? ==> Weight(tokens, p.req.tag) <= p.used)
    && (p.Inserted? ==> p.used + p.req.weight <= Limit(capacities, p.req.tag))
  }

  ghost predicate WithinLimit(tokens: Tokens, capacities: map<string, int>, tag: string) {
    0 <= Limit(capacities, tag) ==> Weight(tokens, tag) <= Limit(capacities, tag)
  }

  ghost predicate OneHolder(s: State) {
    forall x, y | x in s.open && y in s.open && s.open[x].req.tag == s.open[y].req.tag :: x == y
  }

  ghost predicate Inv(s: State, capacities: map<string, int>) {
    && Positive(s.tokens)
    && OneHolder(s)
    && (forall tx | tx in s.open :: PhaseInv(s.tokens, s.open[tx], capacities))
    && (forall tag :: WithinLimit(s.tokens, capacities, tag))
  }

  /** Committing admits exactly one holder's token of one tag. */
  lemma CommitKeepsInv(s: State, tx: int, capacities: map<string, int>)
    requires Inv(s, capacities) && tx in s.open && s.open[tx].Inserted?
    ensures Inv(State(s.tokens + [TokenOf(s.open[tx])], s.open - {tx}), capacities)
  {
    var token := TokenOf(s.open[tx]);
    var more := s.tokens + [token];
    assert more[..|s.tokens|] == s.tokens;
    forall tag
      ensures Weight(more, tag) == Weight(s.tokens, tag) + if tag == token.tag then token.weight else 0
    {
    }
    forall x | x in s.open && x != tx
      ensures PhaseInv(more, s.open[x], capacities)
    {
      assert PhaseInv(s.tokens, s.open[x], capacities);
    }
    assert PhaseInv(s.tokens, s.open[tx], capacities);
    forall tag
      ensures WithinLimit(more, capacities, tag)
    {
      assert WithinLimit(s.tokens, capacities, tag);
    }
  }

  lemma DeleteKeepsInv(s: State, keep: Token -> bool, capacities: map<string, int>)
    requires Inv(s, capacities)
    ensures Inv(s.(tokens := Filter(s.tokens, keep)), capacities)
  {
    var fewer := Filter(s.tokens, keep);
    forall t | t in fewer
      ensures t.weight > 0
    {
      FilterElements(s.tokens, keep, t);
    }
    forall tag
      ensures Weight(fewer, tag) <= Weight(s.tokens, tag) && WithinLimit(fewer, capacities, tag)
    {
      FilterLowersWeight(s.tokens, keep, tag);
      assert WithinLimit(s.tokens, capacities, tag);
    }
    forall tx | tx in s.open
      ensures PhaseInv(fewer, s.open[tx], capacities)
    {
      assert PhaseInv(s.tokens, s.open[tx], capacities);
    }
  }

  lemma DoKeepsInv(s: State, step: Step, capacities: map<string, int>, hash: string -> int)
    requires Inv(s, capacities)
    ensures Inv(Do(s, step, capacities, hash), capacities)
  {
    match step
    case Commit(tx) =>
      if tx in s.open && s.open[tx].Inserted? {
        CommitKeepsInv(s, tx, capacities);
      }
    case Release(run, tag) => DeleteKeepsInv(s, (t: Token) => !(t.run == run && t.tag == tag), capacities);
    case ReleaseAll(run) => DeleteKeepsInv(s, (t: Token) => t.run != run, capacities);
    case ReleaseStale(cutoff) => DeleteKeepsInv(s, (t: Token) => t.acquiredAt >= cutoff, capacities);
    case _ => TxStepKeepsInv(s, step, capacities, hash);
  }

  lemma TxStepKeepsInv(s: State, step: Step, capacities: map<string, int>, hash: string -> int)
    requires Inv(s, capacities) && (step.Lock? || step.ReadSum? || step.Insert? || step.Rollback?)
    ensures Inv(Do(s, step, capacities, hash), capacities)
  {
    var t := Do(s, step, capacities, hash);
    forall tx | tx in t.open
      ensures PhaseInv(t.tokens, t.open[tx], capacities)
    {
      if tx in s.open {
        assert PhaseInv(s.tokens, s.open[tx], capacities);
      }
    }
  }

  /** In every interleaving of acquisitions, releases and stale clean-ups, whatever the hash of the lock,
      the committed weight of every tag stays within its non-negative limit. */
  lemma {:induction false} CapacityNeverExceeded(steps: seq<Step>, capacities: map<string, int>, hash: string -> int)
    ensures Inv(DoAll(State([], map[]), steps, capacities, hash), capacities)
    ensures forall tag | 0 <= Limit(capacities, tag) ::
              Weight(DoAll(State([], map[]), steps, capacities, hash).tokens, tag) <= Limit(capacities, tag)
    decreases |steps|
  {
    var before := DoAll(State([], map[]), if |steps| > 0 then steps[..|steps| - 1] else [], capacities, hash);
    if |steps| > 0 {
      CapacityNeverExceeded(steps[..|steps| - 1], capacities, hash);
      DoKeepsInv(before, steps[|steps| - 1], capacities, hash);
    }
    forall tag | 0 <= Limit(capacities, tag)
      ensures Weight(DoAll(State([], map[]), steps, capacities, hash).tokens, tag) <= Limit(capacities, tag)
    {
      assert WithinLimit(DoAll(State([], map[]), steps, capacities, hash).tokens, capacities, tag);
    }
  }

  /** An Acquire no one interferes with leaves one row with its units, at least one, exactly when they fit under the
      tag's limit beside what is committed, and no trace otherwise. */
  lemma UndisturbedAcquire(s: State, tx: int, req: Request, now: int, capacities: map<string, int>,
                           hash: string -> int)
    requires tx !in s.open && forall o | o in s.open :: hash(s.open[o].req.tag) != hash(req.tag)
    ensures var steps := [Lock(tx, req), ReadSum(tx), Insert(tx, now), Commit(tx)];
      var units, limit := if req.weight < 1 then 1 else req.weight,
                          if req.tag in capacities then capacities[req.tag] else 0x7FFF_FFFF;
      DoAll(s, steps, capacities, hash)
        == s.(tokens := s.tokens + if Weight(s.tokens, req.tag) + units <= limit
                                   then [Token(req.run, req.asset, req.tag, units, now)] else [])
  {
    var a := Do(s, Lock(tx, req), capacities, hash);
    var b := Do(a, ReadSum(tx), capacities, hash);
    var c := Do(b, Insert(tx, now), capacities, hash);
    var d := Do(c, Commit(tx), capacities, hash);
    FourSteps(s, Lock(tx, req), ReadSum(tx), Insert(tx, now), Commit(tx), capacities, hash);
    assert d.open == s.open;
    assert s.tokens + [] == s.tokens;
  }

  lemma FourSteps(s: State, a: Step, b: Step, c: Step, d: Step, capacities: map<string, int>, hash: string -> int)
    ensures DoAll(s, [a, b, c, d], capacities, hash)
         == Do(Do(Do(Do(s, a, capacities, hash), b, capacities, hash), c, capacities, hash), d, capacities, hash)
  {
    assert [a, b, c, d][..3] == [a, b, c] && [a, b, c][..2] == [a, b] && [a, b][..1] == [a] && [a][..0] == [];
    assert DoAll(s, [], capacities, hash) == s;
    assert DoAll(s, [a], capacities, hash) == Do(s, a, capacities, hash);
    assert DoAll(s, [a, b], capacities, hash) == Do(DoAll(s, [a], capacities, hash), b, capacities, hash);
    assert DoAll(s, [a, b, c], capacities, hash) == Do(DoAll(s, [a, b], capacities, hash), c, capacities, hash);
  }

  lemma {:induction false} FilterKeeps(tokens: Tokens, keep: Token -> bool, t: Token)
    ensures multiset(Filter(tokens, keep))[t] == if keep(t) then multiset(tokens)[t] else 0
    decreases |tokens|
  {
    if |tokens| > 0 {
      FilterKeeps(tokens[..|tokens| - 1], keep, t);
      assert tokens == tokens[..|tokens| - 1] + [tokens[|tokens| - 1]];
    }
  }

  /** Which rows a release of one tag, of a whole run, and of stale rows take out; a lock not free is waited for. */
  lemma ReleasesExactly(s: State, capacities: map<string, int>, hash: string -> int, run: string, tag: string,
                        cutoff: int, t: Token)
    ensures multiset(Do(s, Release(run, tag), capacities, hash).tokens)[t]
         == if t.run == run && t.tag == tag then 0 else multiset(s.tokens)[t]
    ensures multiset(Do(s, ReleaseAll(run), capacities, hash).tokens)[t]
         == if t.run == run then 0 else multiset(s.tokens)[t]
    ensures multiset(Do(s, ReleaseStale(cutoff), capacities, hash).tokens)[t]
         == if t.acquiredAt < cutoff then 0 else multiset(s.tokens)[t]
    ensures forall tx, o, req: Request | o in s.open && hash(s.open[o].req.tag) == hash(req.tag) ::
      Do(s, Lock(tx, req), capacities, hash) == s
  {
    FilterKeeps(s.tokens, (t: Token) => !(t.run == run && t.tag == tag), t);
    FilterKeeps(s.tokens, (t: Token) => t.run != run, t);
    FilterKeeps(s.tokens, (t: Token) => t.acquiredAt >= cutoff, t);
  }

  // ----- runStep -----

  /** asset.RetryPolicy; the delays only matter for being zero. */
  datatype RetryPolicy = RetryPolicy(max: int, initialDelay: int, maxDelay: int, jitterPct: int) {
    predicate IsZero() {
      max == 0 && initialDelay == 0 && maxDelay == 0 && jitterPct == 0
    }
  }

  predicate ShouldRetry(attempt: int, policy: RetryPolicy) {
    !policy.IsZero() && attempt < policy.max
  }

  datatype GateAnswer = GateOff | NoVersion | QueryFailed | InState(active: bool)

  datatype AttemptResult = NotAdmitted | NoMaskRules | NotMaterialized | Materialized

  datatype Outcome = Gated | TokensExhausted | MaskRulesFailed | CommitFailed | RetriesExhausted | Succeeded

  /** What the world decides while a step runs, per attempt, and per pool operation of an attempt. */
  datatype World = World(
    others: (nat, nat) -> Tokens,  // the tokens of all other runs when the n-th operation of an attempt starts
    fault: (nat, nat) -> bool,     // that operation hits a database error
    maskFails: nat -> bool,        // resolving the mask rules fails in an attempt
    materializes: nat -> bool,     // the materialize function succeeds in an attempt
    commits: bool)                 // the success transaction commits

  /** What an attempt asks for: the global token, the backfill one for a backfill run, then each declared resource. */
  function Wanted(backfill: bool, resources: seq<(string, int)>): seq<(string, int)> {
    [("global", 1)] + (if backfill then [("backfill", 1)] else []) + resources
  }

  /** The rows of the first n acquisitions; at least one unit each. */
  ghost function Own(run: string, asset: string, wanted: seq<(string, int)>, n: nat): Tokens
    requires n <= |wanted|
  {
    seq(n, i requires 0 <= i < n =>
          Token(run, asset, wanted[i].0, if wanted[i].1 < 1 then 1 else wanted[i].1, 0))
  }

  /** The units of the tag among the first n things asked for. */
  ghost function Asked(wanted: seq<(string, int)>, n: nat, tag: string): int
    requires n <= |wanted|
  {
    if n == 0 then 0
    else Asked(wanted, n - 1, tag)
         + if wanted[n - 1].0 != tag then 0 else if wanted[n - 1].1 < 1 then 1 else wanted[n - 1].1
  }

  /** In an attempt the n-th acquisition meets no fault and, with what others and the run itself hold by then, fits the
      tag's limit. */
  ghost predicate Fits(w: World, capacities: map<string, int>, wanted: seq<(string, int)>, attempt: nat, n: nat)
    requires n < |wanted|
  {
    var tag := wanted[n].0;
    && !w.fault(attempt, n)
    && Weight(w.others(attempt, n), tag) + Asked(wanted, n + 1, tag)
       <= if tag in capacities then capacities[tag] else 0x7FFF_FFFF
  }

  ghost predicate Admitted(w: World, capacities: map<string, int>, wanted: seq<(string, int)>, attempt: nat) {
    forall n | 0 <= n < |wanted| :: Fits(w, capacities, wanted, attempt, n)
  }

  lemma {:induction false} AskedGrows(wanted: seq<(string, int)>, n: nat, m: nat, tag: string)
    requires n <= m <= |wanted|
    ensures Asked(wanted, n, tag) <= Asked(wanted, m, tag)
    decreases m
  {
    if n < m {
      AskedGrows(wanted, n, m - 1, tag);
    }
  }

  /** The n-th acquisition meets no fault, and its tag has room for everything the attempt asks of it. */
  ghost predicate Room(w: World, capacities: map<string, int>, wanted: seq<(string, int)>, attempt: nat, n: nat)
    requires n < |wanted|
  {
    var tag := wanted[n].0;
    && !w.fault(attempt, n)
    && Weight(w.others(attempt, n), tag) + Asked(wanted, |wanted|, tag)
       <= if tag in capacities then capacities[tag] else 0x7FFF_FFFF
  }

  /** Without faults and with room for everything an attempt asks for under every limit, it is admitted. */
  lemma RoomAdmits(w: World, capacities: map<string, int>, wanted: seq<(string, int)>, attempt: nat)
    requires forall n | 0 <= n < |wanted| :: Room(w, capacities, wanted, attempt, n)
    ensures Admitted(w, capacities, wanted, attempt)
  {
    forall n | 0 <= n < |wanted|
      ensures Fits(w, capacities, wanted, attempt, n)
    {
      assert Room(w, capacities, wanted, attempt, n);
      AskedGrows(wanted, n + 1, |wanted|, wanted[n].0);
    }
  }

  lemma OwnNext(run: string, asset: string, wanted: seq<(string, int)>, n: nat)
    requires n < |wanted|
    ensures Own(run, asset, wanted, n + 1)
         == Own(run, asset, wanted, n) + [Token(run, asset, wanted[n].0, if wanted[n].1 < 1 then 1 else wanted[n].1, 0)]
  {}

  /** The first n acquisitions of the attempt fit, and these are their tags. */
  ghost predicate Took(w: World, capacities: map<string, int>, wanted: seq<(string, int)>, attempt: nat, n: nat,
                       acquired: seq<string>) {
    n == |acquired| <= |wanted|
    && forall k | 0 <= k < n :: acquired[k] == wanted[k].0 && Fits(w, capacities, wanted, attempt, k)
  }

  lemma TookNext(w: World, capacities: map<string, int>, wanted: seq<(string, int)>, attempt: nat, n: nat,
                 acquired: seq<string>)
    requires Took(w, capacities, wanted, attempt, n, acquired) && n < |wanted|
             && Fits(w, capacities, wanted, attempt, n)
    ensures Took(w, capacities, wanted, attempt, n + 1, acquired + [wanted[n].0])
  {}

  lemma AllTook(w: World, capacities: map<string, int>, wanted: seq<(string, int)>, attempt: nat, acquired: seq<string>)
    requires Took(w, capacities, wanted, attempt, |wanted|, acquired)
    ensures Admitted(w, capacities, wanted, attempt)
  {}

  lemma OwnTags(w: World, capacities: map<string, int>, wanted: seq<(string, int)>, attempt: nat, n: nat,
                acquired: seq<string>, run: string, asset: string)
    requires Took(w, capacities, wanted, attempt, n, acquired)
    ensures forall t | t in Own(run, asset, wanted, n) :: t.tag in acquired
  {
    forall k | 0 <= k < n
      ensures Own(run, asset, wanted, n)[k].tag in acquired
    {
      assert acquired[k] == wanted[k].0;
    }
  }

  lemma {:induction false} WeightConcat(a: Tokens, b: Tokens, tag: string)
    ensures Weight(a + b, tag) == Weight(a, tag) + Weight(b, tag)
    decreases |b|
  {
    if b == [] {
      assert a + b == a;
    } else {
      assert (a + b)[..|a + b| - 1] == a + b[..|b| - 1];
      WeightConcat(a, b[..|b| - 1], tag);
    }
  }

  lemma {:induction false} OwnWeight(run: string, asset: string, wanted: seq<(string, int)>, n: nat, tag: string)
    requires n <= |wanted|
    ensures Weight(Own(run, asset, wanted, n), tag) == Asked(wanted, n, tag)
  {
    if n > 0 {
      var own := Own(run, asset, wanted, n);
      OwnWeight(run, asset, wanted, n - 1, tag);
      assert own[..n - 1] == Own(run, asset, wanted, n - 1);
    }
  }

  /** The attempt is the step's last: it is admitted, and either its mask rules fail or it materializes. */
  ghost predicate Decisive(w: World, capacities: map<string, int>, wanted: seq<(string, int)>, attempt: nat) {
    Admitted(w, capacities, wanted, attempt) && (w.maskFails(attempt) || w.materializes(attempt))
  }

  /** How many attempts the policy allows. */
  function Bound(policy: RetryPolicy): int {
    if policy.max < 1 then 1 else policy.max
  }

  /** The answer of a step that the gate lets through, from the world: attempts follow one another up to the first
      decisive one or the policy's bound. */
  ghost predicate Answer(w: World, capacities: map<string, int>, wanted: seq<(string, int)>, bound: int, last: int,
                         outcome: Outcome, calls: int) {
    && 1 <= last <= bound
    && (forall a: nat | 1 <= a < last :: !Decisive(w, capacities, wanted, a))
    && (last == bound || Decisive(w, capacities, wanted, last))
    && outcome == (if !Admitted(w, capacities, wanted, last) then TokensExhausted
                   else if w.maskFails(last) then MaskRulesFailed
                   else if !w.materializes(last) then RetriesExhausted
                   else if w.commits then Succeeded else CommitFailed)
    && calls == |Calling(w, capacities, wanted, last)|
  }

  /** The attempts up to this one that call the materialize function. */
  ghost function Calling(w: World, capacities: map<string, int>, wanted: seq<(string, int)>, last: int): set<nat> {
    set a: nat | 1 <= a <= last && Admitted(w, capacities, wanted, a) && !w.maskFails(a)
  }

  /** The attempts before this one were not decisive, and made this many calls. */
  ghost predicate SoFar(w: World, capacities: map<string, int>, wanted: seq<(string, int)>, attempt: nat, calls: nat) {
    && attempt >= 1 && (forall a: nat | 1 <= a < attempt :: !Decisive(w, capacities, wanted, a))
    && calls == |Calling(w, capacities, wanted, attempt - 1)|
  }

  lemma AtFirst(w: World, capacities: map<string, int>, wanted: seq<(string, int)>)
    ensures SoFar(w, capacities, wanted, 1, 0)
  {
    assert Calling(w, capacities, wanted, 0) == {};
  }

  lemma Onwards(w: World, capacities: map<string, int>, wanted: seq<(string, int)>, attempt: nat, calls: nat)
    requires SoFar(w, capacities, wanted, attempt, calls) && !Decisive(w, capacities, wanted, attempt)
    ensures SoFar(w, capacities, wanted, attempt + 1,
                  calls + if Admitted(w, capacities, wanted, attempt) && !w.maskFails(attempt) then 1 else 0)
  {
    CallingNext(w, capacities, wanted, attempt);
  }

  lemma InTheEnd(w: World, capacities: map<string, int>, wanted: seq<(string, int)>, bound: int, attempt: nat,
                 calls: nat, outcome: Outcome)
    requires SoFar(w, capacities, wanted, attempt, calls) && attempt <= bound
    requires attempt == bound || Decisive(w, capacities, wanted, attempt)
    requires outcome == if !Admitted(w, capacities, wanted, attempt) then TokensExhausted
                        else if w.maskFails(attempt) then MaskRulesFailed
                        else if !w.materializes(attempt) then RetriesExhausted
                        else if w.commits then Succeeded else CommitFailed
    ensures Answer(w, capacities, wanted, bound, attempt, outcome,
                   calls + if Admitted(w, capacities, wanted, attempt) && !w.maskFails(attempt) then 1 else 0)
  {
    CallingNext(w, capacities, wanted, attempt);
  }

  lemma CallingNext(w: World, capacities: map<string, int>, wanted: seq<(string, int)>, last: nat)
    requires last >= 1
    ensures |Calling(w, capacities, wanted, last)| == |Calling(w, capacities, wanted, last - 1)|
              + if Admitted(w, capacities, wanted, last) && !w.maskFails(last) then 1 else 0
  {
    var before := Calling(w, capacities, wanted, last - 1);
    assert Calling(w, capacities, wanted, last)
        == before + if Admitted(w, capacities, wanted, last) && !w.maskFails(last) then {last} else {};
  }

  /** The materialize function is never called more often than attempts are allowed, and a step succeeds exactly when
      some allowed attempt is admitted, resolves its mask rules and materializes, none before it fails on its mask rules
      after being admitted, and the transaction commits. */
  lemma AnswerMeans(w: World, capacities: map<string, int>, wanted: seq<(string, int)>, bound: int, last: int,
                    outcome: Outcome, calls: int)
    requires Answer(w, capacities, wanted, bound, last, outcome, calls)
    ensures 0 <= calls <= last <= bound
    ensures outcome == Succeeded || outcome == CommitFailed
      <==> exists a: nat :: 1 <= a <= bound && Admitted(w, capacities, wanted, a) && w.materializes(a)
             && !w.maskFails(a) && forall b: nat | 1 <= b < a && Admitted(w, capacities, wanted, b) :: !w.maskFails(b)
    ensures outcome == Succeeded ==> w.commits && calls >= 1
    ensures outcome == CommitFailed ==> !w.commits && calls >= 1
    ensures outcome == RetriesExhausted || outcome == TokensExhausted ==> last == bound
  {
    CallsWithin(w, capacities, wanted, last);
    if last in Calling(w, capacities, wanted, last) {
      assert calls >= 1;
    }
    if a: nat :| && 1 <= a <= bound && Admitted(w, capacities, wanted, a) && w.materializes(a) && !w.maskFails(a)
                 && forall b: nat | 1 <= b < a && Admitted(w, capacities, wanted, b) :: !w.maskFails(b) {
      assert Decisive(w, capacities, wanted, a);
      assert last <= a;
      assert last < a ==> Decisive(w, capacities, wanted, last);
    }
    if outcome == Succeeded || outcome == CommitFailed {
      forall b: nat | 1 <= b < last && Admitted(w, capacities, wanted, b)
        ensures !w.maskFails(b)
      {
        assert !Decisive(w, capacities, wanted, b);
      }
    }
  }

  lemma {:induction false} CallsWithin(w: World, capacities: map<string, int>, wanted: seq<(string, int)>, last: nat)
    ensures |Calling(w, capacities, wanted, last)| <= last
  {
    if last > 0 {
      CallsWithin(w, capacities, wanted, last - 1);
      CallingNext(w, capacities, wanted, last);
    } else {
      assert Calling(w, capacities, wanted, 0) == {};
    }
  }

  /** The executor's view of the token table while it runs one step of one run. */
  class StepRunner {
    const run: string
    const asset: string
    const capacities: map<string, int>
    const world: World
    var tokens: Tokens
    var attempt: nat
    var ops: nat

    ghost predicate Valid() {
      forall a: nat, n: nat :: forall t | t in world.others(a, n) :: t.run != run
    }

    /** This run's rows, after everyone else's. */
    ghost predicate Holds(own: Tokens)
      reads this
    {
      tokens == world.others(attempt, ops) + own && forall t | t in own :: t.run == run
    }

    constructor (run: string, asset: string, capacities: map<string, int>, world: World)
      ensures this.run == run && this.asset == asset && this.capacities == capacities && this.world == world
      ensures Holds([])
    {
      this.run, this.asset, this.capacities, this.world := run, asset, capacities, world;
      attempt, ops := 0, 0;
      tokens := world.others(0, 0);
    }

    /** Between two of this step's operations the other runs may do anything to their own rows. */
    method Interfere(ghost own: Tokens, a: nat, n: nat)
      requires Valid() && Holds(own)
      modifies this
      ensures Holds(own) && attempt == a && ops == n
    {
      var keep := (t: Token) => t.run == run;
      FilterConcat(world.others(attempt, ops), own, keep);
      FilterNone(world.others(attempt, ops), keep);
      FilterAll(own, keep);
      var mine := Filter(tokens, keep);
      attempt, ops := a, n;
      tokens := world.others(attempt, ops) + mine;
    }

    /** Acquire as the next operation of the attempt: refused on a fault or when the units do not fit. */
    method Acquire(tag: string, weight: int, ghost own: Tokens) returns (ok: bool, ghost own': Tokens)
      requires Valid() && Holds(own)
      modifies this
      ensures Holds(own') && attempt == old(attempt) && ops == old(ops) + 1
      ensures ok <==> !world.fault(attempt, old(ops))
                      && Weight(world.others(attempt, old(ops)), tag) + Weight(own, tag)
                         + (if weight < 1 then 1 else weight)
                         <= if tag in capacities then capacities[tag] else 0x7FFF_FFFF
      ensures own' == if ok then own + [Token(run, asset, tag, if weight < 1 then 1 else weight, 0)] else own
    {
      WeightConcat(world.others(attempt, ops), own, tag);
      if world.fault(attempt, ops) || Weight(tokens, tag) + Units(weight) > Limit(capacities, tag) {
        own' := own;
        Interfere(own, attempt, ops + 1);
        return false, own;
      }
      var token := Token(run, asset, tag, Units(weight), 0);
      assert world.others(attempt, ops) + own + [token] == world.others(attempt, ops) + (own + [token]);
      tokens := tokens + [token];
      own' := own + [token];
      Interfere(own', attempt, ops + 1);
      ok := true;
    }

    method Release(tag: string, ghost own: Tokens) returns (ghost own': Tokens)
      requires Valid() && Holds(own)
      modifies this
      ensures Holds(own') && attempt == old(attempt)
      ensures own' == Released(own, run, tag)
    {
      var keep := (t: Token) => !(t.run == run && t.tag == tag);
      FilterConcat(world.others(attempt, ops), own, keep);
      FilterAll(world.others(attempt, ops), keep);
      tokens := Released(tokens, run, tag);
      own' := Released(own, run, tag);
      forall t | t in own'
        ensures t.run == run
      {
        FilterElements(own, keep, t);
      }
      Interfere(own', attempt, ops + 1);
    }

    /** releaseAcquired: afterwards the run holds nothing. */
    method ReleaseAcquired(acquired: seq<string>, ghost own: Tokens)
      requires Valid() && Holds(own) && forall t | t in own :: t.tag in acquired
      modifies this
      ensures Holds([]) && attempt == old(attempt)
    {
      ghost var rest := own;
      for i := 0 to |acquired|
        invariant Holds(rest) && attempt == old(attempt) && forall t | t in rest :: t.tag in acquired[i..]
      {
        ghost var before := rest;
        rest := Release(acquired[i], rest);
        forall t | t in rest
          ensures t.tag in acquired[i + 1..]
        {
          FilterElements(before, (t: Token) => !(t.run == run && t.tag == acquired[i]), t);
          assert acquired[i..] == [acquired[i]] + acquired[i + 1..];
        }
      }
      var listed := (t: Token) => t.tag in acquired[|acquired|..];
      FilterAll(rest, listed);
      FilterNone(rest, listed);
    }

    /** The first n things wanted are held, by this attempt's first n operations. */
    ghost predicate HoldsFirst(wanted: seq<(string, int)>, n: nat, acquired: seq<string>)
      reads this
      requires n <= |wanted|
    {
      ops == n && Holds(Own(run, asset, wanted, n)) && Took(world, capacities, wanted, attempt, n, acquired)
    }

    /** Acquire the next thing wanted; if it does not fit, release everything. */
    method AcquireNext(tag: string, weight: int, ghost wanted: seq<(string, int)>, n: nat, acquired: seq<string>)
      returns (ok: bool)
      requires Valid() && n < |wanted| && wanted[n] == (tag, weight) && HoldsFirst(wanted, n, acquired)
      modifies this
      ensures attempt == old(attempt)
      ensures ok <==> Fits(world, capacities, wanted, attempt, n)
      ensures if ok then HoldsFirst(wanted, n + 1, acquired + [tag]) else Holds([])
    {
      ghost var own := Own(run, asset, wanted, n);
      OwnWeight(run, asset, wanted, n, tag);
      OwnNext(run, asset, wanted, n);
      OwnTags(world, capacities, wanted, attempt, n, acquired, run, asset);
      ok, own := Acquire(tag, weight, own);
      if ok {
        TookNext(world, capacities, wanted, attempt, n, acquired);
      } else {
        ReleaseAcquired(acquired, own);
      }
    }

    /** One attempt's tokens: global, backfill for a backfill run, then each declared resource. They are held together
        exactly when each of them fits; on failure everything acquired so far has been released. */
    method AcquireAll(backfill: bool, resources: seq<(string, int)>) returns (ok: bool, acquired: seq<string>)
      requires Valid() && Holds([]) && ops == 0
      modifies this
      ensures attempt == old(attempt)
      ensures ok <==> Admitted(world, capacities, Wanted(backfill, resources), attempt)
      ensures ok ==> HoldsFirst(Wanted(backfill, resources), |Wanted(backfill, resources)|, acquired)
      ensures !ok ==> Holds([])
    {
      ghost var wanted := Wanted(backfill, resources);
      acquired := [];
      ok := AcquireNext("global", 1, wanted, 0, acquired);
      if !ok { return; }
      acquired := acquired + ["global"];
      if backfill {
        ok := AcquireNext("backfill", 1, wanted, 1, acquired);
        if !ok { return; }
        acquired := acquired + ["backfill"];
      }
      var n := |acquired|;
      for i := 0 to |resources|
        invariant attempt == old(attempt) && |wanted| == n + |resources| && HoldsFirst(wanted, n + i, acquired)
      {
        assert wanted[n + i] == resources[i];
        ok := AcquireNext(resources[i].0, resources[i].1, wanted, n + i, acquired);
        if !ok { return; }
        acquired := acquired + [resources[i].0];
      }
      ok := true;
      AllTook(world, capacities, wanted, attempt, acquired);
    }

    method ReleaseAttempt(acquired: seq<string>, ghost wanted: seq<(string, int)>)
      requires Valid() && HoldsFirst(wanted, |wanted|, acquired)
      modifies this
      ensures Holds([]) && attempt == old(attempt)
    {
      OwnTags(world, capacities, wanted, attempt, |wanted|, acquired, run, asset);
      ReleaseAcquired(acquired, Own(run, asset, wanted, |wanted|));
    }

    /** One pass of runStep's loop, up to the decision what its result means: the tokens it took are given back before
        anything else is decided. */
    method Attempt(backfill: bool, resources: seq<(string, int)>) returns (result: AttemptResult)
      requires Valid() && Holds([]) && ops == 0
      modifies this
      ensures Holds([]) && attempt == old(attempt)
      ensures result == if !Admitted(world, capacities, Wanted(backfill, resources), attempt) then NotAdmitted
                        else if world.maskFails(attempt) then NoMaskRules
                        else if world.materializes(attempt) then Materialized else NotMaterialized
    {
      var ok, acquired := AcquireAll(backfill, resources);
      if !ok {
        return NotAdmitted;
      }
      if world.maskFails(attempt) {
        ReleaseAttempt(acquired, Wanted(backfill, resources));
        return NoMaskRules;
      }
      var succeeded := world.materializes(attempt);
      ReleaseAttempt(acquired, Wanted(backfill, resources));
      result := if succeeded then Materialized else NotMaterialized;
    }

    /** runStep. On every exit the run holds no token and the other runs' rows are exactly as they left them; behind the
        gate the answer and the number of calls of the materialize function are what the world's attempts make them. */
    method RunStep(assetPolicy: RetryPolicy, defaultPolicy: RetryPolicy, gate: GateAnswer, backfill: bool,
                   resources: seq<(string, int)>)
      returns (outcome: Outcome, calls: nat, ghost last: nat)
      requires Valid() && Holds([])
      modifies this
      ensures tokens == world.others(attempt, ops)
      ensures outcome == Gated <==> gate == NoVersion || gate == InState(false)
      ensures outcome == Gated ==> calls == 0
      ensures outcome != Gated ==>
                Answer(world, capacities,
                       [("global", 1)] + (if backfill then [("backfill", 1)] else []) + resources,
                       Bound(if assetPolicy == RetryPolicy(0, 0, 0, 0) then defaultPolicy else assetPolicy), last,
                       outcome, calls)
    {
      var policy := if assetPolicy.IsZero() then defaultPolicy else assetPolicy;
      calls, last := 0, 1;
      if gate == NoVersion || gate == InState(false) {
        outcome := Gated;
        return;
      }
      ghost var wanted := Wanted(backfill, resources);
      Interfere([], 1, 0);
      AtFirst(world, capacities, wanted);
      while true
        invariant Holds([]) && ops == 0 && 1 <= attempt <= Bound(policy)
        invariant SoFar(world, capacities, wanted, attempt, calls)
        decreases Bound(policy) - attempt
      {
        last := attempt;
        ghost var before := calls;
        var result := Attempt(backfill, resources);
        match result {
          case NotAdmitted =>
            if !ShouldRetry(attempt, policy) {
              outcome := TokensExhausted;
              InTheEnd(world, capacities, wanted, Bound(policy), last, before, outcome);
              return;
            }
          case NoMaskRules =>
            outcome := MaskRulesFailed;
            InTheEnd(world, capacities, wanted, Bound(policy), last, before, outcome);
            return;
          case Materialized =>
            calls := calls + 1;
            outcome := if world.commits then Succeeded else CommitFailed;
            InTheEnd(world, capacities, wanted, Bound(policy), last, before, outcome);
            return;
          case NotMaterialized =>
            calls := calls + 1;
            if !ShouldRetry(attempt, policy) {
              outcome := RetriesExhausted;
              InTheEnd(world, capacities, wanted, Bound(policy), last, before, outcome);
              return;
            }
        }
        Onwards(world, capacities, wanted, last, before);
        Interfere([], attempt + 1, 0);
      }
    }
  }

  lemma {:induction false} FilterNone(tokens: Tokens, keep: Token -> bool)
    requires forall t | t in tokens :: !keep(t)
    ensures Filter(tokens, keep) == []
    decreases |tokens|
  {
    if |tokens| > 0 {
      FilterNone(tokens[..|tokens| - 1], keep);
      assert tokens[|tokens| - 1] in tokens;
    }
  }
}
