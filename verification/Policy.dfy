/** internal/policy/store.go and yaml_loader.go: the temporal table of layered column policies. */
module Policy {
  import opened Options

  datatype Source = Runtime | Builder | YamlDefault

  datatype Mode = WarehouseNative | InPipeline | Unknown

  datatype Key = Key(asset: string, column: string, source: Source)

  /** A column_policies row; retired stands for superseded_at being set. */
  datatype Row = Row(key: Key, mask: string, roles: seq<string>, codeFirst: string, codeLatest: string, mode: Mode,
                     lastSeen: int, retired: bool)

  datatype AuditEntry = Changed(key: Key, before: Option<string>, after: string) | Removed(key: Key)

  datatype State = State(rows: seq<Row>, audit: seq<AuditEntry>)

  datatype Error = InvalidMask | ReasonRequired | PolicyNotFound | NameRequired

  datatype Result<+T> = Ok(value: T) | Err(error: Error)

  /** A ColumnPolicy declared by the builder. */
  datatype Declared = Declared(column: string, mask: string, roles: seq<string>)

  predicate ValidMask(mask: string) {
    mask == "hash" || mask == "redact" || mask == "partial"
  }

  // ----- Statements -----

  predicate Hits(r: Row, k: Key) {
    !r.retired && r.key == k
  }

  /** What a SELECT of the active row of a key returns. */
  function Find(rows: seq<Row>, k: Key): Option<Row>
    decreases |rows|
  {
    if |rows| == 0 then None
    else if Hits(rows[|rows| - 1], k) then Some(rows[|rows| - 1])
    else Find(rows[..|rows| - 1], k)
  }

  datatype Change = Retire | Touch(codeLatest: Option<string>, now: int) | SetMode(mode: Mode)

  function Altered(r: Row, u: Change): Row {
    match u
    case Retire => r.(retired := true)
    case Touch(code, now) => r.(lastSeen := now, codeLatest := if code.Some? then code.value else r.codeLatest)
    case SetMode(mode) => r.(mode := mode)
  }

  /** An UPDATE of the active rows of a key. */
  function Update(rows: seq<Row>, k: Key, u: Change): (after: seq<Row>)
    ensures |after| == |rows|
    ensures forall i | 0 <= i < |rows| :: after[i] == if Hits(rows[i], k) then Altered(rows[i], u) else rows[i]
  {
    seq(|rows|, i requires 0 <= i < |rows| => if Hits(rows[i], k) then Altered(rows[i], u) else rows[i])
  }

  lemma {:induction false} FindUpdated(rows: seq<Row>, k: Key, u: Change, j: Key)
    ensures Find(Update(rows, k, u), j)
         == if j != k then Find(rows, j)
            else if u.Retire? || Find(rows, k).None? then None
            else Some(Altered(Find(rows, k).value, u))
    decreases |rows|
  {
    if |rows| > 0 {
      var front := rows[..|rows| - 1];
      FindUpdated(front, k, u, j);
      assert Update(rows, k, u)[..|front|] == Update(front, k, u);
    }
  }

  lemma {:induction false} FindExactly(rows: seq<Row>, k: Key)
    ensures Find(rows, k).None? <==> forall i | 0 <= i < |rows| :: !Hits(rows[i], k)
    ensures Find(rows, k).Some? ==> Hits(Find(rows, k).value, k) && Find(rows, k).value in rows
    decreases |rows|
  {
    if |rows| > 0 {
      FindExactly(rows[..|rows| - 1], k);
      assert rows == rows[..|rows| - 1] + [rows[|rows| - 1]];
    }
  }

  /** The partial unique index column_policies_active_unique. */
  ghost predicate OneActive(rows: seq<Row>) {
    forall i, j | 0 <= i < j < |rows| && !rows[i].retired && !rows[j].retired :: rows[i].key != rows[j].key
  }

  /** Rows are never deleted, a row's policy never changes, a retired row does not change at all, and the audit log
      only grows. */
  ghost predicate Evolves(s: State, t: State) {
    && |s.rows| <= |t.rows|
    && (forall i | 0 <= i < |s.rows| :: SamePolicy(s.rows[i], t.rows[i]))
    && s.audit <= t.audit
  }

  predicate SamePolicy(r: Row, q: Row) {
    && r.key == q.key && r.mask == q.mask && r.roles == q.roles && r.codeFirst == q.codeFirst
    && (r.retired ==> q == r)
  }

  lemma EvolvesOn(s: State, t: State, u: State)
    requires Evolves(s, t) && Evolves(t, u)
    ensures Evolves(s, u)
  {
    forall i | 0 <= i < |s.rows|
      ensures SamePolicy(s.rows[i], u.rows[i])
    {
      assert SamePolicy(s.rows[i], t.rows[i]) && SamePolicy(t.rows[i], u.rows[i]);
    }
  }

  lemma InsertKeeps(s: State, r: Row)
    requires OneActive(s.rows) && Find(s.rows, r.key).None?
    ensures OneActive(s.rows + [r]) && Evolves(s, s.(rows := s.rows + [r]))
  {
    FindExactly(s.rows, r.key);
  }

  // ----- One key -----

  /** UPDATE superseded_at, then the audit entry. */
  function RemoveKey(s: State, k: Key): State {
    State(Update(s.rows, k, Retire), s.audit + [Removed(k)])
  }

  /** Retire the active row, if any, insert the new one, write the audit entry. */
  function ReplaceKey(s: State, r: Row): State {
    var had := Find(s.rows, r.key);
    State((if had.Some? then Update(s.rows, r.key, Retire) else s.rows) + [r],
          s.audit + [Changed(r.key, if had.Some? then Some(had.value.mask) else None, r.mask)])
  }

  function TouchKey(s: State, k: Key, codeLatest: Option<string>, now: int): State {
    s.(rows := Update(s.rows, k, Touch(codeLatest, now)))
  }

  lemma RemoveKeyEffect(s: State, k: Key)
    requires OneActive(s.rows)
    ensures var t := RemoveKey(s, k);
      && OneActive(t.rows) && Evolves(s, t) && |t.rows| == |s.rows| && |t.audit| == |s.audit| + 1
      && forall j :: Find(t.rows, j) == if j == k then None else Find(s.rows, j)
  {
    forall j
      ensures Find(RemoveKey(s, k).rows, j) == if j == k then None else Find(s.rows, j)
    {
      FindUpdated(s.rows, k, Retire, j);
    }
  }

  lemma ReplaceKeyEffect(s: State, r: Row)
    requires OneActive(s.rows) && !r.retired
    ensures var t := ReplaceKey(s, r);
      && OneActive(t.rows) && Evolves(s, t) && |t.rows| == |s.rows| + 1 && |t.audit| == |s.audit| + 1
      && forall j :: Find(t.rows, j) == if j == r.key then Some(r) else Find(s.rows, j)
  {
    var mid := s.(rows := if Find(s.rows, r.key).Some? then Update(s.rows, r.key, Retire) else s.rows);
    FindUpdated(s.rows, r.key, Retire, r.key);
    InsertKeeps(mid, r);
    EvolvesOn(s, mid, mid.(rows := mid.rows + [r]));
    forall j
      ensures Find(ReplaceKey(s, r).rows, j) == if j == r.key then Some(r) else Find(s.rows, j)
    {
      FindUpdated(s.rows, r.key, Retire, j);
    }
  }

  function TouchedRow(s: State, k: Key, codeLatest: Option<string>, now: int, j: Key): Option<Row> {
    if j == k && Find(s.rows, k).Some? then Some(Altered(Find(s.rows, k).value, Touch(codeLatest, now)))
    else Find(s.rows, j)
  }

  lemma TouchKeyEffect(s: State, k: Key, codeLatest: Option<string>, now: int)
    requires OneActive(s.rows)
    ensures var t := TouchKey(s, k, codeLatest, now);
      && OneActive(t.rows) && Evolves(s, t) && |t.rows| == |s.rows| && t.audit == s.audit
      && forall j :: Find(t.rows, j) == TouchedRow(s, k, codeLatest, now, j)
  {
    forall j
      ensures Find(TouchKey(s, k, codeLatest, now).rows, j) == TouchedRow(s, k, codeLatest, now, j)
    {
      FindUpdated(s.rows, k, Touch(codeLatest, now), j);
    }
  }

  // ----- Apply -----

  /** The want map: the last declaration of a column wins. */
  function WantOf(policies: seq<Declared>): map<string, Declared>
    decreases |policies|
  {
    if |policies| == 0 then map[]
    else WantOf(policies[..|policies| - 1])[policies[|policies| - 1].column := policies[|policies| - 1]]
  }

  predicate Matches(had: Option<Row>, p: Declared) {
    had.Some? && had.value.mask == p.mask && had.value.roles == p.roles
  }

  /** The active row a declared column has after Apply. */
  function Applied(had: Option<Row>, k: Key, p: Declared, codeHash: string, now: int): Row {
    if Matches(had, p) then Altered(had.value, Touch(Some(codeHash), now))
    else Row(k, p.mask, p.roles, if had.Some? then had.value.codeFirst else codeHash, codeHash, Unknown, now, false)
  }

  function UpsertDeclared(s: State, k: Key, p: Declared, codeHash: string, now: int): State {
    var had := Find(s.rows, k);
    if Matches(had, p) then TouchKey(s, k, Some(codeHash), now)
    else ReplaceKey(s, Applied(had, k, p, codeHash, now))
  }

  lemma UpsertDeclaredEffect(s: State, k: Key, p: Declared, codeHash: string, now: int)
    requires OneActive(s.rows)
    ensures var t := UpsertDeclared(s, k, p, codeHash, now);
      var changed := if Matches(Find(s.rows, k), p) then 0 else 1;
      && OneActive(t.rows) && Evolves(s, t)
      && |t.rows| == |s.rows| + changed && |t.audit| == |s.audit| + changed
      && forall j :: Find(t.rows, j)
           == if j == k then Some(Applied(Find(s.rows, k), k, p, codeHash, now)) else Find(s.rows, j)
  {
    if Matches(Find(s.rows, k), p) {
      TouchKeyEffect(s, k, Some(codeHash), now);
    } else {
      ReplaceKeyEffect(s, Applied(Find(s.rows, k), k, p, codeHash, now));
    }
  }

  function BuilderKey(asset: string, column: string): Key {
    Key(asset, column, Builder)
  }

  ghost function Dropped(s: State, asset: string, want: map<string, Declared>): set<string> {
    set r | r in s.rows && Hits(r, BuilderKey(asset, r.key.column)) && r.key.column !in want :: r.key.column
  }

  ghost function Differing(s: State, asset: string, want: map<string, Declared>): set<string> {
    set c | c in want && !Matches(Find(s.rows, BuilderKey(asset, c)), want[c])
  }

  ghost function AppliedRow(s: State, asset: string, codeHash: string, want: map<string, Declared>, now: int, k: Key)
    : Option<Row>
  {
    if k.asset != asset || k.source != Builder then Find(s.rows, k)
    else if k.column !in want then None
    else Some(Applied(Find(s.rows, k), k, want[k.column], codeHash, now))
  }

  /** The effect of Apply, whatever order the maps are walked in. */
  ghost predicate ApplyEffect(s: State, t: State, asset: string, codeHash: string, want: map<string, Declared>,
                              now: int) {
    && OneActive(t.rows) && Evolves(s, t)
    && (forall k :: Find(t.rows, k) == AppliedRow(s, asset, codeHash, want, now, k))
    && |t.rows| == |s.rows| + |Differing(s, asset, want)|
    && |t.audit| == |s.audit| + |Differing(s, asset, want)| + |Dropped(s, asset, want)|
  }

  /** Whatever was there before, a declared column's active row says what was declared, under the code hash and time of
      this Apply; a row that said so already keeps its first code hash and its mode, a new one inherits the first code
      hash of the row it replaces. */
  lemma DeclaredRowExactly(s: State, t: State, asset: string, codeHash: string, want: map<string, Declared>, now: int,
                           c: string)
    requires ApplyEffect(s, t, asset, codeHash, want, now) && c in want
    ensures var k := Key(asset, c, Builder); var had, has := Find(s.rows, k), Find(t.rows, k);
      && has.Some?
      && var r := has.value;
         && r.mask == want[c].mask && r.roles == want[c].roles && r.codeLatest == codeHash && r.lastSeen == now
         && r.key == k && !r.retired
         && r.codeFirst == (if had.Some? then had.value.codeFirst else codeHash)
         && r.mode == if had.Some? && had.value.mask == want[c].mask && had.value.roles == want[c].roles
                      then had.value.mode else Unknown
  {
    var k := Key(asset, c, Builder);
    assert Find(t.rows, k) == AppliedRow(s, asset, codeHash, want, now, k);
    FindExactly(s.rows, k);
  }

  /** Apply is idempotent: with the same declarations again, under any code hash, it adds no row and no audit entry. */
  lemma ApplyAgainIsQuiet(s: State, t: State, u: State, asset: string, codeHash: string, again: string,
                          want: map<string, Declared>, now: int, later: int)
    requires ApplyEffect(s, t, asset, codeHash, want, now) && ApplyEffect(t, u, asset, again, want, later)
    ensures |u.rows| == |t.rows| && u.audit == t.audit
  {
    forall c | c in want
      ensures Matches(Find(t.rows, BuilderKey(asset, c)), want[c])
    {
      assert Find(t.rows, BuilderKey(asset, c)) == AppliedRow(s, asset, codeHash, want, now, BuilderKey(asset, c));
    }
    assert Differing(t, asset, want) == {};
    forall r | r in t.rows && Hits(r, BuilderKey(asset, r.key.column))
      ensures r.key.column in want
    {
      var k := BuilderKey(asset, r.key.column);
      FindExactly(t.rows, k);
      assert Find(t.rows, k) == AppliedRow(s, asset, codeHash, want, now, k);
    }
    assert Dropped(t, asset, want) == {};
  }

  /** After retiring the builder rows of some columns. */
  ghost function WithoutColumns(s: State, asset: string, columns: set<string>, k: Key): Option<Row> {
    if k.asset == asset && k.source == Builder && k.column in columns then None else Find(s.rows, k)
  }

  /** After upserting some of the declared columns. */
  ghost function WithColumns(s: State, asset: string, codeHash: string, want: map<string, Declared>, now: int,
                             columns: set<string>, k: Key): Option<Row> {
    if k.asset == asset && k.source == Builder && k.column in want && k.column in columns
    then Some(Applied(Find(s.rows, k), k, want[k.column], codeHash, now))
    else Find(s.rows, k)
  }

  /** `now` is s after the columns in `done` were retired. */
  ghost predicate RetiredSoFar(s: State, now: State, asset: string, done: set<string>) {
    && OneActive(now.rows) && Evolves(s, now)
    && |now.rows| == |s.rows| && |now.audit| == |s.audit| + |done|
    && forall k :: Find(now.rows, k) == WithoutColumns(s, asset, done, k)
  }

  lemma RetireOneMore(s: State, t: State, asset: string, done: set<string>, c: string)
    requires RetiredSoFar(s, t, asset, done) && c !in done
    ensures RetiredSoFar(s, RemoveKey(t, BuilderKey(asset, c)), asset, done + {c})
  {
    var u := RemoveKey(t, BuilderKey(asset, c));
    RemoveKeyEffect(t, BuilderKey(asset, c));
    EvolvesOn(s, t, u);
    forall k: Key
      ensures Find(u.rows, k) == WithoutColumns(s, asset, done + {c}, k)
    {
      assert Find(t.rows, k) == WithoutColumns(s, asset, done, k);
    }
  }

  /** t is s after the declared columns in `done` were upserted. */
  ghost predicate UpsertedSoFar(s: State, t: State, asset: string, codeHash: string, want: map<string, Declared>,
                                now: int, done: set<string>) {
    var written := Differing(s, asset, want) * done;
    && OneActive(t.rows) && Evolves(s, t)
    && |t.rows| == |s.rows| + |written| && |t.audit| == |s.audit| + |written|
    && forall k :: Find(t.rows, k) == WithColumns(s, asset, codeHash, want, now, done, k)
  }

  lemma StartUpserting(s: State, asset: string, codeHash: string, want: map<string, Declared>, now: int)
    requires OneActive(s.rows)
    ensures UpsertedSoFar(s, s, asset, codeHash, want, now, {})
  {
    assert Differing(s, asset, want) * {} == {};
  }

  /** What is left and what is done of a set. */
  predicate Parts(all: set<string>, left: set<string>, done: set<string>) {
    done !! left && done + left == all
  }

  lemma NextPart(all: set<string>, left: set<string>, done: set<string>, c: string)
    requires Parts(all, left, done) && c in left
    ensures Parts(all, left - {c}, done + {c})
  {}

  lemma OneMoreWritten(d: set<string>, done: set<string>, c: string)
    requires c !in done
    ensures |d * (done + {c})| == |d * done| + if c in d then 1 else 0
  {
    assert d * (done + {c}) == d * done + if c in d then {c} else {};
  }

  lemma UpsertOneMore(s: State, t: State, asset: string, codeHash: string, want: map<string, Declared>, now: int,
                      done: set<string>, c: string)
    requires UpsertedSoFar(s, t, asset, codeHash, want, now, done) && c in want && c !in done
    ensures UpsertedSoFar(s, UpsertDeclared(t, BuilderKey(asset, c), want[c], codeHash, now), asset, codeHash, want,
                          now, done + {c})
  {
    var k := BuilderKey(asset, c);
    var u := UpsertDeclared(t, k, want[c], codeHash, now);
    UpsertDeclaredEffect(t, k, want[c], codeHash, now);
    EvolvesOn(s, t, u);
    assert Find(t.rows, k) == WithColumns(s, asset, codeHash, want, now, done, k) == Find(s.rows, k);
    OneMoreWritten(Differing(s, asset, want), done, c);
    forall j: Key
      ensures Find(u.rows, j) == WithColumns(s, asset, codeHash, want, now, done + {c}, j)
    {
      assert Find(t.rows, j) == WithColumns(s, asset, codeHash, want, now, done, j);
    }
  }

  lemma ApplyPhases(s: State, m: State, t: State, asset: string, codeHash: string, want: map<string, Declared>,
                    now: int)
    requires RetiredSoFar(s, m, asset, Dropped(s, asset, want))
    requires UpsertedSoFar(m, t, asset, codeHash, want, now, want.Keys)
    ensures ApplyEffect(s, t, asset, codeHash, want, now)
  {
    EvolvesOn(s, m, t);
    forall c | c in want
      ensures Find(m.rows, BuilderKey(asset, c)) == Find(s.rows, BuilderKey(asset, c))
    {
      assert c !in Dropped(s, asset, want);
    }
    assert Differing(m, asset, want) == Differing(s, asset, want);
    assert Differing(m, asset, want) * want.Keys == Differing(m, asset, want);
    forall k: Key
      ensures Find(t.rows, k) == AppliedRow(s, asset, codeHash, want, now, k)
    {
      assert Find(m.rows, k) == WithoutColumns(s, asset, Dropped(s, asset, want), k);
      if k.asset == asset && k.source == Builder && k.column !in want {
        FindExactly(s.rows, k);
        if Find(s.rows, k).Some? {
          assert Find(s.rows, k).value.key.column in Dropped(s, asset, want);
        }
      }
    }
  }

  // ----- Resolution -----

  /** Precedence: runtime over builder over yaml-default. */
  function Resolved(rows: seq<Row>, asset: string, column: string): Option<Row> {
    var r, b, y := Find(rows, Key(asset, column, Runtime)), Find(rows, Key(asset, column, Builder)),
      Find(rows, Key(asset, column, YamlDefault));
    if r.Some? then r else if b.Some? then b else y
  }

  // ----- The store -----

  class Store {
    var rows: seq<Row>
    var audit: seq<AuditEntry>

    constructor ()
      ensures Value() == State([], [])
    {
      rows, audit := [], [];
    }

    function Value(): State
      reads this
    {
      State(rows, audit)
    }

    /** have - want. */
    method ColumnsToDrop(asset: string, want: map<string, Declared>) returns (columns: set<string>)
      ensures columns == Dropped(Value(), asset, want)
    {
      var have := set r | r in rows && Hits(r, BuilderKey(asset, r.key.column)) :: r.key.column;
      columns := set c | c in have && c !in want;
    }

    /** Retires the builder rows of columns, in any order. */
    method RetireColumns(asset: string, columns: set<string>)
      requires OneActive(rows)
      modifies this
      ensures RetiredSoFar(old(Value()), Value(), asset, columns)
    {
      ghost var s := Value();
      ghost var done: set<string> := {};
      var left := columns;
      while left != {}
        invariant done !! left && done + left == columns
        invariant RetiredSoFar(s, Value(), asset, done)
      {
        var c :| c in left;
        RetireOneMore(s, Value(), asset, done, c);
        Remove(BuilderKey(asset, c));
        left, done := left - {c}, done + {c};
      }
      assert done == columns;
    }

    method Remove(k: Key)
      modifies this
      ensures Value() == RemoveKey(old(Value()), k)
    {
      rows := Update(rows, k, Retire);
      audit := audit + [Removed(k)];
    }

    /** Upserts every declared column, in map order. */
    method UpsertAll(asset: string, codeHash: string, want: map<string, Declared>, now: int)
      requires OneActive(rows)
      modifies this
      ensures UpsertedSoFar(old(Value()), Value(), asset, codeHash, want, now, want.Keys)
    {
      ghost var s := Value();
      var left := want.Keys;
      ghost var done: set<string> := {};
      StartUpserting(s, asset, codeHash, want, now);
      while left != {}
        invariant Parts(want.Keys, left, done)
        invariant UpsertedSoFar(s, Value(), asset, codeHash, want, now, done)
      {
        var c :| c in left;
        UpsertNext(asset, codeHash, want, now, c, s, done);
        NextPart(want.Keys, left, done, c);
        left, done := left - {c}, done + {c};
      }
    }

    method UpsertNext(asset: string, codeHash: string, want: map<string, Declared>, now: int, c: string,
                      ghost s: State, ghost done: set<string>)
      requires UpsertedSoFar(s, Value(), asset, codeHash, want, now, done) && c in want && c !in done
      modifies this
      ensures UpsertedSoFar(s, Value(), asset, codeHash, want, now, done + {c})
    {
      UpsertOneMore(s, Value(), asset, codeHash, want, now, done, c);
      Upsert(BuilderKey(asset, c), want[c], codeHash, now);
    }

    /** Touches the active row if it already says what is declared, replaces it otherwise. */
    method Upsert(k: Key, p: Declared, codeHash: string, now: int)
      modifies this
      ensures Value() == UpsertDeclared(old(Value()), k, p, codeHash, now)
    {
      var had := Find(rows, k);
      if had.Some? && had.value.mask == p.mask && had.value.roles == p.roles {
        rows := Update(rows, k, Touch(Some(codeHash), now));
        return;
      }
      if had.Some? {
        rows := Update(rows, k, Retire);
      }
      var codeFirst := if had.Some? then had.value.codeFirst else codeHash;
      rows := rows + [Row(k, p.mask, p.roles, codeFirst, codeHash, Unknown, now, false)];
      audit := audit + [Changed(k, if had.Some? then Some(had.value.mask) else None, p.mask)];
    }

    /** Apply: invalid input changes nothing; otherwise the active builder rows of the asset are exactly the declared
        policies, the active rows of everything else are untouched, and one row and one audit entry is written per
        column that differs, one more audit entry per column dropped. */
    method Apply(asset: string, codeHash: string, policies: seq<Declared>, now: int) returns (res: Result<()>)
      requires OneActive(rows)
      modifies this
      ensures res == Err(NameRequired) <==> asset == "" || codeHash == ""
      ensures res.Ok? <==> asset != "" && codeHash != "" && forall p | p in policies :: ValidMask(p.mask)
      ensures res.Err? ==> Value() == old(Value())
      ensures res.Ok? ==> ApplyEffect(old(Value()), Value(), asset, codeHash, WantOf(policies), now)
    {
      ghost var s := Value();
      if asset == "" || codeHash == "" { return Err(NameRequired); }
      for i := 0 to |policies|
        invariant forall j | 0 <= j < i :: ValidMask(policies[j].mask)
      {
        if !ValidMask(policies[i].mask) { return Err(InvalidMask); }
      }
      var want: map<string, Declared> := map[];
      for i := 0 to |policies|
        invariant want == WantOf(policies[..i])
      {
        assert policies[..i + 1][..i] == policies[..i];
        want := want[policies[i].column := policies[i]];
      }
      assert policies[..|policies|] == policies;
      var dropped := ColumnsToDrop(asset, want);
      RetireColumns(asset, dropped);
      ghost var m := Value();
      UpsertAll(asset, codeHash, want, now);
      ApplyPhases(s, m, Value(), asset, codeHash, want, now);
      res := Ok(());
    }

    /** resolveTx: the first layer with an active row. */
    method Resolve(asset: string, column: string) returns (res: Result<Row>)
      ensures res == match Resolved(rows, asset, column) case Some(r) => Ok(r) case None => Err(PolicyNotFound)
    {
      var layers := [Runtime, Builder, YamlDefault];
      for i := 0 to 3
        invariant forall j | 0 <= j < i :: Find(rows, Key(asset, column, layers[j])).None?
      {
        var found := Find(rows, Key(asset, column, layers[i]));
        assert i > 0 ==> Find(rows, Key(asset, column, layers[0])).None?;
        assert i > 1 ==> Find(rows, Key(asset, column, layers[1])).None?;
        if found.Some? {
          return Ok(found.value);
        }
      }
      assert Find(rows, Key(asset, column, layers[0])).None? && Find(rows, Key(asset, column, layers[1])).None?
        && Find(rows, Key(asset, column, layers[2])).None?;
      return Err(PolicyNotFound);
    }

    /** Patch; the returned policy is the override itself. */
    method Patch(asset: string, column: string, mask: string, roles: seq<string>, reason: string, codeAnchor: string,
                 now: int)
      returns (res: Result<Row>)
      requires OneActive(rows)
      modifies this
      ensures var r := Row(Key(asset, column, Runtime), mask, roles, codeAnchor, codeAnchor, Unknown, now, false);
        if reason == "" then res == Err(ReasonRequired) && Value() == old(Value())
        else if !ValidMask(mask) then res == Err(InvalidMask) && Value() == old(Value())
        else res == Ok(r) && Value() == ReplaceKey(old(Value()), r)
    {
      if reason == "" { return Err(ReasonRequired); }
      if !ValidMask(mask) { return Err(InvalidMask); }
      ghost var s := Value();
      var k := Key(asset, column, Runtime);
      var r := Row(k, mask, roles, codeAnchor, codeAnchor, Unknown, now, false);
      var prior := Find(rows, k);
      if prior.Some? {
        rows := Update(rows, k, Retire);
      }
      rows := rows + [r];
      audit := audit + [Changed(k, if prior.Some? then Some(prior.value.mask) else None, mask)];
      ReplaceKeyEffect(s, r);
      res := Resolve(asset, column);
    }

    method Delete(asset: string, column: string) returns (res: Result<()>)
      requires OneActive(rows)
      modifies this
      ensures var k := Key(asset, column, Runtime);
        if Find(old(rows), k).None? then res == Err(PolicyNotFound) && Value() == old(Value())
        else res == Ok(()) && Value() == RemoveKey(old(Value()), k)
    {
      var k := Key(asset, column, Runtime);
      var hit := Find(rows, k).Some?;
      ghost var s := Value();
      if !hit {
        rows := Update(rows, k, Retire);
        FindExactly(s.rows, k);
        assert rows == s.rows;
        return Err(PolicyNotFound);
      }
      Remove(k);
      return Ok(());
    }

    /** SetEnforcementMode: every active row of the column. */
    method SetEnforcementMode(asset: string, column: string, mode: Mode)
      requires OneActive(rows)
      modifies this`rows
      ensures Value() == ModeSet(old(Value()), asset, column, mode)
    {
      rows := Update(rows, Key(asset, column, Runtime), SetMode(mode));
      rows := Update(rows, Key(asset, column, Builder), SetMode(mode));
      rows := Update(rows, Key(asset, column, YamlDefault), SetMode(mode));
    }
  }

  function ModeSet(s: State, asset: string, column: string, mode: Mode): State {
    s.(rows := Update(Update(Update(s.rows, Key(asset, column, Runtime), SetMode(mode)),
                             Key(asset, column, Builder), SetMode(mode)),
                      Key(asset, column, YamlDefault), SetMode(mode)))
  }

  /** Setting the enforcement mode reaches the active rows of the column in every layer, and nothing else of them. */
  lemma ModeSetExactly(s: State, asset: string, column: string, mode: Mode, i: nat)
    requires i < |s.rows|
    ensures var t, r := ModeSet(s, asset, column, mode), s.rows[i];
      && t.audit == s.audit && |t.rows| == |s.rows|
      && t.rows[i] == if !r.retired && r.key.asset == asset && r.key.column == column then r.(mode := mode) else r
  {
    match s.rows[i].key.source
    case Runtime =>
    case Builder =>
    case YamlDefault =>
  }

  /** Deleting an override of a column that had none before restores the resolution of every column. */
  lemma DeleteUndoesPatch(s: State, r: Row, asset: string, column: string)
    requires OneActive(s.rows) && r.key.source == Runtime && !r.retired && Find(s.rows, r.key).None?
    ensures Resolved(RemoveKey(ReplaceKey(s, r), r.key).rows, asset, column) == Resolved(s.rows, asset, column)
    ensures Resolved(ReplaceKey(s, r).rows, r.key.asset, r.key.column) == Some(r)
  {
    ReplaceKeyEffect(s, r);
    RemoveKeyEffect(ReplaceKey(s, r), r.key);
  }
}
