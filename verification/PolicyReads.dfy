/** The three readers of the layered policies: the resolver and MaskRulesForAsset of internal/policy/store.go, and the
    reconciler's tickAsset of internal/policy/reconciler.go. */
module PolicyReads {
  import opened Options
  import opened Policy

  // ----- The in-pipeline ranking -----

  /** The CASE expression of the ranking query; runtime ranks first. */
  function Rank(src: Source): nat {
    match src
    case Runtime => 1
    case Builder => 2
    case YamlDefault => 3
  }

  predicate Ranks(r: Row, asset: string, column: string) {
    !r.retired && r.key.asset == asset && r.key.column == column && r.mode != WarehouseNative
  }

  /** DISTINCT ON (column_name) ... ORDER BY column_name, rank picks this row. */
  ghost predicate IsPicked(rows: seq<Row>, asset: string, column: string, r: Row) {
    && r in rows && Ranks(r, asset, column)
    && forall q | q in rows && Ranks(q, asset, column) :: Rank(r.key.source) <= Rank(q.key.source)
  }

  function InPipeline(found: Option<Row>): Option<Row> {
    if found.Some? && found.value.mode != WarehouseNative then found else None
  }

  /** The highest layer whose active row is not left to the warehouse. */
  function Picked(rows: seq<Row>, asset: string, column: string): Option<Row> {
    var r := InPipeline(Find(rows, Key(asset, column, Runtime)));
    var b := InPipeline(Find(rows, Key(asset, column, Builder)));
    if r.Some? then r else if b.Some? then b else InPipeline(Find(rows, Key(asset, column, YamlDefault)))
  }

  /** An active row is the one its key finds. */
  lemma ActiveIsFound(rows: seq<Row>, r: Row)
    requires OneActive(rows) && r in rows && !r.retired
    ensures Find(rows, r.key) == Some(r)
  {
    var i :| 0 <= i < |rows| && rows[i] == r;
    FindExactly(rows, r.key);
    assert Hits(rows[i], r.key);
    var q := Find(rows, r.key).value;
    var j :| 0 <= j < |rows| && rows[j] == q;
    assert rows[i].key == rows[j].key;
  }

  lemma FoundIsActive(rows: seq<Row>, k: Key)
    requires Find(rows, k).Some?
    ensures Find(rows, k).value in rows && Hits(Find(rows, k).value, k)
  {
    FindExactly(rows, k);
  }

  lemma RankedIsFound(rows: seq<Row>, asset: string, column: string, q: Row)
    requires OneActive(rows) && q in rows && Ranks(q, asset, column)
    ensures InPipeline(Find(rows, Key(asset, column, q.key.source))) == Some(q)
  {
    ActiveIsFound(rows, q);
    assert q.key == Key(asset, column, q.key.source);
  }

  /** The SQL ranking picks the row of the layer cascade. */
  lemma PickedExactly(rows: seq<Row>, asset: string, column: string, r: Row)
    requires OneActive(rows)
    ensures IsPicked(rows, asset, column, r) <==> Picked(rows, asset, column) == Some(r)
  {
    if IsPicked(rows, asset, column, r) {
      RankedIsFound(rows, asset, column, r);
      forall src | Rank(src) < Rank(r.key.source)
        ensures InPipeline(Find(rows, Key(asset, column, src))).None?
      {
        if InPipeline(Find(rows, Key(asset, column, src))).Some? {
          FoundIsActive(rows, Key(asset, column, src));
          assert Ranks(Find(rows, Key(asset, column, src)).value, asset, column);
        }
      }
    }
    if Picked(rows, asset, column) == Some(r) {
      PickedIsRanked(rows, asset, column);
      forall q | q in rows && Ranks(q, asset, column)
        ensures Rank(r.key.source) <= Rank(q.key.source)
      {
        RankedIsFound(rows, asset, column, q);
      }
    }
  }

  lemma PickedIsRanked(rows: seq<Row>, asset: string, column: string)
    requires Picked(rows, asset, column).Some?
    ensures var r := Picked(rows, asset, column).value;
      && r in rows && Ranks(r, asset, column)
      && (r.key.source == Runtime || InPipeline(Find(rows, Key(asset, column, Runtime))).None?)
      && (r.key.source == YamlDefault ==> InPipeline(Find(rows, Key(asset, column, Builder))).None?)
  {
    var r := Picked(rows, asset, column).value;
    if InPipeline(Find(rows, Key(asset, column, Runtime))).Some? {
      FoundIsActive(rows, Key(asset, column, Runtime));
    } else if InPipeline(Find(rows, Key(asset, column, Builder))).Some? {
      FoundIsActive(rows, Key(asset, column, Builder));
    } else {
      FoundIsActive(rows, Key(asset, column, YamlDefault));
    }
  }

  lemma SomeLayerPicked(rows: seq<Row>, asset: string, column: string, src: Source)
    requires InPipeline(Find(rows, Key(asset, column, src))).Some?
    ensures Picked(rows, asset, column).Some?
  {
    match src
    case Runtime =>
    case Builder =>
    case YamlDefault =>
  }

  // ----- The reconciler's map -----

  function Priority(src: Source): nat {
    match src
    case Runtime => 3
    case Builder => 2
    case YamlDefault => 1
  }

  /** List(asset, ""): the active rows of an asset, in some order. */
  ghost predicate IsList(rows: seq<Row>, asset: string, list: seq<Row>) {
    forall r :: r in list <==> r in rows && !r.retired && r.key.asset == asset
  }

  /** The map keeps a row of highest priority per column of the rows seen. */
  ghost predicate KeepsHighest(seen: seq<Row>, expected: map<string, Row>) {
    && (forall c | c in expected :: expected[c] in seen && expected[c].key.column == c)
    && (forall r | r in seen :: r.key.column in expected
          && Priority(r.key.source) <= Priority(expected[r.key.column].key.source))
  }

  method ExpectedByColumn(list: seq<Row>) returns (expected: map<string, Row>)
    ensures KeepsHighest(list, expected)
  {
    expected := map[];
    for i := 0 to |list|
      invariant KeepsHighest(list[..i], expected)
    {
      assert list[..i + 1] == list[..i] + [list[i]];
      var e := list[i];
      if e.key.column !in expected || Priority(e.key.source) > Priority(expected[e.key.column].key.source) {
        expected := expected[e.key.column := e];
      }
    }
    assert list[..|list|] == list;
  }

  /** The reconciler expects what the resolver resolves. */
  lemma ExpectedIsResolved(rows: seq<Row>, asset: string, list: seq<Row>, expected: map<string, Row>, column: string)
    requires OneActive(rows) && IsList(rows, asset, list) && KeepsHighest(list, expected)
    ensures Resolved(rows, asset, column) == if column in expected then Some(expected[column]) else None
  {
    if column in expected {
      var e := expected[column];
      ActiveIsFound(rows, e);
      assert e.key == Key(asset, column, e.key.source);
    }
    forall src | Find(rows, Key(asset, column, src)).Some?
      ensures column in expected && Priority(src) <= Priority(expected[column].key.source)
    {
      FoundIsActive(rows, Key(asset, column, src));
      assert Find(rows, Key(asset, column, src)).value in list;
    }
  }

  /** The SQL ranking and the resolver agree on a column exactly when the resolved row, if any, is not left to the
      warehouse. */
  lemma ReadersAgreeExactly(rows: seq<Row>, asset: string, column: string)
    ensures Picked(rows, asset, column) == Resolved(rows, asset, column)
      <==> !(Resolved(rows, asset, column).Some? && Resolved(rows, asset, column).value.mode == WarehouseNative)
  {}

  /** Without warehouse-native rows the resolver's loop, the SQL ranking and the reconciler's map pick one and the same
      row for every column. */
  lemma ThreeReadersAgree(rows: seq<Row>, asset: string, list: seq<Row>, expected: map<string, Row>, column: string,
                          r: Row)
    requires OneActive(rows) && IsList(rows, asset, list) && KeepsHighest(list, expected)
    requires forall q | q in rows && !q.retired :: q.mode != WarehouseNative
    ensures IsPicked(rows, asset, column, r) <==> Resolved(rows, asset, column) == Some(r)
    ensures IsPicked(rows, asset, column, r) <==> column in expected && expected[column] == r
  {
    PickedExactly(rows, asset, column, r);
    ExpectedIsResolved(rows, asset, list, expected, column);
    forall src | Find(rows, Key(asset, column, src)).Some?
      ensures Find(rows, Key(asset, column, src)).value.mode != WarehouseNative
    {
      FoundIsActive(rows, Key(asset, column, src));
    }
    ReadersAgreeExactly(rows, asset, column);
  }

  // ----- Mask rules -----

  const DEFAULT_MASK_FOR_PII := "redact"

  datatype MaskRule = MaskRule(column: string, mask: string)

  predicate HasActive(rows: seq<Row>, asset: string, column: string) {
    exists r | r in rows :: !r.retired && r.key.asset == asset && r.key.column == column
  }

  /** The in-pipeline rule of a column: the picked row's mask, else the pii fallback if no layer has a row at all. */
  function RuleFor(rows: seq<Row>, pii: set<string>, asset: string, column: string): Option<MaskRule> {
    var picked := Picked(rows, asset, column);
    if picked.Some? && ValidMask(picked.value.mask) then Some(MaskRule(column, picked.value.mask))
    else if column in pii && !HasActive(rows, asset, column) then Some(MaskRule(column, DEFAULT_MASK_FOR_PII))
    else None
  }

  function PickedMask(rows: seq<Row>, asset: string, column: string): Option<string> {
    var picked := Picked(rows, asset, column);
    if picked.Some? then Some(picked.value.mask) else None
  }

  /** The rows of the ranking query, in any order. */
  method PickedRules(rows: seq<Row>, asset: string) returns (out: seq<MaskRule>, covered: set<string>)
    ensures forall rule :: rule in out <==>
              rule.column in covered && PickedMask(rows, asset, rule.column) == Some(rule.mask)
    ensures forall c :: c in covered <==> Picked(rows, asset, c).Some? && ValidMask(Picked(rows, asset, c).value.mask)
    ensures forall i, j | 0 <= i < j < |out| :: out[i].column != out[j].column
  {
    var left := set r | r in rows && Ranks(r, asset, r.key.column) :: r.key.column;
    forall c | Picked(rows, asset, c).Some?
      ensures c in left
    {
      PickedIsRanked(rows, asset, c);
    }
    out, covered := [], {};
    while left != {}
      invariant left !! covered
      invariant forall c | Picked(rows, asset, c).Some? && ValidMask(Picked(rows, asset, c).value.mask) ::
        c in left || c in covered
      invariant forall c | c in covered :: Picked(rows, asset, c).Some? && ValidMask(Picked(rows, asset, c).value.mask)
      invariant forall rule | rule in out ::
        rule.column in covered && Picked(rows, asset, rule.column).value.mask == rule.mask
      invariant forall c | c in covered :: MaskRule(c, Picked(rows, asset, c).value.mask) in out
      invariant forall i, j | 0 <= i < j < |out| :: out[i].column != out[j].column
    {
      var c :| c in left;
      left := left - {c};
      var picked := Picked(rows, asset, c);
      if picked.Some? && ValidMask(picked.value.mask) {
        forall i | 0 <= i < |out|
          ensures out[i].column != c
        {
          assert out[i] in out;
        }
        out := out + [MaskRule(c, picked.value.mask)];
        covered := covered + {c};
      }
    }
  }

  /** MaskRulesForAsset over the policy table and the asset's pii columns: one rule per column that has one. */
  method MaskRulesForAsset(rows: seq<Row>, pii: set<string>, asset: string) returns (res: Result<seq<MaskRule>>)
    ensures res.Err? <==> asset == ""
    ensures res.Ok? ==> forall rule :: rule in res.value <==> RuleFor(rows, pii, asset, rule.column) == Some(rule)
    ensures res.Ok? ==> forall i, j | 0 <= i < j < |res.value| :: res.value[i].column != res.value[j].column
  {
    if asset == "" { return Err(NameRequired); }
    var out, covered := PickedRules(rows, asset);
    var left := set c | c in pii && !HasActive(rows, asset, c);
    ghost var fallback := left;
    ghost var first := out;
    forall c | c in covered
      ensures c !in fallback
    {
      PickedIsRanked(rows, asset, c);
    }
    while left != {}
      invariant left <= fallback
      invariant forall rule :: rule in out <==>
        rule in first || (rule.column in fallback - left && rule.mask == DEFAULT_MASK_FOR_PII)
      invariant forall i, j | 0 <= i < j < |out| :: out[i].column != out[j].column
    {
      var c :| c in left;
      left := left - {c};
      forall i | 0 <= i < |out|
        ensures out[i].column != c
      {
        assert out[i] in out;
      }
      if c !in covered {
        out := out + [MaskRule(c, DEFAULT_MASK_FOR_PII)];
      }
    }
    return Ok(out);
  }

  /** A column's rule carries the mask hash, redact or partial of its picked row; a pii column without an active row is
      redacted; no other column has a rule. */
  lemma RuleExactly(rows: seq<Row>, pii: set<string>, asset: string, column: string, mask: string)
    requires OneActive(rows)
    ensures RuleFor(rows, pii, asset, column) == Some(MaskRule(column, mask))
      <==> (exists r :: IsPicked(rows, asset, column, r) && r.mask == mask && mask in {"hash", "redact", "partial"})
           || (mask == "redact" && column in pii
               && forall r | r in rows :: r.retired || r.key.asset != asset || r.key.column != column)
  {
    var picked := Picked(rows, asset, column);
    forall r
      ensures IsPicked(rows, asset, column, r) <==> picked == Some(r)
    {
      PickedExactly(rows, asset, column, r);
    }
    if picked.Some? {
      PickedIsRanked(rows, asset, column);
      assert HasActive(rows, asset, column);
    }
  }

  /** A pii column goes without an in-pipeline rule exactly when it has active rows and the warehouse has all of
      them. */
  lemma PiiUnruledExactly(rows: seq<Row>, pii: set<string>, asset: string, column: string)
    requires column in pii && forall r | r in rows && !r.retired :: ValidMask(r.mask)
    requires OneActive(rows)
    ensures RuleFor(rows, pii, asset, column).None?
      <==> HasActive(rows, asset, column)
           && forall r | r in rows && !r.retired && r.key.asset == asset && r.key.column == column ::
                r.mode == WarehouseNative
  {
    if Picked(rows, asset, column).Some? {
      PickedIsRanked(rows, asset, column);
    } else {
      forall r | r in rows && !r.retired && r.key.asset == asset && r.key.column == column
        ensures r.mode == WarehouseNative
      {
        if r.mode != WarehouseNative {
          RankedIsFound(rows, asset, column, r);
          SomeLayerPicked(rows, asset, column, r.key.source);
        }
      }
    }
  }

  // ----- Drift -----

  /** Expected but not actual, or with another mask, and not changed within the grace period. */
  function Missing(expected: map<string, Row>, actual: map<string, string>, grace: int, now: int): set<string> {
    set c | c in expected && now - expected[c].lastSeen >= grace && (c !in actual || actual[c] != expected[c].mask)
  }

  function Extra(expected: map<string, Row>, actual: map<string, string>): set<string> {
    set c | c in actual && c !in expected
  }

  /** One drift recorded per column. */
  method RecordDrifts(columns: set<string>, recorded: set<string>, drifts: nat) returns (all: set<string>, count: nat)
    requires columns !! recorded && drifts == |recorded|
    ensures all == recorded + columns && count == |all|
  {
    all, count := recorded, drifts;
    var left := columns;
    while left != {}
      invariant left !! all && all + left == recorded + columns && count == |all|
    {
      var c :| c in left;
      all, count, left := all + {c}, count + 1, left - {c};
    }
  }

  /** tickAsset's comparison of the effective policies with what the warehouse reports. */
  method FindDrift(rows: seq<Row>, asset: string, list: seq<Row>, actual: map<string, string>, grace: int, now: int)
    returns (drifted: set<string>, drifts: nat)
    requires OneActive(rows) && IsList(rows, asset, list)
    ensures drifts == |drifted|
    ensures forall c :: c in drifted <==> match Resolved(rows, asset, c)
      case Some(r) => now - r.lastSeen >= grace && !(c in actual && actual[c] == r.mask)
      case None => c in actual
  {
    var expected := ExpectedByColumn(list);
    forall c
      ensures Resolved(rows, asset, c) == if c in expected then Some(expected[c]) else None
    {
      ExpectedIsResolved(rows, asset, list, expected, c);
    }
    drifted, drifts := RecordDrifts(Missing(expected, actual, grace, now), {}, 0);
    drifted, drifts := RecordDrifts(Extra(expected, actual), drifted, drifts);
  }
}
