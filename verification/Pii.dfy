/** internal/governance/pii_propagator.go and its caller in internal/lineage/capture.go:
    depth-1 union propagation of pii tags, one asset at a time, with sticky overrides. */
module Pii {
  import opened Graphs
  import opened Options
  import Dag
  import Names

  datatype Column = Column(asset: string, name: string)

  type Edges = set<(Column, Column)>

  datatype Source = FromUpstream | FromOverride | FromManual

  /** A column_pii_tags row. */
  datatype Tag = Tag(pii: bool, source: Source, run: int, reason: string, auditSeq: Option<nat>,
                     propagatedFrom: set<Column>)

  type Tags = map<Column, Tag>

  /** A ColumnTagOverride of the asset being captured. */
  datatype Override = Override(column: Column, add: string, remove: string, reason: string)

  /** A metadata.tag_overridden entry. */
  datatype AuditEntry = AuditEntry(column: Column, removed: string, added: string, reason: string, run: int)

  datatype State = State(tags: Tags, edges: Edges, audit: seq<AuditEntry>)

  /** COALESCE(t.pii, FALSE). */
  predicate PiiOf(tags: Tags, c: Column) {
    c in tags && tags[c].pii
  }

  predicate IsOverrideRow(tags: Tags, c: Column) {
    c in tags && tags[c].source == FromOverride
  }

  /** Remove clears the flag, Add sets it and wins over Remove, neither carries it forward. */
  function OverrideValue(o: Override, prior: bool): bool {
    if o.add == "pii" then true else if o.remove == "pii" then false else prior
  }

  /** The row applyOverride leaves, whose audit entry (if one is written) gets number `seq_`. */
  function OverrideRow(tags: Tags, o: Override, run: int, seq_: nat): Tag {
    var c := o.column;
    if c in tags then
      var old_ := tags[c];
      Tag(OverrideValue(o, old_.pii), FromOverride, run, o.reason,
          if old_.auditSeq.Some? then old_.auditSeq else Some(seq_), old_.propagatedFrom)
    else
      Tag(OverrideValue(o, false), FromOverride, run, o.reason, Some(seq_), {})
  }

  function AfterOverride(s: State, o: Override, run: int): State {
    var emit := !(o.column in s.tags && s.tags[o.column].auditSeq.Some?);
    s.(tags := s.tags[o.column := OverrideRow(s.tags, o, run, |s.audit| + 1)],
       audit := if emit then s.audit + [AuditEntry(o.column, o.remove, o.add, o.reason, run)] else s.audit)
  }

  /** The upstream columns of c that carry pii. */
  function Contributing(s: State, c: Column): set<Column> {
    set e | e in s.edges && e.1 == c && PiiOf(s.tags, e.0) :: e.0
  }

  function AfterUnion(s: State, c: Column, run: int): State {
    var from := Contributing(s, c);
    if from == {} || IsOverrideRow(s.tags, c) then s
    else if c in s.tags then
      s.(tags := s.tags[c := s.tags[c].(pii := true, source := FromUpstream, run := run, propagatedFrom := from)])
    else
      s.(tags := s.tags[c := Tag(true, FromUpstream, run, "", None, from)])
  }

  function AfterOverrides(s: State, overrides: seq<Override>, run: int): State
    decreases |overrides|
  {
    if |overrides| == 0 then s
    else AfterOverride(AfterOverrides(s, overrides[..|overrides| - 1], run), overrides[|overrides| - 1], run)
  }

  predicate Overridden(overrides: seq<Override>, c: Column) {
    exists o | o in overrides :: o.column == c
  }

  function AfterUnions(s: State, outputs: seq<Column>, overrides: seq<Override>, run: int): State
    decreases |outputs|
  {
    if |outputs| == 0 then s
    else
      var before := AfterUnions(s, outputs[..|outputs| - 1], overrides, run);
      var c := outputs[|outputs| - 1];
      if Overridden(overrides, c) then before else AfterUnion(before, c, run)
  }

  function AfterPropagate(s: State, outputs: seq<Column>, overrides: seq<Override>, run: int): State {
    AfterUnions(AfterOverrides(s, overrides, run), outputs, overrides, run)
  }

  // ----- The propagator -----

  /** The tables one transaction of the lineage writer touches. */
  class Store {
    var tags: Tags
    var edges: Edges
    var audit: seq<AuditEntry>

    constructor (s: State)
      ensures Value() == s
    {
      tags, edges, audit := s.tags, s.edges, s.audit;
    }

    function Value(): State
      reads this
    {
      State(tags, edges, audit)
    }

    method ApplyOverride(o: Override, run: int)
      modifies this`tags, this`audit
      ensures Value() == AfterOverride(old(Value()), o, run)
    {
      var havePrior := o.column in tags;
      var priorPii := havePrior && tags[o.column].pii;
      var priorSeq := if havePrior then tags[o.column].auditSeq else None;
      var newPii := priorPii;
      if o.remove == "pii" {
        newPii := false;
      }
      if o.add == "pii" {
        newPii := true;
      }
      if !havePrior {
        tags := tags[o.column := Tag(newPii, FromOverride, run, o.reason, priorSeq, {})];
      } else {
        var row := tags[o.column];
        tags := tags[o.column := row.(pii := newPii, source := FromOverride, run := run, reason := o.reason)];
      }
      if priorSeq.Some? {
        return;
      }
      audit := audit + [AuditEntry(o.column, o.remove, o.add, o.reason, run)];
      tags := tags[o.column := tags[o.column].(auditSeq := Some(|audit|))];
    }

    method PropagateUnion(c: Column, run: int)
      modifies this`tags
      ensures Value() == AfterUnion(old(Value()), c, run)
    {
      var rows := set e | e in edges && e.1 == c;
      var contributing: set<Column> := {};
      var anyPii := false;
      while rows != {}
        invariant rows <= set e | e in edges && e.1 == c
        invariant contributing == set e | e in edges && e.1 == c && e !in rows && PiiOf(tags, e.0) :: e.0
        invariant anyPii <==> contributing != {}
        decreases rows
      {
        var row :| row in rows;
        rows := rows - {row};
        if PiiOf(tags, row.0) {
          anyPii := true;
          contributing := contributing + {row.0};
        }
      }
      assert contributing == Contributing(Value(), c);
      if !anyPii {
        return;
      }
      if c in tags && tags[c].source == FromOverride {
        return;
      }
      if c !in tags {
        tags := tags[c := Tag(true, FromUpstream, run, "", None, contributing)];
      } else {
        tags := tags[c := tags[c].(pii := true, source := FromUpstream, run := run, propagatedFrom := contributing)];
      }
    }

    method Propagate(outputs: seq<Column>, overrides: seq<Override>, run: int)
      modifies this`tags, this`audit
      ensures Value() == AfterPropagate(old(Value()), outputs, overrides, run)
    {
      var processed: set<Column> := {};
      for i := 0 to |overrides|
        invariant Value() == AfterOverrides(old(Value()), overrides[..i], run)
        invariant processed == set j | 0 <= j < i :: overrides[j].column
      {
        processed := processed + {overrides[i].column};
        ApplyOverride(overrides[i], run);
        assert overrides[..i + 1][..i] == overrides[..i];
      }
      assert overrides[..|overrides|] == overrides;
      ghost var mid := Value();
      for i := 0 to |outputs|
        invariant Value() == AfterUnions(mid, outputs[..i], overrides, run)
      {
        assert outputs[..i + 1][..i] == outputs[..i];
        if outputs[i] !in processed {
          PropagateUnion(outputs[i], run);
        }
      }
      assert outputs[..|outputs|] == outputs;
    }

    /** outputColumnsFromLineage */
    method OutputColumnsFromLineage(step: Step) returns (out: seq<Column>)
      ensures out == OutputColumns(step)
      ensures forall c :: c in out <==> c.asset == step.asset && c.name in step.OutputNames()
      ensures forall i, j | 0 <= i < j < |out| :: out[i] != out[j] && Names.Leq(out[i].name, out[j].name)
    {
      var names := Names.SortedKeys(step.OutputNames());
      out := ColumnsOf(step.asset, names);
      forall c
        ensures c in out <==> c.asset == step.asset && c.name in step.OutputNames()
      {
        OutputColumnsExactly(step, c);
      }
    }

    /** Steps 1, 2 and 2b of CaptureRun: record the step's column edges, then propagate. */
    method CaptureColumns(step: Step, run: int)
      modifies this
      ensures Value() == AfterStep(old(Value()), step, run)
    {
      edges := edges + NewEdges(step);
      var out := OutputColumnsFromLineage(step);
      Propagate(out, step.overrides, run);
    }
  }

  // ----- One executor run -----

  type ColumnLineage = map<string, set<Column>>

  /** What one successful step hands to CaptureRun: the lineage its result reports, the builder's default one, the
      asset's declared columns and its overrides. Override columns belong to the asset: the builder fills in its own
      asset name (internal/asset/builder.go:303). */
  datatype Step = Step(asset: string, reported: Option<ColumnLineage>, default_: Option<ColumnLineage>,
                       declared: seq<string>, overrides: seq<Override>)
  {
    ghost predicate Valid() {
      forall o | o in overrides :: o.column.asset == asset
    }

    /** The reported lineage, empty or not, wins over the default. */
    function Lineage(): ColumnLineage {
      if reported.Some? then reported.value else if default_.Some? then default_.value else map[]
    }

    /** The columns the propagator visits: those with lineage, or the declared ones when none has any. */
    function OutputNames(): set<string> {
      if Lineage() == map[] then set c | c in declared else Lineage().Keys
    }
  }

  function NewEdges(step: Step): Edges {
    set n, f | n in step.Lineage() && f in step.Lineage()[n] :: (f, Column(step.asset, n))
  }

  /** The step processes the columns its result reports lineage for; if it reports none, even though it reports, the
      declared columns; without a report the builder's default lineage takes the report's place. */
  lemma OutputNamesExactly(step: Step, n: string)
    ensures forall l | step.reported == Some(l) && l != map[] :: n in step.OutputNames() <==> n in l
    ensures forall l | step.reported.None? && step.default_ == Some(l) && l != map[] ::
      n in step.OutputNames() <==> n in l
    ensures step.reported == Some(map[]) ==> (n in step.OutputNames() <==> n in step.declared)
    ensures step.reported.None? && (step.default_.None? || step.default_ == Some(map[]))
      ==> (n in step.OutputNames() <==> n in step.declared)
  {}

  /** The edges recorded are those of the reported lineage, or without a report those of the default. */
  lemma NewEdgesExactly(step: Step, e: (Column, Column))
    ensures forall l | step.reported == Some(l) || (step.reported.None? && step.default_ == Some(l)) ::
      e in NewEdges(step) <==> e.1.asset == step.asset && e.1.name in l && e.0 in l[e.1.name]
    ensures step.reported.None? && step.default_.None? ==> e !in NewEdges(step)
  {}

  function ColumnsOf(asset: string, names: seq<string>): seq<Column> {
    seq(|names|, i requires 0 <= i < |names| => Column(asset, names[i]))
  }

  ghost function OutputColumns(step: Step): seq<Column> {
    ColumnsOf(step.asset, Names.Sorted(step.OutputNames()))
  }

  lemma OutputColumnsExactly(step: Step, c: Column)
    ensures c in OutputColumns(step) <==> c.asset == step.asset && c.name in step.OutputNames()
  {
    var names := Names.Sorted(step.OutputNames());
    assert Names.Lists(names, step.OutputNames());
    if c.asset == step.asset && c.name in step.OutputNames() {
      var i :| 0 <= i < |names| && names[i] == c.name;
      assert OutputColumns(step)[i] == c;
    }
  }

  ghost function AfterStep(s: State, step: Step, run: int): State {
    AfterPropagate(s.(edges := s.edges + NewEdges(step)), OutputColumns(step), step.overrides, run)
  }

  ghost function AfterRun(s: State, steps: seq<Step>, run: int): State
    decreases |steps|
  {
    if |steps| == 0 then s else AfterStep(AfterRun(s, steps[..|steps| - 1], run), steps[|steps| - 1], run)
  }

  function FinalEdges(edges: Edges, steps: seq<Step>): Edges {
    edges + set i, n, f | 0 <= i < |steps| && n in steps[i].Lineage() && f in steps[i].Lineage()[n]
                          :: (f, Column(steps[i].asset, n))
  }

  /** The override value a column ends with, given what it carried before. */
  function Folded(overrides: seq<Override>, c: Column, prior: bool): bool
    decreases |overrides|
  {
    if |overrides| == 0 then prior
    else
      var last, before := overrides[|overrides| - 1], Folded(overrides[..|overrides| - 1], c, prior);
      if last.column == c then OverrideValue(last, before) else before
  }

  // ----- What one step does -----

  ghost predicate HasAuditNumber(s: State, c: Column) {
    c in s.tags && s.tags[c].auditSeq.Some?
  }

  /** Unions keep audit numbers and leave override rows alone. */
  lemma {:induction false} UnionsKeep(s: State, outputs: seq<Column>, overrides: seq<Override>, run: int, c: Column)
    ensures var t := AfterUnions(s, outputs, overrides, run);
            && (HasAuditNumber(s, c) ==> HasAuditNumber(t, c))
            && (IsOverrideRow(s.tags, c) ==> c in t.tags && t.tags[c] == s.tags[c])
    decreases |outputs|
  {
    if |outputs| > 0 {
      UnionsKeep(s, outputs[..|outputs| - 1], overrides, run, c);
    }
  }

  lemma {:induction false} OverridesEffect(s: State, overrides: seq<Override>, run: int, c: Column)
    ensures var t := AfterOverrides(s, overrides, run);
            && t.edges == s.edges
            && PiiOf(t.tags, c) == Folded(overrides, c, PiiOf(s.tags, c))
            && IsOverrideRow(t.tags, c) == (IsOverrideRow(s.tags, c) || Overridden(overrides, c))
            && (!Overridden(overrides, c) ==>
                  (c in t.tags <==> c in s.tags) && (c in s.tags ==> t.tags[c] == s.tags[c]))
            && (Overridden(overrides, c) ==> HasAuditNumber(t, c))
            && (HasAuditNumber(s, c) ==> HasAuditNumber(t, c))
    decreases |overrides|
  {
    if |overrides| > 0 {
      var front := overrides[..|overrides| - 1];
      OverridesEffect(s, front, run, c);
      assert overrides == front + [overrides[|overrides| - 1]];
    }
  }

  /** Unions into columns of one asset, when no edge joins two of its columns. */
  lemma {:induction false} UnionsEffect(s: State, outputs: seq<Column>, overrides: seq<Override>, run: int,
                                        asset: string, c: Column)
    requires forall o | o in outputs :: o.asset == asset
    requires forall e | e in s.edges && e.1.asset == asset :: e.0.asset != asset
    ensures var t := AfterUnions(s, outputs, overrides, run);
            && t.edges == s.edges && t.audit == s.audit
            && IsOverrideRow(t.tags, c) == IsOverrideRow(s.tags, c)
            && PiiOf(t.tags, c) == (PiiOf(s.tags, c)
                                    || (c in outputs && !Overridden(overrides, c) && !IsOverrideRow(s.tags, c)
                                        && Contributing(s, c) != {}))
            && (c.asset != asset ==> (c in t.tags <==> c in s.tags) && (c in s.tags ==> t.tags[c] == s.tags[c]))
    decreases |outputs|
  {
    if |outputs| > 0 {
      var front, last := outputs[..|outputs| - 1], outputs[|outputs| - 1];
      assert outputs == front + [last];
      UnionsEffect(s, front, overrides, run, asset, c);
      var mid := AfterUnions(s, front, overrides, run);
      forall x: Column
        ensures x.asset != asset ==> PiiOf(mid.tags, x) == PiiOf(s.tags, x)
      {
        UnionsEffect(s, front, overrides, run, asset, x);
      }
      assert Contributing(mid, last) == Contributing(s, last);
    }
  }

  /** One step as a rule: other assets keep their rows; in the step's own asset an overridden column takes the
      override's value, a processed column gains pii when an upstream has it, every other column is kept. */
  lemma StepEffect(s: State, step: Step, run: int, c: Column)
    requires step.Valid()
    requires forall e | e in s.edges + NewEdges(step) && e.1.asset == step.asset :: e.0.asset != step.asset
    ensures var t := AfterStep(s, step, run);
            && t.edges == s.edges + NewEdges(step)
            && (c.asset != step.asset ==> (c in t.tags <==> c in s.tags) && (c in s.tags ==> t.tags[c] == s.tags[c]))
            && (c.asset == step.asset ==>
                  PiiOf(t.tags, c) ==
                  (if Overridden(step.overrides, c) then Folded(step.overrides, c, PiiOf(s.tags, c))
                   else PiiOf(s.tags, c) || (c.name in step.OutputNames() && !IsOverrideRow(s.tags, c)
                                             && exists f :: (f, c) in t.edges && PiiOf(s.tags, f))))
  {
    var linked := s.(edges := s.edges + NewEdges(step));
    var mid := AfterOverrides(linked, step.overrides, run);
    var outputs := OutputColumns(step);
    OverridesEffect(linked, step.overrides, run, c);
    UnionsEffect(mid, outputs, step.overrides, run, step.asset, c);
    OutputColumnsExactly(step, c);
    if c.asset == step.asset && !Overridden(step.overrides, c) {
      FoldedElsewhere(step.overrides, c, PiiOf(s.tags, c));
      forall f | (f, c) in mid.edges
        ensures PiiOf(mid.tags, f) == PiiOf(s.tags, f)
      {
        OverridesEffect(linked, step.overrides, run, f);
      }
      assert (exists f :: (f, c) in mid.edges && PiiOf(s.tags, f)) <==> Contributing(mid, c) != {} by {
        if f :| (f, c) in mid.edges && PiiOf(s.tags, f) {
          assert f in Contributing(mid, c);
        }
        if f :| f in Contributing(mid, c) {
          assert (f, c) in mid.edges;
        }
      }
    }
  }

  lemma {:induction false} FoldedElsewhere(overrides: seq<Override>, c: Column, prior: bool)
    requires !Overridden(overrides, c)
    ensures Folded(overrides, c, prior) == prior
    decreases |overrides|
  {
    if |overrides| > 0 {
      FoldedElsewhere(overrides[..|overrides| - 1], c, prior);
      assert overrides[|overrides| - 1] in overrides;
    }
  }

  // ----- The closure theorem -----

  /** One step per asset, and no column edge inside one. */
  ghost predicate Apart(edges: Edges, steps: seq<Step>) {
    && (forall i, j | 0 <= i < j < |steps| :: steps[i].asset != steps[j].asset)
    && (forall e, i | e in FinalEdges(edges, steps) && 0 <= i < |steps| && e.1.asset == steps[i].asset ::
          e.0.asset != steps[i].asset)
  }

  /** No column edge leads from the asset of a step to a column an earlier step puts out. */
  ghost predicate Forward(edges: Edges, steps: seq<Step>) {
    forall e, i, j | e in FinalEdges(edges, steps) && 0 <= i < |steps| && 0 <= j < |steps|
                     && e.0.asset == steps[i].asset && e.1.asset == steps[j].asset
                     && e.1.name in steps[j].OutputNames() :: i <= j
  }

  ghost predicate Ordered(edges: Edges, steps: seq<Step>) {
    (forall i | 0 <= i < |steps| :: steps[i].Valid()) && Apart(edges, steps) && Forward(edges, steps)
  }

  /** c is an output of some step and nothing overrides it, now or from an earlier run. */
  ghost predicate Processed(s: State, steps: seq<Step>, c: Column) {
    && !IsOverrideRow(s.tags, c)
    && exists i :: 0 <= i < |steps| && steps[i].asset == c.asset && c.name in steps[i].OutputNames()
                   && !Overridden(steps[i].overrides, c)
  }

  /** What c carries without propagation: its override's value, or what it carried before the run. */
  ghost predicate Seed(s: State, steps: seq<Step>, c: Column) {
    if i :| 0 <= i < |steps| && steps[i].asset == c.asset then Folded(steps[i].overrides, c, PiiOf(s.tags, c))
    else PiiOf(s.tags, c)
  }

  /** c is reached from a seed through processed columns only. */
  ghost predicate Derived(s: State, steps: seq<Step>, c: Column) {
    exists p :: DerivedBy(s, steps, c, p)
  }

  ghost predicate DerivedBy(s: State, steps: seq<Step>, c: Column, p: seq<Column>) {
    && IsWalk(FinalEdges(s.edges, steps), p) && p[|p| - 1] == c
    && Seed(s, steps, p[0])
    && forall i | 1 <= i < |p| :: Processed(s, steps, p[i])
  }

  lemma DerivedUnfolds(s: State, steps: seq<Step>, c: Column)
    ensures Derived(s, steps, c)
            <==> Seed(s, steps, c)
                 || (Processed(s, steps, c) && exists f :: (f, c) in FinalEdges(s.edges, steps) && Derived(s, steps, f))
  {
    var edges := FinalEdges(s.edges, steps);
    if Seed(s, steps, c) {
      assert DerivedBy(s, steps, c, [c]);
    }
    if p :| DerivedBy(s, steps, c, p) && |p| > 1 {
      DerivedShrinks(s, steps, c, p);
    }
    if f :| Processed(s, steps, c) && (f, c) in edges && Derived(s, steps, f) {
      DerivedGrows(s, steps, f, c);
    }
  }

  lemma DerivedShrinks(s: State, steps: seq<Step>, c: Column, p: seq<Column>)
    requires DerivedBy(s, steps, c, p) && |p| > 1
    ensures (p[|p| - 2], c) in FinalEdges(s.edges, steps) && Derived(s, steps, p[|p| - 2])
  {
    var k := |p| - 2;
    assert (p[k], p[k + 1]) in FinalEdges(s.edges, steps);
    assert DerivedBy(s, steps, p[k], p[..k + 1]);
  }

  lemma DerivedGrows(s: State, steps: seq<Step>, f: Column, c: Column)
    requires Processed(s, steps, c) && (f, c) in FinalEdges(s.edges, steps) && Derived(s, steps, f)
    ensures Derived(s, steps, c)
  {
    var p :| DerivedBy(s, steps, f, p);
    StepWalk(FinalEdges(s.edges, steps), p[0], f, c, p);
    assert DerivedBy(s, steps, c, p + [c]);
  }

  /** Nothing in the run writes a column of an asset that has no step. */
  lemma DerivedElsewhere(s: State, steps: seq<Step>, c: Column)
    requires forall i | 0 <= i < |steps| :: steps[i].asset != c.asset
    ensures Derived(s, steps, c) <==> PiiOf(s.tags, c)
  {
    DerivedUnfolds(s, steps, c);
  }

  /** With one step per asset, Derived at a column of step k in terms of that step alone. */
  lemma DerivedAtStep(s: State, steps: seq<Step>, k: nat, c: Column)
    requires k < |steps| && steps[k].asset == c.asset
    requires forall i, j | 0 <= i < j < |steps| :: steps[i].asset != steps[j].asset
    ensures Derived(s, steps, c)
            <==> if Overridden(steps[k].overrides, c) then Folded(steps[k].overrides, c, PiiOf(s.tags, c))
                 else PiiOf(s.tags, c)
                      || (c.name in steps[k].OutputNames() && !IsOverrideRow(s.tags, c)
                          && exists f :: (f, c) in FinalEdges(s.edges, steps) && Derived(s, steps, f))
  {
    DerivedUnfolds(s, steps, c);
    assert forall i | 0 <= i < |steps| && steps[i].asset == c.asset :: i == k;
    assert Seed(s, steps, c) == Folded(steps[k].overrides, c, PiiOf(s.tags, c));
    if !Overridden(steps[k].overrides, c) {
      FoldedElsewhere(steps[k].overrides, c, PiiOf(s.tags, c));
    }
  }

  lemma EdgesAfter(s: State, steps: seq<Step>, k: nat)
    requires k < |steps|
    ensures FinalEdges(s.edges, steps[..k]) + NewEdges(steps[k]) == FinalEdges(s.edges, steps[..k + 1])
    ensures FinalEdges(s.edges, steps[..k + 1]) <= FinalEdges(s.edges, steps)
  {
    var before, after := steps[..k], steps[..k + 1];
    forall e | e in FinalEdges(s.edges, after)
      ensures e in FinalEdges(s.edges, before) + NewEdges(steps[k])
    {
      if e !in s.edges {
        var i, n, f :| 0 <= i < |after| && n in after[i].Lineage() && f in after[i].Lineage()[n]
                       && e == (f, Column(after[i].asset, n));
        assert i < k ==> after[i] == before[i];
      }
    }
    forall e | e in FinalEdges(s.edges, before) + NewEdges(steps[k])
      ensures e in FinalEdges(s.edges, after)
    {
      if e !in s.edges {
        if e in NewEdges(steps[k]) {
          var n, f :| n in steps[k].Lineage() && f in steps[k].Lineage()[n] && e == (f, Column(steps[k].asset, n));
          assert after[k] == steps[k];
        } else {
          var i, n, f :| 0 <= i < |before| && n in before[i].Lineage() && f in before[i].Lineage()[n]
                         && e == (f, Column(before[i].asset, n));
          assert after[i] == before[i];
        }
      }
    }
    forall e | e in FinalEdges(s.edges, after)
      ensures e in FinalEdges(s.edges, steps)
    {
      if e !in s.edges {
        var i, n, f :| 0 <= i < |after| && n in after[i].Lineage() && f in after[i].Lineage()[n]
                       && e == (f, Column(after[i].asset, n));
        assert after[i] == steps[i];
      }
    }
  }

  ghost predicate RanBefore(steps: seq<Step>, k: nat, asset: string)
    requires k <= |steps|
  {
    exists i :: 0 <= i < k && steps[i].asset == asset
  }

  /** After k steps, the columns of the assets that ran are pii exactly when Derived; all others are as before. */
  ghost predicate Settled(s: State, steps: seq<Step>, t: State, k: nat, c: Column)
    requires k <= |steps|
  {
    if RanBefore(steps, k, c.asset) then PiiOf(t.tags, c) <==> Derived(s, steps, c)
    else (c in t.tags <==> c in s.tags) && (c in s.tags ==> t.tags[c] == s.tags[c])
  }

  /** When step m runs, its columns' upstreams already carry their final flag. */
  lemma UpstreamSettled(s: State, steps: seq<Step>, t: State, m: nat, c: Column, f: Column)
    requires m < |steps| && Ordered(s.edges, steps) && c.asset == steps[m].asset
    requires (f, c) in FinalEdges(s.edges, steps) && c.name in steps[m].OutputNames() && Settled(s, steps, t, m, f)
    ensures PiiOf(t.tags, f) <==> Derived(s, steps, f)
  {
    if !RanBefore(steps, m, f.asset) {
      assert (f, c) in FinalEdges(s.edges, steps);
      assert forall i | 0 <= i < |steps| && steps[i].asset == f.asset :: i < m;
      DerivedElsewhere(s, steps, f);
    }
  }

  lemma StepSettles(s: State, steps: seq<Step>, run: int, t: State, m: nat, c: Column)
    requires m < |steps| && Ordered(s.edges, steps)
    requires t.edges == FinalEdges(s.edges, steps[..m]) && forall x :: Settled(s, steps, t, m, x)
    ensures AfterStep(t, steps[m], run).edges == FinalEdges(s.edges, steps[..m + 1])
    ensures Settled(s, steps, AfterStep(t, steps[m], run), m + 1, c)
  {
    var step := steps[m];
    EdgesAfter(s, steps, m);
    forall e | e in t.edges + NewEdges(step) && e.1.asset == step.asset
      ensures e.0.asset != step.asset
    {
      assert e in FinalEdges(s.edges, steps);
    }
    StepEffect(t, step, run, c);
    assert RanBefore(steps, m + 1, c.asset) <==> RanBefore(steps, m, c.asset) || c.asset == step.asset;
    assert Settled(s, steps, t, m, c);
    if c.asset == step.asset {
      DerivedAtStep(s, steps, m, c);
      forall f
        ensures (f, c) in FinalEdges(s.edges, steps) <==> (f, c) in FinalEdges(s.edges, steps[..m + 1])
        ensures (f, c) in FinalEdges(s.edges, steps) && c.name in step.OutputNames()
                ==> (PiiOf(t.tags, f) <==> Derived(s, steps, f))
      {
        assert Settled(s, steps, t, m, f);
        if (f, c) in FinalEdges(s.edges, steps) && c.name in step.OutputNames() {
          UpstreamSettled(s, steps, t, m, c, f);
        }
      }
    }
  }

  lemma {:induction false} RunPrefix(s: State, steps: seq<Step>, run: int, k: nat)
    requires k <= |steps| && Ordered(s.edges, steps)
    ensures var t := AfterRun(s, steps[..k], run);
            t.edges == FinalEdges(s.edges, steps[..k]) && forall c :: Settled(s, steps, t, k, c)
    decreases k
  {
    if k > 0 {
      assert steps[..k][..k - 1] == steps[..k - 1];
      RunPrefix(s, steps, run, k - 1);
      forall c
        ensures Settled(s, steps, AfterRun(s, steps[..k], run), k, c)
      {
        StepSettles(s, steps, run, AfterRun(s, steps[..k - 1], run), k - 1, c);
      }
      StepSettles(s, steps, run, AfterRun(s, steps[..k - 1], run), k - 1, Column("", ""));
    } else {
      assert steps[..0] == [];
      assert FinalEdges(s.edges, []) == s.edges;
    }
  }

  /** Depth-1 unions in topological order compute the transitive closure: after the last commit every column,
      processed or not, is pii exactly when it is derived. */
  lemma RunComputesClosure(s: State, steps: seq<Step>, run: int, c: Column)
    requires Ordered(s.edges, steps)
    ensures PiiOf(AfterRun(s, steps, run).tags, c) <==> Derived(s, steps, c)
  {
    assert steps[..|steps|] == steps;
    RunPrefix(s, steps, run, |steps|);
    assert Settled(s, steps, AfterRun(s, steps, run), |steps|, c);
    if forall i | 0 <= i < |steps| :: steps[i].asset != c.asset {
      DerivedElsewhere(s, steps, c);
    }
  }

  /** For a processed column: pii before, or reachable from a seed through processed columns. */
  lemma ProcessedColumnPii(s: State, steps: seq<Step>, run: int, c: Column)
    requires Ordered(s.edges, steps) && Processed(s, steps, c)
    ensures PiiOf(AfterRun(s, steps, run).tags, c)
            <==> PiiOf(s.tags, c)
                 || exists p :: |p| >= 2 && DerivedBy(s, steps, c, p)
  {
    RunComputesClosure(s, steps, run, c);
    ProcessedSeed(s, steps, run, c);
    DerivedSplits(s, steps, c);
  }

  lemma ProcessedSeed(s: State, steps: seq<Step>, run: int, c: Column)
    requires Ordered(s.edges, steps) && Processed(s, steps, c)
    ensures Seed(s, steps, c) == PiiOf(s.tags, c)
  {
    var k :| 0 <= k < |steps| && steps[k].asset == c.asset && !Overridden(steps[k].overrides, c);
    FoldedElsewhere(steps[k].overrides, c, PiiOf(s.tags, c));
    assert forall i | 0 <= i < |steps| && steps[i].asset == c.asset :: i == k;
  }

  lemma DerivedSplits(s: State, steps: seq<Step>, c: Column)
    ensures Derived(s, steps, c) <==> Seed(s, steps, c) || exists p :: |p| >= 2 && DerivedBy(s, steps, c, p)
  {
    if Seed(s, steps, c) {
      assert DerivedBy(s, steps, c, [c]);
    }
    if p :| DerivedBy(s, steps, c, p) && |p| == 1 {
      assert p[0] == c;
    }
  }

  // ----- The executor's run -----

  /** The steps of the assets that ran, in the order they ran. */
  ghost function StepsOf(capture: map<string, Step>, ran: seq<string>): seq<Step>
    requires forall v | v in ran :: v in capture
  {
    seq(|ran|, i requires 0 <= i < |ran| => capture[ran[i]])
  }

  /** Every column edge into a registered asset comes from an upstream it declares. */
  ghost predicate FromDeclared(reg: Dag.Registry, edges: Edges) {
    forall e | e in edges && e.1.asset in reg :: e.0.asset in reg[e.1.asset]
  }

  ghost predicate Captures(reg: Dag.Registry, capture: map<string, Step>) {
    forall a | a in reg :: a in capture && capture[a].asset == a && capture[a].Valid()
  }

  /** Registered assets, each once, none before an upstream of its own. */
  ghost predicate InOrder(reg: Dag.Registry, ran: seq<string>) {
    && Distinct(ran) && (forall v | v in ran :: v in reg)
    && (forall i, j | 0 <= i < |ran| && 0 <= j < |ran| && ran[i] in reg[ran[j]] :: i < j)
  }

  lemma RanIsOrdered(reg: Dag.Registry, edges: Edges, capture: map<string, Step>, ran: seq<string>)
    requires Captures(reg, capture) && InOrder(reg, ran) && FromDeclared(reg, FinalEdges(edges, StepsOf(capture, ran)))
    ensures Ordered(edges, StepsOf(capture, ran))
  {
    var steps := StepsOf(capture, ran);
    forall i | 0 <= i < |steps|
      ensures steps[i].asset == ran[i] && ran[i] in reg && steps[i].Valid()
    {
      assert ran[i] in ran;
    }
  }

  lemma NextStep(s: State, steps: seq<Step>, step: Step, run: int)
    ensures AfterRun(s, steps + [step], run) == AfterStep(AfterRun(s, steps, run), step, run)
  {
    assert (steps + [step])[..|steps|] == steps;
  }

  lemma UpstreamNeeded(reg: Dag.Registry, v: string, u: string, target: string)
    requires v in reg && u in reg[v] && Dag.Needs(reg, v, target)
    ensures Dag.Needs(reg, u, target)
  {
    assert WalkFromTo(Dag.RegistryEdges(reg), u, v, [u, v]);
    Dag.NeedsThrough(reg, u, v, target);
  }

  /** order is what planning a run of the target yields. */
  ghost predicate PlannedOrder(reg: Dag.Registry, target: string, order: seq<string>) {
    && (forall v :: v in order <==> Dag.Needs(reg, v, target))
    && InOrder(reg, order)
  }

  /** A started order of the target's closure has each upstream of what has run among what has run. */
  lemma RanIsClosed(reg: Dag.Registry, target: string, order: seq<string>, n: nat, v: string, u: string)
    requires n <= |order| && PlannedOrder(reg, target, order)
    requires v in order[..n] && v in reg && u in reg[v]
    ensures u in order[..n]
  {
    var j :| 0 <= j < n && order[j] == v;
    UpstreamNeeded(reg, v, u, target);
    var i :| 0 <= i < |order| && order[i] == u;
  }

  /** The first n assets of the order ran and the next one, if any, failed. */
  ghost predicate StopsAt(order: seq<string>, failing: set<string>, n: nat) {
    && n <= |order| && (forall k | 0 <= k < n :: order[k] !in failing)
    && (n < |order| ==> order[n] in failing)
  }

  /** What ran is closed under upstreams, and it is everything the target needs exactly when nothing fails. */
  ghost predicate RanUntilFailure(reg: Dag.Registry, target: string, failing: set<string>, ok: bool, ran: seq<string>) {
    && Distinct(ran) && (forall v | v in ran :: Dag.Needs(reg, v, target) && v in reg && v !in failing)
    && (forall v, u | v in ran && u in reg[v] :: u in ran)
    && (ok <==> forall v | Dag.Needs(reg, v, target) :: v !in failing)
    && (ok <==> forall v | Dag.Needs(reg, v, target) :: v in ran)
  }

  lemma StoppedRun(reg: Dag.Registry, target: string, order: seq<string>, failing: set<string>, n: nat)
    requires PlannedOrder(reg, target, order) && StopsAt(order, failing, n)
    ensures RanUntilFailure(reg, target, failing, n == |order|, order[..n])
  {
    forall v, u | v in order[..n] && v in reg && u in reg[v]
      ensures u in order[..n]
    {
      RanIsClosed(reg, target, order, n, v, u);
    }
    if n < |order| {
      assert order[n] in order && order[n] !in order[..n];
    } else {
      assert order[..n] == order;
    }
  }

  lemma RunSettles(s: State, reg: Dag.Registry, capture: map<string, Step>, ran: seq<string>, run: int)
    requires Captures(reg, capture) && InOrder(reg, ran)
             && FromDeclared(reg, FinalEdges(s.edges, StepsOf(capture, ran)))
    ensures forall c :: PiiOf(AfterRun(s, StepsOf(capture, ran), run).tags, c) <==> Derived(s, StepsOf(capture, ran), c)
  {
    RanIsOrdered(reg, s.edges, capture, ran);
    forall c
      ensures PiiOf(AfterRun(s, StepsOf(capture, ran), run).tags, c) <==> Derived(s, StepsOf(capture, ran), c)
    {
      RunComputesClosure(s, StepsOf(capture, ran), run, c);
    }
  }

  method CaptureNext(store: Store, step: Step, run: int, ghost before: State, ghost steps: seq<Step>)
    returns (ghost more: seq<Step>)
    requires store.Value() == AfterRun(before, steps, run)
    modifies store
    ensures more == steps + [step] && store.Value() == AfterRun(before, more, run)
  {
    more := steps + [step];
    store.CaptureColumns(step, run);
    NextStep(before, steps, step, run);
  }

  /** The first n assets of the order did not fail, and these are their steps. */
  ghost predicate RanSoFar(capture: map<string, Step>, order: seq<string>, failing: set<string>, n: nat,
                           steps: seq<Step>)
    requires forall v | v in order :: v in capture
  {
    n == |steps| <= |order| && forall k | 0 <= k < n :: order[k] !in failing && steps[k] == capture[order[k]]
  }

  lemma OneMoreRan(capture: map<string, Step>, order: seq<string>, failing: set<string>, n: nat, steps: seq<Step>)
    requires (forall v | v in order :: v in capture) && RanSoFar(capture, order, failing, n, steps)
    requires n < |order| && order[n] !in failing
    ensures RanSoFar(capture, order, failing, n + 1, steps + [capture[order[n]]])
  {}

  lemma RanAsPlanned(reg: Dag.Registry, target: string, capture: map<string, Step>, order: seq<string>,
                     failing: set<string>, n: nat, steps: seq<Step>)
    requires Captures(reg, capture) && PlannedOrder(reg, target, order)
    requires RanSoFar(capture, order, failing, n, steps) && (n < |order| ==> order[n] in failing)
    ensures InOrder(reg, order[..n]) && steps == StepsOf(capture, order[..n])
    ensures RanUntilFailure(reg, target, failing, n == |order|, order[..n])
  {
    StoppedRun(reg, target, order, failing, n);
  }

  /** Executor.Run's loop over the order, as far as the lineage tables go: each step that succeeds captures its columns,
      the first one that fails ends it. */
  method CaptureSteps(store: Store, capture: map<string, Step>, order: seq<string>, failing: set<string>, run: int)
    returns (n: nat, ghost steps: seq<Step>)
    requires forall v | v in order :: v in capture
    modifies store
    ensures RanSoFar(capture, order, failing, n, steps) && (n < |order| ==> order[n] in failing)
    ensures store.Value() == AfterRun(old(store.Value()), steps, run)
  {
    n, steps := 0, [];
    ghost var before := store.Value();
    while n < |order|
      invariant RanSoFar(capture, order, failing, n, steps)
      invariant store.Value() == AfterRun(before, steps, run)
    {
      var name := order[n];
      if name in failing { return; }
      OneMoreRan(capture, order, failing, n, steps);
      steps := CaptureNext(store, capture[name], run, before, steps);
      n := n + 1;
    }
  }

  /** Executor.Run on the lineage tables: plan, then capture step by step. Whether or not the run completes, if every
      column edge comes from a declared upstream, a column is pii afterwards exactly when it is derived through the
      steps that ran. */
  method RunTarget(store: Store, reg: Dag.Registry, target: string, capture: map<string, Step>, failing: set<string>,
                   run: int)
    returns (planned: bool, ok: bool, ran: seq<string>)
    requires target in reg && Captures(reg, capture)
    modifies store
    ensures planned <==> Dag.Plannable(reg, target)
    ensures !planned ==> store.Value() == old(store.Value())
    ensures if planned then RanUntilFailure(reg, target, failing, ok, ran) else !ok && ran == []
    ensures FromDeclared(reg, FinalEdges(old(store.edges), StepsOf(capture, ran))) ==>
              forall c :: PiiOf(store.tags, c) <==> Derived(old(store.Value()), StepsOf(capture, ran), c)
  {
    ghost var before := store.Value();
    var plan := Dag.PlanRun(reg, target);
    if plan.Err? {
      NothingRan(before, reg, capture, run);
      return false, false, [];
    }
    var n, steps := CaptureSteps(store, capture, plan.value, failing, run);
    RanAsPlanned(reg, target, capture, plan.value, failing, n, steps);
    planned, ok, ran := true, n == |plan.value|, plan.value[..n];
    if FromDeclared(reg, FinalEdges(before.edges, steps)) {
      RunSettles(before, reg, capture, ran, run);
    }
  }

  lemma NothingRan(s: State, reg: Dag.Registry, capture: map<string, Step>, run: int)
    requires Captures(reg, capture)
    ensures forall c :: PiiOf(s.tags, c) <==> Derived(s, StepsOf(capture, []), c)
  {
    forall c
      ensures PiiOf(s.tags, c) <==> Derived(s, StepsOf(capture, []), c)
    {
      RunComputesClosure(s, StepsOf(capture, []), run, c);
    }
  }

  // ----- When the union rule computes the closure -----

  ghost predicate Closes(s: State, steps: seq<Step>, run: int) {
    forall c :: PiiOf(AfterRun(s, steps, run).tags, c) <==> Derived(s, steps, c)
  }

  ghost predicate SameButOverrides(a: Step, b: Step) {
    b == a.(overrides := b.overrides) && b.Valid()
  }

  /** The same steps with other overrides. */
  ghost predicate SameShape(steps: seq<Step>, others: seq<Step>) {
    |others| == |steps| && forall i | 0 <= i < |steps| :: SameButOverrides(steps[i], others[i])
  }

  /** With these column edges the steps compute the closure whatever the tags and overrides. */
  ghost predicate AlwaysCloses(edges: Edges, steps: seq<Step>, run: int) {
    forall s: State, others: seq<Step> | s.edges == edges && SameShape(steps, others) :: Closes(s, others, run)
  }

  lemma SameShapeSameEdges(edges: Edges, steps: seq<Step>, others: seq<Step>)
    requires SameShape(steps, others)
    ensures FinalEdges(edges, others) == FinalEdges(edges, steps)
  {
    forall i | 0 <= i < |steps|
      ensures others[i].asset == steps[i].asset && others[i].Lineage() == steps[i].Lineage()
    {
      assert SameButOverrides(steps[i], others[i]);
    }
  }

  lemma ForwardCloses(edges: Edges, steps: seq<Step>, run: int, s: State, others: seq<Step>)
    requires Apart(edges, steps) && Forward(edges, steps) && s.edges == edges && SameShape(steps, others)
    ensures Closes(s, others, run)
  {
    SameShapeSameEdges(edges, steps, others);
    forall i | 0 <= i < |steps|
      ensures others[i].asset == steps[i].asset && others[i].OutputNames() == steps[i].OutputNames()
              && others[i].Valid()
    {
      assert SameButOverrides(steps[i], others[i]);
    }
    forall c
      ensures PiiOf(AfterRun(s, others, run).tags, c) <==> Derived(s, others, c)
    {
      RunComputesClosure(s, others, run, c);
    }
  }

  /** Without tags and overrides there is nothing to propagate. */
  lemma {:induction false} NothingToUnion(s: State, outputs: seq<Column>, run: int)
    requires s.tags == map[]
    ensures AfterUnions(s, outputs, [], run) == s
    decreases |outputs|
  {
    if |outputs| > 0 {
      NothingToUnion(s, outputs[..|outputs| - 1], run);
      assert Contributing(s, outputs[|outputs| - 1]) == {};
    }
  }

  lemma {:induction false} NothingYet(s: State, steps: seq<Step>, run: int, n: nat)
    requires s.tags == map[] && n <= |steps| && forall k | 0 <= k < n :: steps[k].overrides == []
    ensures AfterRun(s, steps[..n], run).tags == map[]
  {
    if n > 0 {
      NothingYet(s, steps, run, n - 1);
      var before := AfterRun(s, steps[..n - 1], run);
      assert steps[..n] == steps[..n - 1] + [steps[n - 1]];
      NextStep(s, steps[..n - 1], steps[n - 1], run);
      NothingToUnion(before.(edges := before.edges + NewEdges(steps[n - 1])), OutputColumns(steps[n - 1]), run);
    }
  }

  lemma {:induction false} UnionsElsewhere(s: State, outputs: seq<Column>, overrides: seq<Override>, run: int,
                                           c: Column)
    requires c !in outputs
    ensures PiiOf(AfterUnions(s, outputs, overrides, run).tags, c) == PiiOf(s.tags, c)
    decreases |outputs|
  {
    if |outputs| > 0 {
      UnionsElsewhere(s, outputs[..|outputs| - 1], overrides, run, c);
    }
  }

  lemma StepElsewhere(s: State, step: Step, run: int, c: Column)
    requires step.Valid() && c.asset != step.asset
    ensures PiiOf(AfterStep(s, step, run).tags, c) == PiiOf(s.tags, c)
  {
    var linked := s.(edges := s.edges + NewEdges(step));
    OverridesEffect(linked, step.overrides, run, c);
    OutputColumnsExactly(step, c);
    UnionsElsewhere(AfterOverrides(linked, step.overrides, run), OutputColumns(step), step.overrides, run, c);
  }

  lemma {:induction false} RestElsewhere(s: State, steps: seq<Step>, run: int, n: nat, m: nat, c: Column)
    requires n <= m <= |steps| && forall k | n <= k < m :: steps[k].Valid() && steps[k].asset != c.asset
    ensures PiiOf(AfterRun(s, steps[..m], run).tags, c) == PiiOf(AfterRun(s, steps[..n], run).tags, c)
    decreases m
  {
    if n < m {
      RestElsewhere(s, steps, run, n, m - 1, c);
      assert steps[..m] == steps[..m - 1] + [steps[m - 1]];
      NextStep(s, steps[..m - 1], steps[m - 1], run);
      StepElsewhere(AfterRun(s, steps[..m - 1], run), steps[m - 1], run, c);
    }
  }

  /** A column fed by an asset that runs later misses the flag that asset gains by an override in the run. */
  lemma LaterSourceIsMissed(s: State, steps: seq<Step>, run: int, i: nat, j: nat, source: Column, fed: Column)
    requires s.tags == map[] && i < j < |steps| && Apart(s.edges, steps)
    requires (source, fed) in FinalEdges(s.edges, steps) && source.asset == steps[j].asset
             && fed.asset == steps[i].asset
    requires fed.name in steps[i].OutputNames()
    requires forall k | 0 <= k < |steps| ::
               steps[k].overrides == if k == j then [Override(source, "pii", "", "")] else []
    ensures Derived(s, steps, fed) && !PiiOf(AfterRun(s, steps, run).tags, fed)
  {
    LaterSourceDerives(s, steps, i, j, source, fed);
    assert forall k | 0 <= k < i + 1 :: steps[k].overrides == [];
    assert forall k | i + 1 <= k < |steps| :: steps[k].Valid() && steps[k].asset != fed.asset;
    StaysUntagged(s, steps, run, i + 1, fed);
  }

  lemma StaysUntagged(s: State, steps: seq<Step>, run: int, n: nat, c: Column)
    requires s.tags == map[] && n <= |steps| && forall k | 0 <= k < n :: steps[k].overrides == []
    requires forall k | n <= k < |steps| :: steps[k].Valid() && steps[k].asset != c.asset
    ensures !PiiOf(AfterRun(s, steps, run).tags, c)
  {
    NothingYet(s, steps, run, n);
    RestElsewhere(s, steps, run, n, |steps|, c);
    assert steps[..|steps|] == steps;
  }

  lemma LaterSourceDerives(s: State, steps: seq<Step>, i: nat, j: nat, source: Column, fed: Column)
    requires s.tags == map[] && i < j < |steps| && Apart(s.edges, steps)
    requires (source, fed) in FinalEdges(s.edges, steps) && source.asset == steps[j].asset
             && fed.asset == steps[i].asset
    requires fed.name in steps[i].OutputNames() && steps[i].overrides == []
    requires steps[j].overrides == [Override(source, "pii", "", "")]
    ensures Derived(s, steps, fed)
  {
    assert steps[j].overrides[..0] == [];
    assert Folded(steps[j].overrides, source, false);
    assert Seed(s, steps, source);
    assert Processed(s, steps, fed);
    assert DerivedBy(s, steps, fed, [source, fed]);
  }

  ghost function WithOneOverride(steps: seq<Step>, j: nat, source: Column): (others: seq<Step>)
    requires j < |steps| && source.asset == steps[j].asset
    ensures SameShape(steps, others)
  {
    seq(|steps|, k requires 0 <= k < |steps| =>
          steps[k].(overrides := if k == j then [Override(source, "pii", "", "")] else []))
  }

  lemma BackwardEdgeBreaks(edges: Edges, steps: seq<Step>, run: int, i: nat, j: nat, source: Column, fed: Column)
    requires i < j < |steps| && Apart(edges, steps)
    requires (source, fed) in FinalEdges(edges, steps) && source.asset == steps[j].asset && fed.asset == steps[i].asset
    requires fed.name in steps[i].OutputNames()
    ensures !AlwaysCloses(edges, steps, run)
  {
    var s, others := State(map[], edges, []), WithOneOverride(steps, j, source);
    SameShapeSameEdges(edges, steps, others);
    assert SameButOverrides(steps[i], others[i]) && SameButOverrides(steps[j], others[j]);
    LaterSourceIsMissed(s, others, run, i, j, source, fed);
    assert !Closes(s, others, run);
  }

  /** For steps of different assets and column edges between assets, depth-1 unions compute the closure for all tags and
      overrides if and only if no edge leads from the asset of a step to a column an earlier step puts out. */
  lemma UnionsCloseExactly(edges: Edges, steps: seq<Step>, run: int)
    requires Apart(edges, steps)
    ensures AlwaysCloses(edges, steps, run) <==> Forward(edges, steps)
  {
    if Forward(edges, steps) {
      forall s: State, others: seq<Step> | s.edges == edges && SameShape(steps, others)
        ensures Closes(s, others, run)
      {
        ForwardCloses(edges, steps, run, s, others);
      }
    } else {
      var e, i, j :| e in FinalEdges(edges, steps) && 0 <= i < |steps| && 0 <= j < |steps|
                     && e.0.asset == steps[i].asset && e.1.asset == steps[j].asset
                     && e.1.name in steps[j].OutputNames() && i > j;
      BackwardEdgeBreaks(edges, steps, run, j, i, e.0, e.1);
    }
  }

  // ----- Overrides over any number of runs -----

  ghost function AfterSteps(s: State, steps: seq<(Step, int)>): State
    decreases |steps|
  {
    if |steps| == 0 then s
    else
      var last := steps[|steps| - 1];
      AfterStep(AfterSteps(s, steps[..|steps| - 1]), last.0, last.1)
  }

  function AuditCount(audit: seq<AuditEntry>, c: Column): nat
    decreases |audit|
  {
    if |audit| == 0 then 0
    else AuditCount(audit[..|audit| - 1], c) + if audit[|audit| - 1].column == c then 1 else 0
  }

  ghost predicate OnlyEntry(audit: seq<AuditEntry>, c: Column, n: int) {
    0 <= n < |audit| && audit[n].column == c && forall k | 0 <= k < |audit| && k != n :: audit[k].column != c
  }

  lemma {:induction false} NoEntry(audit: seq<AuditEntry>, c: Column)
    requires AuditCount(audit, c) == 0
    ensures forall k | 0 <= k < |audit| :: audit[k].column != c
    decreases |audit|
  {
    if |audit| > 0 {
      NoEntry(audit[..|audit| - 1], c);
    }
  }

  lemma {:induction false} OneEntry(audit: seq<AuditEntry>, c: Column) returns (n: nat)
    requires AuditCount(audit, c) == 1
    ensures OnlyEntry(audit, c, n)
    decreases |audit|
  {
    var k := |audit| - 1;
    if audit[k].column == c {
      NoEntry(audit[..k], c);
      n := k;
    } else {
      n := OneEntry(audit[..k], c);
    }
  }

  /** One audit entry per column that has an audit number, none otherwise, and the number finds the entry. */
  ghost predicate AuditedAt(s: State, c: Column) {
    if c in s.tags && s.tags[c].auditSeq.Some? then
      var n := s.tags[c].auditSeq.value;
      && AuditCount(s.audit, c) == 1
      && 1 <= n <= |s.audit| && s.audit[n - 1].column == c
    else AuditCount(s.audit, c) == 0
  }

  ghost predicate Audited(s: State) {
    forall c: Column :: AuditedAt(s, c)
  }

  lemma OverrideKeepsAudited(s: State, o: Override, run: int)
    requires Audited(s)
    ensures Audited(AfterOverride(s, o, run))
  {
    var t := AfterOverride(s, o, run);
    forall c: Column
      ensures AuditedAt(t, c)
    {
      assert AuditedAt(s, c);
      if t.audit != s.audit {
        assert t.audit[..|t.audit| - 1] == s.audit;
      }
    }
  }

  lemma {:induction false} PropagateKeepsAudited(s: State, outputs: seq<Column>, overrides: seq<Override>, run: int)
    requires Audited(s)
    ensures Audited(AfterOverrides(s, overrides, run)) && Audited(AfterPropagate(s, outputs, overrides, run))
    decreases |overrides|, |outputs|
  {
    if |overrides| > 0 {
      var front := overrides[..|overrides| - 1];
      PropagateKeepsAudited(s, [], front, run);
      OverrideKeepsAudited(AfterOverrides(s, front, run), overrides[|overrides| - 1], run);
    }
    UnionsKeepAudited(AfterOverrides(s, overrides, run), outputs, overrides, run);
  }

  lemma {:induction false} UnionsKeepAudited(s: State, outputs: seq<Column>, overrides: seq<Override>, run: int)
    requires Audited(s)
    ensures Audited(AfterUnions(s, outputs, overrides, run))
    decreases |outputs|
  {
    if |outputs| > 0 {
      var front, last := outputs[..|outputs| - 1], outputs[|outputs| - 1];
      UnionsKeepAudited(s, front, overrides, run);
      UnionKeepsAudited(AfterUnions(s, front, overrides, run), last, run);
    }
  }

  lemma UnionKeepsAudited(s: State, c: Column, run: int)
    requires Audited(s)
    ensures Audited(AfterUnion(s, c, run))
  {
    var t := AfterUnion(s, c, run);
    forall d: Column
      ensures AuditedAt(t, d)
    {
      assert AuditedAt(s, d);
    }
  }

  /** Over any history of steps, every column that was ever overridden has exactly one audit entry. */
  lemma {:induction false} OverridesAuditedOnce(s: State, steps: seq<(Step, int)>, c: Column)
    requires Audited(s)
    ensures var t := AfterSteps(s, steps);
            && Audited(t)
            && (HasAuditNumber(s, c) ==> HasAuditNumber(t, c))
            && ((exists i :: 0 <= i < |steps| && Overridden(steps[i].0.overrides, c)) ==>
                  exists n :: OnlyEntry(t.audit, c, n))
  {
    AuditedAfterSteps(s, steps, c);
    assert AuditedAt(AfterSteps(s, steps), c);
    if AuditCount(AfterSteps(s, steps).audit, c) == 1 {
      var n := OneEntry(AfterSteps(s, steps).audit, c);
    }
  }

  lemma StepKeepsAudited(s: State, step: Step, run: int, c: Column)
    requires Audited(s)
    ensures var t := AfterStep(s, step, run);
      && Audited(t)
      && (HasAuditNumber(s, c) || Overridden(step.overrides, c) ==> HasAuditNumber(t, c))
  {
    var linked := s.(edges := s.edges + NewEdges(step));
    forall d: Column
      ensures AuditedAt(linked, d)
    {
      assert AuditedAt(s, d);
    }
    PropagateKeepsAudited(linked, OutputColumns(step), step.overrides, run);
    OverridesEffect(linked, step.overrides, run, c);
    UnionsKeep(AfterOverrides(linked, step.overrides, run), OutputColumns(step), step.overrides, run, c);
  }

  lemma {:induction false} AuditedAfterSteps(s: State, steps: seq<(Step, int)>, c: Column)
    requires Audited(s)
    ensures var t := AfterSteps(s, steps);
            && Audited(t)
            && (HasAuditNumber(s, c) ==> HasAuditNumber(t, c))
            && ((exists i :: 0 <= i < |steps| && Overridden(steps[i].0.overrides, c)) ==> HasAuditNumber(t, c))
    decreases |steps|
  {
    if |steps| > 0 {
      var front, last := steps[..|steps| - 1], steps[|steps| - 1];
      AuditedAfterSteps(s, front, c);
      StepKeepsAudited(AfterSteps(s, front), last.0, last.1, c);
      if i :| 0 <= i < |steps| - 1 && Overridden(steps[i].0.overrides, c) {
        assert front[i] == steps[i];
      }
    }
  }

  /** Overrides are sticky: over any history, a column once overridden stays an override row, and its flag
      changes only through a later override of that column; propagation never touches it. */
  lemma {:induction false} OverridesAreSticky(s: State, steps: seq<(Step, int)>, c: Column)
    requires IsOverrideRow(s.tags, c)
    ensures IsOverrideRow(AfterSteps(s, steps).tags, c)
    ensures (forall i | 0 <= i < |steps| :: !Overridden(steps[i].0.overrides, c)) ==>
              AfterSteps(s, steps).tags[c] == s.tags[c]
    decreases |steps|
  {
    if |steps| > 0 {
      var front, last := steps[..|steps| - 1], steps[|steps| - 1];
      OverridesAreSticky(s, front, c);
      var before := AfterSteps(s, front);
      var linked := before.(edges := before.edges + NewEdges(last.0));
      OverridesEffect(linked, last.0.overrides, last.1, c);
      UnionsKeep(AfterOverrides(linked, last.0.overrides, last.1), OutputColumns(last.0), last.0.overrides, last.1, c);
    }
  }

  // ----- What an override does to the flag -----

  /** The override adds or removes the flag of c. */
  predicate Sets(o: Override, c: Column) {
    o.column == c && (o.add == "pii" || o.remove == "pii")
  }

  /** overrides[k] is the last one to set the flag of c. */
  predicate SetsLast(overrides: seq<Override>, c: Column, k: int) {
    0 <= k < |overrides| && Sets(overrides[k], c) && forall j | k < j < |overrides| :: !Sets(overrides[j], c)
  }

  lemma {:induction false} SomeSetsLast(overrides: seq<Override>, c: Column, i: nat) returns (k: nat)
    requires i < |overrides| && overrides[i].column == c && (overrides[i].add == "pii" || overrides[i].remove == "pii")
    ensures i <= k && SetsLast(overrides, c, k)
    decreases |overrides| - i
  {
    if j :| i < j < |overrides| && Sets(overrides[j], c) {
      k := SomeSetsLast(overrides, c, j);
    } else {
      k := i;
    }
  }

  lemma {:induction false} LastOverrideSets(s: State, overrides: seq<Override>, run: int, c: Column, k: nat)
    requires SetsLast(overrides, c, k)
    ensures PiiOf(AfterOverrides(s, overrides, run).tags, c) <==> overrides[k].add == "pii"
    ensures IsOverrideRow(AfterOverrides(s, overrides, run).tags, c)
    decreases |overrides|
  {
    var n := |overrides| - 1;
    if k < n {
      LastOverrideSets(s, overrides[..n], run, c, k);
    }
  }

  lemma {:induction false} NoOverrideSets(s: State, overrides: seq<Override>, run: int, c: Column)
    requires forall o | o in overrides :: !Sets(o, c)
    ensures PiiOf(AfterOverrides(s, overrides, run).tags, c) == PiiOf(s.tags, c)
    decreases |overrides|
  {
    if |overrides| > 0 {
      assert overrides[|overrides| - 1] in overrides;
      NoOverrideSets(s, overrides[..|overrides| - 1], run, c);
    }
  }

  /** An overridden column after its asset's step: pii if the last override that says anything adds the flag, whatever
      it removes; not pii if it only removes it; as before the step if none says anything. */
  lemma OverrideSetsFlag(s: State, step: Step, run: int, c: Column)
    requires Overridden(step.overrides, c)
    ensures var pii := PiiOf(AfterStep(s, step, run).tags, c);
      && (forall k | SetsLast(step.overrides, c, k) && step.overrides[k].add == "pii" :: pii)
      && (forall k | SetsLast(step.overrides, c, k) && step.overrides[k].add != "pii"
            && step.overrides[k].remove == "pii" :: !pii)
      && ((forall o | o in step.overrides && o.column == c :: o.add != "pii" && o.remove != "pii") ==>
            pii == PiiOf(s.tags, c))
  {
    var linked := s.(edges := s.edges + NewEdges(step));
    var mid := AfterOverrides(linked, step.overrides, run);
    OverridesEffect(linked, step.overrides, run, c);
    UnionsKeep(mid, OutputColumns(step), step.overrides, run, c);
    forall k | SetsLast(step.overrides, c, k)
      ensures PiiOf(mid.tags, c) <==> step.overrides[k].add == "pii"
    {
      LastOverrideSets(linked, step.overrides, run, c, k);
    }
    if forall o | o in step.overrides && o.column == c :: o.add != "pii" && o.remove != "pii" {
      NoOverrideSets(linked, step.overrides, run, c);
    }
  }

  /** The same at the end of any run of steps of different assets: no other step touches the column. */
  lemma OverrideSetsFinalFlag(s: State, steps: seq<Step>, run: int, i: nat, c: Column)
    requires i < |steps| && c.asset == steps[i].asset && Overridden(steps[i].overrides, c)
    requires forall k | 0 <= k < |steps| :: steps[k].Valid() && (k != i ==> steps[k].asset != c.asset)
    ensures var pii := PiiOf(AfterRun(s, steps, run).tags, c);
      && (forall k | SetsLast(steps[i].overrides, c, k) && steps[i].overrides[k].add == "pii" :: pii)
      && (forall k | SetsLast(steps[i].overrides, c, k) && steps[i].overrides[k].add != "pii"
            && steps[i].overrides[k].remove == "pii" :: !pii)
      && ((forall o | o in steps[i].overrides && o.column == c :: o.add != "pii" && o.remove != "pii") ==>
            pii == PiiOf(s.tags, c))
  {
    var before := AfterRun(s, steps[..i], run);
    assert steps[..0] == [] && steps[..|steps|] == steps && steps[..i + 1] == steps[..i] + [steps[i]];
    RestElsewhere(s, steps, run, 0, i, c);
    NextStep(s, steps[..i], steps[i], run);
    OverrideSetsFlag(before, steps[i], run, c);
    RestElsewhere(s, steps, run, i + 1, |steps|, c);
  }

  lemma StepsNext(s: State, front: seq<(Step, int)>, last: (Step, int))
    ensures AfterSteps(s, front + [last]) == AfterStep(AfterSteps(s, front), last.0, last.1)
  {
    assert (front + [last])[..|front|] == front;
  }

  lemma StepsRegroup(a: seq<(Step, int)>, b: seq<(Step, int)>)
    requires b != []
    ensures b == b[..|b| - 1] + [b[|b| - 1]] && a + b == (a + b[..|b| - 1]) + [b[|b| - 1]]
  {}

  lemma {:induction false} StepsJoin(s: State, a: seq<(Step, int)>, b: seq<(Step, int)>)
    ensures AfterSteps(s, a + b) == AfterSteps(AfterSteps(s, a), b)
    decreases |b|
  {
    if |b| == 0 {
      assert a + b == a;
    } else {
      var mid := AfterSteps(s, a);
      var front, last := b[..|b| - 1], b[|b| - 1];
      StepsJoin(s, a, front);
      StepsRegroup(a, b);
      StepsNext(s, a + front, last);
      StepsNext(mid, front, last);
    }
  }

  /** A flag that an override has removed or added stays so over any later steps, of any runs, that do not override the
      column. */
  lemma SetFlagStays(s: State, steps: seq<(Step, int)>, i: nat, k: nat, c: Column)
    requires i < |steps| && SetsLast(steps[i].0.overrides, c, k)
    requires forall j | i < j < |steps| :: !Overridden(steps[j].0.overrides, c)
    ensures steps[i].0.overrides[k].add == "pii" ==> PiiOf(AfterSteps(s, steps).tags, c)
    ensures steps[i].0.overrides[k].add != "pii" && steps[i].0.overrides[k].remove == "pii" ==>
              !PiiOf(AfterSteps(s, steps).tags, c)
  {
    var front, rest := steps[..i + 1], steps[i + 1..];
    var before, step, run := AfterSteps(s, steps[..i]), steps[i].0, steps[i].1;
    assert front[..i] == steps[..i] && front + rest == steps;
    assert step.overrides[k] in step.overrides;
    StepsJoin(s, front, rest);
    OverrideSetsFlag(before, step, run, c);
    OverriddenIsOverrideRow(before, step, run, c);
    OverridesAreSticky(AfterSteps(s, front), rest, c);
  }

  lemma OverriddenIsOverrideRow(s: State, step: Step, run: int, c: Column)
    requires Overridden(step.overrides, c)
    ensures IsOverrideRow(AfterStep(s, step, run).tags, c)
  {
    var linked := s.(edges := s.edges + NewEdges(step));
    OverridesEffect(linked, step.overrides, run, c);
    UnionsKeep(AfterOverrides(linked, step.overrides, run), OutputColumns(step), step.overrides, run, c);
  }
}
