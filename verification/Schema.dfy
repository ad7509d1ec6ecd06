/** internal/schema/diff.go, classify.go and hash.go: schema diffs, their classification and the canonical
    form the content hash is taken of. */
module Schema {
  import opened Names
  import opened Options
  import Lattice

  datatype Column = Column(name: string, typ: string, nullable: bool, default_: Option<string>, isPk: bool,
                           comment: string)

  datatype Table = Table(columns: seq<Column>, primaryKey: seq<string>)

  datatype ChangeKind = ColumnAdded | ColumnDropped | TypeNarrowed | TypeWidened | NullableAdded | NullableRemoved
                      | PkChanged | CommentChanged | DefaultChanged

  /** The attributes of one side of a change; what the kind does not record stays None. */
  datatype Facts = Facts(typ: Option<string>, nullable: Option<bool>, default_: Option<string>, comment: Option<string>)

  const NOTHING := Facts(None, None, None, None)

  /** SchemaChange. */
  datatype Change = Change(kind: ChangeKind, column: string, prev: Facts, new_: Facts)

  type Columns = map<string, Column>

  /** The by-name map a loop over the columns builds: the last column of a name wins. */
  function ByName(columns: seq<Column>): Columns
    decreases |columns|
  {
    if |columns| == 0 then map[]
    else ByName(columns[..|columns| - 1])[columns[|columns| - 1].name := columns[|columns| - 1]]
  }

  // ----- Diff -----

  /** The three loops of Diff. */
  datatype Pass = Adding | Dropping | Altering

  function TypePart(p: Column, n: Column): seq<Change> {
    if p.typ == n.typ then []
    else [Change(TypeWidened, n.name, NOTHING.(typ := Some(p.typ)), NOTHING.(typ := Some(n.typ)))]
  }

  function NullablePart(p: Column, n: Column): seq<Change> {
    if p.nullable == n.nullable then []
    else [Change(if n.nullable then NullableAdded else NullableRemoved, n.name,
                 NOTHING.(nullable := Some(p.nullable)), NOTHING.(nullable := Some(n.nullable)))]
  }

  function DefaultPart(p: Column, n: Column): seq<Change> {
    if p.default_ == n.default_ then []
    else [Change(DefaultChanged, n.name, NOTHING.(default_ := p.default_), NOTHING.(default_ := n.default_))]
  }

  function CommentPart(p: Column, n: Column): seq<Change> {
    if p.comment == n.comment then []
    else [Change(CommentChanged, n.name, NOTHING.(comment := Some(p.comment)), NOTHING.(comment := Some(n.comment)))]
  }

  function Attributes(p: Column, n: Column): seq<Change> {
    TypePart(p, n) + NullablePart(p, n) + DefaultPart(p, n) + CommentPart(p, n)
  }

  function Existing(c: Column): Facts {
    Facts(Some(c.typ), Some(c.nullable), c.default_, None)
  }

  predicate Keyed(m: Columns) {
    forall k | k in m :: m[k].name == k
  }

  /** What one iteration of a pass emits for one name. */
  function At(pass: Pass, p: Columns, n: Columns, k: string): seq<Change> {
    match pass
    case Adding => if k in n && k !in p then [Change(ColumnAdded, k, NOTHING, Existing(n[k]))] else []
    case Dropping => if k in p && k !in n then [Change(ColumnDropped, k, Existing(p[k]), NOTHING)] else []
    case Altering => if k in p && k in n then Attributes(p[k], n[k]) else []
  }

  function Parts(pass: Pass, p: Columns, n: Columns, names: seq<string>): seq<Change>
    decreases |names|
  {
    if |names| == 0 then [] else Parts(pass, p, n, names[..|names| - 1]) + At(pass, p, n, names[|names| - 1])
  }

  function PkPart(prev: Table, next: Table): seq<Change> {
    if prev.primaryKey != next.primaryKey then [Change(PkChanged, "", NOTHING, NOTHING)] else []
  }

  ghost function ColumnParts(p: Columns, n: Columns): seq<Change> {
    Parts(Adding, p, n, Sorted(n.Keys)) + Parts(Dropping, p, n, Sorted(p.Keys)) + Parts(Altering, p, n, Sorted(n.Keys))
  }

  ghost function DiffOf(prev: Table, next: Table): seq<Change> {
    ColumnParts(ByName(prev.columns), ByName(next.columns)) + PkPart(prev, next)
  }

  lemma {:induction false} ByNameIsKeyed(columns: seq<Column>)
    ensures Keyed(ByName(columns))
    ensures forall k :: k in ByName(columns) <==> exists c :: c in columns && c.name == k
    ensures forall k | k in ByName(columns) :: ByName(columns)[k] in columns
    decreases |columns|
  {
    if |columns| > 0 {
      var front, last := columns[..|columns| - 1], columns[|columns| - 1];
      ByNameIsKeyed(front);
      assert columns == front + [last];
    }
  }

  method IndexColumns(columns: seq<Column>) returns (byName: Columns)
    ensures byName == ByName(columns)
  {
    byName := map[];
    for i := 0 to |columns|
      invariant byName == ByName(columns[..i])
    {
      assert columns[..i + 1][..i] == columns[..i];
      byName := byName[columns[i].name := columns[i]];
    }
    assert columns[..|columns|] == columns;
  }

  method StringSliceEqual(a: seq<string>, b: seq<string>) returns (equal: bool)
    ensures equal <==> a == b
  {
    if |a| != |b| {
      return false;
    }
    for i := 0 to |a|
      invariant a[..i] == b[..i]
    {
      if a[i] != b[i] {
        return false;
      }
    }
    return true;
  }

  method AlterColumn(p: Column, n: Column) returns (changes: seq<Change>)
    ensures changes == Attributes(p, n)
  {
    changes := [];
    if p.typ != n.typ {
      changes := changes + [Change(TypeWidened, n.name, NOTHING.(typ := Some(p.typ)), NOTHING.(typ := Some(n.typ)))];
    }
    if p.nullable != n.nullable {
      var kind := NullableAdded;
      if !n.nullable {
        kind := NullableRemoved;
      }
      changes := changes + [Change(kind, n.name, NOTHING.(nullable := Some(p.nullable)),
                                   NOTHING.(nullable := Some(n.nullable)))];
    }
    if p.default_ != n.default_ {
      changes := changes + [Change(DefaultChanged, n.name, NOTHING.(default_ := p.default_),
                                   NOTHING.(default_ := n.default_))];
    }
    if p.comment != n.comment {
      changes := changes + [Change(CommentChanged, n.name, NOTHING.(comment := Some(p.comment)),
                                   NOTHING.(comment := Some(n.comment)))];
    }
  }

  method EmitAdded(p: Columns, n: Columns, names: seq<string>) returns (changes: seq<Change>)
    requires forall k | k in names :: k in n
    ensures changes == Parts(Adding, p, n, names)
  {
    changes := [];
    for i := 0 to |names|
      invariant changes == Parts(Adding, p, n, names[..i])
    {
      assert names[..i + 1][..i] == names[..i];
      if names[i] !in p {
        var nc := n[names[i]];
        changes := changes + [Change(ColumnAdded, names[i], NOTHING,
                                     Facts(Some(nc.typ), Some(nc.nullable), nc.default_, None))];
      }
    }
    assert names[..|names|] == names;
  }

  method EmitDropped(p: Columns, n: Columns, names: seq<string>) returns (changes: seq<Change>)
    requires forall k | k in names :: k in p
    ensures changes == Parts(Dropping, p, n, names)
  {
    changes := [];
    for i := 0 to |names|
      invariant changes == Parts(Dropping, p, n, names[..i])
    {
      assert names[..i + 1][..i] == names[..i];
      if names[i] !in n {
        var pc := p[names[i]];
        changes := changes + [Change(ColumnDropped, names[i],
                                     Facts(Some(pc.typ), Some(pc.nullable), pc.default_, None), NOTHING)];
      }
    }
    assert names[..|names|] == names;
  }

  method EmitAltered(p: Columns, n: Columns, names: seq<string>) returns (changes: seq<Change>)
    requires forall k | k in names :: k in n
    ensures changes == Parts(Altering, p, n, names)
  {
    changes := [];
    for i := 0 to |names|
      invariant changes == Parts(Altering, p, n, names[..i])
    {
      assert names[..i + 1][..i] == names[..i];
      if names[i] in p {
        var more := AlterColumn(p[names[i]], n[names[i]]);
        changes := changes + more;
      }
    }
    assert names[..|names|] == names;
  }

  /** Diff: additions, drops and alterations, each in name order, then the key. */
  method Diff(prev: Table, next: Table) returns (changes: seq<Change>)
    ensures changes == DiffOf(prev, next)
  {
    var p := IndexColumns(prev.columns);
    var n := IndexColumns(next.columns);
    var nextNames := SortedKeys(n.Keys);
    var prevNames := SortedKeys(p.Keys);
    var added := EmitAdded(p, n, nextNames);
    var dropped := EmitDropped(p, n, prevNames);
    var altered := EmitAltered(p, n, nextNames);
    changes := added + dropped + altered;
    var samePk := StringSliceEqual(prev.primaryKey, next.primaryKey);
    if !samePk {
      changes := changes + [Change(PkChanged, "", NOTHING, NOTHING)];
    }
  }

  // ----- Applying a diff -----

  /** What a diff records of a column. */
  datatype Attr = Attr(typ: string, nullable: bool, default_: Option<string>, comment: string)

  type View = map<string, Attr>

  function AttrOf(c: Column): Attr {
    Attr(c.typ, c.nullable, c.default_, c.comment)
  }

  function ViewOf(m: Columns): View {
    map k | k in m :: AttrOf(m[k])
  }

  /** Replays one change; a change that does not fit the view leaves it alone. */
  function Apply(v: View, c: Change): View {
    match c.kind
    case ColumnAdded =>
      if c.new_.typ.Some? && c.new_.nullable.Some?
      then v[c.column := Attr(c.new_.typ.value, c.new_.nullable.value, c.new_.default_, "")]
      else v
    case ColumnDropped => v - {c.column}
    case TypeWidened | TypeNarrowed =>
      if c.column in v && c.new_.typ.Some? then v[c.column := v[c.column].(typ := c.new_.typ.value)] else v
    case NullableAdded | NullableRemoved =>
      if c.column in v && c.new_.nullable.Some? then v[c.column := v[c.column].(nullable := c.new_.nullable.value)]
      else v
    case DefaultChanged =>
      if c.column in v then v[c.column := v[c.column].(default_ := c.new_.default_)] else v
    case CommentChanged =>
      if c.column in v && c.new_.comment.Some? then v[c.column := v[c.column].(comment := c.new_.comment.value)] else v
    case PkChanged => v
  }

  function ApplyAll(v: View, changes: seq<Change>): View
    decreases |changes|
  {
    if |changes| == 0 then v else Apply(ApplyAll(v, changes[..|changes| - 1]), changes[|changes| - 1])
  }

  lemma {:induction false} ApplyAppend(v: View, a: seq<Change>, b: seq<Change>)
    ensures ApplyAll(v, a + b) == ApplyAll(ApplyAll(v, a), b)
    decreases |b|
  {
    if |b| == 0 {
      assert a + b == a;
    } else {
      ApplyAppend(v, a, b[..|b| - 1]);
      assert (a + b)[..|a + b| - 1] == a + b[..|b| - 1];
    }
  }

  lemma ApplyOne(v: View, c: Change)
    ensures ApplyAll(v, [c]) == Apply(v, c)
  {
    assert [c][..0] == [];
  }

  function Look(v: View, k: string): Option<Attr> {
    if k in v then Some(v[k]) else None
  }

  /** What one iteration of a pass amounts to. */
  function Step(pass: Pass, v: View, p: Columns, n: Columns, k: string): View {
    match pass
    case Adding => if k in n && k !in p then v[k := AttrOf(n[k]).(comment := "")] else v
    case Dropping => if k in p && k !in n then v - {k} else v
    case Altering => if k in p && k in n then v[k := AttrOf(n[k])] else v
  }

  function Steps(pass: Pass, v: View, p: Columns, n: Columns, names: seq<string>): View
    decreases |names|
  {
    if |names| == 0 then v else Step(pass, Steps(pass, v, p, n, names[..|names| - 1]), p, n, names[|names| - 1])
  }

  lemma {:induction false} StepsAt(pass: Pass, v: View, p: Columns, n: Columns, names: seq<string>, k: string)
    ensures Look(Steps(pass, v, p, n, names), k) == Look(if k in names then Step(pass, v, p, n, k) else v, k)
    decreases |names|
  {
    if |names| > 0 {
      var front, last := names[..|names| - 1], names[|names| - 1];
      StepsAt(pass, v, p, n, front, k);
      assert names == front + [last];
      assert k in names <==> k in front || k == last;
    }
  }

  lemma ApplyFour(v: View, a: seq<Change>, b: seq<Change>, c: seq<Change>, d: seq<Change>)
    ensures ApplyAll(v, a + b + c + d) == ApplyAll(ApplyAll(ApplyAll(ApplyAll(v, a), b), c), d)
  {
    ApplyAppend(v, a, b);
    ApplyAppend(v, a + b, c);
    ApplyAppend(v, a + b + c, d);
  }

  lemma TypeEffect(v: View, p: Column, n: Column)
    requires n.name in v && v[n.name].typ == p.typ
    ensures ApplyAll(v, TypePart(p, n)) == v[n.name := v[n.name].(typ := n.typ)]
  {
    if p.typ != n.typ { ApplyOne(v, TypePart(p, n)[0]); }
  }

  lemma NullableEffect(v: View, p: Column, n: Column)
    requires n.name in v && v[n.name].nullable == p.nullable
    ensures ApplyAll(v, NullablePart(p, n)) == v[n.name := v[n.name].(nullable := n.nullable)]
  {
    if p.nullable != n.nullable { ApplyOne(v, NullablePart(p, n)[0]); }
  }

  lemma DefaultEffect(v: View, p: Column, n: Column)
    requires n.name in v && v[n.name].default_ == p.default_
    ensures ApplyAll(v, DefaultPart(p, n)) == v[n.name := v[n.name].(default_ := n.default_)]
  {
    if p.default_ != n.default_ { ApplyOne(v, DefaultPart(p, n)[0]); }
  }

  lemma CommentEffect(v: View, p: Column, n: Column)
    requires n.name in v && v[n.name].comment == p.comment
    ensures ApplyAll(v, CommentPart(p, n)) == v[n.name := v[n.name].(comment := n.comment)]
  {
    if p.comment != n.comment { ApplyOne(v, CommentPart(p, n)[0]); }
  }

  lemma AttributesEffect(v: View, p: Column, n: Column)
    requires n.name in v && v[n.name] == AttrOf(p)
    ensures ApplyAll(v, Attributes(p, n)) == v[n.name := AttrOf(n)]
  {
    var k := n.name;
    var v1 := v[k := v[k].(typ := n.typ)];
    var v2 := v1[k := v1[k].(nullable := n.nullable)];
    var v3 := v2[k := v2[k].(default_ := n.default_)];
    TypeEffect(v, p, n);
    NullableEffect(v1, p, n);
    DefaultEffect(v2, p, n);
    CommentEffect(v3, p, n);
    var v4 := v3[k := v3[k].(comment := n.comment)];
    assert v4 == v[k := AttrOf(n)];
    ApplyFour(v, TypePart(p, n), NullablePart(p, n), DefaultPart(p, n), CommentPart(p, n));
  }

  ghost predicate ReadyFor(pass: Pass, v: View, p: Columns, n: Columns, k: string) {
    pass == Altering && k in p && k in n ==> k in v && v[k] == AttrOf(p[k])
  }

  lemma AtEffect(pass: Pass, v: View, p: Columns, n: Columns, k: string)
    requires Keyed(n) && ReadyFor(pass, v, p, n, k)
    ensures ApplyAll(v, At(pass, p, n, k)) == Step(pass, v, p, n, k)
  {
    match pass
    case Adding => if k in n && k !in p { ApplyOne(v, At(pass, p, n, k)[0]); }
    case Dropping => if k in p && k !in n { ApplyOne(v, At(pass, p, n, k)[0]); }
    case Altering => if k in n && k in p { AttributesEffect(v, p[k], n[k]); }
  }

  lemma {:induction false} PartsEffect(pass: Pass, v: View, p: Columns, n: Columns, names: seq<string>)
    requires Keyed(n) && StrictlySorted(names)
    requires forall k | k in names :: ReadyFor(pass, v, p, n, k)
    ensures ApplyAll(v, Parts(pass, p, n, names)) == Steps(pass, v, p, n, names)
    decreases |names|
  {
    if |names| > 0 {
      var front, last := names[..|names| - 1], names[|names| - 1];
      PartsEffect(pass, v, p, n, front);
      StepsAt(pass, v, p, n, front, last);
      assert last in names && last !in front;
      assert ReadyFor(pass, v, p, n, last);
      AtEffect(pass, Steps(pass, v, p, n, front), p, n, last);
      ApplyAppend(v, Parts(pass, p, n, front), At(pass, p, n, last));
    }
  }

  /** What a diff can rebuild: everything compared, except the comment of an added column. */
  function Rebuilt(p: Columns, n: Columns): View {
    map k | k in n :: if k in p then AttrOf(n[k]) else AttrOf(n[k]).(comment := "")
  }

  lemma SameLook(a: View, b: View)
    requires forall k :: Look(a, k) == Look(b, k)
    ensures a == b
  {
    forall k
      ensures k in a <==> k in b
      ensures k in a ==> a[k] == b[k]
    {
      assert Look(a, k) == Look(b, k);
    }
  }

  lemma ColumnsRebuild(p: Columns, n: Columns)
    requires Keyed(n)
    ensures ApplyAll(ViewOf(p), ColumnParts(p, n)) == Rebuilt(p, n)
  {
    var v, nn, pn := ViewOf(p), Sorted(n.Keys), Sorted(p.Keys);
    PartsEffect(Adding, v, p, n, nn);
    var v1 := Steps(Adding, v, p, n, nn);
    PartsEffect(Dropping, v1, p, n, pn);
    var v2 := Steps(Dropping, v1, p, n, pn);
    forall k
      ensures Look(v2, k) == if k in p && k !in n then None else Look(v1, k)
      ensures Look(v1, k) == if k in n && k !in p then Some(AttrOf(n[k]).(comment := "")) else Look(v, k)
    {
      StepsAt(Adding, v, p, n, nn, k);
      StepsAt(Dropping, v1, p, n, pn, k);
    }
    forall k | k in nn
      ensures ReadyFor(Altering, v2, p, n, k)
    {
      assert Look(v2, k) == Look(v1, k);
      assert k in p ==> Look(v1, k) == Look(v, k);
    }
    PartsEffect(Altering, v2, p, n, nn);
    var v3 := Steps(Altering, v2, p, n, nn);
    forall k
      ensures Look(v3, k) == Look(Rebuilt(p, n), k)
    {
      StepsAt(Altering, v2, p, n, nn, k);
      assert Look(v2, k) == if k in p && k !in n then None else Look(v1, k);
    }
    SameLook(v3, Rebuilt(p, n));
    ApplyAppend(v, Parts(Adding, p, n, nn), Parts(Dropping, p, n, pn));
    ApplyAppend(v, Parts(Adding, p, n, nn) + Parts(Dropping, p, n, pn), Parts(Altering, p, n, nn));
  }

  lemma KeyPartEffect(v: View, prev: Table, next: Table)
    ensures ApplyAll(v, PkPart(prev, next)) == v
  {
    if prev.primaryKey != next.primaryKey {
      ApplyOne(v, PkPart(prev, next)[0]);
    }
  }

  /** Diff is complete: replaying it over prev's columns gives next's. */
  lemma DiffRebuilds(prev: Table, next: Table)
    ensures ApplyAll(ViewOf(ByName(prev.columns)), DiffOf(prev, next))
            == Rebuilt(ByName(prev.columns), ByName(next.columns))
  {
    var p, n := ByName(prev.columns), ByName(next.columns);
    var before, columnParts, keyPart := ViewOf(p), ColumnParts(p, n), PkPart(prev, next);
    ByNameIsKeyed(next.columns);
    ColumnsRebuild(p, n);
    KeyPartEffect(Rebuilt(p, n), prev, next);
    ApplyAppend(before, columnParts, keyPart);
    assert DiffOf(prev, next) == columnParts + keyPart;
  }

  // ----- Which changes a diff holds -----

  lemma {:induction false} PartsMembers(pass: Pass, p: Columns, n: Columns, names: seq<string>, c: Change)
    ensures c in Parts(pass, p, n, names) <==> exists k :: k in names && c in At(pass, p, n, k)
    decreases |names|
  {
    if |names| > 0 {
      var front, last := names[..|names| - 1], names[|names| - 1];
      PartsMembers(pass, p, n, front, c);
      assert names == front + [last];
    }
  }

  /** What any pass emits for a name is in the diff ... */
  lemma DiffHolds(prev: Table, next: Table, pass: Pass, k: string, c: Change)
    requires c in At(pass, ByName(prev.columns), ByName(next.columns), k)
    ensures c in DiffOf(prev, next)
  {
    var p, n := ByName(prev.columns), ByName(next.columns);
    var names := Sorted(if pass == Dropping then p.Keys else n.Keys);
    assert k in names;
    PartsMembers(pass, p, n, names, c);
    assert c in ColumnParts(p, n);
  }

  /** ... and nothing else is, but the key change. */
  lemma DiffSource(prev: Table, next: Table, c: Change) returns (pass: Pass, k: string)
    requires c in DiffOf(prev, next) && c.kind != PkChanged
    ensures c in At(pass, ByName(prev.columns), ByName(next.columns), k)
  {
    var p, n := ByName(prev.columns), ByName(next.columns);
    assert c in ColumnParts(p, n);
    pass := if c in Parts(Adding, p, n, Sorted(n.Keys)) then Adding
            else if c in Parts(Dropping, p, n, Sorted(p.Keys)) then Dropping else Altering;
    var names := Sorted(if pass == Dropping then p.Keys else n.Keys);
    PartsMembers(pass, p, n, names, c);
    k :| k in names && c in At(pass, p, n, k);
  }

  lemma AttributeHolds(prev: Table, next: Table, k: string, c: Change)
    requires var p, n := ByName(prev.columns), ByName(next.columns);
      k in p && k in n
      && (|| c in TypePart(p[k], n[k]) || c in NullablePart(p[k], n[k])
          || c in DefaultPart(p[k], n[k]) || c in CommentPart(p[k], n[k]))
    ensures c in DiffOf(prev, next)
  {
    var p, n := ByName(prev.columns), ByName(next.columns);
    assert c in Attributes(p[k], n[k]);
    DiffHolds(prev, next, Altering, k, c);
  }

  lemma AtKeepsKey(pass: Pass, p: Columns, n: Columns, k: string, c: Change)
    requires c in At(pass, p, n, k)
    ensures c.kind != PkChanged
  {}

  lemma PartsKeepKey(pass: Pass, p: Columns, n: Columns, names: seq<string>)
    ensures forall c | c in Parts(pass, p, n, names) :: c.kind != PkChanged
  {
    forall c | c in Parts(pass, p, n, names)
      ensures c.kind != PkChanged
    {
      PartsMembers(pass, p, n, names, c);
      var k :| k in names && c in At(pass, p, n, k);
      AtKeepsKey(pass, p, n, k, c);
    }
  }

  lemma KeyChangeExactly(prev: Table, next: Table)
    ensures (exists c :: c in DiffOf(prev, next) && c.kind == PkChanged) <==> prev.primaryKey != next.primaryKey
  {
    var p, n := ByName(prev.columns), ByName(next.columns);
    PartsKeepKey(Adding, p, n, Sorted(n.Keys));
    PartsKeepKey(Dropping, p, n, Sorted(p.Keys));
    PartsKeepKey(Altering, p, n, Sorted(n.Keys));
    assert forall c | c in ColumnParts(p, n) :: c.kind != PkChanged;
    if prev.primaryKey != next.primaryKey {
      assert PkPart(prev, next)[0] in DiffOf(prev, next);
    }
  }

  ghost predicate SameKeys(p: Columns, n: Columns) {
    forall k :: k in p <==> k in n
  }

  predicate SameShape(a: Column, b: Column) {
    a.typ == b.typ && a.nullable == b.nullable && a.default_ == b.default_
  }

  ghost predicate OnlyComments(changes: seq<Change>) {
    forall c | c in changes :: c.kind == CommentChanged
  }

  lemma ShapeChangeShows(prev: Table, next: Table, k: string)
    requires OnlyComments(DiffOf(prev, next))
    ensures var p, n := ByName(prev.columns), ByName(next.columns);
      (k in p <==> k in n) && (k in p && k in n ==> SameShape(p[k], n[k]))
  {
    var p, n := ByName(prev.columns), ByName(next.columns);
    if k in n && k !in p {
      DiffHolds(prev, next, Adding, k, At(Adding, p, n, k)[0]);
    } else if k in p && k !in n {
      DiffHolds(prev, next, Dropping, k, At(Dropping, p, n, k)[0]);
    } else if k in p && k in n && !SameShape(p[k], n[k]) {
      if p[k].typ != n[k].typ { AttributeHolds(prev, next, k, TypePart(p[k], n[k])[0]); }
      if p[k].nullable != n[k].nullable { AttributeHolds(prev, next, k, NullablePart(p[k], n[k])[0]); }
      if p[k].default_ != n[k].default_ { AttributeHolds(prev, next, k, DefaultPart(p[k], n[k])[0]); }
    }
  }

  ghost predicate SameButComments(prev: Table, next: Table) {
    var p, n := ByName(prev.columns), ByName(next.columns);
    SameKeys(p, n) && (forall k | k in p && k in n :: SameShape(p[k], n[k])) && prev.primaryKey == next.primaryKey
  }

  /** A diff holds comment changes only exactly when everything else it compares agrees. */
  lemma OnlyCommentsExactly(prev: Table, next: Table)
    ensures OnlyComments(DiffOf(prev, next)) <==> SameButComments(prev, next)
  {
    KeyChangeExactly(prev, next);
    if OnlyComments(DiffOf(prev, next)) {
      forall k {
        ShapeChangeShows(prev, next, k);
      }
    } else if SameButComments(prev, next) {
      var c :| c in DiffOf(prev, next) && c.kind != CommentChanged;
      var pass, k := DiffSource(prev, next, c);
      SameShapeEmits(prev, next, pass, k, c);
    }
  }

  lemma SameShapeEmits(prev: Table, next: Table, pass: Pass, k: string, c: Change)
    requires SameButComments(prev, next) && c in At(pass, ByName(prev.columns), ByName(next.columns), k)
    ensures c.kind == CommentChanged
  {}

  /** A diff is empty exactly when all it compares agrees. */
  lemma DiffEmptyExactly(prev: Table, next: Table)
    ensures DiffOf(prev, next) == []
      <==> ViewOf(ByName(prev.columns)) == ViewOf(ByName(next.columns)) && prev.primaryKey == next.primaryKey
  {
    var p, n := ByName(prev.columns), ByName(next.columns);
    KeyChangeExactly(prev, next);
    if DiffOf(prev, next) == [] {
      OnlyCommentsExactly(prev, next);
      forall k | k in p && k in n
        ensures AttrOf(p[k]) == AttrOf(n[k])
      {
        if p[k].comment != n[k].comment {
          AttributeHolds(prev, next, k, CommentPart(p[k], n[k])[0]);
        }
      }
    } else if ViewOf(p) == ViewOf(n) && prev.primaryKey == next.primaryKey {
      var c := DiffOf(prev, next)[0];
      var pass, k := DiffSource(prev, next, c);
      SameViewEmitsNothing(pass, p, n, k);
    }
  }

  lemma SameViewEmitsNothing(pass: Pass, p: Columns, n: Columns, k: string)
    requires ViewOf(p) == ViewOf(n)
    ensures At(pass, p, n, k) == []
  {
    assert k in ViewOf(p) <==> k in ViewOf(n);
    if k in p && k in n {
      assert ViewOf(p)[k] == ViewOf(n)[k];
    }
  }

  // ----- Classification -----

  /** Classify with the PostgreSQL lattice: the change type written and the breaking flag. */
  function Classify(c: Change): (ChangeKind, bool) {
    match c.kind
    case ColumnAdded => (ColumnAdded, false)
    case ColumnDropped => (ColumnDropped, true)
    case NullableAdded => (NullableAdded, false)
    case NullableRemoved => (NullableRemoved, true)
    case PkChanged => (PkChanged, true)
    case CommentChanged => (CommentChanged, false)
    case DefaultChanged => (DefaultChanged, false)
    case TypeWidened =>
      if c.prev.typ.None? || c.new_.typ.None? then (TypeNarrowed, true)
      else
        var verdict := Lattice.IsWideningPostgres(c.prev.typ.value, c.new_.typ.value);
        if !verdict.known then (TypeNarrowed, true)
        else if verdict.isWidening then (TypeWidened, false)
        else (TypeNarrowed, true)
    case TypeNarrowed => (TypeNarrowed, true)
  }

  /** The written change type of a diff entry: only a provisional widening is ever rewritten, exactly when the lattice
      does not call it one, and the breaking flag follows from the type written. */
  lemma WrittenKind(prev: Table, next: Table, c: Change)
    requires c in DiffOf(prev, next)
    ensures c.kind == TypeWidened ==> c.prev.typ.Some? && c.new_.typ.Some?
    ensures Classify(c).0
            == if c.kind == TypeWidened && !Lattice.Widens(c.prev.typ.value, c.new_.typ.value) then TypeNarrowed
               else c.kind
    ensures Classify(c).1 <==> Classify(c).0 in {ColumnDropped, TypeNarrowed, NullableRemoved, PkChanged}
  {
    if c.kind != PkChanged {
      var pass, k := DiffSource(prev, next, c);
      if pass == Altering {
        WrittenAttribute(ByName(prev.columns)[k], ByName(next.columns)[k], c);
      }
    }
  }

  /** Any change at all, from a diff or not: a widening that lacks a type, or that the lattice does not call one, is
      written as a narrowing; what breaks are drops, narrowings, lost nullability and key changes. */
  lemma ClassifyExactly(c: Change)
    ensures Classify(c).0
            == if c.kind == TypeWidened
                  && (c.prev.typ.None? || c.new_.typ.None? || !Lattice.Widens(c.prev.typ.value, c.new_.typ.value))
               then TypeNarrowed else c.kind
    ensures Classify(c).1 <==> Classify(c).0 in {ColumnDropped, TypeNarrowed, NullableRemoved, PkChanged}
  {
    if c.kind == TypeWidened && c.prev.typ.Some? && c.new_.typ.Some? {
      Lattice.LatticeIsFits(c.prev.typ.value, c.new_.typ.value);
    }
  }

  lemma WrittenAttribute(p: Column, n: Column, c: Change)
    requires c in Attributes(p, n)
    ensures c.kind == TypeWidened ==> c.prev.typ == Some(p.typ) && c.new_.typ == Some(n.typ)
    ensures Classify(c).0 == if c.kind == TypeWidened && !Lattice.Widens(p.typ, n.typ) then TypeNarrowed else c.kind
    ensures Classify(c).1 <==> Classify(c).0 in {TypeNarrowed, NullableRemoved}
  {
    if c.kind == TypeWidened {
      assert c == TypePart(p, n)[0];
      Lattice.LatticeIsFits(p.typ, n.typ);
    }
  }

  ghost predicate NonBreaking(changes: seq<Change>) {
    forall c | c in changes :: !Classify(c).1
  }

  /** Every reader of a prev-shaped table can read a next-shaped one. */
  ghost predicate Compatible(prev: Table, next: Table) {
    var p, n := ByName(prev.columns), ByName(next.columns);
    && prev.primaryKey == next.primaryKey
    && forall k | k in p :: k in n && Lattice.Widens(p[k].typ, n[k].typ) && (p[k].nullable ==> n[k].nullable)
  }

  lemma DropBreaks(prev: Table, next: Table, k: string)
    requires k in ByName(prev.columns) && k !in ByName(next.columns)
    ensures !NonBreaking(DiffOf(prev, next))
  {
    var c := At(Dropping, ByName(prev.columns), ByName(next.columns), k)[0];
    DiffHolds(prev, next, Dropping, k, c);
    assert Classify(c).1;
  }

  lemma NarrowingBreaks(prev: Table, next: Table, k: string)
    requires k in ByName(prev.columns) && k in ByName(next.columns)
    requires !Lattice.Widens(ByName(prev.columns)[k].typ, ByName(next.columns)[k].typ)
    ensures !NonBreaking(DiffOf(prev, next))
  {
    var p, n := ByName(prev.columns)[k], ByName(next.columns)[k];
    Lattice.WideningIsAnOrder(p.typ, p.typ, p.typ);
    var c := TypePart(p, n)[0];
    AttributeHolds(prev, next, k, c);
    assert Classify(c).1;
  }

  lemma NullabilityBreaks(prev: Table, next: Table, k: string)
    requires k in ByName(prev.columns) && k in ByName(next.columns)
    requires ByName(prev.columns)[k].nullable && !ByName(next.columns)[k].nullable
    ensures !NonBreaking(DiffOf(prev, next))
  {
    var c := NullablePart(ByName(prev.columns)[k], ByName(next.columns)[k])[0];
    AttributeHolds(prev, next, k, c);
    assert Classify(c).1;
  }

  lemma BreakShows(prev: Table, next: Table, k: string)
    requires k in ByName(prev.columns)
    requires var p, n := ByName(prev.columns), ByName(next.columns);
      !(k in n && Lattice.Widens(p[k].typ, n[k].typ) && (p[k].nullable ==> n[k].nullable))
    ensures !NonBreaking(DiffOf(prev, next))
  {
    if k !in ByName(next.columns) {
      DropBreaks(prev, next, k);
    } else if !Lattice.Widens(ByName(prev.columns)[k].typ, ByName(next.columns)[k].typ) {
      NarrowingBreaks(prev, next, k);
    } else {
      NullabilityBreaks(prev, next, k);
    }
  }

  /** No change of a diff is classified as breaking exactly when the key stays and prev's columns survive with
      at least as wide a type and at least as much nullability. */
  lemma NonBreakingExactly(prev: Table, next: Table)
    ensures NonBreaking(DiffOf(prev, next)) <==> Compatible(prev, next)
  {
    KeyChangeExactly(prev, next);
    if NonBreaking(DiffOf(prev, next)) {
      var p, n := ByName(prev.columns), ByName(next.columns);
      forall k | k in p
        ensures k in n && Lattice.Widens(p[k].typ, n[k].typ) && (p[k].nullable ==> n[k].nullable)
      {
        if !(k in n && Lattice.Widens(p[k].typ, n[k].typ) && (p[k].nullable ==> n[k].nullable)) {
          BreakShows(prev, next, k);
        }
      }
    } else if Compatible(prev, next) {
      var c :| c in DiffOf(prev, next) && Classify(c).1;
      var pass, k := DiffSource(prev, next, c);
      CompatibleEmits(prev, next, pass, k, c);
    }
  }

  lemma CompatibleEmits(prev: Table, next: Table, pass: Pass, k: string, c: Change)
    requires Compatible(prev, next) && c in At(pass, ByName(prev.columns), ByName(next.columns), k)
    ensures !Classify(c).1
  {
    var p, n := ByName(prev.columns), ByName(next.columns);
    if pass == Altering {
      WideningEmits(p[k], n[k], c);
    }
  }

  lemma WideningEmits(p: Column, n: Column, c: Change)
    requires Lattice.Widens(p.typ, n.typ) && (p.nullable ==> n.nullable) && c in Attributes(p, n)
    ensures !Classify(c).1
  {
    if c.kind == TypeWidened {
      assert c == TypePart(p, n)[0];
    }
  }

  lemma CompatibleTransitive(a: Table, b: Table, c: Table)
    requires Compatible(a, b) && Compatible(b, c)
    ensures Compatible(a, c)
  {
    var p, m, n := ByName(a.columns), ByName(b.columns), ByName(c.columns);
    forall k | k in p
      ensures k in n && Lattice.Widens(p[k].typ, n[k].typ) && (p[k].nullable ==> n[k].nullable)
    {
      assert k in m;
      Lattice.WideningIsAnOrder(p[k].typ, m[k].typ, n[k].typ);
    }
  }

  /** Non-breaking evolution composes over a history of any length. */
  lemma {:induction false} NonBreakingComposes(history: seq<Table>)
    requires |history| > 0
    requires forall i | 0 < i < |history| :: NonBreaking(DiffOf(history[i - 1], history[i]))
    ensures NonBreaking(DiffOf(history[0], history[|history| - 1]))
    decreases |history|
  {
    var first, last := history[0], history[|history| - 1];
    if |history| == 1 {
    } else {
      var middle := history[|history| - 2];
      NonBreakingComposes(history[..|history| - 1]);
      NonBreakingExactly(first, middle);
      NonBreakingExactly(middle, last);
      CompatibleTransitive(first, middle, last);
    }
    NonBreakingExactly(first, last);
  }
}
