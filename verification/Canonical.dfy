/** internal/schema/hash.go: the canonical form whose JSON HashSchema hashes. JSON and SHA-256 stay abstract. */
module Canonical {
  import opened Names
  import opened Options
  import opened Schema

  datatype CanonicalCol = CanonicalCol(name: string, typ: string, nullable: bool, default_: Option<string>, isPk: bool)

  datatype CanonicalSchema = CanonicalSchema(columns: seq<CanonicalCol>, primaryKey: seq<string>)

  function Strip(c: Column): CanonicalCol {
    CanonicalCol(c.name, c.typ, c.nullable, c.default_, c.isPk)
  }

  function StripAll(columns: seq<Column>): (cols: seq<CanonicalCol>)
    ensures |cols| == |columns| && forall i | 0 <= i < |cols| :: cols[i] == Strip(columns[i])
  {
    seq(|columns|, i requires 0 <= i < |columns| => Strip(columns[i]))
  }

  predicate SortedByName(cols: seq<CanonicalCol>) {
    forall i, j | 0 <= i < j < |cols| :: Leq(cols[i].name, cols[j].name)
  }

  predicate IsCanonical(t: Table, canon: CanonicalSchema) {
    && canon.primaryKey == t.primaryKey
    && SortedByName(canon.columns)
    && multiset(canon.columns) == multiset(StripAll(t.columns))
  }

  /** Sorted but for position i, which is at most everything behind it. */
  predicate SortedBut(cols: seq<CanonicalCol>, i: nat) {
    forall j, k | 0 <= j < k < |cols| && k != i :: Leq(cols[j].name, cols[k].name)
  }

  lemma SwapDown(cols: seq<CanonicalCol>, i: nat)
    requires 0 < i < |cols| && SortedBut(cols, i) && !Leq(cols[i - 1].name, cols[i].name)
    ensures SortedBut(cols[i := cols[i - 1]][i - 1 := cols[i]], i - 1)
  {
    var after := cols[i := cols[i - 1]][i - 1 := cols[i]];
    LeqTotal(cols[i - 1].name, cols[i].name);
    forall j, k | 0 <= j < k < |cols| && k != i - 1
      ensures Leq(after[j].name, after[k].name)
    {
      if k == i && j < i - 1 {
        assert Leq(cols[j].name, cols[i - 1].name);
      } else if k > i {
        assert Leq(cols[i].name, cols[k].name) && Leq(cols[i - 1].name, cols[k].name)
               && Leq(cols[j].name, cols[k].name);
      }
    }
  }

  lemma SettledIsSorted(cols: seq<CanonicalCol>, i: nat)
    requires i < |cols| && SortedBut(cols, i) && (i > 0 ==> Leq(cols[i - 1].name, cols[i].name))
    ensures SortedByName(cols)
  {
    forall j | 0 <= j < i
      ensures Leq(cols[j].name, cols[i].name)
    {
      if j < i - 1 {
        LeqTransitive(cols[j].name, cols[i - 1].name, cols[i].name);
      }
    }
  }

  /** Moves the element behind a sorted prefix to its place. */
  method Sink(a: array<CanonicalCol>, n: nat)
    requires n < a.Length && SortedByName(a[..n])
    modifies a
    ensures SortedByName(a[..n + 1])
    ensures multiset(a[..]) == multiset(old(a[..]))
  {
    var i := n;
    while i > 0 && !Leq(a[i - 1].name, a[i].name)
      invariant 0 <= i <= n
      invariant SortedBut(a[..n + 1], i)
      invariant multiset(a[..]) == multiset(old(a[..]))
    {
      ghost var before := a[..n + 1];
      SwapDown(before, i);
      a[i - 1], a[i] := a[i], a[i - 1];
      assert a[..n + 1] == before[i := before[i - 1]][i - 1 := before[i]];
      i := i - 1;
    }
    SettledIsSorted(a[..n + 1], i);
  }

  /** sort.Slice by name, in place. */
  method SortByName(a: array<CanonicalCol>)
    modifies a
    ensures SortedByName(a[..])
    ensures multiset(a[..]) == multiset(old(a[..]))
  {
    for n := 0 to a.Length
      invariant SortedByName(a[..n])
      invariant multiset(a[..]) == multiset(old(a[..]))
    {
      Sink(a, n);
    }
    assert a[..a.Length] == a[..];
  }

  /** The value HashSchema marshals: columns by name without comments, the key in its own order. */
  method CanonicalForm(t: Table) returns (canon: CanonicalSchema)
    ensures IsCanonical(t, canon)
  {
    var cols := new CanonicalCol[|t.columns|](i requires 0 <= i < |t.columns| => Strip(t.columns[i]));
    assert cols[..] == StripAll(t.columns);
    SortByName(cols);
    canon := CanonicalSchema(cols[..], t.primaryKey);
  }

  // ----- When two canonical forms, hence hashes, agree -----

  predicate UniqueNames(columns: seq<Column>) {
    forall i, j | 0 <= i < j < |columns| :: columns[i].name != columns[j].name
  }

  lemma {:induction false} CountOnce(cols: seq<CanonicalCol>, e: CanonicalCol)
    requires forall i, j | 0 <= i < j < |cols| :: cols[i] != cols[j]
    ensures multiset(cols)[e] <= 1
    decreases |cols|
  {
    if |cols| > 0 {
      var front, last := cols[..|cols| - 1], cols[|cols| - 1];
      CountOnce(front, e);
      assert cols == front + [last];
      assert last !in front;
    }
  }

  lemma CountTwice(cols: seq<CanonicalCol>, i: nat, j: nat)
    requires i < j < |cols| && cols[i] == cols[j]
    ensures multiset(cols)[cols[i]] >= 2
  {
    assert cols == cols[..j] + [cols[j]] + cols[j + 1..];
    assert cols[..j][i] == cols[i];
    assert cols[i] in multiset(cols[..j]);
  }

  lemma CanonicalMembers(t: Table, canon: CanonicalSchema, e: CanonicalCol)
    requires IsCanonical(t, canon)
    ensures e in canon.columns <==> exists i :: 0 <= i < |t.columns| && Strip(t.columns[i]) == e
  {
    assert e in canon.columns <==> e in multiset(canon.columns);
    assert e in StripAll(t.columns) <==> e in multiset(StripAll(t.columns));
  }

  function ColumnNames(cols: seq<CanonicalCol>): (names: seq<string>)
    ensures |names| == |cols| && forall i | 0 <= i < |cols| :: names[i] == cols[i].name
  {
    seq(|cols|, i requires 0 <= i < |cols| => cols[i].name)
  }

  lemma CanonicalNamesSorted(t: Table, canon: CanonicalSchema)
    requires UniqueNames(t.columns) && IsCanonical(t, canon)
    ensures StrictlySorted(ColumnNames(canon.columns))
  {
    var cols := canon.columns;
    forall i, j | 0 <= i < j < |cols|
      ensures cols[i].name != cols[j].name
    {
      if cols[i].name == cols[j].name {
        CanonicalMembers(t, canon, cols[i]);
        CanonicalMembers(t, canon, cols[j]);
        assert cols[i] == cols[j];
        CountTwice(cols, i, j);
        CountOnce(StripAll(t.columns), cols[i]);
      }
    }
  }

  lemma {:induction false} UniqueByName(columns: seq<Column>, i: nat)
    requires UniqueNames(columns) && i < |columns|
    ensures columns[i].name in ByName(columns) && ByName(columns)[columns[i].name] == columns[i]
    decreases |columns|
  {
    var front := columns[..|columns| - 1];
    if i < |front| {
      UniqueByName(front, i);
    }
  }

  lemma CanonicalLookup(t: Table, canon: CanonicalSchema, e: CanonicalCol)
    requires UniqueNames(t.columns) && IsCanonical(t, canon)
    ensures e in canon.columns <==> e.name in ByName(t.columns) && Strip(ByName(t.columns)[e.name]) == e
  {
    CanonicalMembers(t, canon, e);
    ByNameIsKeyed(t.columns);
    if e in canon.columns {
      var i :| 0 <= i < |t.columns| && Strip(t.columns[i]) == e;
      UniqueByName(t.columns, i);
    } else if e.name in ByName(t.columns) {
      assert ByName(t.columns)[e.name] in t.columns;
    }
  }

  lemma SameMembersSameList(a: seq<CanonicalCol>, b: seq<CanonicalCol>)
    requires StrictlySorted(ColumnNames(a)) && StrictlySorted(ColumnNames(b))
    requires forall e :: e in a <==> e in b
    ensures a == b
  {
    forall x
      ensures x in ColumnNames(a) <==> x in ColumnNames(b)
    {
      if x in ColumnNames(a) {
        var i :| 0 <= i < |a| && ColumnNames(a)[i] == x;
        assert a[i] in b;
        var j :| 0 <= j < |b| && b[j] == a[i];
        assert ColumnNames(b)[j] == x;
      }
      if x in ColumnNames(b) {
        var i :| 0 <= i < |b| && ColumnNames(b)[i] == x;
        assert b[i] in a;
        var j :| 0 <= j < |a| && a[j] == b[i];
        assert ColumnNames(a)[j] == x;
      }
    }
    SortedIsUnique(ColumnNames(a), ColumnNames(b));
    forall i | 0 <= i < |a|
      ensures a[i] == b[i]
    {
      assert a[i] in b;
      var j :| 0 <= j < |b| && b[j] == a[i];
      assert ColumnNames(b)[j] == ColumnNames(a)[i] == ColumnNames(b)[i];
    }
  }

  ghost predicate SamePkFlags(p: Columns, n: Columns) {
    forall k | k in p && k in n :: p[k].isPk == n[k].isPk
  }

  lemma SameFormSameColumns(s: Table, t: Table, cs: CanonicalSchema, ct: CanonicalSchema, k: string)
    requires UniqueNames(s.columns) && UniqueNames(t.columns) && IsCanonical(s, cs) && IsCanonical(t, ct) && cs == ct
    ensures k in ByName(s.columns)
            ==> k in ByName(t.columns) && Strip(ByName(s.columns)[k]) == Strip(ByName(t.columns)[k])
  {
    ByNameIsKeyed(s.columns);
    if k in ByName(s.columns) {
      CanonicalLookup(s, cs, Strip(ByName(s.columns)[k]));
      CanonicalLookup(t, ct, Strip(ByName(s.columns)[k]));
    }
  }

  /** Canonical forms agree exactly when the diff holds comment changes only and the primary-key flags of the
      columns agree too; the flags are hashed but never diffed. In particular equal forms leave only comments. */
  lemma SameFormExactly(s: Table, t: Table, cs: CanonicalSchema, ct: CanonicalSchema)
    requires UniqueNames(s.columns) && UniqueNames(t.columns) && IsCanonical(s, cs) && IsCanonical(t, ct)
    ensures cs == ct <==> OnlyComments(DiffOf(s, t)) && SamePkFlags(ByName(s.columns), ByName(t.columns))
  {
    var p, n := ByName(s.columns), ByName(t.columns);
    OnlyCommentsExactly(s, t);
    if cs == ct {
      forall k
        ensures k in p <==> k in n
        ensures k in p && k in n ==> Strip(p[k]) == Strip(n[k])
      {
        SameFormSameColumns(s, t, cs, ct, k);
        SameFormSameColumns(t, s, ct, cs, k);
      }
    } else if SameButComments(s, t) && SamePkFlags(p, n) {
      ByNameIsKeyed(s.columns);
      ByNameIsKeyed(t.columns);
      forall e
        ensures e in cs.columns <==> e in ct.columns
      {
        CanonicalLookup(s, cs, e);
        CanonicalLookup(t, ct, e);
      }
      CanonicalNamesSorted(s, cs);
      CanonicalNamesSorted(t, ct);
      SameMembersSameList(cs.columns, ct.columns);
    }
  }
}
