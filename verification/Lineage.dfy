/** The lineage traversals: the recursive queries of internal/lineage/queries/lineage.sql.go,
    and the unguarded neighborhood query they are compared with.

    Both traversal queries are one query over different node types: assets, or
    (asset, column) pairs. `key` is the text that the path array stores for a node. */
module Lineage {
  import opened Graphs
  import opened Options

  /** One row of asset_edges or column_edges. */
  datatype Edge<T> = Edge(from: T, to: T, firstSeenAt: int, supersededAt: Option<int>)

  datatype Column = Column(asset: string, name: string)

  /** One row of the recursive table. */
  datatype Row<T> = Row(node: T, depth: int, path: seq<string>)

  /** The temporal predicate: valid at the given instant, or active when none is given. */
  predicate Visible<T>(e: Edge<T>, asOf: Option<int>) {
    match asOf
    case Some(t) => e.firstSeenAt <= t && (e.supersededAt.None? || e.supersededAt.value > t)
    case None => e.supersededAt.None?
  }

  /** Any direction other than "downstream" walks edges backwards. */
  function Hop<T>(direction: string, e: Edge<T>): (T, T) {
    if direction == "downstream" then (e.from, e.to) else (e.to, e.from)
  }

  function Hops<T(==)>(table: set<Edge<T>>, direction: string, asOf: Option<int>): set<(T, T)> {
    set e | e in table && Visible(e, asOf) :: Hop(direction, e)
  }

  function Min(a: int, b: int): int {
    if a < b then a else b
  }

  function Max(a: int, b: int): int {
    if a < b then b else a
  }

  // ----- TraverseAssetLineage and TraverseColumnLineage -----

  /** The non-recursive term. */
  function Base<T(==)>(hops: set<(T, T)>, root: T, key: T -> string): set<Row<T>> {
    set h | h in hops && h.0 == root :: Row(h.1, 1, [key(h.0), key(h.1)])
  }

  /** The recursive term, applied to the working table. */
  function Extend<T(==)>(hops: set<(T, T)>, key: T -> string, cap: int, work: set<Row<T>>): set<Row<T>> {
    set l, h | l in work && h in hops && h.0 == l.node && l.depth < cap && key(h.1) !in l.path
      :: Row(h.1, l.depth + 1, l.path + [key(h.1)])
  }

  /** WITH RECURSIVE: extend the working table until it is empty, keeping everything seen. */
  function Recurse<T(==)>(hops: set<(T, T)>, key: T -> string, cap: int, work: set<Row<T>>, depth: int): set<Row<T>>
    requires forall r | r in work :: r.depth == depth
    decreases if depth < cap then cap - depth + 1 else if work == {} then 0 else 1
  {
    if work == {} then {} else work + Recurse(hops, key, cap, Extend(hops, key, cap, work), depth + 1)
  }

  /** The query's result before ORDER BY. */
  function Traverse<T(==)>(table: set<Edge<T>>, direction: string, root: T, key: T -> string, asOf: Option<int>,
                           maxDepth: int): set<(T, int)> {
    var hops := Hops(table, direction, asOf);
    set r | r in Recurse(hops, key, Min(maxDepth, 25), Base(hops, root, key), 1) :: (r.node, r.depth)
  }

  function AssetKey(a: string): string {
    a
  }

  function ColumnKey(c: Column): string {
    c.asset + "." + c.name
  }

  // ----- What the rows are -----

  ghost function Keys<T(!new)>(key: T -> string, p: seq<T>): seq<string> {
    seq(|p|, i requires 0 <= i < |p| => key(p[i]))
  }

  /** From the third node on, every node's key is new on the path. */
  ghost predicate Guarded<T(!new)>(key: T -> string, p: seq<T>) {
    forall i, j | 0 <= i < j < |p| && j >= 2 :: key(p[i]) != key(p[j])
  }

  /** p is a guarded walk from root that the row records. */
  ghost predicate Records<T(!new)>(hops: set<(T, T)>, root: T, key: T -> string, r: Row<T>, p: seq<T>) {
    WalkFromTo(hops, root, r.node, p) && |p| == r.depth + 1 && r.path == Keys(key, p) && Guarded(key, p)
  }

  ghost predicate IsRow<T(!new)>(hops: set<(T, T)>, root: T, key: T -> string, r: Row<T>) {
    exists p :: Records(hops, root, key, r, p)
  }

  /** work holds exactly the rows of one depth. */
  ghost predicate Exact<T(!new)>(hops: set<(T, T)>, root: T, key: T -> string, work: set<Row<T>>, depth: int) {
    forall r :: r in work <==> r.depth == depth && IsRow(hops, root, key, r)
  }

  lemma BaseIsExact<T(!new)>(hops: set<(T, T)>, root: T, key: T -> string)
    ensures Exact(hops, root, key, Base(hops, root, key), 1)
  {
    var work := Base(hops, root, key);
    forall r | r in work
      ensures IsRow(hops, root, key, r)
    {
      var p := [root, r.node];
      assert Keys(key, p) == [key(root), key(r.node)];
      assert Records(hops, root, key, r, p);
    }
    forall r: Row<T> | r.depth == 1 && IsRow(hops, root, key, r)
      ensures r in work
    {
      var p :| Records(hops, root, key, r, p);
      assert (p[0], p[1]) in hops;
      assert Keys(key, p) == [key(p[0]), key(p[1])];
    }
  }

  lemma ExtendIsExact<T(!new)>(hops: set<(T, T)>, root: T, key: T -> string, cap: int, work: set<Row<T>>, depth: int)
    requires 1 <= depth < cap && Exact(hops, root, key, work, depth)
    ensures Exact(hops, root, key, Extend(hops, key, cap, work), depth + 1)
  {
    var next := Extend(hops, key, cap, work);
    forall r | r in next
      ensures r.depth == depth + 1 && IsRow(hops, root, key, r)
    {
      var l, h :| l in work && h in hops && h.0 == l.node && l.depth < cap && key(h.1) !in l.path
                  && r == Row(h.1, l.depth + 1, l.path + [key(h.1)]);
      var p :| Records(hops, root, key, l, p);
      StepWalk(hops, root, l.node, h.1, p);
      forall i | 0 <= i < |p|
        ensures key(p[i]) != key(h.1)
      {
        assert Keys(key, p)[i] == key(p[i]);
      }
      assert Keys(key, p + [h.1]) == r.path;
      assert Records(hops, root, key, r, p + [h.1]);
    }
    forall r: Row<T> | r.depth == depth + 1 && IsRow(hops, root, key, r)
      ensures r in next
    {
      var p :| Records(hops, root, key, r, p);
      var l, h := ParentRow(hops, root, key, r, p);
      assert l in work;
      assert r == Row(h.1, l.depth + 1, l.path + [key(h.1)]);
    }
  }

  /** A row deeper than 1 extends the row of the walk without its last node. */
  lemma ParentRow<T(!new)>(hops: set<(T, T)>, root: T, key: T -> string, r: Row<T>, p: seq<T>)
    returns (l: Row<T>, h: (T, T))
    requires r.depth >= 2 && Records(hops, root, key, r, p)
    ensures l.depth == r.depth - 1 && Records(hops, root, key, l, p[..|p| - 1])
    ensures h in hops && h == (l.node, r.node) && key(h.1) !in l.path && r.path == l.path + [key(h.1)]
  {
    var k := |p| - 2;
    var q := p[..k + 1];
    assert (p[k], p[k + 1]) in hops;
    l, h := Row(p[k], r.depth - 1, Keys(key, q)), (p[k], p[k + 1]);
    forall i | 0 <= i < |q|
      ensures l.path[i] != key(h.1)
    {
      assert p[i] == q[i];
    }
  }

  /** Rows of a depth come from rows of every smaller depth. */
  lemma {:induction false} ShallowerRowExists<T(!new)>(hops: set<(T, T)>, root: T, key: T -> string, r: Row<T>,
                                                       depth: int)
    requires 1 <= depth <= r.depth && IsRow(hops, root, key, r)
    ensures exists l: Row<T> :: l.depth == depth && IsRow(hops, root, key, l)
    decreases r.depth
  {
    if depth < r.depth {
      var p :| Records(hops, root, key, r, p);
      var l, h := ParentRow(hops, root, key, r, p);
      ShallowerRowExists(hops, root, key, l, depth);
    }
  }

  lemma {:induction false} RecurseIsExact<T(!new)>(hops: set<(T, T)>, root: T, key: T -> string, cap: int,
                                                   work: set<Row<T>>, depth: int)
    requires 1 <= depth && Exact(hops, root, key, work, depth)
    ensures forall r :: r in Recurse(hops, key, cap, work, depth)
                        <==> depth <= r.depth <= Max(depth, cap) && IsRow(hops, root, key, r)
    decreases if depth < cap then cap - depth + 1 else 0
  {
    if work == {} {
      forall r: Row<T> | IsRow(hops, root, key, r)
        ensures r.depth < depth
      {
        if depth <= r.depth {
          ShallowerRowExists(hops, root, key, r, depth);
        }
      }
    } else if depth < cap {
      ExtendIsExact(hops, root, key, cap, work, depth);
      RecurseIsExact(hops, root, key, cap, Extend(hops, key, cap, work), depth + 1);
    } else {
      assert Extend(hops, key, cap, work) == {};
    }
  }

  /** The deepest depth the query can report. The base term ignores the bound, so it is never below 1. */
  function DepthCap(maxDepth: int): int {
    Max(1, Min(maxDepth, 25))
  }

  /** For every key function: a (node, depth) pair is returned exactly when a guarded walk of that length leads
      there. */
  lemma TraverseExact<T(!new)>(table: set<Edge<T>>, direction: string, root: T, key: T -> string, asOf: Option<int>,
                               maxDepth: int, x: T, d: int)
    ensures (x, d) in Traverse(table, direction, root, key, asOf, maxDepth)
            <==> 1 <= d <= DepthCap(maxDepth)
                 && exists p :: WalkFromTo(Hops(table, direction, asOf), root, x, p) && |p| == d + 1 && Guarded(key, p)
  {
    var hops := Hops(table, direction, asOf);
    var cap := Min(maxDepth, 25);
    BaseIsExact(hops, root, key);
    RecurseIsExact(hops, root, key, cap, Base(hops, root, key), 1);
    var all := Recurse(hops, key, cap, Base(hops, root, key), 1);
    if (x, d) in Traverse(table, direction, root, key, asOf, maxDepth) {
      var r :| r in all && (r.node, r.depth) == (x, d);
      var p :| Records(hops, root, key, r, p);
      assert Guarded(key, p);
    }
    if p :| 1 <= d <= DepthCap(maxDepth) && WalkFromTo(hops, root, x, p) && |p| == d + 1 && Guarded(key, p) {
      var r := Row(x, d, Keys(key, p));
      assert Records(hops, root, key, r, p);
      assert r in all;
    }
  }

  // ----- Agreement with reachability -----

  ghost predicate KeyInjective<T(!new)>(hops: set<(T, T)>, root: T, key: T -> string) {
    forall p, i, j | IsWalk(hops, p) && p[0] == root && 0 <= i < |p| && 0 <= j < |p| && key(p[i]) == key(p[j]) ::
      p[i] == p[j]
  }

  /** x is reachable from root in between 1 and n hops. */
  ghost predicate WithinHops<T(!new)>(hops: set<(T, T)>, root: T, x: T, n: int) {
    exists p :: WalkFromTo(hops, root, x, p) && 1 <= |p| - 1 <= n
  }

  ghost predicate Named<T(!new)>(result: set<(T, int)>, x: T) {
    exists d :: (x, d) in result
  }

  /** Bounded reachability, on cyclic graphs too: a node other than the root is returned exactly when some
      walk within the cap reaches it, every reported depth is the length of a walk, and no walk is
      shorter than the least reported depth. */
  lemma TraverseIsBoundedReachability<T(!new)>(table: set<Edge<T>>, direction: string, root: T, key: T -> string,
                                               asOf: Option<int>, maxDepth: int, x: T)
    requires x != root && KeyInjective(Hops(table, direction, asOf), root, key)
    ensures var result, hops := Traverse(table, direction, root, key, asOf, maxDepth), Hops(table, direction, asOf);
            && (Named(result, x) <==> WithinHops(hops, root, x, DepthCap(maxDepth)))
            && (forall d | (x, d) in result :: exists p :: WalkFromTo(hops, root, x, p) && |p| - 1 == d)
            && (forall p | WalkFromTo(hops, root, x, p) && |p| - 1 <= DepthCap(maxDepth)
                  :: exists d :: (x, d) in result && d <= |p| - 1)
  {
    var result, hops := Traverse(table, direction, root, key, asOf, maxDepth), Hops(table, direction, asOf);
    forall d | (x, d) in result
      ensures 1 <= d <= DepthCap(maxDepth)
      ensures exists p :: WalkFromTo(hops, root, x, p) && |p| - 1 == d
    {
      TraverseExact(table, direction, root, key, asOf, maxDepth, x, d);
      var p :| WalkFromTo(hops, root, x, p) && |p| == d + 1 && Guarded(key, p);
    }
    forall p | WalkFromTo(hops, root, x, p) && |p| - 1 <= DepthCap(maxDepth)
      ensures exists d :: (x, d) in result && d <= |p| - 1
    {
      var q := CutLoops(hops, root, x, p);
      assert Guarded(key, q);
      TraverseExact(table, direction, root, key, asOf, maxDepth, x, |q| - 1);
    }
  }

  /** The root itself is returned only for a self-loop, at depth 1. */
  lemma RootOnlyBySelfLoop<T(!new)>(table: set<Edge<T>>, direction: string, root: T, key: T -> string,
                                    asOf: Option<int>, maxDepth: int, d: int)
    ensures (root, d) in Traverse(table, direction, root, key, asOf, maxDepth)
            <==> d == 1 && (root, root) in Hops(table, direction, asOf)
  {
    var hops := Hops(table, direction, asOf);
    TraverseExact(table, direction, root, key, asOf, maxDepth, root, d);
    if (root, root) in hops {
      assert WalkFromTo(hops, root, root, [root, root]);
    }
    if p :| WalkFromTo(hops, root, root, p) && |p| == d + 1 && d >= 1 && Guarded(key, p) {
      assert (p[0], p[1]) in hops;
    }
  }

  /** Asset names are their own keys. */
  lemma AssetKeysInjective(hops: set<(string, string)>, root: string)
    ensures KeyInjective(hops, root, AssetKey)
  {
  }

  // ----- The column key -----

  lemma LastDot(a: string, x: string)
    requires '.' !in x
    ensures var s := a + "." + x; s[|a|] == '.' && forall k | |a| < k < |s| :: s[k] != '.'
  {
    var s := a + "." + x;
    forall k | |a| < k < |s|
      ensures s[k] != '.'
    {
      assert s[k] == x[k - |a| - 1];
    }
  }

  lemma DotSplitUnique(a: string, x: string, b: string, y: string)
    requires '.' !in x && '.' !in y && a + "." + x == b + "." + y
    ensures a == b && x == y
  {
    var s := a + "." + x;
    assert s == b + "." + y;
    LastDot(a, x);
    LastDot(b, y);
    assert s[..|a|] == a && s[..|b|] == b && s[|a| + 1..] == x && s[|b| + 1..] == y;
  }

  /** Column keys are injective when no column name contains a dot; asset names may. */
  lemma ColumnKeysInjective(hops: set<(Column, Column)>, root: Column)
    requires '.' !in root.name && forall h | h in hops :: '.' !in h.1.name
    ensures KeyInjective(hops, root, ColumnKey)
  {
    forall p: seq<Column>, i, j | IsWalk(hops, p) && p[0] == root && 0 <= i < |p| && 0 <= j < |p|
                                  && ColumnKey(p[i]) == ColumnKey(p[j])
      ensures p[i] == p[j]
    {
      assert i > 0 ==> (p[i - 1], p[i]) in hops;
      assert j > 0 ==> (p[j - 1], p[j]) in hops;
      DotSplitUnique(p[i].asset, p[i].name, p[j].asset, p[j].name);
    }
  }

  // ----- When column traversal is right -----

  /** A visible edge whose hop is h. */
  function EdgeOf(direction: string, asOf: Option<int>, h: (Column, Column)): (e: Edge<Column>)
    ensures Visible(e, asOf) && Hop(direction, e) == h
  {
    var at := if asOf.Some? then asOf.value else 0;
    if direction == "downstream" then Edge(h.0, h.1, at, None) else Edge(h.1, h.0, at, None)
  }

  /** Two columns with one key make the guard hide a reachable column. */
  lemma CollidingKeysHideColumn(root: Column, a: Column, b: Column, direction: string, asOf: Option<int>, maxDepth: int)
    requires ColumnKey(a) == ColumnKey(b) && a != b && root != a && root != b
    ensures var table := {EdgeOf(direction, asOf, (root, a)), EdgeOf(direction, asOf, (a, b))};
            && WithinHops(Hops(table, direction, asOf), root, b, 2)
            && !Named(Traverse(table, direction, root, ColumnKey, asOf, maxDepth), b)
  {
    var e, f := EdgeOf(direction, asOf, (root, a)), EdgeOf(direction, asOf, (a, b));
    var hops := Hops({e, f}, direction, asOf);
    assert hops == {(root, a), (a, b)} by {
      assert Hop(direction, e) == (root, a) && Hop(direction, f) == (a, b);
    }
    var w := [root, a, b];
    assert WalkFromTo(hops, root, b, w);
    forall p | WalkFromTo(hops, root, b, p) && |p| >= 2
      ensures !Guarded(ColumnKey, p)
    {
      var k := |p| - 2;
      assert (p[k], p[k + 1]) in hops;
      assert ColumnKey(p[k]) == ColumnKey(p[k + 1]);
    }
    forall d
      ensures (b, d) !in Traverse({e, f}, direction, root, ColumnKey, asOf, maxDepth)
    {
      TraverseExact({e, f}, direction, root, ColumnKey, asOf, maxDepth, b, d);
    }
  }

  ghost predicate KeysDiffer(columns: set<Column>) {
    forall a, b | a in columns && b in columns && ColumnKey(a) == ColumnKey(b) :: a == b
  }

  ghost predicate Over(table: set<Edge<Column>>, columns: set<Column>) {
    forall e | e in table :: e.from in columns && e.to in columns
  }

  /** The traversal names x exactly when some walk within its cap reaches x. */
  ghost predicate Finds(table: set<Edge<Column>>, direction: string, root: Column, asOf: Option<int>, depth: int,
                        x: Column) {
    Named(Traverse(table, direction, root, ColumnKey, asOf, depth), x)
    == WithinHops(Hops(table, direction, asOf), root, x, DepthCap(depth))
  }

  ghost predicate RightOver(columns: set<Column>, direction: string, asOf: Option<int>) {
    forall table, root, depth, x | Over(table, columns) && root in columns && x != root ::
      Finds(table, direction, root, asOf, depth, x)
  }

  lemma WalkStaysOver(table: set<Edge<Column>>, columns: set<Column>, direction: string, asOf: Option<int>,
                      p: seq<Column>, i: nat)
    requires Over(table, columns) && IsWalk(Hops(table, direction, asOf), p) && p[0] in columns && i < |p|
    ensures p[i] in columns
  {
    if i > 0 {
      assert (p[i - 1], p[i]) in Hops(table, direction, asOf);
    }
  }

  lemma RightWhenKeysDiffer(columns: set<Column>, table: set<Edge<Column>>, direction: string, root: Column,
                            asOf: Option<int>, depth: int, x: Column)
    requires KeysDiffer(columns) && Over(table, columns) && root in columns && x != root
    ensures Finds(table, direction, root, asOf, depth, x)
  {
    var hops := Hops(table, direction, asOf);
    forall p: seq<Column>, i, j | IsWalk(hops, p) && p[0] == root && 0 <= i < |p| && 0 <= j < |p|
                                  && ColumnKey(p[i]) == ColumnKey(p[j])
      ensures p[i] == p[j]
    {
      WalkStaysOver(table, columns, direction, asOf, p, i);
      WalkStaysOver(table, columns, direction, asOf, p, j);
    }
    TraverseIsBoundedReachability(table, direction, root, ColumnKey, asOf, depth, x);
  }

  /** A walk between the only two columns there are takes the hop between them. */
  lemma {:induction false} TwoColumnsOneHop(hops: set<(Column, Column)>, root: Column, x: Column, p: seq<Column>)
    requires WalkFromTo(hops, root, x, p) && root != x && forall i | 0 <= i < |p| :: p[i] == root || p[i] == x
    ensures (root, x) in hops
    decreases |p|
  {
    assert (p[0], p[1]) in hops;
    if p[1] == root {
      var q := p[1..];
      forall i {:trigger q[i]} | 0 <= i < |q| - 1
        ensures (q[i], q[i + 1]) in hops
      {
        assert (p[i + 1], p[i + 2]) in hops;
      }
      TwoColumnsOneHop(hops, root, x, q);
    }
  }

  lemma RightOverTwo(columns: set<Column>, table: set<Edge<Column>>, direction: string, root: Column,
                     asOf: Option<int>, depth: int, x: Column)
    requires |columns| <= 2 && Over(table, columns) && root in columns && x != root
    ensures Finds(table, direction, root, asOf, depth, x)
  {
    var hops := Hops(table, direction, asOf);
    if p :| WalkFromTo(hops, root, x, p) && 1 <= |p| - 1 <= DepthCap(depth) {
      forall i | 0 <= i < |p|
        ensures p[i] == root || p[i] == x
      {
        WalkStaysOver(table, columns, direction, asOf, p, i);
        WalkStaysOver(table, columns, direction, asOf, p, |p| - 1);
        if p[i] != root && p[i] != x {
          assert {root, x, p[i]} <= columns;
          SubsetSize({root, x, p[i]}, columns);
        }
      }
      TwoColumnsOneHop(hops, root, x, p);
      assert WalkFromTo(hops, root, x, [root, x]);
      TraverseExact(table, direction, root, ColumnKey, asOf, depth, x, 1);
    }
    if d :| (x, d) in Traverse(table, direction, root, ColumnKey, asOf, depth) {
      TraverseExact(table, direction, root, ColumnKey, asOf, depth, x, d);
    }
  }

  lemma {:induction false} SubsetSize<T>(a: set<T>, b: set<T>)
    requires a <= b
    ensures |a| <= |b|
  {
    assert b == a + (b - a);
  }

  /** Over a given set of columns the traversal is right for every edge table, root and depth if and only if the set has
      no more than two columns or no two of them share a key. */
  lemma ColumnTraversalExactly(columns: set<Column>, direction: string, asOf: Option<int>)
    ensures RightOver(columns, direction, asOf) <==> |columns| <= 2 || KeysDiffer(columns)
  {
    if |columns| <= 2 || KeysDiffer(columns) {
      forall table, root, depth, x | Over(table, columns) && root in columns && x != root
        ensures Finds(table, direction, root, asOf, depth, x)
      {
        if |columns| <= 2 {
          RightOverTwo(columns, table, direction, root, asOf, depth, x);
        } else {
          RightWhenKeysDiffer(columns, table, direction, root, asOf, depth, x);
        }
      }
    } else {
      var a, b :| a in columns && b in columns && ColumnKey(a) == ColumnKey(b) && a != b;
      var root := ThirdColumn(columns, a, b);
      var table := {EdgeOf(direction, asOf, (root, a)), EdgeOf(direction, asOf, (a, b))};
      CollidingKeysHideColumn(root, a, b, direction, asOf, 2);
      assert Over(table, columns);
      assert !Finds(table, direction, root, asOf, 2, b);
    }
  }

  lemma ThirdColumn(columns: set<Column>, a: Column, b: Column) returns (c: Column)
    requires |columns| > 2
    ensures c in columns && c != a && c != b
  {
    if columns <= {a, b} {
      SubsetSize(columns, {a, b});
    }
    c :| c in columns && c !in {a, b};
  }

  // ----- The neighborhood query -----

  function NeighborExtend(hops: set<(string, string)>, depth: int, work: set<(string, int)>): set<(string, int)> {
    set n, h | n in work && h in hops && h.0 == n.0 && n.1 < depth :: (h.1, n.1 + 1)
  }

  function NeighborRecurse(hops: set<(string, string)>, depth: int, work: set<(string, int)>, at: int)
    : set<(string, int)>
    requires forall n | n in work :: n.1 == at
    decreases if at < depth then depth - at + 1 else if work == {} then 0 else 1
  {
    if work == {} then {} else work + NeighborRecurse(hops, depth, NeighborExtend(hops, depth, work), at + 1)
  }

  /** NeighborhoodAssets before ORDER BY and LIMIT. */
  function Neighborhood(table: set<Edge<string>>, root: string, depth: int): set<(string, int)> {
    var hops := Hops(table, "downstream", None);
    NeighborRecurse(hops, depth, set h | h in hops && h.0 == root :: (h.1, 1), 1)
  }

  ghost predicate WalkOfLength(hops: set<(string, string)>, root: string, x: string, n: int) {
    exists p :: WalkFromTo(hops, root, x, p) && |p| == n + 1
  }

  lemma LongerWalk(hops: set<(string, string)>, root: string, x: string, n: nat)
    ensures WalkOfLength(hops, root, x, n + 1) <==> exists y :: (y, x) in hops && WalkOfLength(hops, root, y, n)
  {
    if WalkOfLength(hops, root, x, n + 1) {
      var p :| WalkFromTo(hops, root, x, p) && |p| == n + 2;
      assert (p[n], p[n + 1]) in hops;
      assert WalkFromTo(hops, root, p[n], p[..n + 1]);
    }
    forall y | (y, x) in hops && WalkOfLength(hops, root, y, n)
      ensures WalkOfLength(hops, root, x, n + 1)
    {
      var p :| WalkFromTo(hops, root, y, p) && |p| == n + 1;
      StepWalk(hops, root, y, x, p);
    }
  }

  lemma {:induction false} WalksHavePrefixes(hops: set<(string, string)>, root: string, x: string, n: nat, m: nat)
    requires WalkOfLength(hops, root, x, n) && m <= n
    ensures exists y :: WalkOfLength(hops, root, y, m)
    decreases n
  {
    if m < n {
      LongerWalk(hops, root, x, n - 1);
      var y :| (y, x) in hops && WalkOfLength(hops, root, y, n - 1);
      WalksHavePrefixes(hops, root, y, n - 1, m);
    }
  }

  lemma {:induction false} NeighborRecurseExact(hops: set<(string, string)>, root: string, depth: int,
                                                work: set<(string, int)>, at: nat)
    requires at >= 1 && forall n :: n in work <==> n.1 == at && WalkOfLength(hops, root, n.0, at)
    ensures forall n :: n in NeighborRecurse(hops, depth, work, at)
                        <==> at <= n.1 <= Max(at, depth) && WalkOfLength(hops, root, n.0, n.1)
    decreases if at < depth then depth - at + 1 else 0
  {
    if work == {} {
      forall y
        ensures !WalkOfLength(hops, root, y, at)
      {
        assert (y, at) !in work;
      }
      forall n: (string, int) | WalkOfLength(hops, root, n.0, n.1)
        ensures n.1 < at
      {
        if at <= n.1 {
          WalksHavePrefixes(hops, root, n.0, n.1, at);
        }
      }
    } else if at < depth {
      var next := NeighborExtend(hops, depth, work);
      forall n: (string, int)
        ensures n in next <==> n.1 == at + 1 && WalkOfLength(hops, root, n.0, at + 1)
      {
        LongerWalk(hops, root, n.0, at);
        if n.1 == at + 1 && WalkOfLength(hops, root, n.0, at + 1) {
          var y :| (y, n.0) in hops && WalkOfLength(hops, root, y, at);
          assert (y, at) in work && (y, n.0) in hops;
        }
      }
      NeighborRecurseExact(hops, root, depth, next, at + 1);
    } else {
      assert NeighborExtend(hops, depth, work) == {};
    }
  }

  /** The neighborhood query names every walk's end with the walk's length, loops included. */
  lemma NeighborhoodExact(table: set<Edge<string>>, root: string, depth: int, x: string, d: int)
    ensures (x, d) in Neighborhood(table, root, depth)
            <==> 1 <= d <= Max(1, depth) && WalkOfLength(Hops(table, "downstream", None), root, x, d)
  {
    var hops := Hops(table, "downstream", None);
    var work := set h | h in hops && h.0 == root :: (h.1, 1);
    forall n: (string, int)
      ensures n in work <==> n.1 == 1 && WalkOfLength(hops, root, n.0, 1)
    {
      assert WalkFromTo(hops, root, root, [root]);
      LongerWalk(hops, root, n.0, 0);
      if n.1 == 1 && WalkOfLength(hops, root, n.0, 1) {
        var y :| (y, n.0) in hops && WalkOfLength(hops, root, y, 0);
      }
    }
    NeighborRecurseExact(hops, root, depth, work, 1);
  }

  lemma NeighborhoodIsBoundedReachability(table: set<Edge<string>>, root: string, depth: int, x: string)
    ensures Named(Neighborhood(table, root, depth), x)
            <==> WithinHops(Hops(table, "downstream", None), root, x, Max(1, depth))
  {
    var hops := Hops(table, "downstream", None);
    if p :| WalkFromTo(hops, root, x, p) && 1 <= |p| - 1 <= Max(1, depth) {
      NeighborhoodExact(table, root, depth, x, |p| - 1);
    }
    if d :| (x, d) in Neighborhood(table, root, depth) {
      NeighborhoodExact(table, root, depth, x, d);
      var p :| WalkFromTo(hops, root, x, p) && |p| == d + 1;
    }
  }

  lemma AssetTraversalIsBoundedReachability(table: set<Edge<string>>, root: string, depth: int, x: string)
    requires x != root
    ensures Named(Traverse(table, "downstream", root, AssetKey, None, depth), x)
            <==> WithinHops(Hops(table, "downstream", None), root, x, DepthCap(depth))
  {
    AssetKeysInjective(Hops(table, "downstream", None), root);
    TraverseIsBoundedReachability(table, "downstream", root, AssetKey, None, depth, x);
  }

  /** At every depth the guarded traversal names the same non-root assets as the unguarded query at
      that depth, up to the traversal's ceiling of 25. */
  lemma TraversalAgreesWithNeighborhood(table: set<Edge<string>>, root: string, depth: int, x: string)
    requires x != root
    ensures Named(Traverse(table, "downstream", root, AssetKey, None, depth), x)
            <==> Named(Neighborhood(table, root, Min(depth, 25)), x)
  {
    AssetTraversalIsBoundedReachability(table, root, depth, x);
    NeighborhoodIsBoundedReachability(table, root, Min(depth, 25), x);
  }

  /** The two queries, asked for one depth, name the same non-root assets. */
  ghost predicate QueriesAgree(table: set<Edge<string>>, root: string, depth: int) {
    forall x | x != root ::
      Named(Traverse(table, "downstream", root, AssetKey, None, depth), x) == Named(Neighborhood(table, root, depth), x)
  }

  /** Asked for any one depth, beyond the ceiling too, they do so exactly when every non-root asset reached within that
      depth is reached within 25 hops. */
  lemma QueriesAgreeExactly(table: set<Edge<string>>, root: string, depth: int)
    ensures QueriesAgree(table, root, depth)
      <==> forall x | x != root && WithinHops(Hops(table, "downstream", None), root, x, depth) ::
             WithinHops(Hops(table, "downstream", None), root, x, 25)
  {
    var hops := Hops(table, "downstream", None);
    forall x | x != root
      ensures Named(Traverse(table, "downstream", root, AssetKey, None, depth), x)
              <==> WithinHops(hops, root, x, DepthCap(depth))
      ensures Named(Neighborhood(table, root, depth), x) <==> WithinHops(hops, root, x, Max(1, depth))
    {
      AssetTraversalIsBoundedReachability(table, root, depth, x);
      NeighborhoodIsBoundedReachability(table, root, depth, x);
    }
    forall x
      ensures WithinHops(hops, root, x, DepthCap(depth)) ==> WithinHops(hops, root, x, 25)
      ensures WithinHops(hops, root, x, DepthCap(depth)) ==> WithinHops(hops, root, x, Max(1, depth))
    {
      if p :| WalkFromTo(hops, root, x, p) && 1 <= |p| - 1 <= DepthCap(depth) {
        assert |p| - 1 <= 25 && |p| - 1 <= Max(1, depth);
      }
    }
  }

  // ----- In the table's own terms -----

  /** A row counts without an as-of time while nothing has superseded it; as of a time, from when it was first seen
      until it was superseded. */
  ghost predicate Live<T>(e: Edge<T>, asOf: Option<int>) {
    if asOf.None? then e.supersededAt.None?
    else e.firstSeenAt <= asOf.value && (e.supersededAt.Some? ==> e.supersededAt.value > asOf.value)
  }

  /** Rows of the table, each live, that lead from root to x: downstream from each row's `from` to its `to`, in any
      other direction from `to` to `from`. */
  ghost predicate IsChain<T(!new)>(table: set<Edge<T>>, direction: string, asOf: Option<int>, root: T, x: T,
                                   rows: seq<Edge<T>>) {
    && |rows| >= 1 && (forall e | e in rows :: e in table && Live(e, asOf))
    && if direction == "downstream" then
         rows[0].from == root && rows[|rows| - 1].to == x && forall i, j | 0 <= i < j < |rows| && j == i + 1 ::
           rows[i].to == rows[j].from
       else
         rows[0].to == root && rows[|rows| - 1].from == x && forall i, j | 0 <= i < j < |rows| && j == i + 1 ::
           rows[i].from == rows[j].to
  }

  lemma HopIsRow<T(!new)>(table: set<Edge<T>>, direction: string, asOf: Option<int>, u: T, v: T)
    ensures (u, v) in Hops(table, direction, asOf)
      <==> exists e :: e in table && Live(e, asOf)
             && (if direction == "downstream" then e.from == u && e.to == v else e.to == u && e.from == v)
  {
    if (u, v) in Hops(table, direction, asOf) {
      var e :| e in table && Visible(e, asOf) && Hop(direction, e) == (u, v);
    }
    forall e | e in table && Live(e, asOf)
               && (if direction == "downstream" then e.from == u && e.to == v else e.to == u && e.from == v)
      ensures (u, v) in Hops(table, direction, asOf)
    {
      assert Visible(e, asOf) && Hop(direction, e) == (u, v);
    }
  }

  /** Where a row starts and ends in this direction. */
  function Start<T>(direction: string, e: Edge<T>): T {
    if direction == "downstream" then e.from else e.to
  }

  function End<T>(direction: string, e: Edge<T>): T {
    if direction == "downstream" then e.to else e.from
  }

  lemma AppendRow<T(!new)>(table: set<Edge<T>>, direction: string, asOf: Option<int>, root: T, y: T,
                           rows: seq<Edge<T>>, e: Edge<T>)
    requires IsChain(table, direction, asOf, root, y, rows) && e in table && Live(e, asOf) && Start(direction, e) == y
    ensures IsChain(table, direction, asOf, root, End(direction, e), rows + [e])
  {
    var more := rows + [e];
    assert forall i | 0 <= i < |rows| :: more[i] == rows[i];
  }

  lemma WalkPrefix<T(!new)>(hops: set<(T, T)>, root: T, p: seq<T>, k: nat)
    requires IsWalk(hops, p) && p[0] == root && k < |p|
    ensures WalkFromTo(hops, root, p[k], p[..k + 1])
  {}

  lemma {:induction false} ChainOfWalk<T(!new)>(table: set<Edge<T>>, direction: string, asOf: Option<int>, root: T,
                                                x: T, p: seq<T>) returns (rows: seq<Edge<T>>)
    requires WalkFromTo(Hops(table, direction, asOf), root, x, p) && |p| >= 2
    ensures IsChain(table, direction, asOf, root, x, rows) && |rows| == |p| - 1
    decreases |p|
  {
    var k := |p| - 2;
    var e := RowOfHop(table, direction, asOf, p[k], p[k + 1]);
    if k == 0 {
      rows := [e];
    } else {
      WalkPrefix(Hops(table, direction, asOf), root, p, k);
      var front := ChainOfWalk(table, direction, asOf, root, p[k], p[..k + 1]);
      AppendRow(table, direction, asOf, root, p[k], front, e);
      rows := front + [e];
    }
  }

  lemma RowOfHop<T(!new)>(table: set<Edge<T>>, direction: string, asOf: Option<int>, u: T, v: T) returns (e: Edge<T>)
    requires (u, v) in Hops(table, direction, asOf)
    ensures e in table && Live(e, asOf) && Start(direction, e) == u && End(direction, e) == v
  {
    HopIsRow(table, direction, asOf, u, v);
    e :| e in table && Live(e, asOf)
         && (if direction == "downstream" then e.from == u && e.to == v else e.to == u && e.from == v);
  }

  lemma {:induction false} WalkOfChain<T(!new)>(table: set<Edge<T>>, direction: string, asOf: Option<int>, root: T,
                                                x: T, rows: seq<Edge<T>>) returns (p: seq<T>)
    requires IsChain(table, direction, asOf, root, x, rows)
    ensures WalkFromTo(Hops(table, direction, asOf), root, x, p) && |p| == |rows| + 1
    decreases |rows|
  {
    var n := |rows| - 1;
    var e := rows[n];
    assert e in rows;
    HopIsRow(table, direction, asOf, Start(direction, e), x);
    if n == 0 {
      p := [root, x];
    } else {
      var y := End(direction, rows[n - 1]);
      assert IsChain(table, direction, asOf, root, y, rows[..n]);
      var front := WalkOfChain(table, direction, asOf, root, y, rows[..n]);
      StepWalk(Hops(table, direction, asOf), root, y, x, front);
      p := front + [x];
    }
  }

  /** x can be reached over at most n live rows. */
  ghost predicate Chained<T(!new)>(table: set<Edge<T>>, direction: string, asOf: Option<int>, root: T, x: T, n: int) {
    exists rows :: IsChain(table, direction, asOf, root, x, rows) && |rows| <= n
  }

  lemma ChainsAreWalks<T(!new)>(table: set<Edge<T>>, direction: string, asOf: Option<int>, root: T, x: T, n: int)
    ensures WithinHops(Hops(table, direction, asOf), root, x, n) <==> Chained(table, direction, asOf, root, x, n)
  {
    if p :| WalkFromTo(Hops(table, direction, asOf), root, x, p) && 1 <= |p| - 1 <= n {
      var rows := ChainOfWalk(table, direction, asOf, root, x, p);
    }
    if rows :| IsChain(table, direction, asOf, root, x, rows) && |rows| <= n {
      var p := WalkOfChain(table, direction, asOf, root, x, rows);
    }
  }

  /** The asset traversal in the table's own terms: it names an asset other than the root exactly when a chain of live
      rows leads there whose length is at most the requested depth, at most 25, or 1. */
  lemma AssetsByRows(table: set<Edge<string>>, direction: string, root: string, asOf: Option<int>, depth: int,
                     x: string)
    requires x != root
    ensures (exists d :: (x, d) in Traverse(table, direction, root, AssetKey, asOf, depth))
      <==> Chained(table, direction, asOf, root, x, if depth < 1 then 1 else if depth < 25 then depth else 25)
  {
    AssetKeysInjective(Hops(table, direction, asOf), root);
    TraverseIsBoundedReachability(table, direction, root, AssetKey, asOf, depth, x);
    ChainsAreWalks(table, direction, asOf, root, x, DepthCap(depth));
    assert Named(Traverse(table, direction, root, AssetKey, asOf, depth), x)
           == exists d :: (x, d) in Traverse(table, direction, root, AssetKey, asOf, depth);
  }

  /** The column traversal likewise, over columns no two of which have one joined name. */
  lemma ColumnsByRows(columns: set<Column>, table: set<Edge<Column>>, direction: string, root: Column,
                      asOf: Option<int>, depth: int, x: Column)
    requires forall a, b | a in columns && b in columns && a.asset + "." + a.name == b.asset + "." + b.name :: a == b
    requires (forall e | e in table :: e.from in columns && e.to in columns) && root in columns && x != root
    ensures (exists d :: (x, d) in Traverse(table, direction, root, ColumnKey, asOf, depth))
      <==> Chained(table, direction, asOf, root, x, if depth < 1 then 1 else if depth < 25 then depth else 25)
  {
    RightWhenKeysDiffer(columns, table, direction, root, asOf, depth, x);
    ChainsAreWalks(table, direction, asOf, root, x, DepthCap(depth));
    assert Named(Traverse(table, direction, root, ColumnKey, asOf, depth), x)
           == exists d :: (x, d) in Traverse(table, direction, root, ColumnKey, asOf, depth);
  }

  /** The neighborhood query: exactly the ends of chains of active rows, downstream, the root included, at every chain's
      length up to the depth. */
  lemma NeighborsByRows(table: set<Edge<string>>, root: string, depth: int, x: string, d: int)
    ensures (x, d) in Neighborhood(table, root, depth)
      <==> (d == 1 || 1 <= d <= depth)
           && exists rows :: IsChain(table, "downstream", None, root, x, rows) && |rows| == d
  {
    NeighborhoodExact(table, root, depth, x, d);
    var hops := Hops(table, "downstream", None);
    if d >= 1 && WalkOfLength(hops, root, x, d) {
      var p :| WalkFromTo(hops, root, x, p) && |p| == d + 1;
      var rows := ChainOfWalk(table, "downstream", None, root, x, p);
    }
    if rows :| IsChain(table, "downstream", None, root, x, rows) && |rows| == d {
      var p := WalkOfChain(table, "downstream", None, root, x, rows);
    }
  }

  /** Superseded rows change no answer that is not asked for as of a time. */
  lemma SupersededRowsAreUnread<T(!new)>(table: set<Edge<T>>, old_: set<Edge<T>>, direction: string, root: T,
                                         key: T -> string, depth: int)
    requires forall e | e in old_ :: e.supersededAt.Some?
    ensures Traverse(table + old_, direction, root, key, None, depth)
            == Traverse(table, direction, root, key, None, depth)
  {
    assert Hops(table + old_, direction, None) == Hops(table, direction, None);
  }

  lemma SupersededRowsAreNoNeighbors(table: set<Edge<string>>, old_: set<Edge<string>>, root: string, depth: int)
    requires forall e | e in old_ :: e.supersededAt.Some?
    ensures Neighborhood(table + old_, root, depth) == Neighborhood(table, root, depth)
  {
    assert Hops(table + old_, "downstream", None) == Hops(table, "downstream", None);
  }
}
