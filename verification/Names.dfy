/** Sorted lists of names: the order of sort.Strings and the sorted keys of a map. */
module Names {

  /** The order of sort.Strings. */
  predicate Leq(a: string, b: string) {
    a == "" || (b != "" && (a[0] < b[0] || (a[0] == b[0] && Leq(a[1..], b[1..]))))
  }

  /** a and b agree up to position k, where a ends or has the smaller character. */
  predicate FirstDifference(a: string, b: string, k: int) {
    0 <= k <= |a| && k <= |b| && a[..k] == b[..k] && (k == |a| || (k < |b| && a[k] < b[k]))
  }

  lemma SameStart(a: string, b: string, k: int)
    requires FirstDifference(a, b, k)
    ensures k > 0 ==> a[0] == b[0]
  {
    if k > 0 {
      assert a[..k][0] == b[..k][0];
    }
  }

  lemma {:induction false} LeqExactly(a: string, b: string)
    ensures Leq(a, b) <==> exists k :: FirstDifference(a, b, k)
  {
    if a == "" || b == "" || a[0] != b[0] {
      assert Leq(a, b) <==> FirstDifference(a, b, 0);
      forall k | FirstDifference(a, b, k)
        ensures k == 0
      {
        SameStart(a, b, k);
      }
    } else {
      LeqExactly(a[1..], b[1..]);
      if k :| FirstDifference(a[1..], b[1..], k) {
        assert a[..k + 1] == [a[0]] + a[1..][..k] && b[..k + 1] == [b[0]] + b[1..][..k];
        assert FirstDifference(a, b, k + 1);
      }
      if k :| FirstDifference(a, b, k) {
        assert a[1..][..k - 1] == a[..k][1..] && b[1..][..k - 1] == b[..k][1..];
        assert FirstDifference(a[1..], b[1..], k - 1);
      }
    }
  }

  lemma {:induction false} LeqTotal(a: string, b: string)
    ensures Leq(a, b) || Leq(b, a)
    ensures Leq(a, b) && Leq(b, a) ==> a == b
  {
    if a != "" && b != "" && a[0] == b[0] {
      LeqTotal(a[1..], b[1..]);
      assert a == [a[0]] + a[1..] && b == [b[0]] + b[1..];
    }
  }

  lemma {:induction false} LeqTransitive(a: string, b: string, c: string)
    requires Leq(a, b) && Leq(b, c)
    ensures Leq(a, c)
  {
    if a != "" && a[0] == b[0] == c[0] {
      LeqTransitive(a[1..], b[1..], c[1..]);
    }
  }

  predicate StrictlySorted(names: seq<string>) {
    forall i, j | 0 <= i < j < |names| :: Leq(names[i], names[j]) && names[i] != names[j]
  }

  /** A finite set of names has one strictly sorted listing. */
  lemma {:induction false} SortedIsUnique(a: seq<string>, b: seq<string>)
    requires StrictlySorted(a) && StrictlySorted(b)
    requires forall x :: x in a <==> x in b
    ensures a == b
    decreases |a|
  {
    if a != [] {
      assert a[0] in a;
      assert a[0] in b;
    }
    if b != [] {
      assert b[0] in b;
      assert b[0] in a;
    }
    if a != [] {
      var i :| 0 <= i < |b| && b[i] == a[0];
      var j :| 0 <= j < |a| && a[j] == b[0];
      LeqTotal(a[0], b[0]);
      assert a[0] == b[0];
      forall x
        ensures x in a[1..] <==> x in b[1..]
      {
        assert x in a <==> x in b;
        assert x in a <==> x == a[0] || x in a[1..];
        assert x in b <==> x == b[0] || x in b[1..];
      }
      SortedIsUnique(a[1..], b[1..]);
    }
  }

  /** names with one more name put in its place. */
  function Insert(names: seq<string>, x: string): seq<string> {
    if names == [] then [x]
    else if Leq(x, names[0]) then [x] + names
    else [names[0]] + Insert(names[1..], x)
  }

  lemma {:induction false} InsertSorts(names: seq<string>, x: string)
    requires StrictlySorted(names) && x !in names
    ensures StrictlySorted(Insert(names, x))
    ensures forall y :: y in Insert(names, x) <==> y == x || y in names
  {
    if names != [] {
      LeqTotal(x, names[0]);
      if Leq(x, names[0]) {
        forall i | 0 <= i < |names|
          ensures Leq(x, names[i])
        {
          if i > 0 { LeqTransitive(x, names[0], names[i]); }
        }
      } else {
        InsertSorts(names[1..], x);
        var rest := Insert(names[1..], x);
        forall i | 0 <= i < |rest|
          ensures Leq(names[0], rest[i]) && names[0] != rest[i]
        {
          assert rest[i] in rest;
        }
      }
    }
  }

  ghost predicate Lists(names: seq<string>, keys: set<string>) {
    StrictlySorted(names) && forall x :: x in names <==> x in keys
  }

  lemma {:induction false} SomethingLists(keys: set<string>)
    ensures exists names :: Lists(names, keys)
  {
    if keys == {} {
      assert Lists([], keys);
    } else {
      var x :| x in keys;
      SomethingLists(keys - {x});
      var names :| Lists(names, keys - {x});
      InsertSorts(names, x);
      assert Lists(Insert(names, x), keys);
    }
  }

  /** The names of a set, sorted. */
  ghost function Sorted(keys: set<string>): (names: seq<string>)
    ensures Lists(names, keys)
  {
    SomethingLists(keys);
    var names :| Lists(names, keys); names
  }

  /** Go collects the keys of a map in any order and sorts them. */
  method SortedKeys(keys: set<string>) returns (names: seq<string>)
    ensures names == Sorted(keys)
  {
    names := [];
    var left := keys;
    while left != {}
      invariant left <= keys
      invariant Lists(names, keys - left)
    {
      var x :| x in left;
      InsertSorts(names, x);
      names := Insert(names, x);
      left := left - {x};
    }
    SortedIsUnique(names, Sorted(keys));
  }
}
