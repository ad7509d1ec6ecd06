/** Listing the keys of consecutive windows, for any key, window and first-day functions. */
module Listings {

  /** Keys name windows, windows follow one another, and each has a first day. */
  ghost predicate Lawful(key: int -> string, window: int -> int, first: int -> int) {
    && (forall m, n :: key(m) == key(n) <==> window(m) == window(n))
    && (forall m, n :: m <= n ==> window(m) <= window(n))
    && (forall w :: window(first(w)) == w)
  }

  lemma LawAt(key: int -> string, window: int -> int, first: int -> int, m: int, n: int)
    requires Lawful(key, window, first)
    ensures key(m) == key(n) <==> window(m) == window(n)
  {}

  /** The keys of the first days of windows v..w. */
  function Listing(key: int -> string, first: int -> int, v: int, w: int): (keys: seq<string>)
    ensures |keys| == if v <= w then w - v + 1 else 0
    ensures forall i | 0 <= i < |keys| :: keys[i] == key(first(v + i))
    decreases w - v
  {
    if v > w then [] else Listing(key, first, v, w - 1) + [key(first(w))]
  }

  lemma ListingIsExact(key: int -> string, window: int -> int, first: int -> int, a: int, b: int, k: string)
    requires Lawful(key, window, first) && a <= b
    ensures k in Listing(key, first, window(a), window(b)) <==> exists n :: a <= n <= b && key(n) == k
  {
    var v, w := window(a), window(b);
    var keys := Listing(key, first, v, w);
    if k in keys {
      var i :| 0 <= i < |keys| && keys[i] == k;
      var n := if i == 0 then a else if v + i == w then b else first(v + i);
      assert window(first(v + i)) == v + i;
      assert window(n) == v + i && a <= n <= b;
      LawAt(key, window, first, n, first(v + i));
    }
    if n :| a <= n <= b && key(n) == k {
      assert v <= window(n) <= w;
      assert window(first(window(n))) == window(n);
      LawAt(key, window, first, n, first(window(n)));
      assert keys[window(n) - v] == key(first(v + (window(n) - v)));
    }
  }

  lemma ListingIsChronological(key: int -> string, window: int -> int, first: int -> int, v: int, w: int,
                               i: nat, j: nat, m: int, n: int)
    requires Lawful(key, window, first)
    requires var keys := Listing(key, first, v, w); i < |keys| && j < |keys| && key(m) == keys[i] && key(n) == keys[j]
    ensures i < j ==> m < n
    ensures key(m) == key(n) <==> i == j
  {
    LawAt(key, window, first, m, n);
    assert window(first(v + i)) == v + i && window(first(v + j)) == v + j;
    LawAt(key, window, first, m, first(v + i));
    LawAt(key, window, first, n, first(v + j));
    assert n <= m ==> window(n) <= window(m);
  }
}
