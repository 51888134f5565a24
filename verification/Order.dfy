// Sets of numbers and the order a listing reads them in.
//
// Every answer of the roaring modules is about a set: how many values it has, or which of them a
// page shows, from the smallest up or from the largest down. `Listing` is the one sequence that
// holds a set in a direction, and `Window` the part of it a page asks for.
module Order {

  /** Is `a` read before `b`? */
  predicate Before(a: nat, b: nat, descending: bool) { if descending then a > b else a < b }

  ghost predicate InOrder(q: seq<nat>, descending: bool) {
    forall i, j :: 0 <= i < j < |q| ==> Before(q[i], q[j], descending)
  }

  ghost predicate Ascending(q: seq<nat>) { forall i, j :: 0 <= i < j < |q| ==> q[i] < q[j] }

  ghost function Elements(q: seq<nat>): set<nat> { set x | x in q }

  lemma NoElements(q: seq<nat>)
    ensures Elements(q) == {} <==> q == []
  {
    if q != [] { assert q[0] in Elements(q); }
  }

  // ---------- the listing of a set ----------

  ghost function First(s: set<nat>, descending: bool): (x: nat)
    requires s != {}
    ensures x in s && forall y :: y in s && y != x ==> Before(x, y, descending)
  {
    var x :| x in s;
    if s == {x} then x else
      var rest := s - {x};
      assert s == rest + {x};
      var y := First(rest, descending);
      if Before(x, y, descending) then x else y
  }

  /** The values of `s` in reading order. */
  ghost function Listing(s: set<nat>, descending: bool): (q: seq<nat>)
    ensures InOrder(q, descending) && Elements(q) == s && |q| == |s|
  {
    if s == {} then [] else
      var x := First(s, descending);
      var rest := Listing(s - {x}, descending);
      Prepended(x, s, rest, descending);
      [x] + rest
  }

  lemma Prepended(x: nat, s: set<nat>, rest: seq<nat>, descending: bool)
    requires x in s && InOrder(rest, descending) && Elements(rest) == s - {x}
    requires forall y :: y in s && y != x ==> Before(x, y, descending)
    ensures InOrder([x] + rest, descending) && Elements([x] + rest) == s
  {
    var q := [x] + rest;
    assert forall i :: 0 <= i < |rest| ==> rest[i] in Elements(rest);
    forall y ensures y in Elements(q) <==> y in s {
      assert y in q <==> y == x || y in rest;
      assert y in rest <==> y in Elements(rest);
    }
  }

  /** A set has one listing in each direction. */
  lemma {:induction false} ListingUnique(p: seq<nat>, q: seq<nat>, descending: bool)
    requires InOrder(p, descending) && InOrder(q, descending) && Elements(p) == Elements(q)
    ensures p == q
    decreases |p|
  {
    NoElements(p);
    NoElements(q);
    if p != [] {
      assert p[0] in Elements(q);
      assert q[0] in Elements(q) && q[0] in Elements(p);
      assert p[0] == q[0];
      forall x ensures x in Elements(p[1..]) <==> x in Elements(q[1..]) {
        assert p == [p[0]] + p[1..] && q == [q[0]] + q[1..];
        assert x in Elements(p) <==> x == p[0] || x in p[1..];
        assert x in Elements(q) <==> x == q[0] || x in q[1..];
      }
      ListingUnique(p[1..], q[1..], descending);
      assert p == [p[0]] + p[1..] && q == [q[0]] + q[1..];
    }
  }

  lemma ListingIs(q: seq<nat>, s: set<nat>, descending: bool)
    requires InOrder(q, descending) && Elements(q) == s
    ensures q == Listing(s, descending) && |q| == |s|
  {
    ListingUnique(q, Listing(s, descending), descending);
  }

  lemma AscendingSize(q: seq<nat>)
    requires Ascending(q)
    ensures |Elements(q)| == |q|
  {
    ListingIs(q, Elements(q), false);
  }

  /** What all comes before the rest is listed first. */
  lemma ListingConcat(a: set<nat>, b: set<nat>, descending: bool)
    requires forall x, y :: x in a && y in b ==> Before(x, y, descending)
    ensures Listing(a + b, descending) == Listing(a, descending) + Listing(b, descending)
  {
    var p, q := Listing(a, descending), Listing(b, descending);
    ElementsJoin(p, q);
    OrderJoins(p, q, descending);
    hide InOrder, Elements, Before;
    ListingIs(p + q, a + b, descending);
  }

  lemma ElementsJoin(p: seq<nat>, q: seq<nat>)
    ensures Elements(p + q) == Elements(p) + Elements(q)
  {
  }

  lemma OrderJoins(p: seq<nat>, q: seq<nat>, descending: bool)
    requires InOrder(p, descending) && InOrder(q, descending)
    requires forall x, y :: x in Elements(p) && y in Elements(q) ==> Before(x, y, descending)
    ensures InOrder(p + q, descending)
  {
    forall i, j | 0 <= i < j < |p + q| ensures Before((p + q)[i], (p + q)[j], descending) {
      if i < |p| && j >= |p| { assert p[i] in Elements(p) && q[j - |p|] in Elements(q); }
    }
  }

  /** The element every other one left comes after is the next of the listing. */
  lemma NextOfListing(q: seq<nat>, n: nat, x: nat, descending: bool)
    requires InOrder(q, descending) && n <= |q|
    requires x in q[n..] && forall y :: y in q[n..] && y != x ==> Before(x, y, descending)
    ensures n < |q| && q[n] == x && Elements(q[n + 1..]) == Elements(q[n..]) - {x}
  {
    assert q[n] in q[n..];
    assert q[n..] == [q[n]] + q[n + 1..];
    assert forall j :: n < j < |q| ==> Before(q[n], q[j], descending);
    assert forall y :: y in q[n + 1..] ==> Before(q[n], y, descending);
    assert q[n] == x;
  }

  /** What comes first of what is left, passed over at once. */
  lemma FirstPartPassed(q: seq<nat>, n: nat, a: set<nat>, b: set<nat>, descending: bool)
    requires InOrder(q, descending) && n <= |q| && Elements(q[n..]) == a + b
    requires forall x, y :: x in a && y in b ==> Before(x, y, descending)
    ensures n + |a| <= |q| && q[n..n + |a|] == Listing(a, descending) && Elements(q[n + |a|..]) == b
  {
    hide *;
    RestListed(q, n, a, b, descending);
    RestSplits(q, n, Listing(a, descending), Listing(b, descending));
  }

  lemma RestListed(q: seq<nat>, n: nat, a: set<nat>, b: set<nat>, descending: bool)
    requires InOrder(q, descending) && n <= |q| && Elements(q[n..]) == a + b
    requires forall x, y :: x in a && y in b ==> Before(x, y, descending)
    ensures q[n..] == Listing(a, descending) + Listing(b, descending)
  {
    hide Listing, InOrder, Elements;
    ListingConcat(a, b, descending);
    RestInOrder(q, n, descending);
    ListingIs(q[n..], a + b, descending);
  }

  lemma RestSplits<T>(q: seq<T>, n: nat, p: seq<T>, r: seq<T>)
    requires n <= |q| && q[n..] == p + r
    ensures n + |p| <= |q| && q[n..n + |p|] == p && q[n + |p|..] == r
  {
    assert q[n..n + |p|] == q[n..][..|p|] && q[n + |p|..] == q[n..][|p|..];
  }

  lemma RestInOrder(q: seq<nat>, n: nat, descending: bool)
    requires InOrder(q, descending) && n <= |q|
    ensures InOrder(q[n..], descending)
  {
  }

  /** The listing from `n` on has exactly the elements a walk that passed over `n` has left. */
  lemma NothingLeft(q: seq<nat>, n: nat)
    requires n <= |q| && Elements(q[n..]) == {}
    ensures n == |q|
  {
    NoElements(q[n..]);
  }

  // ---------- pages ----------

  function Min(a: nat, b: nat): nat { if a < b then a else b }

  /** `size` entries of `q` after passing over `skip`, as many as there are. */
  function Window<T>(q: seq<T>, skip: nat, size: nat): (w: seq<T>)
    ensures |w| == Min(size, |q| - Min(skip, |q|))
  {
    var from := Min(skip, |q|);
    q[from..Min(from + size, |q|)]
  }

  /** What `n` entries leave of a skip. */
  function SkipAfter(skip: nat, n: nat): nat { skip - Min(skip, n) }

  /** A page over two parts is the page of the first, then what is still wanted of the second. */
  lemma WindowConcat<T>(p: seq<T>, q: seq<T>, skip: nat, size: nat)
    ensures Window(p + q, skip, size)
         == Window(p, skip, size) + Window(q, SkipAfter(skip, |p|), size - |Window(p, skip, size)|)
  {
  }

  /** A skip that reaches past the end leaves nothing to show. */
  lemma WindowNone<T>(q: seq<T>, skip: nat, size: nat)
    requires |q| <= skip
    ensures Window(q, skip, size) == []
  {
  }

  /** A window extended by the entry at `n`. */
  lemma WindowStep<T>(q: seq<T>, n: nat, skip: nat, size: nat)
    requires n < |q|
    ensures Window(q[..n + 1], skip, size)
         == if n < skip || |Window(q[..n], skip, size)| == size then Window(q[..n], skip, size)
            else Window(q[..n], skip, size) + [q[n]]
  {
    assert q[..n + 1] == q[..n] + [q[n]];
    WindowConcat(q[..n], [q[n]], skip, size);
  }

  /** A page that is full after `n` entries is the page of the whole. */
  lemma WindowFull<T>(q: seq<T>, n: nat, skip: nat, size: nat)
    requires n <= |q| && |Window(q[..n], skip, size)| == size
    ensures Window(q[..n], skip, size) == Window(q, skip, size)
  {
    assert q == q[..n] + q[n..];
    WindowConcat(q[..n], q[n..], skip, size);
  }
}
