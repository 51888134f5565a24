// The answers of a query: `Matches` gives its meaning as a set, and the methods its size and its
// windows.
module RoaringQuery {
  import opened Results
  import opened Order
  import opened WordBuffer
  import opened Containers
  import opened Views
  import opened Ranges
  import opened Merging
  import opened KeyBits
  import opened QueryKeys
  import opened SparseUnion
  import opened QueryWalk

  const QUERY_MAX: nat

  /** A query within the limits, over sound sets. */
  predicate Accepted(q: Query) { |q.all| <= QUERY_MAX && |q.any| <= QUERY_MAX && |q.none| <= QUERY_MAX }

  ghost predicate SoundSets(q: Query) {
    AllViews(q.all) && AllViews(q.any) && AllViews(q.none) && q.min <= UINT32_MAX && q.max <= UINT32_MAX
  }

  lemma EmptyRange(q: Query)
    requires q.min > q.max
    ensures Matches(q) == {}
  {
  }

  /** `query_is_sparse_union`. */
  method IsSparseUnion(q: Query) returns (simple: bool)
    ensures simple <==> q.all == [] && q.none == [] && q.any != [] && SparseSets(q.any)
  {
    if |q.all| > 0 || |q.none| > 0 || |q.any| == 0 { return false; }
    simple := AllSparse(q.any);
  }

  lemma SparseMatches(q: Query)
    requires q.all == [] && q.none == [] && q.any != [] && q.max <= UINT32_MAX
    ensures Matches(q) == Clip(SomeContent(q.any), q.min, q.max)
  {
    hide Content;
  }

  lemma RankedWhole(m: set<nat>, from: nat, descending: bool)
    requires Values(m)
    ensures RankedUpTo(m, 0, descending) == {}
    ensures NoneRanked(m, from, LOWS, descending) ==> RankedUpTo(m, from, descending) == m
  {
    forall v | v in m ensures Rank(KeyOf(v), descending) < LOWS { assert v <= UINT32_MAX; }
  }

  lemma KeyCounts(m: set<nat>, from: nat, key: nat, descending: bool)
    requires Values(m) && key < LOWS && from <= Rank(key, descending) && NoneRanked(m, from, Rank(key, descending), descending)
    ensures |RankedUpTo(m, Rank(key, descending) + 1, descending)| == |RankedUpTo(m, from, descending)| + |At(m, key)|
  {
    hide RankedUpTo, NoneRanked, At;
    RankJoins(m, from, key, descending);
    AtLows(m, key);
    LiftSize(key, At(m, key));
    var a, b := RankedUpTo(m, from, descending), Lift(key, At(m, key));
    assert forall v :: v in a && v in b ==> Before(v, v, descending);
    DisjointSize(a, b, RankedUpTo(m, Rank(key, descending) + 1, descending));
  }

  lemma AtLows(m: set<nat>, key: nat)
    ensures forall x :: x in At(m, key) ==> x < LOWS
  {
  }

  /** `arnm_roaring_query_cardinality`: exactly how many values match, whichever strategy each key takes. */
  method Cardinality(q: Query) returns (result: Result, total: nat)
    requires SoundSets(q)
    ensures result == if |q.all| <= QUERY_MAX && |q.any| <= QUERY_MAX && |q.none| <= QUERY_MAX then Success else InvalidParam
    ensures result.Success? ==> total == |Matches(q)|
  {
    hide Matches, AllViews, SparseSets, SomeContent, Clip, All, Sets, AllOpen, WalkOk, KeyOk, MatchLows, RankedUpTo,
        NoneRanked, At, Rank, Values;
    if !Accepted(q) { return InvalidParam, 0; }
    result, total := Success, 0;
    if q.min > q.max {
      EmptyRange(q);
      return;
    }
    var simple := IsSparseUnion(q);
    if simple {
      SparseMatches(q);
      var spans := SpansInRange(q.any, q.min, q.max);
      SomeValues(q.any, q.min, q.max);
      if |spans| > 0 {
        total := UnionCardinality(spans);
      } else {
        NoSpan(spans);
      }
      return;
    }
    var words, scratch := new bv64[WORDS], new bv64[WORDS];
    var walk := BeginWalk(q, false);
    ghost var from: nat, m := 0, Matches(q);
    MatchesAreValues(q);
    RankedWhole(m, 0, false);
    while true
      invariant WalkOk(walk, q, false, from) && total == |RankedUpTo(m, from, false)|
      decreases LOWS - from
    {
      var next, found, key, after := NextKey(walk, false, q, false, from);
      if !found {
        RankedWhole(m, from, false);
        return;
      }
      KeyCounts(m, from, key.key, false);
      RankBelow(key.key, false);
      var count := KeyCardinality(key, words, scratch);
      total := total + count;
      walk, from := next, after;
    }
  }

  lemma SomeValues(sets: seq<Option<View>>, min: nat, max: nat)
    ensures Values(Clip(SomeContent(sets), min, max))
  {
    hide InSome;
  }

  lemma NoSpan(spans: seq<Span>)
    requires spans == []
    ensures All(Sets(spans)) == {}
  {
    Merging.NoParts(Sets(spans));
  }

  // ---------- pages ----------

  /** The matches of one key in walking order are their low parts in that order, with the key. */
  lemma RaisedListing(key: nat, lows: set<nat>, descending: bool)
    requires key < LOWS && forall x :: x in lows ==> x < LOWS
    ensures Raised(key, Listing(lows, descending)) == Listing(Lift(key, lows), descending)
  {
    hide Listing;
    var q := Listing(lows, descending);
    var r := Raised(key, q);
    forall i | 0 <= i < |q| ensures q[i] in lows { assert q[i] in Elements(q); }
    forall i, j | 0 <= i < j < |r| ensures Before(r[i], r[j], descending) {
      ValueOrder(key, q[i], key, q[j]); ValueOrder(key, q[j], key, q[i]);
    }
    forall v: nat ensures v in Elements(r) <==> v in Lift(key, lows) { RaisedElement(key, lows, q, v); }
    ListingIs(r, Lift(key, lows), descending);
  }

  lemma RaisedElement(key: nat, lows: set<nat>, q: seq<nat>, v: nat)
    requires key < LOWS && Elements(q) == lows && forall i :: 0 <= i < |q| ==> q[i] < LOWS
    ensures v in Elements(Raised(key, q)) <==> v in Lift(key, lows)
  {
    hide KeyOf, LowOf, ValueOf;
    var r := Raised(key, q);
    if v in r {
      var i :| 0 <= i < |r| && r[i] == v;
      SplitValue(key, q[i]);
      assert q[i] in lows;
      ValueBounded(key, q[i]);
    }
    if v in Lift(key, lows) {
      var i :| 0 <= i < |q| && q[i] == LowOf(v);
      JoinValue(v);
      assert r[i] == v;
    }
  }

  lemma ValueBounded(key: nat, low: nat)
    requires key < LOWS && low < LOWS
    ensures ValueOf(key, low) <= UINT32_MAX
  {
  }

  /** The page holds what it should of the keys before place `from`. */
  ghost predicate PageOk(m: set<nat>, from: nat, descending: bool, out: seq<nat>, left: nat, skip: nat, size: nat) {
    var done := RankedUpTo(m, from, descending);
    out == Window(Listing(done, descending), skip, size) && (|out| < size ==> left == SkipAfter(skip, |done|))
  }

  lemma PageBegins(m: set<nat>, descending: bool, skip: nat, size: nat)
    requires Values(m)
    ensures PageOk(m, 0, descending, [], skip, skip, size)
  {
    RankedWhole(m, 0, descending);
    hide RankedUpTo;
    assert Listing({}, descending) == [];
  }

  /** One key more: the piece it gives continues the page. */
  lemma PageGrows(m: set<nat>, from: nat, key: nat, descending: bool, out: seq<nat>, left: nat, skip: nat, size: nat,
                  piece: seq<nat>, after: nat)
    requires Values(m) && key < LOWS && from <= Rank(key, descending) && NoneRanked(m, from, Rank(key, descending), descending)
    requires PageOk(m, from, descending, out, left, skip, size) && |out| < size
    requires piece == Window(Raised(key, Listing(At(m, key), descending)), left, size - |out|)
    requires after == SkipAfter(left, |At(m, key)|)
    ensures PageOk(m, Rank(key, descending) + 1, descending, out + piece, after, skip, size)
  {
    hide RankedUpTo, NoneRanked, At, Listing, Window, Values, Elements, InOrder, Before;
    RankJoins(m, from, key, descending);
    AtLows(m, key);
    RaisedListing(key, At(m, key), descending);
    var a, b := RankedUpTo(m, from, descending), Lift(key, At(m, key));
    ListingConcat(a, b, descending);
    WindowConcat(Listing(a, descending), Listing(b, descending), skip, size);
    KeyCounts(m, from, key, descending);
    SkipAdds(skip, |a|, |At(m, key)|);
  }

  lemma SkipAdds(skip: nat, n: nat, k: nat)
    ensures SkipAfter(SkipAfter(skip, n), k) == SkipAfter(skip, n + k)
  {
  }

  /** A page that is full already stays as it is. */
  lemma PageStays(m: set<nat>, from: nat, key: nat, descending: bool, out: seq<nat>, left: nat, skip: nat, size: nat)
    requires Values(m) && key < LOWS && from <= Rank(key, descending) && NoneRanked(m, from, Rank(key, descending), descending)
    requires PageOk(m, from, descending, out, left, skip, size) && |out| >= size
    ensures PageOk(m, Rank(key, descending) + 1, descending, out, left, skip, size)
  {
    hide RankedUpTo, NoneRanked, At, Listing, Values, Elements, InOrder, Before;
    RankJoins(m, from, key, descending);
    var a, b := RankedUpTo(m, from, descending), Lift(key, At(m, key));
    ListingConcat(a, b, descending);
    PrefixFull(Listing(a, descending), Listing(b, descending), skip, size);
  }

  lemma PrefixFull(p: seq<nat>, q: seq<nat>, skip: nat, size: nat)
    requires |Window(p, skip, size)| >= size
    ensures Window(p + q, skip, size) == Window(p, skip, size)
  {
    WindowConcat(p, q, skip, size);
  }

  /** Full, or with no key left, it is the page of all matches. */
  lemma PageEnds(m: set<nat>, from: nat, descending: bool, out: seq<nat>, left: nat, skip: nat, size: nat)
    requires Values(m) && PageOk(m, from, descending, out, left, skip, size)
    requires |out| >= size || NoneRanked(m, from, LOWS, descending)
    ensures out == Window(Listing(m, descending), skip, size)
  {
    hide Listing, Elements, InOrder, Values;
    RankedWhole(m, from, descending);
    if |out| >= size {
      var a, b := RankedUpTo(m, from, descending), m - RankedUpTo(m, from, descending);
      RanksApart(m, from, descending);
      ListingConcat(a, b, descending);
      assert a + b == m;
      PrefixFull(Listing(a, descending), Listing(b, descending), skip, size);
    }
  }

  lemma RanksApart(m: set<nat>, from: nat, descending: bool)
    requires Values(m)
    ensures forall v, w :: v in RankedUpTo(m, from, descending) && w in m - RankedUpTo(m, from, descending) ==> Before(v, w, descending)
  {
    forall v, w | v in RankedUpTo(m, from, descending) && w in m - RankedUpTo(m, from, descending)
      ensures Before(v, w, descending)
    {
      JoinValue(v); JoinValue(w);
      assert v <= UINT32_MAX && w <= UINT32_MAX;
      ValueOrder(KeyOf(v), LowOf(v), KeyOf(w), LowOf(w));
      ValueOrder(KeyOf(w), LowOf(w), KeyOf(v), LowOf(v));
    }
  }

  /** `arnm_roaring_query_page`: exactly entries skip .. skip + size of the matches in the direction asked for. */
  method Page(q: Query, skip: nat, size: nat, descending: bool) returns (result: Result, out: seq<nat>)
    requires SoundSets(q)
    ensures result == if |q.all| <= QUERY_MAX && |q.any| <= QUERY_MAX && |q.none| <= QUERY_MAX then Success else InvalidParam
    ensures result.Success? ==> out == Window(Listing(Matches(q), descending), skip, size)
  {
    hide Matches, AllViews, SparseSets, SomeContent, Clip, All, Sets, AllOpen, WalkOk, KeyOk, MatchLows, RankedUpTo,
         NoneRanked, At, Rank, Values, Listing, PageOk, Elements, InOrder;
    if !Accepted(q) { return InvalidParam, []; }
    result, out := Success, [];
    if size == 0 { return; }
    if q.min > q.max {
      EmptyRange(q);
      return;
    }
    var simple := IsSparseUnion(q);
    if simple {
      SparseMatches(q);
      var spans := SpansInRange(q.any, q.min, q.max);
      if |spans| > 0 {
        out := UnionPage(spans, skip, size, descending);
      } else {
        NoSpan(spans);
      }
      return;
    }
    out := WalkPage(q, skip, size, descending);
  }

  /** The keys walked until the page is full. */
  method WalkPage(q: Query, skip: nat, size: nat, descending: bool) returns (out: seq<nat>)
    requires QueryOk(q)
    ensures out == Window(Listing(Matches(q), descending), skip, size)
  {
    hide QueryOk, Matches, WalkOk, KeyOk, MatchLows, RankedUpTo, NoneRanked, At, Rank, Values, Listing, PageOk, Elements, InOrder, Window;
    var words, scratch := new bv64[WORDS], new bv64[WORDS];
    var walk := BeginWalk(q, descending);
    var left := skip;
    out := [];
    ghost var from: nat, m := 0, Matches(q);
    MatchesAreValues(q);
    PageBegins(m, descending, skip, size);
    while |out| < size
      invariant WalkOk(walk, q, descending, from) && PageOk(m, from, descending, out, left, skip, size)
      decreases LOWS - from
    {
      var next, found, key, after := NextKey(walk, true, q, descending, from);
      if !found { break; }
      RankBelow(key.key, descending);
      var piece, rest := KeyPage(key, left, size - |out|, descending, words, scratch);
      PageGrows(m, from, key.key, descending, out, left, skip, size, piece, rest);
      out, left, walk, from := out + piece, rest, next, after;
    }
    PageEnds(m, from, descending, out, left, skip, size);
  }

  /**
   * `arnm_roaring_query_listing`: the page and the number of all matches from one walk. Narrowing a
   * key for the page leaves out no match: the total is the one `Cardinality` answers.
   */
  method ListMatches(q: Query, skip: nat, size: nat, descending: bool) returns (result: Result, out: seq<nat>, total: nat)
    requires SoundSets(q)
    ensures result == if |q.all| <= QUERY_MAX && |q.any| <= QUERY_MAX && |q.none| <= QUERY_MAX then Success else InvalidParam
    ensures result.Success? ==> out == Window(Listing(Matches(q), descending), skip, size) && total == |Matches(q)|
  {
    hide Matches, AllViews, SparseSets, SomeContent, Clip, All, Sets, AllOpen, WalkOk, KeyOk, MatchLows, RankedUpTo,
         NoneRanked, At, Rank, Values, Listing, PageOk, Elements, InOrder;
    if !Accepted(q) { return InvalidParam, [], 0; }
    result, out, total := Success, [], 0;
    if q.min > q.max {
      EmptyRange(q);
      return;
    }
    var simple := IsSparseUnion(q);
    if simple {
      SparseMatches(q);
      var spans := SpansInRange(q.any, q.min, q.max);
      SomeValues(q.any, q.min, q.max);
      if |spans| > 0 {
        total := UnionCardinality(spans);
        if size > 0 { out := UnionPage(spans, skip, size, descending); }
      } else {
        NoSpan(spans);
      }
      return;
    }
    out, total := WalkListing(q, skip, size, descending);
  }

  /**
   * The size and a window of the matches from one walk. `left` says how much of the skip is still
   * ahead.
   */
  method WalkListing(q: Query, skip: nat, size: nat, descending: bool) returns (out: seq<nat>, total: nat)
    requires QueryOk(q)
    ensures out == Window(Listing(Matches(q), descending), skip, size) && total == |Matches(q)|
  {
    hide QueryOk, Matches, WalkOk, KeyOk, MatchLows, RankedUpTo, NoneRanked, At, Rank, Values, Listing, PageOk, Elements, InOrder, Window;
    var words, scratch := new bv64[WORDS], new bv64[WORDS];
    var walk := BeginWalk(q, descending);
    var left := skip;
    out, total := [], 0;
    ghost var from: nat, m := 0, Matches(q);
    MatchesAreValues(q);
    PageBegins(m, descending, skip, size);
    RankedWhole(m, 0, descending);
    while true
      invariant WalkOk(walk, q, descending, from) && PageOk(m, from, descending, out, left, skip, size)
      invariant total == |RankedUpTo(m, from, descending)|
      decreases LOWS - from
    {
      var next, found, key, after := NextKey(walk, true, q, descending, from);
      if !found {
        RankedWhole(m, from, descending);
        PageEnds(m, from, descending, out, left, skip, size);
        return;
      }
      RankBelow(key.key, descending);
      var inKey := KeyCardinality(key, words, scratch);
      KeyCounts(m, from, key.key, descending);
      total := total + inKey;
      if |out| < size {
        var piece, rest := [], left;
        if left >= inKey {
          rest := left - inKey;
          KeyPassed(key.key, At(m, key.key), left, size - |out|, descending);
        } else {
          piece, rest := KeyPage(key, left, size - |out|, descending, words, scratch);
        }
        PageGrows(m, from, key.key, descending, out, left, skip, size, piece, rest);
        out, left := out + piece, rest;
      } else {
        PageStays(m, from, key.key, descending, out, left, skip, size);
      }
      walk, from := next, after;
    }
  }

  /** A skip of at least a key's size leaves that key's share of the window empty. */
  lemma KeyPassed(key: nat, lows: set<nat>, skip: nat, size: nat, descending: bool)
    requires skip >= |lows|
    ensures Window(Raised(key, Listing(lows, descending)), skip, size) == []
    ensures SkipAfter(skip, |lows|) == skip - |lows|
  {
    hide Listing;
  }
}
