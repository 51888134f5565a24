// One key of a query, once its parts are known: which low parts match, how many, and a page of
// them.
module QueryKeys {
  import opened Word64
  import opened Order
  import opened WordBuffer
  import opened Containers
  import opened Kernels
  import opened Merging
  import opened KeyBits
  import opened KeyUnion
  import opened Cursors

  datatype QueryKey = QueryKey(
    all: seq<Container>,
    any: seq<Container>,
    none: seq<Container>,
    key: nat,
    low: nat,
    high: nat
  )

  ghost predicate KeyOk(k: QueryKey) {
    OfKey(k.all, k.key) && OfKey(k.any, k.key) && OfKey(k.none, k.key) && k.low <= k.high < LOWS
    && (k.all != [] || k.any != [])
  }

  /** The query's condition on a value, put to the low part `x` and the parts of this key. */
  ghost predicate MatchesLow(k: QueryKey, x: nat) {
    InAll(k.all, x) && (k.any != [] ==> InAny(k.any, x)) && !InAny(k.none, x)
  }

  /** The low parts of the key that match. */
  ghost function MatchLows(k: QueryKey): set<nat> { set x: nat | k.low <= x <= k.high && MatchesLow(k, x) }

  // ---------- in bits ----------

  /** The bits every part of `all` has. */
  method AllBits(parts: seq<Container>, ghost key: nat, low: nat, high: nat, words: array<bv64>, scratch: array<bv64>)
    requires words != scratch && words.Length == scratch.Length == WORDS
    requires OfKey(parts, key) && parts != [] && low <= high < LOWS
    modifies words, scratch
    ensures forall x: nat :: low <= x <= high ==> (HasBit(words[..], x) <==> InAll(parts, x))
  {
    hide HasBit, Has, InAll, InAny, Sound;
    WindowCovers(low, high);
    Zero(words, low / 64, high / 64);
    BitsOfPart(words, parts[0], low, high);
    InWhole(parts);
    forall x: nat { InAnyNext(parts, 0, x); }
    var i := 1;
    while i < |parts|
      invariant 1 <= i <= |parts|
      invariant forall x: nat :: low <= x <= high ==> (HasBit(words[..], x) <==> InAll(parts[..i], x))
    {
      Zero(scratch, low / 64, high / 64);
      BitsOfPart(scratch, parts[i], low, high);
      CombineInto(words, scratch[..], WordOp.And, low, high);
      forall x: nat { InAnyNext(parts, i, x); }
      i := i + 1;
    }
  }

  /** The bits of the parts of `none` cleared. */
  method WithoutBits(parts: seq<Container>, ghost key: nat, low: nat, high: nat, words: array<bv64>)
    requires words.Length == WORDS && OfKey(parts, key) && low <= high < LOWS
    modifies words
    ensures forall x: nat :: low <= x <= high ==> (HasBit(words[..], x) <==> old(HasBit(words[..], x)) && !InAny(parts, x))
  {
    hide HasBit, Has, InAll, InAny, Sound;
    InWhole(parts);
    var i := 0;
    while i < |parts|
      invariant 0 <= i <= |parts|
      invariant forall x: nat :: low <= x <= high ==>
                  (HasBit(words[..], x) <==> old(HasBit(words[..], x)) && !InAny(parts[..i], x))
    {
      BitsWithoutPart(words, parts[i], low, high);
      forall x: nat { InAnyNext(parts, i, x); }
      i := i + 1;
    }
  }

  /** `key_bits`: `words` spells `MatchLows(k)` inside the bounds, and `count` is its size. */
  method MatchBits(k: QueryKey, words: array<bv64>, scratch: array<bv64>) returns (count: nat)
    requires KeyOk(k) && words != scratch && words.Length == scratch.Length == WORDS
    modifies words, scratch
    ensures count == |MatchLows(k)| && BitsBetween(words[..], k.low, k.high + 1) == MatchLows(k)
  {
    hide HasBit, InAll, InAny, OfKey, BitsBetween;
    if |k.all| > 0 {
      AllBits(k.all, k.key, k.low, k.high, words, scratch);
      if |k.any| > 0 {
        UnionInto(scratch, k.any, k.key, k.low, k.high);
        CombineInto(words, scratch[..], WordOp.And, k.low, k.high);
      }
    } else {
      NoneOfAll(k.all);
      UnionInto(words, k.any, k.key, k.low, k.high);
    }
    WithoutBits(k.none, k.key, k.low, k.high, words);
    count := Count(words, k.low, k.high, MatchLows(k));
  }

  lemma NoneOfAll(parts: seq<Container>)
    requires parts == []
    ensures forall x :: InAll(parts, x) && !InAny(parts, x)
  {
  }

  // ---------- value by value ----------

  /** `key_driver`: the index of a part of least cardinality. */
  method KeyDriver(all: seq<Container>) returns (smallest: nat)
    ensures |all| > 0 ==> smallest < |all| && forall i :: 0 <= i < |all| ==> all[smallest].cardinality <= all[i].cardinality
  {
    smallest := 0;
    var i := 1;
    while i < |all|
      invariant 1 <= i && (|all| > 0 ==> i <= |all| && smallest < |all|)
      invariant |all| > 0 ==> forall j :: 0 <= j < i ==> all[smallest].cardinality <= all[j].cardinality
    {
      if all[i].cardinality < all[smallest].cardinality { smallest := i; }
      i := i + 1;
    }
  }

  /** `probe_has`: a bit, or a search. */
  method ProbeHas(c: Container, low: nat) returns (has: bool)
    requires Sound(c) && low < LOWS
    ensures has <==> Has(c, low)
  {
    hide Bit, BitsBetween;
    match c.data
    case Bits(words) =>
      has := TestBit(words[low / 64], low % 64);
    case Wide(values) =>
      var position := LowerBound(values, ValueOf(c.key, low));
      Found(values, position, ValueOf(c.key, low));
      has := position < |values| && values[position] == ValueOf(c.key, low);
    case Lows(lows) =>
      var position := LowerBound(lows, low);
      Found(lows, position, low);
      has := position < |lows| && lows[position] == low;
  }

  /** `probes_match`: decides `MatchesLow` for a value that the driver is known to hold. */
  method ProbesMatch(others: seq<Container>, any: seq<Container>, none: seq<Container>, ghost key: nat, low: nat)
    returns (matches: bool)
    requires OfKey(others, key) && OfKey(any, key) && OfKey(none, key) && low < LOWS
    ensures matches <==> InAll(others, low) && (any != [] ==> InAny(any, low)) && !InAny(none, low)
  {
    hide Has, Sound;
    var i := 0;
    while i < |others|
      invariant 0 <= i <= |others| && forall j :: 0 <= j < i ==> Has(others[j], low)
    {
      var has := ProbeHas(others[i], low);
      if !has { return false; }
      i := i + 1;
    }
    if |any| > 0 {
      var found := false;
      i := 0;
      while i < |any| && !found
        invariant 0 <= i <= |any| && (found ==> InAny(any, low))
        invariant !found ==> forall j :: 0 <= j < i ==> !Has(any[j], low)
      {
        found := ProbeHas(any[i], low);
        i := i + 1;
      }
      if !found { return false; }
    }
    i := 0;
    while i < |none|
      invariant 0 <= i <= |none| && forall j :: 0 <= j < i ==> !Has(none[j], low)
    {
      var has := ProbeHas(none[i], low);
      if has { return false; }
      i := i + 1;
    }
    return true;
  }

  /** The parts of `all` a value of the driver has still to be checked against. */
  method OtherParts(all: seq<Container>, driver: nat, ghost key: nat) returns (others: seq<Container>)
    requires OfKey(all, key) && driver < |all|
    ensures OfKey(others, key) && |others| == |all| - 1
    ensures forall x :: InAll(all, x) <==> Has(all[driver], x) && InAll(others, x)
  {
    hide Has, Sound;
    others := [];
    var i := 0;
    while i < |all|
      invariant 0 <= i <= |all| && others == all[..Min(i, driver)] + all[driver + 1..][..i - Min(i, driver + 1)]
    {
      if i != driver { others := others + [all[i]]; }
      i := i + 1;
    }
    assert others == all[..driver] + all[driver + 1..];
    forall x ensures InAll(all, x) <==> Has(all[driver], x) && InAll(others, x) {
      if InAll(others, x) && Has(all[driver], x) {
        forall j | 0 <= j < |all| ensures Has(all[j], x) {
          if j < driver { assert Has(others[j], x); } else if j > driver { assert Has(others[j - 1], x); }
        }
      }
    }
  }

  /** A value of the driver inside the range matches if and only if the probes say so. */
  lemma DriverMatches(k: QueryKey, driver: nat, others: seq<Container>, x: nat)
    requires KeyOk(k) && driver < |k.all| && k.low <= x <= k.high && Has(k.all[driver], x)
    requires InAll(k.all, x) <==> Has(k.all[driver], x) && InAll(others, x)
    ensures x in MatchLows(k) <==> InAll(others, x) && (k.any != [] ==> InAny(k.any, x)) && !InAny(k.none, x)
  {
    hide Has;
  }

  /** [begin, end) is the driver's slice, and `others` together with it stand for `all`. */
  ghost predicate Driven(k: QueryKey, driver: nat, others: seq<Container>, begin: nat, end: nat) {
    KeyOk(k) && driver < |k.all| && !k.all[driver].data.Bits? && OfKey(others, k.key)
    && (forall x :: InAll(k.all, x) <==> Has(k.all[driver], x) && InAll(others, x))
    && begin <= end <= |LowsOf(k.all[driver])|
    && Elements(LowsOf(k.all[driver])[begin..end]) == Part(k.all[driver], k.low, k.high)
  }

  method Drive(k: QueryKey, driver: nat) returns (others: seq<Container>, begin: nat, end: nat)
    requires KeyOk(k) && driver < |k.all| && !k.all[driver].data.Bits?
    ensures Driven(k, driver, others, begin, end)
  {
    hide Has, Sound, InAll, LowsOf, Elements, Part;
    others := OtherParts(k.all, driver, k.key);
    begin, end := SliceOf(k.all[driver], k.low, k.high);
  }

  lemma SliceEntryPart(k: QueryKey, driver: nat, others: seq<Container>, begin: nat, end: nat, i: nat)
    requires Driven(k, driver, others, begin, end) && begin <= i < end
    ensures var x := LowsOf(k.all[driver])[i];
            k.low <= x <= k.high < LOWS && Has(k.all[driver], x)
            && (x in MatchLows(k) <==> InAll(others, x) && (k.any != [] ==> InAny(k.any, x)) && !InAny(k.none, x))
  {
    hide Has, InAll, InAny, Sound, LowsOf;
    var q := LowsOf(k.all[driver]);
    assert q[begin..end][i - begin] == q[i];
    assert q[i] in Elements(q[begin..end]);
    DriverMatches(k, driver, others, q[i]);
  }

  /** Every match is in the driver's slice. */
  lemma MatchesInSlice(k: QueryKey, driver: nat, others: seq<Container>, begin: nat, end: nat)
    requires Driven(k, driver, others, begin, end)
    ensures MatchLows(k) <= SpanSet(Span(LowsOf(k.all[driver]), begin, end))
    ensures Sorted(Span(LowsOf(k.all[driver]), begin, end))
  {
    hide Has, InAny, Sound, Elements, LowsOf, Ascending;
    assert Sound(k.all[driver]);
    LowsSorted(k.all[driver]);
    forall x | x in MatchLows(k) ensures x in Part(k.all[driver], k.low, k.high) {
      assert InAll(k.all, x);
    }
  }

  /**
   * `probes_count_slice`: the size of `MatchLows`; the `if` singles out one other part that is a
   * bitmap, as the source does.
   */
  method CountSlice(k: QueryKey, driver: nat, others: seq<Container>, begin: nat, end: nat) returns (count: nat)
    requires Driven(k, driver, others, begin, end)
    ensures count == |MatchLows(k)|
  {
    hide Has, InAll, InAny, Sound, LowsOf, Elements, SpanSet, Driven, MatchLows, Bit;
    DrivenOk(k, driver, others, begin, end);
    MatchesInSlice(k, driver, others, begin, end);
    var q := LowsOf(k.all[driver]);
    ghost var m, span := MatchLows(k), Span(q, begin, end);
    var bits := |others| == 1 && others[0].data.Bits? && |k.any| == 0 && |k.none| == 0;
    count := 0;
    var i := begin;
    assert m * SpanSet(span) == m;
    while i < end
      invariant begin <= i <= end && span == Span(q, i, end) && Sorted(span)
      invariant count + |m * SpanSet(span)| == |m|
    {
      SliceEntryPart(k, driver, others, begin, end, i);
      HeadMoves(span, false);
      var matches;
      if bits {
        OneOther(k, others, q[i]);
        matches := ProbeHas(others[0], q[i]);
      } else {
        matches := ProbesMatch(others, k.any, k.none, k.key, q[i]);
      }
      CountOne(m, SpanSet(span), q[i]);
      if matches { count := count + 1; }
      span := Moved(span, false);
      i := i + 1;
    }
    ReadOut(span);
    assert m * {} == {};
  }

  lemma DrivenOk(k: QueryKey, driver: nat, others: seq<Container>, begin: nat, end: nat)
    requires Driven(k, driver, others, begin, end)
    ensures KeyOk(k) && driver < |k.all| && !k.all[driver].data.Bits? && OfKey(others, k.key)
    ensures begin <= end <= |LowsOf(k.all[driver])|
  {
  }

  lemma OneOther(k: QueryKey, others: seq<Container>, x: nat)
    requires |others| == 1 && k.any == [] && k.none == []
    ensures InAll(others, x) && (k.any != [] ==> InAny(k.any, x)) && !InAny(k.none, x) <==> Has(others[0], x)
  {
    hide Has;
  }

  lemma CountOne(m: set<nat>, s: set<nat>, x: nat)
    requires x in s
    ensures |m * s| == |m * (s - {x})| + if x in m then 1 else 0
  {
    if x in m {
      assert m * s == (m * (s - {x})) + {x};
    } else {
      assert m * s == m * (s - {x});
    }
  }

  /** The next match a slice is read to is the next of the page. */
  lemma MatchIsNext(q: seq<nat>, n: nat, m: set<nat>, span: Span, descending: bool)
    requires InOrder(q, descending) && n <= |q| && Elements(q[n..]) == m * SpanSet(span) && Open(span)
    ensures var x := Head(span, descending);
            if x in m then n < |q| && q[n] == x && Elements(q[n + 1..]) == m * SpanSet(Moved(span, descending))
            else Elements(q[n..]) == m * SpanSet(Moved(span, descending))
  {
    hide SpanSet, InOrder, Elements;
    HeadMoves(span, descending);
    var x := Head(span, descending);
    if x in m {
      PickIsNext(q, n, m * SpanSet(span), x, descending);
      assert m * SpanSet(span) - {x} == m * (SpanSet(span) - {x});
    } else {
      assert m * SpanSet(span) == m * (SpanSet(span) - {x});
    }
  }

  /** The page has read `n` of the matches; the slice left holds the others. */
  ghost predicate Paging(q: seq<nat>, n: nat, m: set<nat>, span: Span, key: nat,
                         out: seq<nat>, left: nat, skip: nat, size: nat, descending: bool)
  {
    InOrder(q, descending) && n <= |q| && Elements(q[n..]) == m * SpanSet(span) && Sorted(span)
    && Read(out, left, Raised(key, q), n, skip, size)
  }

  /** One entry of the slice: no match, passed over, or written. */
  method PageEntry(key: nat, x: nat, matches: bool, had: seq<nat>, before: nat, size: nat, descending: bool,
                   ghost q: seq<nat>, ghost n: nat, ghost m: set<nat>, ghost span: Span, ghost skip: nat)
    returns (out: seq<nat>, left: nat, ghost after: nat)
    requires Paging(q, n, m, span, key, had, before, skip, size, descending) && Open(span) && |had| < size
    requires x == Head(span, descending) && (matches <==> x in m)
    ensures Paging(q, after, m, Moved(span, descending), key, out, left, skip, size, descending)
  {
    hide InOrder, Elements, SpanSet, Read, Sorted;
    HeadMoves(span, descending);
    MatchIsNext(q, n, m, span, descending);
    out, left, after := had, before, n;
    if !matches { return; }
    ReadOne(had, before, Raised(key, q), n, skip, size);
    after := n + 1;
    if before > 0 {
      left := before - 1;
      return;
    }
    out := had + [ValueOf(key, x)];
  }

  lemma PageStarts(k: QueryKey, span: Span, skip: nat, size: nat, descending: bool)
    requires MatchLows(k) <= SpanSet(span) && Sorted(span)
    ensures Paging(Listing(MatchLows(k), descending), 0, MatchLows(k), span, k.key, [], skip, skip, size, descending)
  {
    hide MatchLows, SpanSet, Sorted, Elements, InOrder;
    var q := Listing(MatchLows(k), descending);
    ReadNone(Raised(k.key, q), skip, size);
    assert q[0..] == q && MatchLows(k) * SpanSet(span) == MatchLows(k);
  }

  lemma PageEnds(q: seq<nat>, n: nat, m: set<nat>, span: Span, key: nat,
                 out: seq<nat>, left: nat, skip: nat, size: nat, descending: bool)
    requires Paging(q, n, m, span, key, out, left, skip, size, descending) && (|out| >= size || span.begin >= span.end)
    ensures out == Window(Raised(key, q), skip, size) && (size > 0 ==> left == SkipAfter(skip, |q|))
  {
    hide Elements, InOrder, Read;
    if |out| < size {
      ReadOut(span);
      assert m * {} == {};
      NothingLeft(q, n);
    }
    ReadDone(out, left, Raised(key, q), n, skip, size);
  }

  /** `probes_page_slice`: the window of the matches' listing, the slice read upwards or downwards. */
  method PageSlice(k: QueryKey, driver: nat, others: seq<Container>, begin: nat, end: nat,
                   skip: nat, size: nat, descending: bool)
    returns (out: seq<nat>, left: nat)
    requires Driven(k, driver, others, begin, end)
    ensures out == Window(Raised(k.key, Listing(MatchLows(k), descending)), skip, size)
    ensures size > 0 ==> left == SkipAfter(skip, |MatchLows(k)|)
  {
    hide Has, InAll, InAny, Sound, LowsOf, SpanSet, Driven, MatchLows, Paging, Listing;
    DrivenOk(k, driver, others, begin, end);
    MatchesInSlice(k, driver, others, begin, end);
    var lows := LowsOf(k.all[driver]);
    ghost var q := Listing(MatchLows(k), descending);
    ghost var n: nat, span := 0, Span(lows, begin, end);
    out, left := [], skip;
    PageStarts(k, span, skip, size, descending);
    var width := end - begin;
    var step := 0;
    while step < width && |out| < size
      invariant 0 <= step <= width
      invariant span == if descending then Span(lows, begin, end - step) else Span(lows, begin + step, end)
      invariant Sorted(span) && Paging(q, n, MatchLows(k), span, k.key, out, left, skip, size, descending)
    {
      var index := if descending then end - 1 - step else begin + step;
      SliceEntryPart(k, driver, others, begin, end, index);
      HeadMoves(span, descending);
      var matches := ProbesMatch(others, k.any, k.none, k.key, lows[index]);
      out, left, n := PageEntry(k.key, lows[index], matches, out, left, size, descending, q, n, MatchLows(k), span, skip);
      span := Moved(span, descending);
      step := step + 1;
    }
    PageEnds(q, n, MatchLows(k), span, k.key, out, left, skip, size, descending);
  }

  // ---------- the two answers of a key ----------

  method AnyIsBitmap(parts: seq<Container>) returns (found: bool)
    ensures !found ==> Arrays(parts)
  {
    found := false;
    var i := 0;
    while i < |parts|
      invariant 0 <= i <= |parts| && (!found ==> forall j :: 0 <= j < i ==> !parts[j].data.Bits?)
    {
      found := found || parts[i].data.Bits?;
      i := i + 1;
    }
  }

  lemma OnlyAny(k: QueryKey)
    requires k.all == [] && k.none == [] && k.any != []
    ensures MatchLows(k) == UnionLows(k.any, k.low, k.high)
  {
    hide Has;
  }

  lemma OnlyOne(k: QueryKey)
    requires |k.all| == 1 && k.any == [] && k.none == []
    ensures MatchLows(k) == Part(k.all[0], k.low, k.high)
  {
    hide Has;
  }

  /** `query_key_cardinality`: exactly the matches of the key, whichever way is taken. */
  method KeyCardinality(k: QueryKey, words: array<bv64>, scratch: array<bv64>) returns (count: nat)
    requires KeyOk(k) && words != scratch && words.Length == scratch.Length == WORDS
    modifies words, scratch
    ensures count == |MatchLows(k)|
  {
    hide MatchLows, Sound, Driven, BitsBetween;
    if |k.all| == 0 && |k.none| == 0 {
      var anyBitmap := AnyIsBitmap(k.any);
      OnlyAny(k);
      count := KeyUnionCardinality(k.any, anyBitmap, k.key, k.low, k.high);
      return;
    }
    var driver := KeyDriver(k.all);
    if |k.all| == 1 && |k.any| == 0 && |k.none| == 0 {
      OnlyOne(k);
      count := RangeCardinality(k.all[0], k.low, k.high);
      return;
    }
    if |k.all| > 0 && !k.all[driver].data.Bits? {
      var others, begin, end := Drive(k, driver);
      count := CountSlice(k, driver, others, begin, end);
      return;
    }
    count := MatchBits(k, words, scratch);
  }

  /** `query_key_page`: exactly the stretch of the key's matches the page asks for. */
  method KeyPage(k: QueryKey, skip: nat, size: nat, descending: bool, words: array<bv64>, scratch: array<bv64>)
    returns (out: seq<nat>, left: nat)
    requires KeyOk(k) && words != scratch && words.Length == scratch.Length == WORDS
    modifies words, scratch
    ensures out == Window(Raised(k.key, Listing(MatchLows(k), descending)), skip, size)
    ensures size > 0 ==> left == SkipAfter(skip, |MatchLows(k)|)
  {
    hide MatchLows, Sound, Driven, BitsBetween, Listing;
    if |k.all| == 0 && |k.none| == 0 {
      OnlyAny(k);
      if skip > 0 {
        var anyBitmap := AnyIsBitmap(k.any);
        var inKey := KeyUnionCardinality(k.any, anyBitmap, k.key, k.low, k.high);
        if skip >= inKey { return [], skip - inKey; }
      }
      out, left := KeyUnionEmit(k.any, k.key, k.low, k.high, skip, size, descending);
      return;
    }
    var driver := KeyDriver(k.all);
    if |k.all| > 0 && !k.all[driver].data.Bits? {
      var others, begin, end := Drive(k, driver);
      out, left := PageSlice(k, driver, others, begin, end, skip, size, descending);
      return;
    }
    var inKey := MatchBits(k, words, scratch);
    if skip >= inKey { return [], skip - inKey; }
    out, left := WordsEmit(words[..], k.low, k.high, k.key, skip, size, descending);
  }
}
