// The union of several containers of one key: its size, by whichever of the source's ways applies.
module KeyUnion {
  import opened Word64
  import opened Order
  import opened WordBuffer
  import opened Containers
  import opened Kernels
  import opened Merging
  import opened KeyBits

  const UNION_BITS_FROM: nat := 128
  const UNION_MERGE_UP_TO: nat := 1024

  // ---------- the sum of the slice lengths ----------

  ghost function Total(parts: seq<Container>, low: nat, high: nat): nat {
    if parts == [] then 0
    else
      var n := |parts| - 1;
      Total(parts[..n], low, high) + if parts[n].data.Bits? then 0 else |Part(parts[n], low, high)|
  }

  lemma TotalNext(parts: seq<Container>, i: nat, low: nat, high: nat)
    requires i < |parts|
    ensures Total(parts[..i + 1], low, high)
         == Total(parts[..i], low, high) + if parts[i].data.Bits? then 0 else |Part(parts[i], low, high)|
  {
    assert parts[..i + 1][..i] == parts[..i];
  }

  lemma {:induction false} TotalGrows(parts: seq<Container>, i: nat, low: nat, high: nat)
    requires i <= |parts|
    ensures Total(parts[..i], low, high) <= Total(parts, low, high)
    decreases |parts| - i
  {
    if i < |parts| {
      TotalNext(parts, i, low, high);
      TotalGrows(parts, i + 1, low, high);
    } else {
      assert parts[..i] == parts;
    }
  }

  /** `array_values_in_range` */
  method ArrayValuesInRange(parts: seq<Container>, ghost key: nat, low: nat, high: nat) returns (total: nat)
    requires OfKey(parts, key) && low <= high < LOWS
    ensures total == Total(parts, low, high)
  {
    hide Sound, Part, Total, LowsOf;
    total := 0;
    var p := 0;
    assert Total(parts[..0], low, high) == 0 by { NoTotal(low, high); }
    while p < |parts|
      invariant 0 <= p <= |parts| && total == Total(parts[..p], low, high)
    {
      TotalNext(parts, p, low, high);
      if !parts[p].data.Bits? {
        var begin, end := SliceOf(parts[p], low, high);
        total := total + (end - begin);
      }
      p := p + 1;
    }
    InWhole(parts);
  }

  lemma NoTotal(low: nat, high: nat)
    ensures Total([], low, high) == 0
  {
  }

  // ---------- few values: merged ----------

  ghost predicate Arrays(parts: seq<Container>) { forall p :: 0 <= p < |parts| ==> !parts[p].data.Bits? }

  /** Each span is what its part has inside the range. */
  ghost predicate SpansOf(spans: seq<Span>, parts: seq<Container>, low: nat, high: nat) {
    |spans| <= |parts|
    && forall p :: 0 <= p < |spans| ==> Sorted(spans[p]) && SpanSet(spans[p]) == Part(parts[p], low, high)
  }

  /** A wide view's slice written to the scratch as low parts, from `used` on. */
  method CopyLows(scratch: array<nat>, c: Container, begin: nat, end: nat, used: nat) returns (after: nat)
    requires Sound(c) && c.data.Wide? && begin <= end <= |LowsOf(c)| && used + (end - begin) <= scratch.Length
    modifies scratch
    ensures after == used + (end - begin) && scratch[used..after] == LowsOf(c)[begin..end]
  {
    hide Sound;
    after := used;
    var i := begin;
    while i < end
      invariant begin <= i <= end && after == used + (i - begin)
      invariant scratch[used..after] == LowsOf(c)[begin..i]
    {
      scratch[after] := LowOf(c.data.values[i]);
      assert LowsOf(c)[begin..i + 1] == LowsOf(c)[begin..i] + [LowsOf(c)[i]];
      assert scratch[used..after + 1] == scratch[used..after] + [scratch[after]];
      after := after + 1;
      i := i + 1;
    }
  }

  lemma SliceSpan(c: Container, begin: nat, end: nat, low: nat, high: nat)
    requires Sound(c) && !c.data.Bits? && begin <= end <= |LowsOf(c)|
    requires Elements(LowsOf(c)[begin..end]) == Part(c, low, high)
    ensures Sorted(Span(LowsOf(c), begin, end)) && SpanSet(Span(LowsOf(c), begin, end)) == Part(c, low, high)
    ensures var q := LowsOf(c)[begin..end];
            Sorted(Span(q, 0, |q|)) && SpanSet(Span(q, 0, |q|)) == Part(c, low, high)
  {
    hide Sound, Part, LowsOf, Elements;
    LowsSorted(c);
    var q := LowsOf(c)[begin..end];
    assert q[0..|q|] == q;
    assert Ascending(q);
  }

  /**
   * `key_union_spans`: span i is the slice of part i. The `requires` on `Total` is the caller's
   * guard, and keeps every write to `scratch` below its length.
   */
  method KeyUnionSpans(parts: seq<Container>, ghost key: nat, low: nat, high: nat) returns (spans: seq<Span>)
    requires OfKey(parts, key) && Arrays(parts) && low <= high < LOWS && Total(parts, low, high) < UNION_BITS_FROM
    ensures |spans| == |parts| && SpansOf(spans, parts, low, high)
  {
    hide Sound, Part, Total, LowsOf, Elements, Sorted, SpanSet;
    var scratch := new nat[UNION_BITS_FROM];
    var used: nat := 0;
    spans := [];
    var p := 0;
    while p < |parts|
      invariant 0 <= p <= |parts| && |spans| == p && SpansOf(spans, parts, low, high)
      invariant used <= Total(parts[..p], low, high)
    {
      var c := parts[p];
      TotalNext(parts, p, low, high);
      TotalGrows(parts, p + 1, low, high);
      var begin, end := SliceOf(c, low, high);
      SliceSpan(c, begin, end, low, high);
      if c.data.Wide? {
        var from := used;
        used := CopyLows(scratch, c, begin, end, from);
        spans := spans + [Span(scratch[from..used], 0, end - begin)];
      } else {
        spans := spans + [Span(LowsOf(c), begin, end)];
      }
      p := p + 1;
    }
  }

  /** The spans together are the union of the parts inside the range. */
  lemma SpansUnion(spans: seq<Span>, parts: seq<Container>, low: nat, high: nat)
    requires |spans| == |parts| && SpansOf(spans, parts, low, high)
    ensures All(Sets(spans)) == UnionLows(parts, low, high)
  {
    hide Has, SpanSet;
    forall x: nat ensures x in All(Sets(spans)) <==> x in UnionLows(parts, low, high) {
      if x in All(Sets(spans)) {
        var p: nat :| p < |spans| && x in Sets(spans)[p];
        assert x in Part(parts[p], low, high);
      }
      if x in UnionLows(parts, low, high) {
        var p :| 0 <= p < |parts| && Has(parts[p], x);
        assert x in Part(parts[p], low, high);
        assert x in Sets(spans)[p];
      }
    }
  }

  ghost predicate AllSorted(spans: seq<Span>) { forall p :: 0 <= p < |spans| ==> Sorted(spans[p]) }

  /** Every value of the spans is a low part. */
  ghost predicate Within(s: set<nat>) { forall x :: x in s ==> x < LOWS }

  /** The smallest value a span stands on; 0x10000 once all are read out. */
  method Smallest(spans: seq<Span>) returns (smallest: nat)
    requires AllSorted(spans) && Within(All(Sets(spans)))
    ensures smallest == LOWS ==> All(Sets(spans)) == {}
    ensures smallest != LOWS ==> FirstOf(smallest, All(Sets(spans)), false)
  {
    smallest := LOWS;
    var p := 0;
    while p < |spans|
      invariant 0 <= p <= |spans| && smallest <= LOWS
      invariant forall i :: 0 <= i < p && spans[i].begin < spans[i].end ==> smallest <= spans[i].values[spans[i].begin]
      invariant smallest < LOWS ==> exists i :: 0 <= i < p && spans[i].begin < spans[i].end && spans[i].values[spans[i].begin] == smallest
    {
      assert Sorted(spans[p]);
      if spans[p].begin < spans[p].end && spans[p].values[spans[p].begin] < smallest {
        smallest := spans[p].values[spans[p].begin];
      }
      p := p + 1;
    }
    SmallestOf(spans, smallest);
  }

  lemma SmallestOf(spans: seq<Span>, smallest: nat)
    requires AllSorted(spans) && Within(All(Sets(spans))) && smallest <= LOWS
    requires forall i :: 0 <= i < |spans| && spans[i].begin < spans[i].end ==> smallest <= spans[i].values[spans[i].begin]
    requires smallest < LOWS ==>
               exists i :: 0 <= i < |spans| && spans[i].begin < spans[i].end && spans[i].values[spans[i].begin] == smallest
    ensures smallest == LOWS ==> All(Sets(spans)) == {}
    ensures smallest != LOWS ==> FirstOf(smallest, All(Sets(spans)), false)
  {
    hide SpanSet;
    forall x | x in All(Sets(spans)) ensures smallest <= x {
      var p: nat :| p < |spans| && x in Sets(spans)[p];
      SpanFrom(spans[p], x);
    }
    if smallest < LOWS {
      var i :| 0 <= i < |spans| && spans[i].begin < spans[i].end && spans[i].values[spans[i].begin] == smallest;
      HeadMoves(spans[i], false);
      assert smallest in Sets(spans)[i];
    }
  }

  lemma SpanFrom(s: Span, x: nat)
    requires Sorted(s) && x in SpanSet(s)
    ensures s.begin < s.end && s.values[s.begin] <= x
  {
    var i :| 0 <= i < |s.values[s.begin..s.end]| && s.values[s.begin..s.end][i] == x;
    assert s.values[s.begin + i] == x;
  }

  /** `pick` is taken out of every span; spans that become empty stay in place. */
  method Pass(spans: seq<Span>, pick: nat) returns (r: seq<Span>)
    requires AllSorted(spans) && FirstOf(pick, All(Sets(spans)), false)
    ensures AllSorted(r) && All(Sets(r)) == All(Sets(spans)) - {pick}
  {
    hide All, SpanSet;
    ghost var was := All(Sets(spans));
    r := spans;
    var p := 0;
    while p < |r|
      invariant 0 <= p <= |r| == |spans| && AllSorted(r)
      invariant All(Sets(r)) + {pick} == was
      invariant forall i :: 0 <= i < p ==> pick !in SpanSet(r[i])
    {
      assert Sorted(r[p]);
      if r[p].begin < r[p].end {
        HeadMoves(r[p], false);
        PartWithin(Sets(r), p);
        PickOnlyFirst(Sets(r), p, Head(r[p], false), pick, false);
        if r[p].values[r[p].begin] == pick {
          SpanMoved(r, p, false);
          r := r[p := r[p].(begin := r[p].begin + 1)];
        }
      } else {
        ReadOut(r[p]);
      }
      p := p + 1;
    }
    AllWithout(Sets(r), was, pick);
  }

  lemma ReadOut(s: Span)
    requires s.begin >= s.end
    ensures SpanSet(s) == {}
  {
  }

  /** The low parts any of the bitmaps has. */
  ghost function BitmapLows(bitmaps: seq<Container>): set<nat> { set x: nat | x < LOWS && InAny(bitmaps, x) }

  ghost predicate Bitmaps(parts: seq<Container>) { forall p :: 0 <= p < |parts| ==> parts[p].data.Bits? }

  /** `any_bit` */
  method AnyBit(bitmaps: seq<Container>, ghost key: nat, low: nat) returns (found: bool)
    requires OfKey(bitmaps, key) && Bitmaps(bitmaps) && low < LOWS
    ensures found <==> InAny(bitmaps, low)
  {
    hide Bit, BitsBetween;
    var b := 0;
    while b < |bitmaps|
      invariant 0 <= b <= |bitmaps| && forall i :: 0 <= i < b ==> !Has(bitmaps[i], low)
    {
      var bit := TestBit(bitmaps[b].data.words[low / 64], low % 64);
      if bit { return true; }
      b := b + 1;
    }
    return false;
  }

  /** Adds to `start` the size of the spans' union without the bitmaps' values. */
  method CountMerged(from: seq<Span>, bitmaps: seq<Container>, ghost key: nat, start: nat) returns (total: nat)
    requires AllSorted(from) && Within(All(Sets(from))) && OfKey(bitmaps, key) && Bitmaps(bitmaps)
    ensures total == start + |All(Sets(from)) - BitmapLows(bitmaps)|
  {
    hide All, InAny, Sorted;
    var spans := from;
    total := start;
    ghost var left, had := All(Sets(from)), BitmapLows(bitmaps);
    while true
      invariant AllSorted(spans) && left == All(Sets(spans)) && Within(left)
      invariant total + |left - had| == start + |All(Sets(from)) - had|
      decreases |left|
    {
      var smallest := Smallest(spans);
      if smallest == LOWS { return; }
      var has := AnyBit(bitmaps, key, smallest);
      if !has { total := total + 1; }
      spans := Pass(spans, smallest);
      OneLess(left, had, smallest);
      left := left - {smallest};
    }
  }

  lemma OneLess(s: set<nat>, had: set<nat>, x: nat)
    requires x in s
    ensures |s - {x}| < |s|
    ensures |s - had| == |s - {x} - had| + if x in had then 0 else 1
  {
    assert s == s - {x} + {x};
    if x !in had { assert s - had == (s - {x} - had) + {x}; } else { assert s - had == s - {x} - had; }
  }

  // ---------- a bitmap among the parts ----------

  /** One word of the bitmaps' union. */
  method UnionWord(bitmaps: seq<Container>, ghost key: nat, w: nat) returns (word: bv64)
    requires OfKey(bitmaps, key) && Bitmaps(bitmaps) && w < WORDS
    ensures forall k: nat | k < 64 :: Bit(word, k) <==> InAny(bitmaps, 64 * w + k)
  {
    hide Bit, BitsBetween, InAny;
    word := 0;
    BitSetOfZero();
    forall k: nat | k < 64 ensures !Bit(0, k) { assert k !in BitSet(0); }
    InWhole(bitmaps);
    var b := 0;
    while b < |bitmaps|
      invariant 0 <= b <= |bitmaps|
      invariant forall k: nat | k < 64 :: Bit(word, k) <==> InAny(bitmaps[..b], 64 * w + k)
    {
      word := Word64.Or(word, bitmaps[b].data.words[w]);
      forall k: nat | k < 64 ensures Bit(word, k) <==> InAny(bitmaps[..b + 1], 64 * w + k) {
        PlaceOf(w, k);
        InAnyNext(bitmaps, b, 64 * w + k);
      }
      b := b + 1;
    }
  }

  lemma UnionWordLows(bitmaps: seq<Container>, word: bv64, w: nat, low: nat, high: nat, until: set<nat>)
    requires low <= high < LOWS && low / 64 <= w <= high / 64
    requires forall k: nat | k < 64 ::
               Bit(word, k) <==> InAny(bitmaps, 64 * w + k) && (w == low / 64 ==> low % 64 <= k) && (w == high / 64 ==> k <= high % 64)
    requires until == set x | x in UnionLows(bitmaps, low, high) && x < 64 * w
    ensures (set x | x in UnionLows(bitmaps, low, high) && x < 64 * (w + 1)) == until + WordLows(word, w)
    ensures |until + WordLows(word, w)| == |until| + |BitSet(word)|
  {
    hide Bit, InAny;
    forall x: nat | 64 * w <= x < 64 * (w + 1) ensures x in UnionLows(bitmaps, low, high) <==> InWord(word, w, x) {
      PlaceOf(w, x - 64 * w);
    }
    WordLowsSize(word, w);
    DisjointSize(until, WordLows(word, w), until + WordLows(word, w));
  }

  /** The bitmaps' union inside the range, counted word by word. */
  method CountBitmaps(bitmaps: seq<Container>, ghost key: nat, low: nat, high: nat) returns (total: nat)
    requires OfKey(bitmaps, key) && Bitmaps(bitmaps) && low <= high < LOWS
    ensures total == |UnionLows(bitmaps, low, high)|
  {
    hide Bit, InAny, BitSet, Sound, WordLows;
    if |bitmaps| == 1 {
      OneBitmap(bitmaps, key, low, high);
      total := WordsCardinality(bitmaps[0].data.words, low, high);
      return;
    }
    var first, last := low / 64, high / 64;
    ghost var s := UnionLows(bitmaps, low, high);
    ghost var until: set<nat> := {};
    total := 0;
    var w := first;
    WindowCovers(low, high);
    while w <= last
      invariant first <= w <= last + 1 && total == |until|
      invariant until == set x | x in s && x < 64 * w
    {
      var word := UnionWord(bitmaps, key, w);
      if w == first { word := KeepFrom(word, low % 64); }
      if w == last { word := KeepUpTo(word, high % 64); }
      var bits := PopCount(word);
      UnionWordLows(bitmaps, word, w, low, high, until);
      until := until + WordLows(word, w);
      total := total + bits;
      w := w + 1;
    }
    assert until == s;
  }

  lemma OneBitmap(bitmaps: seq<Container>, key: nat, low: nat, high: nat)
    requires OfKey(bitmaps, key) && Bitmaps(bitmaps) && |bitmaps| == 1 && low <= high < LOWS
    ensures Sound(bitmaps[0]) && |bitmaps[0].data.words| == WORDS
    ensures BitsBetween(bitmaps[0].data.words, low, high + 1) == UnionLows(bitmaps, low, high)
  {
    hide HasBit;
    assert forall x :: InAny(bitmaps, x) <==> Has(bitmaps[0], x);
  }

  /** The parts of a key told apart: every one is a bitmap or an array, none is lost. */
  ghost predicate Parted(parts: seq<Container>, bitmaps: seq<Container>, arrays: seq<Container>, low: nat, high: nat) {
    Bitmaps(bitmaps) && Arrays(arrays) && (forall c :: c in bitmaps || c in arrays <==> c in parts)
    && Total(arrays, low, high) == Total(parts, low, high)
  }

  lemma PartedNext(parts: seq<Container>, i: nat, bitmaps: seq<Container>, arrays: seq<Container>, low: nat, high: nat)
    requires i < |parts| && Parted(parts[..i], bitmaps, arrays, low, high)
    ensures if parts[i].data.Bits? then Parted(parts[..i + 1], bitmaps + [parts[i]], arrays, low, high)
            else Parted(parts[..i + 1], bitmaps, arrays + [parts[i]], low, high)
  {
    hide Part;
    TotalNext(parts, i, low, high);
    assert parts[..i + 1] == parts[..i] + [parts[i]];
    var grown := arrays + [parts[i]];
    assert grown[..|arrays|] == arrays;
  }

  lemma PartedUnion(parts: seq<Container>, bitmaps: seq<Container>, arrays: seq<Container>, key: nat, low: nat, high: nat)
    requires OfKey(parts, key) && Parted(parts, bitmaps, arrays, low, high) && low <= high < LOWS
    ensures OfKey(bitmaps, key) && OfKey(arrays, key)
    ensures UnionLows(parts, low, high) == UnionLows(bitmaps, low, high) + (UnionLows(arrays, low, high) - BitmapLows(bitmaps))
    ensures |UnionLows(parts, low, high)|
         == |UnionLows(bitmaps, low, high)| + |UnionLows(arrays, low, high) - BitmapLows(bitmaps)|
  {
    hide Has, Sound, Total, InAny;
    forall p | 0 <= p < |bitmaps| ensures Sound(bitmaps[p]) && bitmaps[p].key == key { assert bitmaps[p] in parts; }
    forall p | 0 <= p < |arrays| ensures Sound(arrays[p]) && arrays[p].key == key { assert arrays[p] in parts; }
    forall x ensures InAny(parts, x) <==> InAny(bitmaps, x) || InAny(arrays, x) { InEither(parts, bitmaps, arrays, x); }
    DisjointSize(UnionLows(bitmaps, low, high), UnionLows(arrays, low, high) - BitmapLows(bitmaps), UnionLows(parts, low, high));
  }

  lemma InEither(parts: seq<Container>, some: seq<Container>, others: seq<Container>, x: nat)
    requires forall c :: c in some || c in others <==> c in parts
    ensures InAny(parts, x) <==> InAny(some, x) || InAny(others, x)
  {
    hide Has;
    assert InAny(parts, x) <==> exists c :: c in parts && Has(c, x);
    assert InAny(some, x) <==> exists c :: c in some && Has(c, x);
    assert InAny(others, x) <==> exists c :: c in others && Has(c, x);
  }

  lemma LowsWithin(parts: seq<Container>, low: nat, high: nat)
    requires high < LOWS
    ensures Within(UnionLows(parts, low, high))
  {
  }

  /**
   * `mixed_union_cardinality`: the size of the union as the bitmaps' share plus what the arrays add
   * to it.
   */
  method MixedUnionCardinality(parts: seq<Container>, ghost key: nat, low: nat, high: nat) returns (total: nat)
    requires OfKey(parts, key) && low <= high < LOWS && Total(parts, low, high) < UNION_BITS_FROM
    ensures total == |UnionLows(parts, low, high)|
  {
    hide Sound, Total, UnionLows, Parted, BitmapLows;
    var bitmaps, arrays := [], [];
    var p := 0;
    assert Parted(parts[..0], [], [], low, high) by { PartedNone(parts, low, high); }
    while p < |parts|
      invariant 0 <= p <= |parts| && Parted(parts[..p], bitmaps, arrays, low, high)
    {
      PartedNext(parts, p, bitmaps, arrays, low, high);
      if parts[p].data.Bits? { bitmaps := bitmaps + [parts[p]]; } else { arrays := arrays + [parts[p]]; }
      p := p + 1;
    }
    InWhole(parts);
    PartedUnion(parts, bitmaps, arrays, key, low, high);
    PartedKinds(parts, bitmaps, arrays, low, high);
    total := CountBitmaps(bitmaps, key, low, high);
    if |arrays| == 0 {
      NoArrays(arrays, low, high);
      return;
    }
    var spans := KeyUnionSpans(arrays, key, low, high);
    SpansUnion(spans, arrays, low, high);
    LowsWithin(arrays, low, high);
    total := CountMerged(spans, bitmaps, key, total);
  }

  lemma PartedNone(parts: seq<Container>, low: nat, high: nat)
    ensures Parted(parts[..0], [], [], low, high)
  {
  }

  lemma PartedKinds(parts: seq<Container>, bitmaps: seq<Container>, arrays: seq<Container>, low: nat, high: nat)
    requires Parted(parts, bitmaps, arrays, low, high)
    ensures Bitmaps(bitmaps) && Arrays(arrays) && Total(arrays, low, high) == Total(parts, low, high)
  {
  }

  lemma NoArrays(arrays: seq<Container>, low: nat, high: nat)
    requires arrays == []
    ensures UnionLows(arrays, low, high) == {}
  {
  }

  /** `merged_arrays_cardinality` */
  method MergedArraysCardinality(parts: seq<Container>, ghost key: nat, low: nat, high: nat) returns (total: nat)
    requires OfKey(parts, key) && Arrays(parts) && low <= high < LOWS && Total(parts, low, high) < UNION_BITS_FROM
    ensures total == |UnionLows(parts, low, high)|
  {
    hide Sound, Total, UnionLows;
    var spans := KeyUnionSpans(parts, key, low, high);
    SpansUnion(spans, parts, low, high);
    LowsWithin(parts, low, high);
    total := CountMerged(spans, [], key, 0);
    assert UnionLows(parts, low, high) - BitmapLows([]) == UnionLows(parts, low, high);
  }

  /** `key_union_cardinality`: how many low parts of the range any of the parts has, whichever way is taken. */
  method KeyUnionCardinality(parts: seq<Container>, anyBitmap: bool, ghost key: nat, low: nat, high: nat) returns (count: nat)
    requires OfKey(parts, key) && low <= high < LOWS && (!anyBitmap ==> Arrays(parts))
    ensures count == |UnionLows(parts, low, high)|
  {
    hide Sound, Total, BitsBetween;
    if |parts| == 1 {
      count := RangeCardinality(parts[0], low, high);
      assert UnionLows(parts, low, high) == Part(parts[0], low, high) by { OneUnion(parts, low, high); }
      return;
    }
    var values := ArrayValuesInRange(parts, key, low, high);
    if values >= UNION_BITS_FROM {
      var words;
      words, count := UnionWords(parts, key, low, high);
      return;
    }
    if anyBitmap {
      count := MixedUnionCardinality(parts, key, low, high);
    } else {
      count := MergedArraysCardinality(parts, key, low, high);
    }
  }

  lemma OneUnion(parts: seq<Container>, low: nat, high: nat)
    requires |parts| == 1
    ensures UnionLows(parts, low, high) == Part(parts[0], low, high)
  {
    hide Has;
    assert forall x :: InAny(parts, x) <==> Has(parts[0], x);
  }
}
