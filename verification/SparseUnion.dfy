// The union of sets that are all sparse: `Span`s are what is left of each, `All(Sets(spans))` their
// union.
module SparseUnion {
  import opened Results
  import opened Order
  import opened WordBuffer
  import opened Containers
  import opened Views
  import opened Ranges
  import opened Kernels
  import opened Merging
  import opened KeyUnion
  import opened Cursors

  // ---------- the sets of a list ----------

  ghost predicate InSome(sets: seq<Option<View>>, v: nat) {
    exists s :: 0 <= s < |sets| && sets[s].Some? && v in Content(sets[s].value)
  }

  /** The values some set of the list has; a missing set has none. */
  ghost function SomeContent(sets: seq<Option<View>>): set<nat> { set v: nat | v <= UINT32_MAX && InSome(sets, v) }

  ghost predicate AllViews(sets: seq<Option<View>>) { forall s :: 0 <= s < |sets| && sets[s].Some? ==> SoundView(sets[s].value) }

  ghost predicate SparseSets(sets: seq<Option<View>>) { forall s :: 0 <= s < |sets| && sets[s].Some? ==> sets[s].value.Sparse() }

  /** `all_sparse` */
  method AllSparse(sets: seq<Option<View>>) returns (sparse: bool)
    ensures sparse <==> SparseSets(sets)
  {
    var s := 0;
    while s < |sets|
      invariant 0 <= s <= |sets| && forall i :: 0 <= i < s && sets[i].Some? ==> sets[i].value.Sparse()
    {
      if sets[s].Some? && !sets[s].value.Sparse() { return false; }
      s := s + 1;
    }
    return true;
  }

  lemma InSomeNext(sets: seq<Option<View>>, s: nat)
    requires s < |sets|
    ensures SomeContent(sets[..s + 1])
         == if sets[s].Some? then SomeContent(sets[..s]) + Content(sets[s].value) else SomeContent(sets[..s])
  {
    hide Content;
    forall v: nat ensures InSome(sets[..s + 1], v)
                      <==> InSome(sets[..s], v) || (sets[s].Some? && v in Content(sets[s].value)) {
      if InSome(sets[..s], v) {
        var i :| 0 <= i < s && sets[..s][i].Some? && v in Content(sets[..s][i].value);
        assert sets[..s + 1][i] == sets[..s][i];
      }
      assert sets[..s + 1][s] == sets[s];
    }
    if sets[s].Some? { ContentBounded(sets[s].value); }
  }

  lemma ContentBounded(view: View)
    ensures Values(Content(view))
  {
  }

  lemma NoSets(sets: seq<Option<View>>)
    ensures SomeContent(sets[..0]) == {} && sets[..|sets|] == sets
  {
  }

  /** A sparse set's slice inside the range. */
  lemma RangeSpan(view: View, begin: nat, end: nat, min: nat, max: nat)
    requires SoundView(view) && view.Sparse() && begin <= |view.values| && end <= |view.values| && min <= max
    requires forall i :: 0 <= i < begin ==> view.values[i] < min
    requires forall i :: begin <= i < |view.values| ==> min <= view.values[i]
    requires forall i :: 0 <= i < end ==> view.values[i] <= max
    requires forall i :: end <= i < |view.values| ==> max < view.values[i]
    ensures begin <= end && Sorted(Span(view.values, begin, end))
    ensures SpanSet(Span(view.values, begin, end)) == Clip(Content(view), min, max)
  {
    SparseContent(view);
    hide Content;
    StretchIs(view.values, begin, end, min, max, Clip(Content(view), min, max));
  }

  /** `sparse_spans_of`: spans whose union is the sets' clipped to [min, max]; every span is open. */
  method SpansInRange(sets: seq<Option<View>>, min: nat, max: nat) returns (spans: seq<Span>)
    requires AllViews(sets) && SparseSets(sets) && min <= max
    ensures AllOpen(spans) && |spans| <= |sets| && All(Sets(spans)) == Clip(SomeContent(sets), min, max)
  {
    hide All, SpanSet, SomeContent, Content, Clip, Sorted;
    spans := [];
    NoParts([]);
    NoSets(sets);
    ClipNone(min, max);
    var s := 0;
    while s < |sets|
      invariant 0 <= s <= |sets| && |spans| <= s && AllOpen(spans)
      invariant All(Sets(spans)) == Clip(SomeContent(sets[..s]), min, max)
    {
      InSomeNext(sets, s);
      if sets[s].Some? {
        var view := sets[s].value;
        ClipJoins(SomeContent(sets[..s]), Content(view), min, max);
        SoundSize(view);
        if view.cardinality == 0 {
          ClipNone(min, max);
        } else {
          SoundSparse(view);
          var begin := LowerBound(view.values, min);
          var end := UpperBound(view.values, max);
          RangeSpan(view, begin, end, min, max);
          if begin == end {
            ReadOut(Span(view.values, begin, end));
          } else {
            AllAppended(Sets(spans), Clip(Content(view), min, max));
            assert Sets(spans + [Span(view.values, begin, end)]) == Sets(spans) + [Clip(Content(view), min, max)];
            spans := spans + [Span(view.values, begin, end)];
          }
        }
      }
      s := s + 1;
    }
  }

  lemma SoundSparse(view: View)
    requires SoundView(view) && view.Sparse()
    ensures Ascending(view.values) && forall v :: v in view.values ==> v <= UINT32_MAX
  {
  }

  lemma SoundSize(view: View)
    requires SoundView(view)
    ensures view.cardinality == 0 ==> Content(view) == {}
  {
  }

  lemma ClipNone(min: nat, max: nat)
    ensures Clip({}, min, max) == {}
  {
  }

  lemma ClipJoins(s: set<nat>, t: set<nat>, min: nat, max: nat)
    ensures Clip(s + t, min, max) == Clip(s, min, max) + Clip(t, min, max) && s + {} == s
  {
  }

  // ---------- counting ----------

  lemma OneSpan(spans: seq<Span>)
    requires |spans| == 1 && Sorted(spans[0])
    ensures |All(Sets(spans))| == spans[0].end - spans[0].begin
  {
    OnePart(Sets(spans));
    SpanSize(spans[0]);
  }

  /** `sparse_merged_cardinality`: the size of the union. */
  method MergedCardinality(from: seq<Span>) returns (count: nat)
    requires AllOpen(from)
    ensures count == |All(Sets(from))|
  {
    hide All, Sets, FirstOf;
    if |from| == 1 {
      OneSpan(from);
      return from[0].end - from[0].begin;
    }
    var spans := from;
    ghost var left := All(Sets(from));
    count := 0;
    while |spans| > 0
      invariant AllOpen(spans) && left == All(Sets(spans)) && count + |left| == |All(Sets(from))|
      decreases |left|
    {
      var smallest := Pick(spans, false);
      spans := Step(spans, smallest, false);
      PickCounts(left, smallest);
      left := left - {smallest};
      count := count + 1;
    }
    NoParts(Sets(spans));
  }

  lemma PickCounts(s: set<nat>, x: nat)
    requires FirstOf(x, s, false)
    ensures |s - {x}| == |s| - 1
  {
  }

  /** The lengths of the spans, values several have counted each time. */
  method TotalLength(spans: seq<Span>) returns (total: nat)
    requires AllOpen(spans)
    ensures |spans| == 1 ==> total == spans[0].end - spans[0].begin
  {
    total := 0;
    var p := 0;
    while p < |spans|
      invariant 0 <= p <= |spans|
      invariant p == 0 ==> total == 0
      invariant p == 1 ==> total == spans[0].end - spans[0].begin
    {
      assert Open(spans[p]);
      total := total + (spans[p].end - spans[p].begin);
      p := p + 1;
    }
  }

  /** The share of a key in a set. */
  ghost function KeyValues(s: set<nat>, key: nat): set<nat> { set v | v in s && KeyOf(v) == key }

  /** A part cut in two. */
  lemma AllCut(sets: seq<set<nat>>, p: nat, t: set<nat>, u: set<nat>)
    requires p < |sets| && sets[p] == t + u
    ensures All(sets[p := t]) + u == All(sets)
  {
    var r := sets[p := t];
    forall x | x in All(sets) ensures x in All(r) + u {
      var i: nat :| i < |sets| && x in sets[i];
      assert i != p || x in u || x in r[p];
      if x !in u { assert x in r[i]; }
    }
    forall x | x in All(r) + u ensures x in All(sets) {
      if x in u {
        assert x in sets[p];
      } else {
        var i: nat :| i < |r| && x in r[i];
        assert x in sets[i];
      }
    }
  }

  lemma SpanCut(s: Span, mid: nat)
    requires Open(s) && s.begin < mid <= s.end
    ensures Open(s.(end := mid)) && Sorted(s.(begin := mid))
    ensures SpanSet(s) == SpanSet(s.(begin := mid)) + SpanSet(s.(end := mid))
  {
    assert s.values[s.begin..s.end] == s.values[s.begin..mid] + s.values[mid..s.end];
  }

  /** Where a span's values of its first key end. */
  lemma KeyEnds(s: Span, mid: nat, key: nat)
    requires Open(s) && key == KeyOf(s.values[s.begin]) && s.begin <= mid <= s.end
    requires forall i :: s.begin <= i < mid ==> s.values[i] <= ValueOf(key, LOWS - 1)
    requires forall i :: mid <= i < s.end ==> ValueOf(key, LOWS - 1) < s.values[i]
    ensures s.begin < mid
    ensures forall i :: s.begin <= i < mid ==> KeyOf(s.values[i]) == key
    ensures forall i :: mid <= i < s.end ==> KeyOf(s.values[i]) > key
  {
    Sources.KeyBetween(s.values[s.begin], key);
    forall i | s.begin <= i < s.end ensures if i < mid then KeyOf(s.values[i]) == key else KeyOf(s.values[i]) > key {
      Sources.KeyBetween(s.values[i], key);
    }
  }

  /** The low parts of a span inside a key lie between those of its ends. */
  lemma LowsBetween(s: Span, key: nat, low: nat, high: nat)
    requires Open(s) && forall i :: s.begin <= i < s.end ==> KeyOf(s.values[i]) == key
    requires low <= LowOf(s.values[s.begin]) && LowOf(s.values[s.end - 1]) <= high
    ensures InKey(SpanSet(s), key, low, high)
  {
    hide KeyOf, LowOf;
    forall i | s.begin <= i < s.end ensures low <= LowOf(s.values[i]) <= high {
      JoinValue(s.values[i]); JoinValue(s.values[s.begin]); JoinValue(s.values[s.end - 1]);
      ValueOrder(key, LowOf(s.values[i]), key, LowOf(s.values[s.begin]));
      ValueOrder(key, LowOf(s.values[s.end - 1]), key, LowOf(s.values[i]));
    }
    forall v | v in SpanSet(s) ensures KeyOf(v) == key && low <= LowOf(v) <= high {
      var i :| 0 <= i < s.end - s.begin && s.values[s.begin..s.end][i] == v;
      assert s.values[s.begin + i] == v;
    }
  }

  ghost predicate InKey(s: set<nat>, key: nat, low: nat, high: nat) {
    forall v :: v in s ==> KeyOf(v) == key && low <= LowOf(v) <= high
  }

  lemma InKeyJoins(s: set<nat>, t: set<nat>, key: nat, low: nat, high: nat, lower: nat, higher: nat)
    requires InKey(s, key, low, high) && InKey(t, key, lower, higher) && lower <= low && high <= higher
    ensures InKey(s + t, key, lower, higher)
  {
  }

  lemma KeyGone(s: Span, key: nat)
    requires Sorted(s) && forall i :: s.begin <= i < s.end ==> KeyOf(s.values[i]) != key
    ensures NoneOfKey(SpanSet(s), key)
  {
    forall v | v in SpanSet(s) ensures KeyOf(v) != key {
      var i :| 0 <= i < s.end - s.begin && s.values[s.begin..s.end][i] == v;
      assert s.values[s.begin + i] == v;
    }
  }

  ghost predicate NoneOfKey(s: set<nat>, key: nat) { forall v :: v in s ==> KeyOf(v) != key }

  /** A span that begins past the key has nothing of it. */
  lemma BeginsPast(s: Span, key: nat)
    requires Open(s) && KeyOf(s.values[s.begin]) > key
    ensures NoneOfKey(SpanSet(s), key)
  {
    forall i | s.begin <= i < s.end ensures KeyOf(s.values[i]) != key { KeyMonotone(s.values[s.begin], s.values[i]); }
    KeyGone(s, key);
  }

  /** The part of one span that lies in the key, and the rest of it. */
  method CutKey(s: Span, key: nat) returns (mid: nat)
    requires Open(s) && KeyOf(s.values[s.begin]) == key
    ensures s.begin < mid <= s.end && Open(s.(end := mid)) && Sorted(s.(begin := mid))
    ensures SpanSet(s) == SpanSet(s.(begin := mid)) + SpanSet(s.(end := mid))
    ensures NoneOfKey(SpanSet(s.(begin := mid)), key)
    ensures forall i :: s.begin <= i < mid ==> KeyOf(s.values[i]) == key
  {
    hide SpanSet, NoneOfKey, KeyOf, ValueOf;
    var width := UpperBound(s.values[s.begin..s.end], ValueOf(key, LOWS - 1));
    mid := s.begin + width;
    forall i | s.begin <= i < s.end ensures s.values[i] == s.values[s.begin..s.end][i - s.begin] {}
    KeyEnds(s, mid, key);
    SpanCut(s, mid);
    KeyGone(s.(begin := mid), key);
  }

  lemma NothingInKey(key: nat, low: nat, high: nat)
    ensures InKey({}, key, low, high)
  {
  }

  lemma BeginsInSet(rest: seq<Span>, p: nat, s: set<nat>, others: set<nat>)
    requires p < |rest| && Open(rest[p]) && All(Sets(rest)) + others == s
    ensures rest[p].values[rest[p].begin] in s
  {
    hide All, SpanSet;
    HeadMoves(rest[p], false);
    PartWithin(Sets(rest), p);
  }

  lemma InKeyNonempty(cut: Span, key: nat, low: nat, high: nat)
    requires Open(cut) && InKey(SpanSet(cut), key, low, high)
    ensures low <= high
  {
    HeadMoves(cut, false);
  }

  lemma KeyMoves(rest: seq<Span>, inKey: seq<Span>, p: nat, mid: nat, s: set<nat>)
    requires p < |rest| && All(Sets(rest)) + All(Sets(inKey)) == s
    requires SpanSet(rest[p]) == SpanSet(rest[p].(begin := mid)) + SpanSet(rest[p].(end := mid))
    ensures All(Sets(inKey + [rest[p].(end := mid)])) == All(Sets(inKey)) + SpanSet(rest[p].(end := mid))
    ensures All(Sets(rest[p := rest[p].(begin := mid)])) + All(Sets(inKey + [rest[p].(end := mid)])) == s
  {
    hide All, SpanSet;
    var t, u := rest[p].(begin := mid), rest[p].(end := mid);
    AllCut(Sets(rest), p, SpanSet(t), SpanSet(u));
    assert Sets(rest[p := t]) == Sets(rest)[p := SpanSet(t)];
    AllAppended(Sets(inKey), SpanSet(u));
    assert Sets(inKey + [u]) == Sets(inKey) + [SpanSet(u)];
  }

  lemma AllPastKey(rest: seq<Span>, key: nat)
    requires forall i :: 0 <= i < |rest| ==> NoneOfKey(SpanSet(rest[i]), key)
    ensures NoneOfKey(All(Sets(rest)), key)
  {
    hide SpanSet;
  }

  lemma KeyTaken(s: set<nat>, rest: set<nat>, inKey: set<nat>, key: nat, low: nat, high: nat)
    requires rest + inKey == s && NoneOfKey(rest, key) && InKey(inKey, key, low, high)
    requires exists v :: v in s && KeyOf(v) == key
    ensures inKey == KeyValues(s, key) && rest == s - KeyValues(s, key) && inKey != {}
  {
    hide KeyOf;
  }

  /** Splits the union at a key: `inKey` has the key's share, `rest` everything else. */
  method TakeKey(from: seq<Span>, key: nat) returns (rest: seq<Span>, inKey: seq<Span>, values: nat, low: nat, high: nat)
    requires AllOpen(from) && |from| > 0 && (forall v :: v in All(Sets(from)) ==> key <= KeyOf(v))
    requires exists v :: v in All(Sets(from)) && KeyOf(v) == key
    ensures AllOpen(rest) && AllOpen(inKey) && |inKey| <= |from|
    ensures All(Sets(inKey)) == KeyValues(All(Sets(from)), key) && All(Sets(rest)) == All(Sets(from)) - KeyValues(All(Sets(from)), key)
    ensures |inKey| > 0 && low <= high < LOWS && InKey(All(Sets(inKey)), key, low, high)
    ensures |inKey| == 1 ==> values == inKey[0].end - inKey[0].begin
  {
    hide All, SpanSet, NoneOfKey, InKey, KeyOf, LowOf;
    ghost var s := All(Sets(from));
    rest, inKey, values, low, high := from, [], 0, LOWS - 1, 0;
    NoParts(Sets([]));
    NothingInKey(key, low, high);
    var p := 0;
    while p < |rest|
      invariant 0 <= p <= |rest| <= |from| && AllOpen(rest) && AllOpen(inKey) && |inKey| + |rest| <= |from| + p
      invariant All(Sets(rest)) + All(Sets(inKey)) == s
      invariant forall i :: 0 <= i < p ==> NoneOfKey(SpanSet(rest[i]), key)
      invariant InKey(All(Sets(inKey)), key, low, high) && high < LOWS && low < LOWS && (|inKey| > 0 ==> low <= high)
      invariant (|inKey| == 0 ==> values == 0) && (|inKey| == 1 ==> values == inKey[0].end - inKey[0].begin)
      decreases |rest| - p
    {
      assert Open(rest[p]);
      BeginsInSet(rest, p, s, All(Sets(inKey)));
      if KeyOf(rest[p].values[rest[p].begin]) == key {
        var span := rest[p];
        var mid := CutKey(span, key);
        var cut := span.(end := mid);
        var lower, higher := low, high;
        JoinValue(span.values[span.begin]); JoinValue(span.values[mid - 1]);
        if LowOf(span.values[span.begin]) < low { lower := LowOf(span.values[span.begin]); }
        if LowOf(span.values[mid - 1]) > high { higher := LowOf(span.values[mid - 1]); }
        LowsBetween(cut, key, lower, higher);
        InKeyJoins(All(Sets(inKey)), SpanSet(cut), key, low, high, lower, higher);
        InKeyNonempty(cut, key, lower, higher);
        KeyMoves(rest, inKey, p, mid, s);
        inKey, values, low, high := inKey + [cut], values + (mid - span.begin), lower, higher;
        if mid == span.end {
          ReadOut(span.(begin := mid));
          assert SwapRemoved(rest[p := span.(begin := mid)], p) == SwapRemoved(rest, p);
          SpanRemoved(rest[p := span.(begin := mid)], p);
          rest := SwapRemoved(rest, p);
          continue;
        }
        rest := rest[p := span.(begin := mid)];
      } else {
        BeginsPast(rest[p], key);
      }
      p := p + 1;
    }
    AllPastKey(rest, key);
    KeyTaken(s, All(Sets(rest)), All(Sets(inKey)), key, low, high);
    if |inKey| == 0 { NoParts(Sets(inKey)); }
  }

  /** The low parts of a span's values. */
  function SpanLows(s: Span): (lows: seq<nat>)
    requires s.begin <= s.end <= |s.values|
    ensures |lows| == s.end - s.begin && forall i :: 0 <= i < |lows| ==> lows[i] == LowOf(s.values[s.begin + i])
  {
    var part := s.values[s.begin..s.end];
    seq(|part|, i requires 0 <= i < |part| => LowOf(part[i]))
  }

  /** The low parts of sorted values of one key stand for those values. */
  lemma LowsOfKey(part: seq<nat>, lows: seq<nat>, key: nat)
    requires |lows| == |part| && forall i :: 0 <= i < |part| ==> KeyOf(part[i]) == key && lows[i] == LowOf(part[i])
    ensures forall x :: x in lows ==> x < LOWS
    ensures forall x: nat :: x < LOWS ==> (x in lows <==> ValueOf(key, x) in part)
  {
    hide KeyOf, LowOf, ValueOf;
    forall i | 0 <= i < |part| ensures ValueOf(key, lows[i]) == part[i] && lows[i] < LOWS { JoinValue(part[i]); }
    forall x: nat | x < LOWS && ValueOf(key, x) in part ensures x in lows {
      var i :| 0 <= i < |part| && part[i] == ValueOf(key, x);
      SplitValue(key, x);
      assert lows[i] == x;
    }
  }

  lemma SpanLowsAre(s: Span, key: nat, low: nat, high: nat)
    requires Open(s) && InKey(SpanSet(s), key, low, high) && high < LOWS
    ensures forall x :: x in SpanLows(s) ==> x < LOWS
    ensures forall x: nat :: x < LOWS ==> (x in SpanLows(s) <==> ValueOf(key, x) in SpanSet(s))
  {
    hide KeyOf, LowOf, ValueOf, SpanLows, Ascending;
    var part := s.values[s.begin..s.end];
    forall i | 0 <= i < |part| ensures KeyOf(part[i]) == key { assert part[i] in SpanSet(s); }
    LowsOfKey(part, SpanLows(s), key);
  }

  lemma SpanInKey(spans: seq<Span>, p: nat, key: nat, low: nat, high: nat)
    requires p < |spans| && InKey(All(Sets(spans)), key, low, high)
    ensures InKey(SpanSet(spans[p]), key, low, high)
  {
    hide All, SpanSet;
    PartWithin(Sets(spans), p);
  }

  lemma NextSpan(spans: seq<Span>, p: nat)
    requires p < |spans|
    ensures All(Sets(spans[..p + 1])) == All(Sets(spans[..p])) + SpanSet(spans[p])
  {
    hide All, SpanSet;
    AllAppended(Sets(spans[..p]), SpanSet(spans[p]));
    assert Sets(spans[..p + 1]) == Sets(spans[..p]) + [SpanSet(spans[p])];
  }

  lemma NoSpans(spans: seq<Span>)
    ensures All(Sets(spans[..0])) == {} && spans[..|spans|] == spans
  {
    NoParts(Sets(spans[..0]));
  }

  /** Taking low parts is one to one inside a key. */
  lemma KeyAsLows(s: set<nat>, key: nat, low: nat, high: nat, lows: set<nat>)
    requires key < LOWS && low <= high < LOWS && InKey(s, key, low, high) && Values(s)
    requires forall x: nat :: x in lows <==> x < LOWS && ValueOf(key, x) in s
    ensures |s| == |lows|
  {
    hide KeyOf, LowOf, ValueOf;
    LiftSize(key, lows);
    forall v: nat ensures v in s <==> v in Lift(key, lows) {
      JoinValue(v);
      if v in s { assert ValueOf(key, LowOf(v)) == v; }
    }
    assert s == Lift(key, lows);
  }

  /** The size of one key's share, counted in a buffer over [low, high]. */
  method KeyInBits(spans: seq<Span>, key: nat, low: nat, high: nat) returns (count: nat)
    requires AllOpen(spans) && key < LOWS && low <= high < LOWS
    requires InKey(All(Sets(spans)), key, low, high) && Values(All(Sets(spans)))
    ensures count == |All(Sets(spans))|
  {
    hide All, SpanSet, InKey, Sets, HasBit, BitsBetween, KeyOf, LowOf, ValueOf, Values;
    var words := new bv64[WORDS];
    var first, last := low / 64, high / 64;
    WindowCovers(low, high);
    Zero(words, first, last);
    NoSpans(spans);
    var p := 0;
    while p < |spans|
      invariant 0 <= p <= |spans|
      invariant forall x: nat :: 64 * first <= x < 64 * (last + 1) ==>
                  (HasBit(words[..], x) <==> ValueOf(key, x) in All(Sets(spans[..p])))
    {
      assert Open(spans[p]);
      SpanInKey(spans, p, key, low, high);
      SpanLowsAre(spans[p], key, low, high);
      NextSpan(spans, p);
      SetLows(words, SpanLows(spans[p]));
      p := p + 1;
    }
    count := CountWords(words, first, last);
    ghost var lows := BitsBetween(words[..], 64 * first, 64 * (last + 1));
    WindowLows(words[..], first, last, low, high, key, All(Sets(spans)));
    KeyAsLows(All(Sets(spans)), key, low, high, lows);
  }

  lemma WindowLows(words: seq<bv64>, first: nat, last: nat, low: nat, high: nat, key: nat, s: set<nat>)
    requires |words| == WORDS && 64 * first <= low <= high < 64 * (last + 1) <= LOWS && InKey(s, key, low, high)
    requires forall x: nat :: 64 * first <= x < 64 * (last + 1) ==> (HasBit(words, x) <==> ValueOf(key, x) in s)
    ensures forall x: nat :: x in BitsBetween(words, 64 * first, 64 * (last + 1)) <==> x < LOWS && ValueOf(key, x) in s
  {
    hide HasBit, KeyOf, LowOf, ValueOf;
    forall x: nat ensures x in BitsBetween(words, 64 * first, 64 * (last + 1)) <==> x < LOWS && ValueOf(key, x) in s {
      if x < LOWS { SplitValue(key, x); }
    }
  }

  lemma SmallestKey(s: set<nat>, smallest: nat)
    requires FirstOf(smallest, s, false) && Values(s)
    ensures KeyOf(smallest) < LOWS && forall v :: v in s ==> KeyOf(smallest) <= KeyOf(v)
  {
  }

  lemma KeyCounts(s: set<nat>, smallest: nat)
    requires smallest in s
    ensures |s - KeyValues(s, KeyOf(smallest))| + |KeyValues(s, KeyOf(smallest))| == |s|
    ensures |s - KeyValues(s, KeyOf(smallest))| < |s|
    ensures Values(s) ==> Values(s - KeyValues(s, KeyOf(smallest))) && Values(KeyValues(s, KeyOf(smallest)))
  {
    var k := KeyValues(s, KeyOf(smallest));
    assert smallest in k;
    DisjointSize(s - k, k, s);
  }

  /**
   * `sparse_union_cardinality`: the size of the union. Which of its three ways a key takes does not
   * show in the contract.
   */
  method UnionCardinality(from: seq<Span>) returns (total: nat)
    requires AllOpen(from) && Values(All(Sets(from)))
    ensures total == |All(Sets(from))|
  {
    hide All, Sets, FirstOf, KeyValues, InKey, Values, KeyOf;
    if |from| == 1 {
      OneSpan(from);
      return from[0].end - from[0].begin;
    }
    var values := TotalLength(from);
    if values < UNION_BITS_FROM {
      total := MergedCardinality(from);
      return;
    }
    var spans := from;
    ghost var left := All(Sets(from));
    total := 0;
    while |spans| > 0
      invariant AllOpen(spans) && left == All(Sets(spans)) && Values(left) && total + |left| == |All(Sets(from))|
      decreases |left|
    {
      var smallest := Pick(spans, false);
      SmallestKey(left, smallest);
      assert smallest in left by { PickHeld(left, smallest); }
      var rest, inKey, inside, low, high := TakeKey(spans, KeyOf(smallest));
      KeyCounts(left, smallest);
      if |inKey| == 1 {
        OneSpan(inKey);
        total := total + inside;
      } else if inside >= UNION_BITS_FROM {
        var count := KeyInBits(inKey, KeyOf(smallest), low, high);
        total := total + count;
      } else {
        var count := MergedCardinality(inKey);
        total := total + count;
      }
      spans := rest;
      left := left - KeyValues(left, KeyOf(smallest));
    }
    NoParts(Sets(spans));
  }

  lemma PickHeld(s: set<nat>, x: nat)
    requires FirstOf(x, s, false)
    ensures x in s
  {
  }

  // ---------- paging ----------

  /** `sparse_union_page`: the window of the union's listing. */
  method UnionPage(from: seq<Span>, skip: nat, size: nat, descending: bool) returns (out: seq<nat>)
    requires AllOpen(from)
    ensures out == Window(Listing(All(Sets(from)), descending), skip, size)
  {
    hide All, Sets, FirstOf, Read, Elements, InOrder;
    if |from| == 1 {
      OneSpanSet(from);
      var left;
      out, left := TakeSlice(from[0].values, from[0].begin, from[0].end, skip, size, descending);
      return;
    }
    var spans, left := from, skip;
    ghost var q := Listing(All(Sets(from)), descending);
    ghost var n: nat := 0;
    out := [];
    ReadNone(q, skip, size);
    assert q[0..] == q;
    while |out| < size && |spans| > 0
      invariant AllOpen(spans) && n <= |q| && Read(out, left, q, n, skip, size)
      invariant Elements(q[n..]) == All(Sets(spans))
      decreases |q| - n
    {
      var pick := Pick(spans, descending);
      PickIsNext(q, n, All(Sets(spans)), pick, descending);
      ReadOne(out, left, q, n, skip, size);
      if left > 0 { left := left - 1; } else { out := out + [pick]; }
      spans := Step(spans, pick, descending);
      n := n + 1;
    }
    if |out| < size {
      NoParts(Sets(spans));
      NothingLeft(q, n);
    }
    ReadDone(out, left, q, n, skip, size);
  }

  lemma OneSpanSet(spans: seq<Span>)
    requires AllOpen(spans) && |spans| == 1
    ensures var s := spans[0];
            s.begin <= s.end <= |s.values| && Ascending(s.values) && All(Sets(spans)) == Elements(s.values[s.begin..s.end])
  {
    assert Open(spans[0]);
    OnePart(Sets(spans));
  }
}
