// The loops the set operations run on two containers of one key, or on two sparse sets: merges of
// sorted arrays, lookups of one in the other, and words combined bit by bit.
module Kernels {
  import opened Word64
  import opened Order
  import opened WordBuffer
  import opened Containers

  // ---------- sorted sequences as sets ----------

  ghost predicate AllBefore(a: set<nat>, b: set<nat>) { forall u, v :: u in a && v in b ==> u < v }

  /** What a walk that stands at `i` has ahead of it. */
  lemma HeadOf(x: seq<nat>, i: nat)
    requires Ascending(x) && i <= |x|
    ensures i == |x| ==> Elements(x[i..]) == {}
    ensures i < |x| ==> Elements(x[i..]) == {x[i]} + Elements(x[i + 1..])
                        && AllBefore({x[i]}, Elements(x[i + 1..]))
  {
    if i < |x| {
      assert x[i..] == [x[i]] + x[i + 1..];
    }
  }

  /** What it has behind it after one more step. */
  lemma PrefixOf(x: seq<nat>, i: nat)
    requires Ascending(x) && i < |x|
    ensures Elements(x[..i + 1]) == Elements(x[..i]) + {x[i]}
    ensures forall v :: v in Elements(x[..i]) ==> v < x[i]
  {
    assert x[..i + 1] == x[..i] + [x[i]];
  }

  lemma Whole(x: seq<nat>)
    ensures Elements(x[0..]) == Elements(x) == Elements(x[..|x|]) && Elements(x[..0]) == {} == Elements([])
    ensures Ascending([])
  {
    assert x[0..] == x == x[..|x|];
  }

  lemma AppendedLast(q: seq<nat>, v: nat)
    requires Ascending(q) && forall u :: u in Elements(q) ==> u < v
    ensures Ascending(q + [v]) && Elements(q + [v]) == Elements(q) + {v}
  {
    assert forall i :: 0 <= i < |q| ==> q[i] in Elements(q);
    assert forall u :: u in q + [v] <==> u in q || u == v;
  }

  /** Entries below a bound passed over. */
  lemma DropBelow(y: seq<nat>, from: nat, to: nat, bound: nat)
    requires from <= to <= |y| && forall k :: from <= k < to ==> y[k] < bound
    ensures Elements(y[to..]) <= Elements(y[from..])
    ensures forall v :: v in Elements(y[from..]) && v >= bound ==> v in Elements(y[to..])
  {
    assert y[from..] == y[from..to] + y[to..];
  }

  /** A walk that passed over what is smaller stands on the value, or the value is not there. */
  lemma Found(y: seq<nat>, j: nat, v: nat)
    requires Ascending(y) && j <= |y| && (forall k :: 0 <= k < j ==> y[k] < v) && (j < |y| ==> v <= y[j])
    ensures (j < |y| && y[j] == v) <==> v in Elements(y)
  {
    if v in Elements(y) {
      var k :| 0 <= k < |y| && y[k] == v;
      assert j <= k;
    }
  }

  lemma SizeWithin(q: seq<nat>, x: seq<nat>)
    requires Ascending(q) && Elements(q) <= Elements(x) && Ascending(x)
    ensures |q| <= |x|
  {
    AscendingSize(q);
    AscendingSize(x);
    SubsetSize(Elements(q), Elements(x));
  }

  // ---------- merges ----------

  /** `and_arrays`: walked side by side, or the small one looked up in the large one. */
  method AndArrays(a: seq<nat>, b: seq<nat>) returns (values: seq<nat>)
    requires Ascending(a) && Ascending(b)
    ensures Ascending(values) && Elements(values) == Elements(a) * Elements(b)
    ensures |values| <= |a| && |values| <= |b|
  {
    var x, y := a, b;
    if |x| > |y| { x, y := y, x; }
    if |x| * 32 < |y| {
      values := AndByLookup(x, y);
    } else {
      values := AndByWalk(x, y);
    }
    SizeWithin(values, a);
    SizeWithin(values, b);
  }

  method AndByLookup(x: seq<nat>, y: seq<nat>) returns (values: seq<nat>)
    requires Ascending(x) && Ascending(y)
    ensures Ascending(values) && Elements(values) == Elements(x) * Elements(y)
  {
    hide Elements;
    values := [];
    var i: nat, from: nat := 0, 0;
    Whole(x); Whole(y);
    while i < |x| && from < |y|
      invariant i <= |x| && from <= |y| && Ascending(values)
      invariant Elements(values) + Elements(x[i..]) * Elements(y[from..]) == Elements(x) * Elements(y)
      invariant AllBefore(Elements(values), Elements(x[i..]))
    {
      var step := LowerBound(y[from..], x[i]);
      assert forall k :: from <= k < from + step ==> y[k] == y[from..][k - from];
      DropBelow(y, from, from + step, x[i]);
      HeadOf(x, i);
      from := from + step;
      HeadOf(y, from);
      if from < |y| {
        assert y[from] == y[from - step..][step];
        if y[from] == x[i] {
          AppendedLast(values, x[i]);
          values := values + [x[i]];
        }
      }
      i := i + 1;
    }
    HeadOf(x, i); HeadOf(y, from);
  }

  method AndByWalk(x: seq<nat>, y: seq<nat>) returns (values: seq<nat>)
    requires Ascending(x) && Ascending(y)
    ensures Ascending(values) && Elements(values) == Elements(x) * Elements(y)
  {
    hide Elements, Ascending;
    values := [];
    var i: nat, j: nat := 0, 0;
    Whole(x); Whole(y);
    while i < |x| && j < |y|
      invariant i <= |x| && j <= |y| && Ascending(values)
      invariant Elements(values) + Elements(x[i..]) * Elements(y[j..]) == Elements(x) * Elements(y)
      invariant AllBefore(Elements(values), Elements(x[i..]))
    {
      HeadOf(x, i); HeadOf(y, j);
      if x[i] < y[j] {
        i := i + 1;
      } else if x[i] > y[j] {
        j := j + 1;
      } else {
        AppendedLast(values, x[i]);
        values := values + [x[i]];
        i, j := i + 1, j + 1;
      }
    }
    HeadOf(x, i); HeadOf(y, j);
  }

  /** The sorted union of two sorted sequences. */
  method Merge(x: seq<nat>, y: seq<nat>) returns (values: seq<nat>)
    requires Ascending(x) && Ascending(y)
    ensures Ascending(values) && Elements(values) == Elements(x) + Elements(y) && |values| <= |x| + |y|
  {
    hide Elements, Ascending;
    values := [];
    var i: nat, j: nat := 0, 0;
    Whole(x); Whole(y);
    while i < |x| && j < |y|
      invariant i <= |x| && j <= |y| && |values| <= i + j && Ascending(values)
      invariant Elements(values) + Elements(x[i..]) + Elements(y[j..]) == Elements(x) + Elements(y)
      invariant AllBefore(Elements(values), Elements(x[i..]) + Elements(y[j..]))
    {
      HeadOf(x, i); HeadOf(y, j);
      if x[i] < y[j] {
        AppendedLast(values, x[i]);
        values, i := values + [x[i]], i + 1;
      } else if x[i] > y[j] {
        AppendedLast(values, y[j]);
        values, j := values + [y[j]], j + 1;
      } else {
        AppendedLast(values, x[i]);
        values, i, j := values + [x[i]], i + 1, j + 1;
      }
    }
    HeadOf(y, j);
    while i < |x|
      invariant i <= |x| && j <= |y| && |values| <= i + j && Ascending(values) && (i < |x| ==> j == |y|)
      invariant Elements(values) + Elements(x[i..]) + Elements(y[j..]) == Elements(x) + Elements(y)
      invariant AllBefore(Elements(values), Elements(x[i..]) + Elements(y[j..]))
    {
      HeadOf(x, i);
      AppendedLast(values, x[i]);
      values, i := values + [x[i]], i + 1;
    }
    HeadOf(x, i);
    while j < |y|
      invariant j <= |y| && |values| <= i + j && Ascending(values)
      invariant Elements(values) + Elements(y[j..]) == Elements(x) + Elements(y)
      invariant AllBefore(Elements(values), Elements(y[j..]))
    {
      HeadOf(y, j);
      AppendedLast(values, y[j]);
      values, j := values + [y[j]], j + 1;
    }
    HeadOf(y, j);
  }

  ghost function Kept(s: set<nat>, t: set<nat>, keep: bool): set<nat> { if keep then s * t else s - t }

  /** The values of `x` that are in `y`, or those that are not: one walk through each. */
  method FilterByWalk(x: seq<nat>, y: seq<nat>, keep: bool) returns (values: seq<nat>)
    requires Ascending(x) && Ascending(y)
    ensures Ascending(values) && Elements(values) == Kept(Elements(x), Elements(y), keep) && |values| <= |x|
  {
    hide Elements;
    values := [];
    var i: nat, j: nat := 0, 0;
    Whole(x);
    while i < |x|
      invariant i <= |x| && j <= |y| && |values| <= i && Ascending(values)
      invariant forall k :: 0 <= k < j && i < |x| ==> y[k] < x[i]
      invariant Elements(values) == Kept(Elements(x[..i]), Elements(y), keep)
    {
      while j < |y| && y[j] < x[i]
        invariant j <= |y| && forall k :: 0 <= k < j ==> y[k] < x[i]
      {
        j := j + 1;
      }
      Found(y, j, x[i]);
      PrefixOf(x, i);
      var has := j < |y| && y[j] == x[i];
      if has == keep {
        AppendedLast(values, x[i]);
        values := values + [x[i]];
      }
      i := i + 1;
    }
  }

  /** The values of `x` whose bit is set, or those whose bit is clear. */
  method FilterByWords(x: seq<nat>, words: seq<bv64>, keep: bool) returns (values: seq<nat>)
    requires Ascending(x) && |words| == WORDS && forall v :: v in x ==> v < LOWS
    ensures Ascending(values) && |values| <= |x|
    ensures Elements(values) == Kept(Elements(x), BitsBetween(words, 0, LOWS), keep)
  {
    hide Elements, Bit, Ascending;
    values := [];
    Whole(x);
    var i := 0;
    while i < |x|
      invariant i <= |x| && |values| <= i && Ascending(values)
      invariant Elements(values) == Kept(Elements(x[..i]), BitsBetween(words, 0, LOWS), keep)
    {
      assert x[i] in x;
      PrefixOf(x, i);
      var has := TestBit(words[x[i] / 64], x[i] % 64);
      assert has <==> HasBit(words, x[i]);
      if has == keep {
        AppendedLast(values, x[i]);
        values := values + [x[i]];
      }
      i := i + 1;
    }
  }

  // ---------- words ----------

  datatype WordOp = And | Or | AndNot

  ghost predicate Combined(op: WordOp, a: bool, b: bool) {
    match op
    case And => a && b
    case Or => a || b
    case AndNot => a && !b
  }

  ghost function CombinedSets(op: WordOp, s: set<nat>, t: set<nat>): set<nat> {
    match op
    case And => s * t
    case Or => s + t
    case AndNot => s - t
  }

  method CombineWord(op: WordOp, x: bv64, y: bv64) returns (r: bv64)
    ensures forall k: nat | k < 64 :: Bit(r, k) <==> Combined(op, Bit(x, k), Bit(y, k))
  {
    hide Bit;
    match op
    case And => r := Word64.And(x, y);
    case Or => r := Word64.Or(x, y);
    case AndNot => r := Word64.AndNot(x, y);
  }

  /** Words built bit by bit from two others. */
  lemma BitsCombined(op: WordOp, r: seq<bv64>, x: seq<bv64>, y: seq<bv64>, low: nat, high: nat)
    requires |r| == |x| == |y| == WORDS && low <= high < LOWS
    requires forall w: nat, k: nat | low / 64 <= w <= high / 64 && k < 64 ::
               Bit(r[w], k) <==> Combined(op, Bit(x[w], k), Bit(y[w], k))
    ensures BitsBetween(r, low, high + 1)
         == CombinedSets(op, BitsBetween(x, low, high + 1), BitsBetween(y, low, high + 1))
  {
    hide Bit;
    forall v: nat | low <= v < high + 1 ensures HasBit(r, v) <==> Combined(op, HasBit(x, v), HasBit(y, v)) {
      assert low / 64 <= v / 64 <= high / 64;
    }
  }

  /** `combine_words` */
  method CombineWords(x: seq<bv64>, y: seq<bv64>, op: WordOp, low: nat, high: nat) returns (words: array<bv64>, count: nat)
    requires |x| == |y| == WORDS && low <= high < LOWS
    ensures fresh(words) && words.Length == WORDS
    ensures BitsBetween(words[..], 64 * (low / 64), 64 * (high / 64 + 1))
         == CombinedSets(op, BitsBetween(x, low, high + 1), BitsBetween(y, low, high + 1))
    ensures count == |BitsBetween(words[..], 64 * (low / 64), 64 * (high / 64 + 1))|
  {
    hide Bit, HasBit, BitsBetween, Combined, CombinedSets;
    words := new bv64[WORDS];
    var first, last := low / 64, high / 64;
    var w := first;
    while w <= last
      invariant first <= w <= last + 1
      invariant forall v: nat, k: nat | first <= v < w && k < 64 ::
                  Bit(words[v], k) <==> Combined(op, Bit(x[v], k), Bit(y[v], k))
    {
      var word := CombineWord(op, x[w], y[w]);
      words[w] := word;
      w := w + 1;
    }
    BitsCombined(op, words[..], x, y, low, high);
    count := ClipAndCount(words, low, high);
  }

  /** `memcpy(words + first, from + first, ...)` */
  method CopyWords(words: array<bv64>, from: seq<bv64>, first: nat, last: nat)
    requires words.Length == |from| == WORDS && first <= last < WORDS
    modifies words
    ensures forall x: nat :: 64 * first <= x < 64 * (last + 1) ==> (HasBit(words[..], x) <==> HasBit(from, x))
  {
    var w := first;
    while w <= last
      invariant first <= w <= last + 1
      invariant forall v :: first <= v < w ==> words[v] == from[v]
    {
      words[w] := from[w];
      w := w + 1;
    }
  }

  /** The window of words [low / 64, high / 64] covers the range. */
  lemma WindowCovers(low: nat, high: nat)
    requires low <= high < LOWS
    ensures low / 64 <= high / 64 < WORDS
    ensures 64 * (low / 64) <= low && high < 64 * (high / 64 + 1) <= LOWS
  {
  }

  /** A bitmap inside [low, high], with the values of an array there set or cleared. */
  method WordsWithArray(x: seq<bv64>, y: seq<nat>, on: bool, low: nat, high: nat) returns (words: array<bv64>, count: nat)
    requires |x| == WORDS && low <= high < LOWS && forall v :: v in Elements(y) ==> low <= v <= high
    ensures fresh(words) && words.Length == WORDS
    ensures BitsBetween(words[..], 64 * (low / 64), 64 * (high / 64 + 1))
         == if on then BitsBetween(x, low, high + 1) + Elements(y) else BitsBetween(x, low, high + 1) - Elements(y)
    ensures count == |BitsBetween(words[..], 64 * (low / 64), 64 * (high / 64 + 1))|
  {
    hide HasBit;
    words := new bv64[WORDS];
    var first, last := low / 64, high / 64;
    WindowCovers(low, high);
    CopyWords(words, x, first, last);
    assert forall v :: v in y <==> v in Elements(y);
    if on { SetLows(words, y); } else { ClearLows(words, y); }
    count := ClipAndCount(words, low, high);
  }

  /** A bitmap inside [low, high]. */
  method ClippedWords(x: seq<bv64>, low: nat, high: nat) returns (words: array<bv64>, count: nat)
    requires |x| == WORDS && low <= high < LOWS
    ensures fresh(words) && words.Length == WORDS
    ensures BitsBetween(words[..], 64 * (low / 64), 64 * (high / 64 + 1)) == BitsBetween(x, low, high + 1)
    ensures count == |BitsBetween(words[..], 64 * (low / 64), 64 * (high / 64 + 1))|
  {
    hide HasBit;
    words := new bv64[WORDS];
    WindowCovers(low, high);
    CopyWords(words, x, low / 64, high / 64);
    count := ClipAndCount(words, low, high);
  }

  /** Two arrays straight into bits, counted word by word. */
  method ArraysToWords(x: seq<nat>, y: seq<nat>, low: nat, high: nat) returns (words: array<bv64>, count: nat)
    requires low <= high < LOWS && forall v :: v in Elements(x) + Elements(y) ==> low <= v <= high
    ensures fresh(words) && words.Length == WORDS
    ensures BitsBetween(words[..], 64 * (low / 64), 64 * (high / 64 + 1)) == Elements(x) + Elements(y)
    ensures count == |BitsBetween(words[..], 64 * (low / 64), 64 * (high / 64 + 1))|
  {
    hide HasBit;
    words := new bv64[WORDS];
    WindowCovers(low, high);
    Zero(words, low / 64, high / 64);
    assert forall v :: v in x ==> v in Elements(x) + Elements(y);
    assert forall v :: v in y ==> v in Elements(x) + Elements(y);
    SetLows(words, x);
    SetLows(words, y);
    count := CountWords(words, low / 64, high / 64);
  }
}
