// Intersection, union, difference and range copy of sets.
//
// Each method is proved against a `Goal`: the mathematical result, the blocks that belong to
// others, and how many refusals there had been. `Outcome` ties the answer to it.
module RoaringOps {
  import opened Results
  import opened BlockPool
  import opened Order
  import opened WordBuffer
  import opened Containers
  import opened Views
  import opened Sources
  import opened Ranges
  import opened RoaringSet
  import opened Kernels

  /** What an operation is building: its values, and what of the pool it must leave alone. */
  datatype Goal = Goal(target: set<nat>, others: set<Block>, refusals: nat)

  /** The output holds the values of the goal up to a key, and nothing was refused so far. */
  ghost predicate Building(out: RoaringBitmap, pool: Pool, g: Goal, limit: nat)
    reads out, pool, pool.source
  {
    out.Ready(pool) && out.Open(limit) && out.Others(pool) == g.others && pool.refusals == g.refusals
    && out.Model() == UpTo(g.target, limit) && Values(g.target)
  }

  /** The operation cannot go on: a block was refused, or the result has too many values. */
  ghost predicate Stuck(out: RoaringBitmap, pool: Pool, g: Goal)
    reads out, pool, pool.source
  {
    out.Ready(pool) && out.Others(pool) == g.others && (pool.refusals != g.refusals || |g.target| > UINT32_MAX)
  }

  /** One key joins: the sizes add up. */
  lemma KeyCounted(out: RoaringBitmap, pool: Pool, g: Goal, from: nat, key: nat, lows: set<nat>)
    requires Building(out, pool, g, from) && from <= key < LOWS
    requires NoneBetween(g.target, from, key) && At(g.target, key) == lows
    ensures UpTo(g.target, key + 1) == UpTo(g.target, from) + Lift(key, lows)
    ensures out.cardinality <= UINT32_MAX && out.cardinality + |lows| <= |g.target|
  {
    KeyJoins(g.target, from, key);
    LiftSize(key, lows);
    UpToSize(g.target, key + 1);
    DisjointSize(UpTo(g.target, from), Lift(key, lows), UpTo(g.target, key + 1));
  }

  lemma OpenHigher(out: RoaringBitmap, limit: nat, higher: nat)
    requires out.Open(limit) && limit <= higher
    ensures out.Open(higher)
  {
  }

  /** Keys without a value of the goal are passed over. */
  lemma Passed(out: RoaringBitmap, pool: Pool, g: Goal, from: nat, to: nat)
    requires Building(out, pool, g, from) && from <= to && NoneBetween(g.target, from, to)
    ensures Building(out, pool, g, to)
  {
    NoKeyJoins(g.target, from, to);
    OpenHigher(out, from, to);
  }

  /** The array a key of the result comes out as, emitted. */
  method PutArray(out: RoaringBitmap, pool: Pool, key: nat, lows: seq<nat>, ghost g: Goal, ghost from: nat)
    returns (result: Result)
    requires Building(out, pool, g, from) && from <= key < LOWS && NoneBetween(g.target, from, key)
    requires Ascending(lows) && |lows| <= ARRAY_MAX && At(g.target, key) == Elements(lows)
    modifies out, pool, pool.source
    ensures if result.Success? then Building(out, pool, g, key + 1) else Stuck(out, pool, g)
  {
    hide Pool.Valid, SoundView, Content, Elements, Separate, ContainerBlocks, At, UpTo, Lift, NoneBetween;
    KeyCounted(out, pool, g, from, key, Elements(lows));
    AscendingSize(lows);
    AtBounded(g.target, key, lows);
    OpenHigher(out, from, key);
    result := out.EmitArray(key, lows, pool);
  }

  lemma AtBounded(s: set<nat>, key: nat, lows: seq<nat>)
    requires At(s, key) == Elements(lows)
    ensures forall x :: x in lows ==> x < LOWS
  {
    assert forall x :: x in lows ==> x in Elements(lows);
  }

  /** The words a key of the result comes out as, emitted. */
  method PutWords(out: RoaringBitmap, pool: Pool, key: nat, words: array<bv64>, first: nat, last: nat, count: nat,
                  ghost g: Goal, ghost from: nat)
    returns (result: Result)
    requires Building(out, pool, g, from) && from <= key < LOWS && NoneBetween(g.target, from, key)
    requires words.Length == WORDS && first <= last < WORDS
    requires At(g.target, key) == BitsBetween(words[..], 64 * first, 64 * (last + 1))
    requires count == |BitsBetween(words[..], 64 * first, 64 * (last + 1))|
    modifies out, pool, pool.source
    ensures if result.Success? then Building(out, pool, g, key + 1) else Stuck(out, pool, g)
  {
    hide Pool.Valid, SoundView, Content, Separate, ContainerBlocks, At, UpTo, Lift, NoneBetween, BitsBetween;
    KeyCounted(out, pool, g, from, key, At(g.target, key));
    OpenHigher(out, from, key);
    result := out.EmitWords(key, words, first, last, count, pool);
  }

  /** `make_clip`, for an array: its low parts inside [low, high]. */
  method Slice(c: Container, low: nat, high: nat) returns (lows: seq<nat>)
    requires Sound(c) && c.data.Lows? && c.cardinality <= ARRAY_MAX && low <= high < LOWS
    ensures Ascending(lows) && Elements(lows) == Part(c, low, high) && |lows| <= ARRAY_MAX
    ensures forall x :: x in lows ==> x < LOWS
  {
    var begin, end := SliceOf(c, low, high);
    LowsSorted(c);
    lows := c.data.lows[begin..end];
    assert forall x :: x in lows ==> x in c.data.lows;
  }

  /** The part of a bitmap inside the range, bit by bit. */
  lemma BitmapPart(c: Container, low: nat, high: nat)
    requires Sound(c) && c.data.Bits? && low <= high < LOWS
    ensures Part(c, low, high) == BitsBetween(c.data.words, low, high + 1)
  {
  }

  lemma KeptPart(c: Container, low: nat, high: nat, s: set<nat>, keep: bool)
    requires Sound(c) && c.data.Bits? && low <= high < LOWS && forall x :: x in s ==> low <= x <= high
    ensures Kept(s, BitsBetween(c.data.words, 0, LOWS), keep) == Kept(s, Part(c, low, high), keep)
  {
  }

  lemma PartBounded(c: Container, low: nat, high: nat)
    ensures forall x :: x in Part(c, low, high) ==> low <= x <= high
  {
  }

  /** A container two operations may meet: no wide view. */
  ghost predicate Plain(c: Container) { Sound(c) && !c.data.Wide? && (c.data.Lows? ==> c.cardinality <= ARRAY_MAX) }

  /** `emit_clip`: one container alone, inside the range. */
  method EmitClip(out: RoaringBitmap, pool: Pool, c: Container, low: nat, high: nat, ghost g: Goal, ghost from: nat)
    returns (result: Result)
    requires Building(out, pool, g, from) && from <= c.key && NoneBetween(g.target, from, c.key)
    requires Plain(c) && low <= high < LOWS && At(g.target, c.key) == Part(c, low, high)
    modifies out, pool, pool.source
    ensures if result.Success? then Building(out, pool, g, c.key + 1) else Stuck(out, pool, g)
  {
    hide Building, Stuck, BitsBetween, Part, Elements, At, NoneBetween, Ascending;
    if c.data.Lows? {
      var lows := Slice(c, low, high);
      result := PutArray(out, pool, c.key, lows, g, from);
    } else {
      var words, count := ClippedWords(c.data.words, low, high);
      BitmapPart(c, low, high);
      WindowCovers(low, high);
      result := PutWords(out, pool, c.key, words, low / 64, high / 64, count, g, from);
    }
  }

  /** Both sets have the key: the values both containers hold. */
  method AndKey(out: RoaringBitmap, pool: Pool, x: Container, y: Container, low: nat, high: nat, ghost g: Goal, ghost from: nat)
    returns (result: Result)
    requires Building(out, pool, g, from) && from <= x.key && NoneBetween(g.target, from, x.key)
    requires Plain(x) && Plain(y) && low <= high < LOWS
    requires At(g.target, x.key) == Part(x, low, high) * Part(y, low, high)
    modifies out, pool, pool.source
    ensures if result.Success? then Building(out, pool, g, x.key + 1) else Stuck(out, pool, g)
  {
    hide Building, Stuck, BitsBetween, Part, Elements, At, NoneBetween, Ascending;
    if x.data.Lows? && y.data.Lows? {
      var xs := Slice(x, low, high);
      var ys := Slice(y, low, high);
      var lows := AndArrays(xs, ys);
      result := PutArray(out, pool, x.key, lows, g, from);
    } else if x.data.Lows? {
      var lows := FilterPart(x, y, true, low, high);
      result := PutArray(out, pool, x.key, lows, g, from);
    } else if y.data.Lows? {
      var lows := FilterPart(y, x, true, low, high);
      result := PutArray(out, pool, x.key, lows, g, from);
    } else {
      var words, count := CombineWords(x.data.words, y.data.words, WordOp.And, low, high);
      BitmapPart(x, low, high); BitmapPart(y, low, high);
      WindowCovers(low, high);
      result := PutWords(out, pool, x.key, words, low / 64, high / 64, count, g, from);
    }
  }

  /** `filter_array_by_words`: the values of an array whose bit in a bitmap is set, or clear. */
  method FilterPart(a: Container, b: Container, keep: bool, low: nat, high: nat) returns (lows: seq<nat>)
    requires Plain(a) && a.data.Lows? && Plain(b) && b.data.Bits? && low <= high < LOWS
    ensures Ascending(lows) && |lows| <= ARRAY_MAX
    ensures Elements(lows) == Kept(Part(a, low, high), Part(b, low, high), keep)
  {
    hide BitsBetween, Part, Elements, Ascending;
    var xs := Slice(a, low, high);
    lows := FilterByWords(xs, b.data.words, keep);
    PartBounded(a, low, high);
    KeptPart(b, low, high, Part(a, low, high), keep);
  }

  /** Both sets have the key: the values either container holds. */
  method OrKey(out: RoaringBitmap, pool: Pool, x: Container, y: Container, low: nat, high: nat, ghost g: Goal, ghost from: nat)
    returns (result: Result)
    requires Building(out, pool, g, from) && from <= x.key && NoneBetween(g.target, from, x.key)
    requires Plain(x) && Plain(y) && low <= high < LOWS
    requires At(g.target, x.key) == Part(x, low, high) + Part(y, low, high)
    modifies out, pool, pool.source
    ensures if result.Success? then Building(out, pool, g, x.key + 1) else Stuck(out, pool, g)
  {
    hide Building, Stuck, BitsBetween, Part, Elements, At, NoneBetween, Ascending;
    PartBounded(x, low, high); PartBounded(y, low, high);
    if x.data.Lows? && y.data.Lows? {
      var xs := Slice(x, low, high);
      var ys := Slice(y, low, high);
      if |xs| + |ys| > ARRAY_MAX {
        var words, count := ArraysToWords(xs, ys, low, high);
        WindowCovers(low, high);
        result := PutWords(out, pool, x.key, words, low / 64, high / 64, count, g, from);
      } else {
        var lows := Merge(xs, ys);
        result := PutArray(out, pool, x.key, lows, g, from);
      }
    } else if x.data.Lows? {
      WindowCovers(low, high);
      result := PutWordsWithArray(out, pool, x.key, y, x, true, low, high, g, from);
    } else if y.data.Lows? {
      WindowCovers(low, high);
      result := PutWordsWithArray(out, pool, x.key, x, y, true, low, high, g, from);
    } else {
      var words, count := CombineWords(x.data.words, y.data.words, WordOp.Or, low, high);
      BitmapPart(x, low, high); BitmapPart(y, low, high);
      WindowCovers(low, high);
      result := PutWords(out, pool, x.key, words, low / 64, high / 64, count, g, from);
    }
  }

  /** `words_with_array`: emits the part of bitmap `a` with the values of `b` added, or removed. */
  method PutWordsWithArray(out: RoaringBitmap, pool: Pool, key: nat, a: Container, b: Container, on: bool, low: nat, high: nat,
                           ghost g: Goal, ghost from: nat)
    returns (result: Result)
    requires Building(out, pool, g, from) && from <= key < LOWS && NoneBetween(g.target, from, key)
    requires Plain(a) && a.data.Bits? && Plain(b) && b.data.Lows? && low <= high < LOWS
    requires At(g.target, key)
          == if on then Part(a, low, high) + Part(b, low, high) else Part(a, low, high) - Part(b, low, high)
    modifies out, pool, pool.source
    ensures if result.Success? then Building(out, pool, g, key + 1) else Stuck(out, pool, g)
  {
    hide Building, Stuck, BitsBetween, Part, Elements, At, NoneBetween, Ascending;
    var ys := Slice(b, low, high);
    PartBounded(b, low, high);
    BitmapPart(a, low, high);
    var words, count := WordsWithArray(a.data.words, ys, on, low, high);
    WindowCovers(low, high);
    result := PutWords(out, pool, key, words, low / 64, high / 64, count, g, from);
  }

  /** Both sets have the key: the values only the first container holds. */
  method AndNotKey(out: RoaringBitmap, pool: Pool, x: Container, y: Container, low: nat, high: nat, ghost g: Goal, ghost from: nat)
    returns (result: Result)
    requires Building(out, pool, g, from) && from <= x.key && NoneBetween(g.target, from, x.key)
    requires Plain(x) && Plain(y) && low <= high < LOWS
    requires At(g.target, x.key) == Part(x, low, high) - Part(y, low, high)
    modifies out, pool, pool.source
    ensures if result.Success? then Building(out, pool, g, x.key + 1) else Stuck(out, pool, g)
  {
    hide Building, Stuck, BitsBetween, Part, Elements, At, NoneBetween, Ascending;
    if x.data.Lows? && y.data.Lows? {
      var xs := Slice(x, low, high);
      var ys := Slice(y, low, high);
      var lows := FilterByWalk(xs, ys, false);
      result := PutArray(out, pool, x.key, lows, g, from);
    } else if x.data.Lows? {
      var lows := FilterPart(x, y, false, low, high);
      result := PutArray(out, pool, x.key, lows, g, from);
    } else if y.data.Lows? {
      WindowCovers(low, high);
      result := PutWordsWithArray(out, pool, x.key, x, y, false, low, high, g, from);
    } else {
      var words, count := CombineWords(x.data.words, y.data.words, WordOp.AndNot, low, high);
      BitmapPart(x, low, high); BitmapPart(y, low, high);
      WindowCovers(low, high);
      result := PutWords(out, pool, x.key, words, low / 64, high / 64, count, g, from);
    }
  }

  // ---------- two sets walked key by key ----------

  /** A source of the operation that has handed out every key below `from`. */
  ghost predicate Walking(s: Source, view: View, min: nat, max: nat, from: nat) {
    s.view == Some(view) && s.minKey == KeyOf(min) && s.maxKey == KeyOf(max) && !s.descending && !s.wide
    && Ahead(s, from) && (s.current.Some? ==> from <= s.current.value.key)
  }

  ghost function Left(s: Source): nat { if Live(s) then |KeysLeft(s)| else 0 }

  method Start(view: View, min: nat, max: nat) returns (s: Source)
    requires min <= max <= UINT32_MAX && Shape(view)
    ensures Walking(s, view, min, max, 0)
  {
    hide Live, KeysLeft, KeysIn, Shape;
    s := Begin(Some(view), min, max, false, false);
    FreshAhead(s);
  }

  method Next(s: Source, ghost view: View, ghost min: nat, ghost max: nat, ghost from: nat) returns (t: Source)
    requires Walking(s, view, min, max, from) && s.current.Some?
    ensures Walking(t, view, min, max, s.current.value.key + 1) && Left(t) < Left(s)
  {
    hide Live, KeysLeft, KeysIn;
    t := Advance(s);
    CurrentIsFirst(s);
    if t.current.Some? { CurrentIsFirst(t); }
    AheadAfter(s, t, from, s.current.value.key + 1);
    OneKeyLess(s, t);
  }

  lemma OneKeyLess(s: Source, t: Source)
    requires Live(s) && Live(t) && s.current.Some? && s.current.value.key in KeysLeft(s)
    requires KeysLeft(t) == KeysLeft(s) - {s.current.value.key}
    ensures Left(t) < Left(s)
  {
    hide Represents, KeySeq, Shape;
    assert KeysLeft(s) == KeysLeft(t) + {s.current.value.key};
  }

  lemma WalkingLater(s: Source, view: View, min: nat, max: nat, from: nat, later: nat)
    requires Walking(s, view, min, max, from) && from <= later
    requires s.current.Some? ==> later <= s.current.value.key
    ensures Walking(s, view, min, max, later)
  {
    hide Live, KeysLeft, KeysIn;
  }

  /** What a source stands on. */
  lemma Standing(s: Source, view: View, min: nat, max: nat, from: nat)
    requires Walking(s, view, min, max, from) && s.current.Some? && min <= max <= UINT32_MAX
    ensures var c := s.current.value;
            from <= c.key < LOWS && Plain(c) && NoneBetween(Clip(Content(view), min, max), from, c.key)
            && LowBound(c.key, min) <= HighBound(c.key, max) < LOWS
            && At(Clip(Content(view), min, max), c.key) == Part(c, LowBound(c.key, min), HighBound(c.key, max))
  {
    var c := s.current.value;
    Gap(s, from, min, max, c.key);
    hide Ahead, KeysLeft, KeysIn, RunOf, In, Has, Clip, NoneBetween, At, Part;
    KeyPart(view, c, false, min, max);
    BoundsInKey(c.key, min, max);
  }

  /** A key the source has passed by: the set has nothing there. */
  lemma Missing(s: Source, view: View, min: nat, max: nat, from: nat, key: nat)
    requires Walking(s, view, min, max, from) && from <= key && (s.current.Some? ==> key < s.current.value.key)
    ensures NoneBetween(Clip(Content(view), min, max), from, key + 1) && At(Clip(Content(view), min, max), key) == {}
  {
    Gap(s, from, min, max, key + 1);
    NothingThere(Clip(Content(view), min, max), from, key);
  }

  lemma Ended(s: Source, view: View, min: nat, max: nat, from: nat)
    requires Walking(s, view, min, max, from) && s.current.None?
    ensures NoneBetween(Clip(Content(view), min, max), from, LOWS)
  {
    Gap(s, from, min, max, LOWS);
  }

  lemma NoneOfPart(t: set<nat>, s: set<nat>, from: nat, to: nat, upto: nat)
    requires t <= s && NoneBetween(s, from, upto) && to <= upto
    ensures NoneBetween(t, from, to)
  {
  }

  /** `arnm_roaring_and` over two sets with containers. */
  method AndWalk(out: RoaringBitmap, a: View, b: View, min: nat, max: nat, pool: Pool, ghost g: Goal) returns (result: Result)
    requires Building(out, pool, g, 0) && min <= max <= UINT32_MAX && Shape(a) && Shape(b)
    requires g.target == Clip(Content(a), min, max) * Clip(Content(b), min, max)
    modifies out, pool, pool.source
    ensures if result.Success? then Building(out, pool, g, LOWS) else Stuck(out, pool, g)
  {
    hide Building, Stuck, Walking, Live, Shape, Content, Clip, Part, At, NoneBetween, Plain, Left, KeyOf, LowBound, HighBound;
    ghost var va, vb := Clip(Content(a), min, max), Clip(Content(b), min, max);
    ghost var from: nat := 0;
    var sa := Start(a, min, max);
    var sb := Start(b, min, max);
    result := Success;
    while sa.current.Some? && sb.current.Some?
      invariant Building(out, pool, g, from) && result.Success?
      invariant Walking(sa, a, min, max, from) && Walking(sb, b, min, max, from)
      decreases Left(sa) + Left(sb)
    {
      var x, y := sa.current.value, sb.current.value;
      Standing(sa, a, min, max, from);
      Standing(sb, b, min, max, from);
      if x.key < y.key {
        Missing(sb, b, min, max, from, x.key);
        NoneOfPart(g.target, vb, from, x.key + 1, x.key + 1);
        Passed(out, pool, g, from, x.key + 1);
        WalkingLater(sb, b, min, max, from, x.key + 1);
        sa := Next(sa, a, min, max, from);
        from := x.key + 1;
        continue;
      }
      if x.key > y.key {
        Missing(sa, a, min, max, from, y.key);
        NoneOfPart(g.target, va, from, y.key + 1, y.key + 1);
        Passed(out, pool, g, from, y.key + 1);
        WalkingLater(sa, a, min, max, from, y.key + 1);
        sb := Next(sb, b, min, max, from);
        from := y.key + 1;
        continue;
      }
      AtCombines(va, vb, x.key);
      NoneOfPart(g.target, va, from, x.key, x.key);
      result := AndKey(out, pool, x, y, LowBound(x.key, min), HighBound(x.key, max), g, from);
      if !result.Success? { return; }
      sa := Next(sa, a, min, max, from);
      sb := Next(sb, b, min, max, from);
      from := x.key + 1;
    }
    if sa.current.None? {
      Ended(sa, a, min, max, from);
      NoneOfPart(g.target, va, from, LOWS, LOWS);
    } else {
      Ended(sb, b, min, max, from);
      NoneOfPart(g.target, vb, from, LOWS, LOWS);
    }
    Finished(out, pool, g, from);
  }

  /** Nothing of the goal is left beyond the last key. */
  lemma Finished(out: RoaringBitmap, pool: Pool, g: Goal, from: nat)
    requires Building(out, pool, g, from) && NoneBetween(g.target, from, LOWS)
    ensures Building(out, pool, g, LOWS)
  {
    hide Content, SoundView, Separate, ContainerBlocks, Pool.Valid;
    if from <= LOWS {
      Passed(out, pool, g, from, LOWS);
    } else {
      forall v | v in g.target ensures KeyOf(v) < LOWS { assert v <= UINT32_MAX; }
      assert UpTo(g.target, from) == UpTo(g.target, LOWS);
      OpenAll(out, from);
    }
  }

  lemma OpenAll(out: RoaringBitmap, limit: nat)
    requires out.Open(limit)
    ensures out.Open(LOWS)
  {
    var view := out.View();
    forall i | 0 <= i < |view.containers| ensures view.containers[i].key < LOWS {
      assert Sound(view.containers[i]);
    }
  }

  /** `arnm_roaring_or`, at least one of the sets with containers. */
  method OrWalk(out: RoaringBitmap, a: View, b: View, min: nat, max: nat, pool: Pool, ghost g: Goal) returns (result: Result)
    requires Building(out, pool, g, 0) && min <= max <= UINT32_MAX && Shape(a) && Shape(b)
    requires g.target == Clip(Content(a), min, max) + Clip(Content(b), min, max)
    modifies out, pool, pool.source
    ensures if result.Success? then Building(out, pool, g, LOWS) else Stuck(out, pool, g)
  {
    hide Building, Stuck, Walking, Live, Shape, Content, Clip, Part, At, NoneBetween, Plain, Left, KeyOf, LowBound, HighBound;
    ghost var va, vb := Clip(Content(a), min, max), Clip(Content(b), min, max);
    ghost var from: nat := 0;
    var sa := Start(a, min, max);
    var sb := Start(b, min, max);
    result := Success;
    while sa.current.Some? || sb.current.Some?
      invariant Building(out, pool, g, from) && result.Success?
      invariant Walking(sa, a, min, max, from) && Walking(sb, b, min, max, from)
      decreases Left(sa) + Left(sb)
    {
      if sb.current.None? || (sa.current.Some? && sa.current.value.key < sb.current.value.key) {
        var x := sa.current.value;
        Standing(sa, a, min, max, from);
        Missing(sb, b, min, max, from, x.key);
        AtCombines(va, vb, x.key);
        NoneOfBoth(va, vb, from, x.key);
        result := EmitClip(out, pool, x, LowBound(x.key, min), HighBound(x.key, max), g, from);
        if !result.Success? { return; }
        WalkingLater(sb, b, min, max, from, x.key + 1);
        sa := Next(sa, a, min, max, from);
        from := x.key + 1;
      } else if sa.current.None? || sb.current.value.key < sa.current.value.key {
        var y := sb.current.value;
        Standing(sb, b, min, max, from);
        Missing(sa, a, min, max, from, y.key);
        AtCombines(va, vb, y.key);
        NoneOfBoth(va, vb, from, y.key);
        result := EmitClip(out, pool, y, LowBound(y.key, min), HighBound(y.key, max), g, from);
        if !result.Success? { return; }
        WalkingLater(sa, a, min, max, from, y.key + 1);
        sb := Next(sb, b, min, max, from);
        from := y.key + 1;
      } else {
        var x, y := sa.current.value, sb.current.value;
        Standing(sa, a, min, max, from);
        Standing(sb, b, min, max, from);
        AtCombines(va, vb, x.key);
        NoneOfBoth(va, vb, from, x.key);
        result := OrKey(out, pool, x, y, LowBound(x.key, min), HighBound(x.key, max), g, from);
        if !result.Success? { return; }
        sa := Next(sa, a, min, max, from);
        sb := Next(sb, b, min, max, from);
        from := x.key + 1;
      }
    }
    Ended(sa, a, min, max, from);
    Ended(sb, b, min, max, from);
    NoneOfBoth(va, vb, from, LOWS);
    Finished(out, pool, g, from);
  }

  lemma NoneOfBoth(s: set<nat>, t: set<nat>, from: nat, to: nat)
    requires NoneBetween(s, from, to) || NoneBetween(s, from, to + 1)
    requires NoneBetween(t, from, to) || NoneBetween(t, from, to + 1)
    ensures NoneBetween(s + t, from, to)
  {
  }

  /** The second source pulled up to a key of the first. */
  method PullUp(s: Source, key: nat, ghost view: View, ghost min: nat, ghost max: nat, ghost from: nat) returns (t: Source)
    requires Walking(s, view, min, max, from) && from <= key
    ensures Walking(t, view, min, max, key)
  {
    hide Walking, Left;
    t := s;
    ghost var at: nat := from;
    while t.current.Some? && t.current.value.key < key
      invariant at <= key && Walking(t, view, min, max, at)
      decreases Left(t)
    {
      var passed := t.current.value.key;
      t := Next(t, view, min, max, at);
      at := passed + 1;
    }
    WalkingLater(t, view, min, max, at, key);
  }

  /** `arnm_roaring_andnot`, the first set with containers. */
  method AndNotWalk(out: RoaringBitmap, a: View, b: View, min: nat, max: nat, pool: Pool, ghost g: Goal) returns (result: Result)
    requires Building(out, pool, g, 0) && min <= max <= UINT32_MAX && Shape(a) && Shape(b)
    requires g.target == Clip(Content(a), min, max) - Clip(Content(b), min, max)
    modifies out, pool, pool.source
    ensures if result.Success? then Building(out, pool, g, LOWS) else Stuck(out, pool, g)
  {
    hide Building, Stuck, Walking, Live, Shape, Content, Clip, Part, At, NoneBetween, Plain, Left, KeyOf, LowBound, HighBound;
    ghost var va, vb := Clip(Content(a), min, max), Clip(Content(b), min, max);
    ghost var from: nat, pulled: nat := 0, 0;
    var sa := Start(a, min, max);
    var sb := Start(b, min, max);
    result := Success;
    while sa.current.Some?
      invariant Building(out, pool, g, from) && result.Success?
      invariant Walking(sa, a, min, max, from) && Walking(sb, b, min, max, pulled) && pulled <= from
      decreases Left(sa)
    {
      var x := sa.current.value;
      Standing(sa, a, min, max, from);
      NoneOfPart(g.target, va, from, x.key, x.key);
      AtCombines(va, vb, x.key);
      sb := PullUp(sb, x.key, b, min, max, pulled);
      pulled := x.key;
      if sb.current.None? || sb.current.value.key != x.key {
        StandsBeyond(sb, b, min, max, x.key);
        Missing(sb, b, min, max, x.key, x.key);
        result := EmitClip(out, pool, x, LowBound(x.key, min), HighBound(x.key, max), g, from);
      } else {
        var y := sb.current.value;
        Standing(sb, b, min, max, x.key);
        result := AndNotKey(out, pool, x, y, LowBound(x.key, min), HighBound(x.key, max), g, from);
      }
      if !result.Success? { return; }
      sa := Next(sa, a, min, max, from);
      from := x.key + 1;
    }
    Ended(sa, a, min, max, from);
    NoneOfPart(g.target, va, from, LOWS, LOWS);
    Finished(out, pool, g, from);
  }

  lemma StandsBeyond(s: Source, view: View, min: nat, max: nat, from: nat)
    requires Walking(s, view, min, max, from)
    ensures s.current.Some? ==> from <= s.current.value.key
  {
  }

  /** `arnm_roaring_copy_range` of a set with containers. */
  method CopyWalk(out: RoaringBitmap, a: View, min: nat, max: nat, pool: Pool, ghost g: Goal) returns (result: Result)
    requires Building(out, pool, g, 0) && min <= max <= UINT32_MAX && Shape(a)
    requires g.target == Clip(Content(a), min, max)
    modifies out, pool, pool.source
    ensures if result.Success? then Building(out, pool, g, LOWS) else Stuck(out, pool, g)
  {
    hide Building, Stuck, Walking, Live, Shape, Content, Clip, Part, At, NoneBetween, Plain, Left, KeyOf, LowBound, HighBound;
    ghost var from: nat := 0;
    var sa := Start(a, min, max);
    result := Success;
    while sa.current.Some?
      invariant Building(out, pool, g, from) && result.Success?
      invariant Walking(sa, a, min, max, from)
      decreases Left(sa)
    {
      var x := sa.current.value;
      Standing(sa, a, min, max, from);
      result := EmitClip(out, pool, x, LowBound(x.key, min), HighBound(x.key, max), g, from);
      if !result.Success? { return; }
      sa := Next(sa, a, min, max, from);
      from := x.key + 1;
    }
    Ended(sa, a, min, max, from);
    Finished(out, pool, g, from);
  }

  // ---------- sparse inputs ----------

  /** The values of a sparse set inside the range. */
  method SparseRange(view: View, min: nat, max: nat) returns (values: seq<nat>)
    requires Shape(view) && view.Sparse() && min <= max
    ensures Ascending(values) && Elements(values) == Clip(Content(view), min, max)
    ensures |values| <= SPARSE_MAX && forall v :: v in values ==> min <= v <= max && v <= UINT32_MAX
  {
    hide Content;
    var begin := LowerBound(view.values, min);
    var end := UpperBound(view.values, max);
    SparseContent(view);
    StretchIs(view.values, begin, end, min, max, Clip(Content(view), min, max));
    values := view.values[begin..end];
    assert forall v :: v in values ==> v in Elements(values);
    assert forall v :: v in values ==> v in view.values;
  }

  /** `container_has`: a bitmap's bit, or an array walked forward across calls. */
  method ContainerHas(c: Container, low: nat, index: nat) returns (has: bool, next: nat)
    requires Plain(c) && low < LOWS && index <= c.cardinality
    requires c.data.Lows? ==> forall k :: 0 <= k < index ==> c.data.lows[k] < low
    ensures has <==> Has(c, low)
    ensures next <= c.cardinality && (c.data.Lows? ==> forall k :: 0 <= k < next ==> c.data.lows[k] < low)
  {
    hide Word64.Bit, BitsBetween;
    next := index;
    if c.data.Bits? {
      has := Word64.TestBit(c.data.words[low / 64], low % 64);
      return;
    }
    while next < c.cardinality && c.data.lows[next] < low
      invariant next <= c.cardinality && forall k :: 0 <= k < next ==> c.data.lows[k] < low
    {
      next := next + 1;
    }
    Found(c.data.lows, next, low);
    has := next < c.cardinality && c.data.lows[next] == low;
  }

  /**
   * Appends to `had` the values of one key that pass; `container` is what the other set has of the
   * key.
   */
  method FilterKey(values: seq<nat>, from: nat, to: nat, container: Option<Container>, keep: bool, had: seq<nat>,
                   ghost other: set<nat>)
    returns (kept: seq<nat>)
    requires Ascending(values) && from < to <= |values| && Ascending(had)
    requires forall k :: from <= k < to ==> KeyOf(values[k]) == KeyOf(values[from])
    requires container.Some? ==> Plain(container.value)
    requires forall k :: from <= k < to ==>
               (values[k] in other <==> container.Some? && Has(container.value, LowOf(values[k])))
    requires Elements(had) == Kept(Elements(values[..from]), other, keep) && |had| <= from
    ensures Ascending(kept) && Elements(kept) == Kept(Elements(values[..to]), other, keep) && |kept| <= to
  {
    hide Elements, Has, Plain, KeyOf, LowOf, Ascending;
    kept := had;
    var i: nat, index: nat := from, 0;
    if container.Some? { PassingNone(container.value, values, i, to); }
    while i < to
      invariant from <= i <= to && Ascending(kept) && |kept| <= i
      invariant Elements(kept) == Kept(Elements(values[..i]), other, keep)
      invariant container.Some? ==> Passing(container.value, index, values, i, to)
    {
      var has := false;
      JoinValue(values[i]);
      if container.Some? {
        has, index := ContainerHas(container.value, LowOf(values[i]), index);
        if i + 1 < to { LowsRise(container.value, index, values, i, to); }
      }
      PrefixOf(values, i);
      if has == keep {
        AppendedLast(kept, values[i]);
        kept := kept + [values[i]];
      }
      i := i + 1;
    }
  }

  /** Every entry of the array passed over lies below the next value. */
  ghost predicate Passing(c: Container, index: nat, values: seq<nat>, i: nat, to: nat)
    requires to <= |values|
  {
    index <= c.cardinality
    && (c.data.Lows? && i < to ==> |c.data.lows| == c.cardinality && forall k :: 0 <= k < index ==> c.data.lows[k] < LowOf(values[i]))
  }

  lemma PassingNone(c: Container, values: seq<nat>, i: nat, to: nat)
    requires Plain(c) && to <= |values|
    ensures Passing(c, 0, values, i, to)
  {
  }

  lemma PlainStored(view: View, i: nat)
    requires Shape(view) && i < |view.containers|
    ensures Plain(view.containers[i])
  {
    assert Sound(view.containers[i]) && KindByCount(view.containers[i]);
  }

  lemma LowsRise(c: Container, index: nat, values: seq<nat>, i: nat, to: nat)
    requires Ascending(values) && i + 1 < to <= |values| && KeyOf(values[i]) == KeyOf(values[i + 1])
    requires Plain(c) && index <= c.cardinality
    requires c.data.Lows? ==> forall k :: 0 <= k < index ==> c.data.lows[k] < LowOf(values[i])
    ensures Passing(c, index, values, i + 1, to)
  {
    hide KeyOf, LowOf;
    JoinValue(values[i]); JoinValue(values[i + 1]);
    ValueOrder(KeyOf(values[i]), LowOf(values[i]), KeyOf(values[i + 1]), LowOf(values[i + 1]));
  }

  /** The values that pass, against a set with containers: `Kept` of the values and its content. */
  method FilterByContainers(values: seq<nat>, other: View, keep: bool) returns (kept: seq<nat>)
    requires Ascending(values) && (forall v :: v in values ==> v <= UINT32_MAX) && Shape(other) && !other.Sparse()
    ensures Ascending(kept) && Elements(kept) == Kept(Elements(values), Content(other), keep) && |kept| <= |values|
  {
    hide Elements, Has, KeyOf, LowOf, Content, Sound, KindByCount;
    kept := [];
    Whole(values);
    var i: nat, c: nat := 0, 0;
    if |values| > 0 { c := FirstContainer(other.containers, KeyOf(values[0])); }
    while i < |values|
      invariant i <= |values| && c <= |other.containers| && Ascending(kept) && |kept| <= i
      invariant i < |values| ==> forall k :: 0 <= k < c ==> other.containers[k].key < KeyOf(values[i])
      invariant Elements(kept) == Kept(Elements(values[..i]), Content(other), keep)
    {
      var key := KeyOf(values[i]);
      while c < |other.containers| && other.containers[c].key < key
        invariant c <= |other.containers| && forall k :: 0 <= k < c ==> other.containers[k].key < key
      {
        c := c + 1;
      }
      var container := None;
      if c < |other.containers| && other.containers[c].key == key {
        container := Some(other.containers[c]);
        PlainStored(other, c);
      }
      var end := i + 1;
      while end < |values| && KeyOf(values[end]) == key
        invariant i < end <= |values| && forall k :: i <= k < end ==> KeyOf(values[k]) == key
      {
        end := end + 1;
      }
      forall k | i <= k < end
        ensures values[k] in Content(other) <==> container.Some? && Has(container.value, LowOf(values[k]))
      {
        assert values[k] in values;
        Looked(other, c, values[k]);
      }
      kept := FilterKey(values, i, end, container, keep, kept, Content(other));
      if end < |values| { KeyMonotone(values[i], values[end]); }
      i := end;
    }
  }

  /** `sparse_filter`: the values of a sparse set in the range that another set has, or lacks. */
  method SparseFilter(sparse: View, other: View, keep: bool, min: nat, max: nat) returns (kept: seq<nat>)
    requires Shape(sparse) && sparse.Sparse() && Shape(other) && min <= max <= UINT32_MAX
    ensures Ascending(kept) && |kept| <= SPARSE_MAX && forall v :: v in kept ==> v <= UINT32_MAX
    ensures Elements(kept) == Kept(Clip(Content(sparse), min, max), Content(other), keep)
  {
    hide Content;
    var values := SparseRange(sparse, min, max);
    if other.Sparse() {
      var j := 0;
      if |other.values| > 0 { j := LowerBound(other.values, min); }
      kept := FilterByWalk(values, other.values[j..], keep);
      SparseContent(other);
      DropBelow(other.values, 0, j, min);
      Whole(other.values);
    } else {
      kept := FilterByContainers(values, other, keep);
    }
    assert forall v :: v in kept ==> v in Elements(kept);
  }

  // ---------- the operations ----------

  /** What every operation refuses: an output that is an input, or holds something. */
  predicate Refused(out: RoaringBitmap, a: RoaringBitmap, b: RoaringBitmap)
    reads out
  {
    out == a || out == b || out.directory != 0 || out.cardinality != 0
  }

  /**
   * The contract of all four operations: the goal reached, or the output empty and without a block,
   * and the blocks of others unchanged in both cases.
   */
  ghost predicate Outcome(out: RoaringBitmap, pool: Pool, result: Result, g: Goal)
    reads out, pool, pool.source
  {
    out.Ready(pool) && out.Valid() && out.Others(pool) == g.others
    && (result.Success? <==> |g.target| <= UINT32_MAX && pool.refusals == g.refusals)
    && (if result.Success? then out.Model() == g.target else out.View() == EMPTY && out.Blocks() == {})
  }

  const EMPTY: View := Views.View.View([], [], 0, 0)

  lemma EmptySet(view: View)
    requires SoundView(view)
    ensures view.cardinality == 0 ==> view.values == [] && view.containers == []
  {
    if view.Sparse() { SparseContent(view); } else { ContainersHold(view); }
  }

  /** Past the checks, an output satisfies `Building` for place 0. */
  lemma Opening(out: RoaringBitmap, pool: Pool, s: set<nat>, min: nat, max: nat, g: Goal)
    requires out.Ready(pool) && out.Valid() && out.directory == 0 && out.cardinality == 0 && max <= UINT32_MAX
    requires g == Goal(Clip(s, min, max), out.Others(pool), pool.refusals)
    ensures out.values == [] && out.containers == [] && Building(out, pool, g, 0)
    ensures min > max ==> Outcome(out, pool, Success, g)
  {
    hide Pool.Valid;
    EmptySet(out.View());
    EmptyContent(out.View());
    AllUpTo(g.target);
    assert min > max ==> g.target == {};
  }

  lemma ClipKept(s: set<nat>, t: set<nat>, keep: bool, min: nat, max: nat)
    ensures Kept(Clip(s, min, max), t, keep) == Clip(Kept(s, t, keep), min, max)
    ensures Kept(t, s, true) == Kept(s, t, true) == s * t == t * s && Kept(s, t, false) == s - t
  {
  }

  /** `finish`: turns the end state of a walk into an `Outcome`. */
  method Finish(out: RoaringBitmap, result: Result, pool: Pool, ghost g: Goal)
    requires if result.Success? then Building(out, pool, g, LOWS) else Stuck(out, pool, g)
    requires out.Ready(pool) && (result.Success? ==> out.Stored() && Values(g.target))
    modifies out, pool
    ensures Outcome(out, pool, result, g)
  {
    hide Pool.Valid, SoundView, Content, Separate, ContainerBlocks;
    if !result.Success? {
      out.Free(pool);
    } else {
      AllUpTo(g.target);
      SoundShape(out.View());
    }
  }

  /** The result of `ValuesResult` is an outcome once a failure is cleared. */
  method FinishValues(out: RoaringBitmap, values: seq<nat>, pool: Pool, ghost g: Goal) returns (result: Result)
    requires Building(out, pool, g, 0) && out.Valid() && out.values == [] && out.containers == []
    requires Ascending(values) && |values| <= 2 * SPARSE_MAX && forall v :: v in values ==> v <= UINT32_MAX
    requires Elements(values) == g.target
    modifies out, pool, pool.source
    ensures Outcome(out, pool, result, g)
    ensures result.Success? ==> (out.View().Sparse() <==> |g.target| <= SPARSE_MAX)
  {
    hide Pool.Valid, SoundView, Content, Separate, ContainerBlocks;
    AscendingSize(values);
    result := out.ValuesResult(values, pool);
    if !result.Success? { out.Free(pool); }
  }

  /**
   * `arnm_roaring_and`: exactly the values of both sets inside [min, max], whatever the forms of
   * the three sets. Refused, nothing changes; failed, the output is empty again.
   */
  method And(out: RoaringBitmap, a: RoaringBitmap, b: RoaringBitmap, min: nat, max: nat, pool: Pool) returns (result: Result)
    requires out.Ready(pool) && out.Valid() && a.Valid() && b.Valid() && min <= UINT32_MAX && max <= UINT32_MAX
    modifies out, pool, pool.source
    ensures a.View() == old(a.View()) && b.View() == old(b.View())
    ensures out == a || out == b || old(out.directory != 0 || out.cardinality != 0) ==>
              result.InvalidParam? && out.View() == old(out.View()) && out.Others(pool) == old(out.Others(pool))
              && out.Ready(pool) && out.Valid() && pool.lent == old(pool.lent)
    ensures out != a && out != b && old(out.directory == 0 && out.cardinality == 0) ==>
              Outcome(out, pool, result, old(Goal(Clip(a.Model() * b.Model(), min, max), out.Others(pool), pool.refusals)))
  {
    hide Pool.Valid, SoundView, Content, Separate, ContainerBlocks, Clip;
    if Refused(out, a, b) { return InvalidParam; }
    var va, vb := a.View(), b.View();
    ghost var g := Goal(Clip(a.Model() * b.Model(), min, max), out.Others(pool), pool.refusals);
    Opening(out, pool, a.Model() * b.Model(), min, max, g);
    if min > max { return Success; }
    SoundShape(va); SoundShape(vb);
    if va.Sparse() || vb.Sparse() {
      var readA := va.Sparse() && (!vb.Sparse() || va.cardinality <= vb.cardinality);
      var kept := SparseFilter(if readA then va else vb, if readA then vb else va, true, min, max);
      ClipKept(Content(va), Content(vb), true, min, max);
      ClipKept(Content(vb), Content(va), true, min, max);
      result := FinishValues(out, kept, pool, g);
    } else {
      ClipCombines(Content(va), Content(vb), min, max);
      result := AndWalk(out, va, vb, min, max, pool, g);
      Finish(out, result, pool, g);
    }
  }

  /** `arnm_roaring_or`: exactly the values of either set inside [min, max]. */
  method Or(out: RoaringBitmap, a: RoaringBitmap, b: RoaringBitmap, min: nat, max: nat, pool: Pool) returns (result: Result)
    requires out.Ready(pool) && out.Valid() && a.Valid() && b.Valid() && min <= UINT32_MAX && max <= UINT32_MAX
    modifies out, pool, pool.source
    ensures a.View() == old(a.View()) && b.View() == old(b.View())
    ensures out == a || out == b || old(out.directory != 0 || out.cardinality != 0) ==>
              result.InvalidParam? && out.View() == old(out.View()) && out.Others(pool) == old(out.Others(pool))
              && out.Ready(pool) && out.Valid() && pool.lent == old(pool.lent)
    ensures out != a && out != b && old(out.directory == 0 && out.cardinality == 0) ==>
              Outcome(out, pool, result, old(Goal(Clip(a.Model() + b.Model(), min, max), out.Others(pool), pool.refusals)))
  {
    hide Pool.Valid, SoundView, Content, Separate, ContainerBlocks, Clip;
    if Refused(out, a, b) { return InvalidParam; }
    var va, vb := a.View(), b.View();
    ghost var g := Goal(Clip(a.Model() + b.Model(), min, max), out.Others(pool), pool.refusals);
    Opening(out, pool, a.Model() + b.Model(), min, max, g);
    if min > max { return Success; }
    SoundShape(va); SoundShape(vb);
    ClipCombines(Content(va), Content(vb), min, max);
    if va.Sparse() && vb.Sparse() {
      var xs := SparseRange(va, min, max);
      var ys := SparseRange(vb, min, max);
      var merged := Merge(xs, ys);
      MergedInRange(merged, xs, ys);
      result := FinishValues(out, merged, pool, g);
    } else {
      result := OrWalk(out, va, vb, min, max, pool, g);
      Finish(out, result, pool, g);
    }
  }

  lemma MergedInRange(merged: seq<nat>, xs: seq<nat>, ys: seq<nat>)
    requires Elements(merged) == Elements(xs) + Elements(ys)
    requires (forall v :: v in xs ==> v <= UINT32_MAX) && (forall v :: v in ys ==> v <= UINT32_MAX)
    ensures forall v :: v in merged ==> v <= UINT32_MAX
  {
    assert forall v :: v in merged ==> v in Elements(merged);
  }

  /** `arnm_roaring_andnot`: exactly the values of the first set the second lacks, inside [min, max]. */
  method AndNot(out: RoaringBitmap, a: RoaringBitmap, b: RoaringBitmap, min: nat, max: nat, pool: Pool) returns (result: Result)
    requires out.Ready(pool) && out.Valid() && a.Valid() && b.Valid() && min <= UINT32_MAX && max <= UINT32_MAX
    modifies out, pool, pool.source
    ensures a.View() == old(a.View()) && b.View() == old(b.View())
    ensures out == a || out == b || old(out.directory != 0 || out.cardinality != 0) ==>
              result.InvalidParam? && out.View() == old(out.View()) && out.Others(pool) == old(out.Others(pool))
              && out.Ready(pool) && out.Valid() && pool.lent == old(pool.lent)
    ensures out != a && out != b && old(out.directory == 0 && out.cardinality == 0) ==>
              Outcome(out, pool, result, old(Goal(Clip(a.Model() - b.Model(), min, max), out.Others(pool), pool.refusals)))
  {
    hide Pool.Valid, SoundView, Content, Separate, ContainerBlocks, Clip;
    if Refused(out, a, b) { return InvalidParam; }
    var va, vb := a.View(), b.View();
    ghost var g := Goal(Clip(a.Model() - b.Model(), min, max), out.Others(pool), pool.refusals);
    Opening(out, pool, a.Model() - b.Model(), min, max, g);
    if min > max { return Success; }
    SoundShape(va); SoundShape(vb);
    if va.Sparse() {
      var kept := SparseFilter(va, vb, false, min, max);
      ClipKept(Content(va), Content(vb), false, min, max);
      result := FinishValues(out, kept, pool, g);
    } else {
      ClipCombines(Content(va), Content(vb), min, max);
      result := AndNotWalk(out, va, vb, min, max, pool, g);
      Finish(out, result, pool, g);
    }
  }

  /** `arnm_roaring_copy_range`: exactly the values of the set inside [min, max]. */
  method CopyRange(out: RoaringBitmap, a: RoaringBitmap, min: nat, max: nat, pool: Pool) returns (result: Result)
    requires out.Ready(pool) && out.Valid() && a.Valid() && min <= UINT32_MAX && max <= UINT32_MAX
    modifies out, pool, pool.source
    ensures a.View() == old(a.View())
    ensures out == a || old(out.directory != 0 || out.cardinality != 0) ==>
              result.InvalidParam? && out.View() == old(out.View()) && out.Others(pool) == old(out.Others(pool))
              && out.Ready(pool) && out.Valid() && pool.lent == old(pool.lent)
    ensures out != a && old(out.directory == 0 && out.cardinality == 0) ==>
              Outcome(out, pool, result, old(Goal(Clip(a.Model(), min, max), out.Others(pool), pool.refusals)))
  {
    hide Pool.Valid, SoundView, Content, Separate, ContainerBlocks, Clip;
    if Refused(out, a, a) { return InvalidParam; }
    var va := a.View();
    ghost var g := Goal(Clip(a.Model(), min, max), out.Others(pool), pool.refusals);
    Opening(out, pool, a.Model(), min, max, g);
    if min > max { return Success; }
    SoundShape(va);
    if va.Sparse() {
      var values := SparseRange(va, min, max);
      result := FinishValues(out, values, pool, g);
    } else {
      result := CopyWalk(out, va, min, max, pool, g);
      Finish(out, result, pool, g);
    }
  }
}
