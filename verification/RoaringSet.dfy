// A set as an object: its fields, the blocks it owns in a pool, and the calls that build and free
// it.
//
// `Valid()` is about the values, `Ready(pool)` about the blocks. Every call states its effect on
// `Model()` and that `Others(pool)` is untouched.
module RoaringSet {
  import opened Results
  import opened BlockPool
  import opened Word64
  import opened Order
  import opened WordBuffer
  import opened Containers
  import opened Views

  const BITMAP_LOG2: nat := 13
  const FIRST_LOG2: nat := 4

  function BlockOf(c: Container): Block { Block(c.address, c.log2) }

  function ContainerBlocks(cs: seq<Container>): set<Block> { set c | c in cs :: BlockOf(c) }

  /** The block is the smallest from 16 bytes on that holds this many bytes. */
  predicate Tight(bytes: nat, log2: nat) {
    4 <= log2 && bytes <= Pow(log2) && (log2 > 4 ==> Pow(log2 - 1) < bytes)
  }

  /** Only one size of block is. */
  lemma TightUnique(bytes: nat, m: nat, n: nat)
    requires Tight(bytes, m) && Tight(bytes, n)
    ensures m == n
  {
    hide Pow;
    if m < n { PowMonotone(m, n - 1); }
    if n < m { PowMonotone(n, m - 1); }
  }

  /** Sixteen bytes hold something to begin with, and a block that is full gives way to the next one. */
  lemma TightNext(count: nat, unit: nat, log2: nat)
    requires unit == 2 || unit == 4 || unit == 16
    ensures Tight(unit, FIRST_LOG2)
    ensures Tight(count * unit, log2) && count == Pow(log2) / unit ==> Tight((count + 1) * unit, log2 + 1)
    ensures Tight(count * unit, log2) && count != Pow(log2) / unit ==> Tight((count + 1) * unit, log2)
  {
    hide Pow;
    Sixteens(4);
    if FIRST_LOG2 <= log2 {
      Sixteens(log2);
      PowNext(log2);
      Full(if unit == 2 then count else if unit == 4 then 2 * count else 8 * count, Pow(log2));
    }
  }

  lemma Full(halves: nat, bytes: nat)
    requires bytes % 16 == 0
    ensures halves == bytes / 2 <==> 2 * halves == bytes
    ensures halves % 2 == 0 ==> (halves / 2 == bytes / 4 <==> 2 * halves == bytes)
    ensures halves % 8 == 0 ==> (halves / 8 == bytes / 16 <==> 2 * halves == bytes)
  {
  }

  lemma {:induction false} Sixteens(log2: nat)
    requires 4 <= log2
    ensures Pow(log2) % 16 == 0 && Pow(log2) >= 16 && (log2 == 4 ==> Pow(log2) == 16)
  {
    hide Pow;
    if log2 == 4 {
      FourthPower();
    } else {
      Sixteens(log2 - 1);
      PowNext(log2 - 1);
      TwiceSixteens(Pow(log2 - 1));
    }
  }

  lemma FourthPower()
    ensures Pow(4) == 16
  {
  }

  lemma TwiceSixteens(p: nat)
    requires p % 16 == 0
    ensures (p + p) % 16 == 0
  {
    var k := p / 16;
    assert p + p == 16 * (2 * k);
  }

  /** The values of a container fill the block they lie in: no smaller one would do. */
  predicate Fits(c: Container) {
    c.address != 0
    && match c.data
       case Lows(lows) => Tight(|lows| * 2, c.log2)
       case Bits(_) => c.log2 == BITMAP_LOG2
       case Wide(_) => false
  }

  /** No two of the set's blocks are one. */
  ghost predicate Separate(cs: seq<Container>, directory: Block) {
    (forall i, j :: 0 <= i < j < |cs| ==> BlockOf(cs[i]) != BlockOf(cs[j]))
    && (forall i :: 0 <= i < |cs| ==> BlockOf(cs[i]) != directory && Fits(cs[i]))
  }

  /** `arnm_roaring_log2_for_bytes`: the smallest block from 16 bytes on that holds them. */
  method Log2ForBytes(bytes: nat) returns (log2: nat)
    requires bytes <= 8192
    ensures Tight(bytes, log2) && log2 <= BITMAP_LOG2
  {
    assert Pow(13) == 8192;
    log2 := FIRST_LOG2;
    while Pow(log2) < bytes
      invariant FIRST_LOG2 <= log2 <= BITMAP_LOG2
      invariant log2 > FIRST_LOG2 ==> Pow(log2 - 1) < bytes
      decreases BITMAP_LOG2 - log2
    {
      log2 := log2 + 1;
    }
  }

  /** A block that the containers of a set fill is below the largest default grade. */
  lemma FullDirectory(log2: nat)
    requires Pow(log2) / 16 < LOWS
    ensures log2 < DEFAULT_MAX_LOG2
  {
    PowValues();
    hide Pow;
    if DEFAULT_MAX_LOG2 <= log2 { PowMonotone(DEFAULT_MAX_LOG2, log2); }
  }

  /** An array container at its limit fills the block a bitmap takes. */
  lemma SwitchPoint()
    ensures ARRAY_MAX * 2 == WORDS * 8 == Pow(BITMAP_LOG2)
  {
    PowValues();
  }

  lemma PowValues()
    ensures Pow(13) == 8192 && Pow(20) == 0x10_0000
  {
    assert Pow(10) == 1024;
  }

  /** A block that an array container, or the values of a sparse set, still fit. */
  lemma SmallBlock(log2: nat)
    requires Pow(log2) / 4 < 2048 || Pow(log2) / 2 < ARRAY_MAX
    ensures log2 < BITMAP_LOG2
  {
    PowValues();
    hide Pow;
    if BITMAP_LOG2 <= log2 { PowMonotone(BITMAP_LOG2, log2); }
  }

  /** Containers have different keys, so there are no more of them than keys. */
  lemma {:induction false} KeysCounted(cs: seq<Container>, limit: nat)
    requires KeysAscending(cs) && forall i :: 0 <= i < |cs| ==> cs[i].key < limit
    ensures |cs| <= limit
  {
    if cs != [] {
      var n := |cs| - 1;
      KeysCounted(cs[..n], cs[n].key);
    }
  }

  /**
   * `arnm_roaring_block_free`: the block leaves `lent`; the exponent asked for fixes the grade, so
   * no error is possible.
   */
  method BlockFree(pool: Pool, address: nat, log2: nat)
    requires pool.Valid() && address != 0 && Block(address, log2) in pool.lent
    modifies pool
    ensures pool.Valid() && pool.lent == old(pool.lent) - {Block(address, log2)} && pool.refusals == old(pool.refusals)
  {
    hide Pool.Valid;
    pool.LentGrade(Block(address, log2));
    var result := pool.FreeLog2(address, log2, log2);
  }

  lemma BlocksAppended(cs: seq<Container>, c: Container, directory: Block)
    requires Separate(cs, directory) && Fits(c) && BlockOf(c) != directory && BlockOf(c) !in ContainerBlocks(cs)
    ensures Separate(cs + [c], directory) && ContainerBlocks(cs + [c]) == ContainerBlocks(cs) + {BlockOf(c)}
  {
    hide Fits;
    assert forall i :: 0 <= i < |cs| ==> BlockOf(cs[i]) in ContainerBlocks(cs);
    assert forall d :: d in cs + [c] <==> d in cs || d == c;
  }

  lemma ListingAscends(q: seq<nat>, s: set<nat>)
    requires q == Listing(s, false)
    ensures Ascending(q) && Elements(q) == s && |q| == |s| && forall x :: x in q <==> x in s
  {
    assert forall x :: x in q <==> x in Elements(q);
  }

  lemma LiftedBits(c: Container, s: set<nat>, top: nat)
    requires c.key < LOWS && c.data.Bits? && |c.data.words| == WORDS && BitsBetween(c.data.words, 0, LOWS) == s
    requires IsTop(s, top)
    ensures Lifted(c) == Lift(c.key, s) && ValueOf(c.key, top) in Lifted(c)
    ensures forall v :: v in Lifted(c) ==> v <= ValueOf(c.key, top)
  {
    BitsBounded(c.data.words, 0, LOWS);
    SplitValue(c.key, top);
    forall v: nat ensures v in Lifted(c) <==> v in Lift(c.key, s) {
      JoinValue(v);
    }
    forall v: nat | v in Lifted(c) ensures v <= ValueOf(c.key, top) {
      JoinValue(v);
      assert LowOf(v) in s;
    }
  }

  lemma BlocksFrom(cs: seq<Container>, i: nat)
    requires i <= |cs| && forall j, k :: 0 <= j < k < |cs| ==> BlockOf(cs[j]) != BlockOf(cs[k])
    ensures cs[0..] == cs && (i == |cs| ==> ContainerBlocks(cs[i..]) == {})
    ensures i < |cs| ==> BlockOf(cs[i]) !in ContainerBlocks(cs[i + 1..])
    ensures i < |cs| ==> ContainerBlocks(cs[i..]) == ContainerBlocks(cs[i + 1..]) + {BlockOf(cs[i])}
  {
    if i < |cs| {
      assert cs[i..] == [cs[i]] + cs[i + 1..];
    }
  }

  /** The last container in another block, or in the same one. */
  lemma BlocksReplaced(cs: seq<Container>, c: Container, directory: Block)
    requires |cs| > 0 && Separate(cs, directory) && Fits(c)
    requires BlockOf(c) == BlockOf(cs[|cs| - 1]) || (BlockOf(c) != directory && BlockOf(c) !in ContainerBlocks(cs))
    ensures var n := |cs| - 1;
            Separate(cs[..n] + [c], directory)
            && ContainerBlocks(cs[..n] + [c]) == ContainerBlocks(cs) - {BlockOf(cs[n])} + {BlockOf(c)}
            && BlockOf(cs[n]) in ContainerBlocks(cs) && BlockOf(cs[n]) != directory
  {
    hide Fits;
    var n := |cs| - 1;
    var front := cs[..n];
    assert cs == front + [cs[n]];
    assert forall d :: d in cs <==> d in front || d == cs[n];
    assert forall d :: d in front + [c] <==> d in front || d == c;
    assert forall i :: 0 <= i < n ==> BlockOf(cs[i]) in ContainerBlocks(cs);
    assert forall d :: d in front ==> BlockOf(d) != BlockOf(cs[n]);
  }

  /** The largest value of a set is in its last container. */
  lemma BelowNewLow(view: View, value: nat)
    requires SoundView(view) && !view.Sparse() && view.maximum < value <= UINT32_MAX
    ensures var last := view.containers[|view.containers| - 1];
            last.key == KeyOf(value) ==> !Has(last, LowOf(value)) && forall x: nat :: x < LOWS && Has(last, x) ==> x < LowOf(value)
    ensures forall i :: 0 <= i < |view.containers| && view.containers[|view.containers| - 1].key != KeyOf(value) ==>
              view.containers[i].key < KeyOf(value)
  {
    var n := |view.containers| - 1;
    var last := view.containers[n];
    JoinValue(value);
    forall x: nat | x < LOWS && Has(last, x) ensures ValueOf(last.key, x) <= view.maximum { HeldBelow(view, n, x); }
    forall x: nat | x < LOWS && Has(last, x) ensures last.key < KeyOf(value) || (last.key == KeyOf(value) && x < LowOf(value)) {
      ValueOrder(last.key, x, KeyOf(value), LowOf(value));
    }
    LiftedSize(last);
    assert Lifted(last) != {};
    var v :| v in Lifted(last);
    assert LowOf(v) < LOWS && Has(last, LowOf(v));
  }

  lemma HeldBelow(view: View, i: nat, x: nat)
    requires SoundView(view) && i < |view.containers| && x < LOWS && Has(view.containers[i], x)
    ensures ValueOf(view.containers[i].key, x) <= view.maximum
  {
    var v := ValueOf(view.containers[i].key, x);
    SplitValue(view.containers[i].key, x);
    assert view.containers[i].key < LOWS by { assert Sound(view.containers[i]); }
    assert InContainer(view.containers[i], v);
    assert v in Content(view);
  }

  lemma SparseAbove(view: View, value: nat)
    requires SoundView(view) && view.Sparse() && |view.values| < SPARSE_MAX
    requires value <= UINT32_MAX && (view.cardinality > 0 ==> view.maximum < value)
    ensures var grown := Views.View.View(view.values + [value], [], view.cardinality + 1, value);
            Shape(grown) && Elements(grown.values) == Elements(view.values) + {value} && value !in Content(view)
  {
    SparseContent(view);
    forall i | 0 <= i < |view.values| ensures view.values[i] < value {
      assert view.values[i] in Content(view);
    }
  }

  /** One value above all others. */
  lemma OneAbove(view: View, grown: View, value: nat)
    requires SoundView(view) && Shape(grown) && Content(grown) == Content(view) + {value} && value !in Content(view)
    requires value <= UINT32_MAX && grown.cardinality == view.cardinality + 1 <= UINT32_MAX && grown.maximum == value
    requires view.cardinality > 0 ==> view.maximum < value
    ensures SoundView(grown)
  {
    hide Content, Shape;
    assert view.cardinality == 0 ==> Content(view) == {};
  }

  lemma SoundShape(view: View)
    requires SoundView(view)
    ensures Shape(view) && view.cardinality == |Content(view)| <= UINT32_MAX
  {
  }

  lemma NoBlocks(cs: seq<Container>)
    requires cs == []
    ensures ContainerBlocks(cs) == {}
  {
  }

  /** A set has one maximum. */
  lemma SameMaximum(a: View, b: View)
    requires SoundView(a) && SoundView(b) && Content(a) == Content(b)
    ensures a.cardinality == b.cardinality && (a.cardinality > 0 ==> a.maximum == b.maximum)
  {
    if a.cardinality > 0 {
      assert a.maximum in Content(b) && b.maximum in Content(a);
    }
  }

  /** Sorted values, few enough, are a sound sparse set. */
  lemma SparseSound(from: seq<nat>)
    requires Ascending(from) && 0 < |from| <= SPARSE_MAX && forall v :: v in from ==> v <= UINT32_MAX
    ensures var view := Views.View.View(from, [], |from|, from[|from| - 1]);
            SoundView(view) && Content(view) == Elements(from)
  {
    var view := Views.View.View(from, [], |from|, from[|from| - 1]);
    SparseContent(view);
    assert from[|from| - 1] in from;
    forall v | v in Content(view) ensures v <= from[|from| - 1] {
      var i :| 0 <= i < |from| && from[i] == v;
    }
  }

  lemma EmptyContent(view: View)
    requires view.values == [] && view.containers == []
    ensures Content(view) == {}
  {
  }

  lemma ContentOfNone(view: View)
    requires view.Sparse() && view.values == []
    ensures Content(view) == {}
  {
  }

  /** A stretch of sorted values with one key lifts back from its low parts. */
  lemma KeyRun(from: seq<nat>, begin: nat, end: nat, lows: seq<nat>)
    requires Ascending(from) && begin < end <= |from| && |lows| == end - begin
    requires forall v :: v in from ==> v <= UINT32_MAX
    requires forall j :: begin <= j < end ==> KeyOf(from[j]) == KeyOf(from[begin]) && lows[j - begin] == LowOf(from[j])
    requires end < |from| ==> KeyOf(from[end]) != KeyOf(from[begin])
    ensures Ascending(lows) && (forall x :: x in lows ==> x < LOWS) && KeyOf(from[begin]) < LOWS
    ensures Elements(from[..end]) == Elements(from[..begin]) + Lift(KeyOf(from[begin]), Elements(lows))
    ensures end < |from| ==> KeyOf(from[begin]) < KeyOf(from[end])
  {
    assert from[begin] in from;
    assert KeyOf(from[begin]) < LOWS by { assert from[begin] <= UINT32_MAX; }
    hide KeyOf, LowOf, ValueOf;
    var run := from[begin..end];
    assert forall v :: v in run ==> v in from;
    RunLows(run, KeyOf(from[begin]), lows);
    assert from[..end] == from[..begin] + run;
    ElementsJoin(from[..begin], run);
    hide Elements, Lift;
    if end < |from| {
      JoinValue(from[begin]); JoinValue(from[end]);
      ValueOrder(KeyOf(from[begin]), LowOf(from[begin]), KeyOf(from[end]), LowOf(from[end]));
    }
  }

  lemma RunLows(run: seq<nat>, key: nat, lows: seq<nat>)
    requires Ascending(run) && |lows| == |run| && forall v :: v in run ==> v <= UINT32_MAX
    requires forall j :: 0 <= j < |run| ==> KeyOf(run[j]) == key && lows[j] == LowOf(run[j])
    ensures Ascending(lows) && forall x :: x in lows ==> x < LOWS
    ensures Elements(run) == Lift(key, Elements(lows))
  {
    hide KeyOf, LowOf, ValueOf;
    forall i | 0 <= i < |run| ensures ValueOf(key, lows[i]) == run[i] && lows[i] < LOWS { JoinValue(run[i]); }
    forall i, j | 0 <= i < j < |lows| ensures lows[i] < lows[j] {
      ValueOrder(key, lows[i], key, lows[j]);
    }
    forall v: nat ensures v in run <==> v in Lift(key, Elements(lows)) {
      if v in run {
        var j :| 0 <= j < |run| && run[j] == v;
        assert lows[j] == LowOf(v);
      }
      if v in Lift(key, Elements(lows)) {
        var j :| 0 <= j < |lows| && lows[j] == LowOf(v);
        JoinValue(v);
        assert run[j] == v;
      }
    }
  }

  lemma NothingLifted(key: nat, lows: seq<nat>)
    requires lows == []
    ensures Lift(key, Elements(lows)) == {} && Lift(key, {}) == {}
  {
  }

  lemma LiftedArray(c: Container, lows: seq<nat>)
    requires c.key < LOWS && c.data == Lows(lows) && lows != [] && Ascending(lows) && forall x :: x in lows ==> x < LOWS
    ensures Lifted(c) == Lift(c.key, Elements(lows))
    ensures ValueOf(c.key, lows[|lows| - 1]) in Lifted(c)
    ensures forall v :: v in Lifted(c) ==> v <= ValueOf(c.key, lows[|lows| - 1])
  {
    var top := lows[|lows| - 1];
    assert top in lows;
    SplitValue(c.key, top);
    forall v: nat | v in Lifted(c) ensures v <= ValueOf(c.key, top) {
      JoinValue(v);
      var i :| 0 <= i < |lows| && lows[i] == LowOf(v);
    }
  }

  /** Words with exactly the bits of `lows`. */
  method BitsOf(lows: seq<nat>) returns (words: seq<bv64>)
    requires forall x :: x in lows ==> x < LOWS
    ensures |words| == WORDS && BitsBetween(words, 0, LOWS) == Elements(lows)
    ensures forall x: nat :: x < LOWS ==> (HasBit(words, x) <==> x in lows)
  {
    hide HasBit;
    var buffer := new bv64[WORDS];
    Zero(buffer, 0, WORDS - 1);
    SetLows(buffer, lows);
    words := buffer[..];
  }

  /** `array_to_bitmap`: the same low parts and `low` as bits, in a block that replaces the old one. */
  method ArrayToBitmap(last: Container, low: nat, pool: Pool) returns (result: Result, out: Container)
    requires pool.Valid() && BlockOf(last) in pool.lent && last.address != 0
    requires last.data.Lows? && Sound(last) && |last.data.lows| == ARRAY_MAX && low < LOWS && low !in last.data.lows
    modifies pool, pool.source
    ensures result.Success? <==> pool.refusals == old(pool.refusals)
    ensures pool.Valid()
    ensures !result.Success? ==> pool.lent == old(pool.lent) && out == last
    ensures result.Success? ==> pool.lent == old(pool.lent) - {BlockOf(last)} + {BlockOf(out)} && BlockOf(out) !in old(pool.lent)
    ensures result.Success? ==> out == last.(data := out.data, address := out.address, log2 := BITMAP_LOG2)
                                && out.data.Bits? && out.address != 0 && |out.data.words| == WORDS
    ensures result.Success? ==> forall x: nat :: x < LOWS ==> (Has(out, x) <==> Has(last, x) || x == low)
  {
    hide Pool.Valid, HasBit;
    var block;
    result, block := pool.AllocLog2(BITMAP_LOG2);
    if !result.Success? { return result, last; }
    var words := BitsOf(last.data.lows + [low]);
    BlockFree(pool, last.address, last.log2);
    out := last.(data := Bits(words), address := block, log2 := BITMAP_LOG2);
  }

  /** `array_grow`: the container with one exponent more; its old block is given back. */
  method ArrayGrow(last: Container, pool: Pool) returns (result: Result, out: Container)
    requires pool.Valid() && BlockOf(last) in pool.lent && last.address != 0 && last.log2 < BITMAP_LOG2
    modifies pool, pool.source
    ensures result.Success? <==> pool.refusals == old(pool.refusals)
    ensures pool.Valid()
    ensures !result.Success? ==> pool.lent == old(pool.lent) && out == last
    ensures result.Success? ==> pool.lent == old(pool.lent) - {BlockOf(last)} + {BlockOf(out)} && BlockOf(out) !in old(pool.lent)
    ensures result.Success? ==> out == last.(address := out.address, log2 := last.log2 + 1) && out.address != 0
  {
    hide Pool.Valid;
    var block;
    result, block := pool.AllocLog2(last.log2 + 1);
    if !result.Success? { return result, last; }
    BlockFree(pool, last.address, last.log2);
    out := last.(address := block, log2 := last.log2 + 1);
  }

  lemma SparseCounted(view: View)
    requires SoundView(view) && view.Sparse()
    ensures view.cardinality == |view.values|
  {
    SparseContent(view);
  }

  /** A value above the others joins a sparse set. */
  lemma SparseGrown(view: View, value: nat)
    requires SoundView(view) && view.Sparse() && view.cardinality < SPARSE_MAX && view.containers == []
    requires value <= UINT32_MAX && (view.cardinality > 0 ==> view.maximum < value)
    ensures var grown := Views.View.View(view.values + [value], [], view.cardinality + 1, value);
            SoundView(grown) && Content(grown) == Content(view) + {value}
  {
    hide SoundView, Content, Shape, Ascending, Elements;
    var grown := Views.View.View(view.values + [value], [], view.cardinality + 1, value);
    SoundShape(view);
    SparseContent(view);
    SparseAbove(view, value);
    assert Shape(grown);
    SparseContent(grown);
    OneAbove(view, grown, value);
  }

  lemma KeyInRange(c: Container)
    requires Sound(c)
    ensures c.key < LOWS
  {
  }

  /** One low part more, above the others: the container that holds it is sound. */
  lemma ArrayExtended(c: Container, low: nat, d: Container)
    requires Sound(c) && c.data.Lows? && c.cardinality < ARRAY_MAX && low < LOWS
    requires forall x :: x in c.data.lows ==> x < low
    requires d.key == c.key && d.cardinality == c.cardinality + 1 && d.data == Lows(c.data.lows + [low])
    ensures Sound(d) && KindByCount(d) && forall x: nat :: x < LOWS ==> (Has(d, x) <==> Has(c, x) || x == low)
  {
    assert forall i :: 0 <= i < |c.data.lows| ==> c.data.lows[i] in c.data.lows;
  }

  lemma OneMoreLow(c: Container, low: nat, d: Container)
    requires low < LOWS && !Has(c, low) && forall x: nat :: x < LOWS ==> (Has(d, x) <==> Has(c, x) || x == low)
    ensures Part(d, 0, LOWS - 1) == Part(c, 0, LOWS - 1) + {low} && low !in Part(c, 0, LOWS - 1)
  {
    hide Has;
  }

  /** Bits counted through the low parts they stand for. */
  lemma BitsSound(c: Container, low: nat, d: Container)
    requires Sound(c) && c.cardinality >= ARRAY_MAX && d.key == c.key && d.cardinality == c.cardinality + 1
    requires d.data.Bits? && |d.data.words| == WORDS
    requires Part(d, 0, LOWS - 1) == Part(c, 0, LOWS - 1) + {low} && low !in Part(c, 0, LOWS - 1)
    ensures Sound(d) && KindByCount(d)
  {
    hide HasBit;
    WholeKey(c);
    assert BitsBetween(d.data.words, 0, LOWS) == Part(d, 0, LOWS - 1);
  }

  lemma BitmapExtended(c: Container, low: nat, d: Container)
    requires Sound(c) && c.cardinality >= ARRAY_MAX && low < LOWS && !Has(c, low)
    requires d.key == c.key && d.cardinality == c.cardinality + 1 && d.data.Bits? && |d.data.words| == WORDS
    requires forall x: nat :: x < LOWS ==> (Has(d, x) <==> Has(c, x) || x == low)
    ensures Sound(d) && KindByCount(d)
  {
    hide Has, HasBit, Sound, KindByCount, BitsBetween, Part;
    OneMoreLow(c, low, d);
    BitsSound(c, low, d);
  }

  lemma LowsInRange(c: Container)
    requires Sound(c) && c.data.Lows?
    ensures forall x :: x in c.data.lows ==> x < LOWS && Has(c, x)
  {
  }

  lemma LastBlock(cs: seq<Container>, directory: Block)
    requires |cs| > 0 && Separate(cs, directory)
    ensures BlockOf(cs[|cs| - 1]) in ContainerBlocks(cs) && Fits(cs[|cs| - 1])
  {
  }

  /** A container of one value. */
  lemma OneValue(c: Container, value: nat)
    requires value <= UINT32_MAX && c.key == KeyOf(value) && c.data == Lows([LowOf(value)]) && c.cardinality == 1
    requires c.address != 0 && c.log2 == FIRST_LOG2
    ensures Sound(c) && KindByCount(c) && Lifted(c) == {value} && Fits(c)
  {
    assert Pow(4) == 16;
    forall v: nat ensures v in Lifted(c) <==> v == value { JoinValue(v); JoinValue(value); }
  }

  lemma ContainersHold(view: View)
    requires SoundView(view) && !view.Sparse()
    ensures view.cardinality > 0
  {
    var c := view.containers[0];
    LiftedSize(c);
    var v :| v in Lifted(c);
    assert v in Content(view);
  }

  lemma MaximumHeld(view: View)
    requires SoundView(view) && view.cardinality > 0
    ensures Content(view) + {view.maximum} == Content(view)
  {
  }

  lemma PrefixCounted(from: seq<nat>, n: nat)
    requires Ascending(from) && n <= |from|
    ensures |Elements(from[..n])| == n
  {
    AscendingSize(from[..n]);
  }

  /** The low parts of the values from `begin` on that share its key, and where they end. */
  method TakeRun(from: seq<nat>, begin: nat) returns (lows: seq<nat>, end: nat)
    requires Ascending(from) && begin < |from| && |from| <= ARRAY_MAX && forall v :: v in from ==> v <= UINT32_MAX
    ensures begin < end <= |from| && |lows| == end - begin <= ARRAY_MAX
    ensures Ascending(lows) && (forall x :: x in lows ==> x < LOWS) && KeyOf(from[begin]) < LOWS
    ensures Elements(from[..end]) == Elements(from[..begin]) + Lift(KeyOf(from[begin]), Elements(lows))
    ensures end < |from| ==> KeyOf(from[begin]) < KeyOf(from[end])
  {
    hide KeyOf, LowOf, ValueOf, Ascending, Elements, Lift;
    lows, end := [], begin;
    while end < |from| && KeyOf(from[end]) == KeyOf(from[begin])
      invariant begin <= end <= |from| && |lows| == end - begin
      invariant forall j :: begin <= j < end ==> KeyOf(from[j]) == KeyOf(from[begin]) && lows[j - begin] == LowOf(from[j])
    {
      lows := lows + [LowOf(from[end])];
      end := end + 1;
    }
    KeyRun(from, begin, end, lows);
  }

  class RoaringBitmap {
    var values: seq<nat>
    var containers: seq<Container>
    var cardinality: nat
    var maximum: nat
    var directory: nat
    var directoryLog2: nat

    function View(): View
      reads this
    {
      Views.View.View(values, containers, cardinality, maximum)
    }

    ghost function Model(): set<nat>
      reads this
    {
      Content(View())
    }

    /** The blocks the set owns. */
    ghost function Blocks(): set<Block>
      reads this
    {
      (if directory == 0 then {} else {Block(directory, directoryLog2)}) + ContainerBlocks(containers)
    }

    /** Blocks of the pool that belong to anyone but this set. */
    ghost function Others(pool: Pool): set<Block>
      reads this, pool
    {
      pool.lent - Blocks()
    }

    /** Where the values lie. */
    ghost predicate Stored()
      reads this
    {
      if |containers| == 0 then
        (directory == 0 <==> values == []) && (directory != 0 ==> Tight(|values| * 4, directoryLog2))
      else
        directory != 0 && Tight(|containers| * 16, directoryLog2)
        && Separate(containers, Block(directory, directoryLog2))
    }

    ghost predicate Valid()
      reads this
    {
      SoundView(View()) && Stored()
    }

    /** The set and its pool, the blocks of the one lent by the other. */
    ghost predicate Ready(pool: Pool)
      reads this, pool, pool.source
    {
      Stored() && pool.Valid() && Blocks() <= pool.lent
    }

    /**
     * The pool's counter is the bytes of this set's blocks and of everybody else's. Every call
     * leaves the others as they were, so what it changes the counter by is the set's own.
     */
    lemma LentIsOwned(pool: Pool)
      requires Ready(pool)
      ensures pool.lentBytes == Bytes(Blocks(), pool.minLog2) + Bytes(Others(pool), pool.minLog2)
    {
      pool.LentCounted();
      BytesJoined(Blocks(), Others(pool), pool.minLog2);
      assert Blocks() + Others(pool) == pool.lent;
    }

    /** `arnm_roaring_init` */
    constructor ()
      ensures Valid() && Model() == {} && Blocks() == {} && View() == Views.View.View([], [], 0, 0)
    {
      values, containers := [], [];
      cardinality, maximum := 0, 0;
      directory, directoryLog2 := 0, 0;
    }

    /** Room in the directory for one more container: its block doubles when full. */
    method ReserveDirectory(pool: Pool) returns (result: Result)
      requires Ready(pool) && (|containers| == 0 ==> values == []) && |containers| < LOWS
      modifies this`directory, this`directoryLog2, pool, pool.source
      ensures result.Success? <==> pool.refusals == old(pool.refusals)
      ensures pool.Valid() && Blocks() <= pool.lent && Others(pool) == old(Others(pool))
      ensures result.Success? ==> directory != 0 && Tight((|containers| + 1) * 16, directoryLog2)
                                  && Separate(containers, Block(directory, directoryLog2))
      ensures !result.Success? ==> directory == old(directory) && directoryLog2 == old(directoryLog2)
    {
      hide Pool.Valid, Fits, Tight, Pow;
      TightNext(|containers|, 16, directoryLog2);
      var capacity := if directory != 0 then Pow(directoryLog2) / 16 else 0;
      if |containers| == capacity {
        var log2 := if directory != 0 then directoryLog2 + 1 else FIRST_LOG2;
        if directory != 0 { FullDirectory(directoryLog2); }
        var block;
        result, block := pool.AllocLog2(log2);
        if !result.Success? { return; }
        assert forall i :: 0 <= i < |containers| ==> BlockOf(containers[i]) in ContainerBlocks(containers);
        if directory != 0 { BlockFree(pool, directory, directoryLog2); }
        directory, directoryLog2 := block, log2;
      }
      result := Success;
    }

    /** `arnm_roaring_push_container`: appended to the directory. */
    method PushContainer(c: Container, pool: Pool) returns (result: Result)
      requires Ready(pool) && (|containers| == 0 ==> values == []) && |containers| < LOWS
      requires BlockOf(c) in Others(pool) && Fits(c)
      modifies this`containers, this`directory, this`directoryLog2, pool, pool.source
      ensures result.Success? <==> pool.refusals == old(pool.refusals)
      ensures Ready(pool)
      ensures result.Success? ==> containers == old(containers) + [c] && Others(pool) == old(Others(pool)) - {BlockOf(c)}
      ensures !result.Success? ==> containers == old(containers) && Blocks() == old(Blocks()) && Others(pool) == old(Others(pool))
    {
      hide Pool.Valid, Fits, Tight;
      result := ReserveDirectory(pool);
      if !result.Success? { return; }
      BlocksAppended(containers, c, Block(directory, directoryLog2));
      containers := containers + [c];
    }

    /** A set that containers are being appended to: not sparse with values, no key above `limit`. */
    ghost predicate Open(limit: nat)
      reads this
    {
      SoundView(View()) && (|containers| == 0 ==> values == [])
      && forall i :: 0 <= i < |containers| ==> containers[i].key < limit
    }

    /** The end of both emitters: the container joins the set, or its block goes back. */
    method Emit(c: Container, top: nat, pool: Pool) returns (result: Result)
      requires Ready(pool) && Open(c.key) && Sound(c) && KindByCount(c) && Fits(c) && BlockOf(c) in Others(pool)
      requires cardinality + c.cardinality <= UINT32_MAX
      requires top in Lifted(c) && forall v :: v in Lifted(c) ==> v <= top
      modifies this, pool, pool.source
      ensures result.Success? <==> pool.refusals == old(pool.refusals)
      ensures Ready(pool) && Open(c.key + 1)
      ensures Others(pool) == old(Others(pool)) - {BlockOf(c)} && (result.Success? ==> maximum == top)
      ensures Model() == if result.Success? then old(Model()) + Lifted(c) else old(Model())
    {
      hide Pool.Valid, Has, Sound, KindByCount, Content, Lifted, Separate, ContainerBlocks, Pow;
      ghost var was := View();
      KeyInRange(c);
      KeysCounted(containers, c.key);
      result := PushContainer(c, pool);
      if !result.Success? {
        BlockFree(pool, c.address, c.log2);
        return;
      }
      cardinality, maximum := cardinality + c.cardinality, top;
      Appended(was, c, View());
    }

    /** `arnm_roaring_emit_array`: `Model()` grows by `lows` lifted to `key`, or nothing is kept. */
    method EmitArray(key: nat, lows: seq<nat>, pool: Pool) returns (result: Result)
      requires Ready(pool) && Open(key) && key < LOWS
      requires Ascending(lows) && |lows| <= ARRAY_MAX && forall x :: x in lows ==> x < LOWS
      modifies this, pool, pool.source
      ensures Ready(pool) && Open(key + 1) && Others(pool) == old(Others(pool))
      ensures Model() == if result.Success? then old(Model()) + Lift(key, Elements(lows)) else old(Model())
      ensures result.Success? <==>
                (old(cardinality) + |lows| <= UINT32_MAX || |lows| == 0) && pool.refusals == old(pool.refusals)
    {
      hide Pool.Valid, Content, SoundView, Separate, ContainerBlocks, Pow;
      var count := |lows|;
      if count == 0 {
        NothingLifted(key, lows);
        return Success;
      }
      if cardinality > UINT32_MAX - count { return ResourceExhausted; }
      var log2 := Log2ForBytes(count * 2);
      var block;
      result, block := pool.AllocLog2(log2);
      if !result.Success? { return; }
      var c := Container(key, count, Lows(lows), block, log2);
      LiftedArray(c, lows);
      result := Emit(c, ValueOf(key, lows[count - 1]), pool);
    }

    /**
     * `arnm_roaring_emit_words`: the same for the bits of words [first, last]; `KindByCount` decides
     * the form.
     */
    method EmitWords(key: nat, words: array<bv64>, first: nat, last: nat, count: nat, pool: Pool) returns (result: Result)
      requires Ready(pool) && Open(key) && key < LOWS && words.Length == WORDS && first <= last < WORDS
      requires count == |BitsBetween(words[..], 64 * first, 64 * (last + 1))|
      modifies this, pool, pool.source
      ensures Ready(pool) && Open(key + 1) && Others(pool) == old(Others(pool))
      ensures Model() == if result.Success? then
                           old(Model()) + Lift(key, BitsBetween(words[..], 64 * first, 64 * (last + 1)))
                         else old(Model())
      ensures result.Success? <==>
                (old(cardinality) + count <= UINT32_MAX || count == 0) && pool.refusals == old(pool.refusals)
    {
      hide Pool.Valid, Content, SoundView, Separate, ContainerBlocks, Pow, BitsBetween, Listing, Lifted;
      ghost var s := BitsBetween(words[..], 64 * first, 64 * (last + 1));
      if count == 0 {
        assert s == {};
        NothingLifted(key, []);
        return Success;
      }
      if count <= ARRAY_MAX {
        var lows := ReadBits(words, first, last);
        BitsBounded(words[..], 64 * first, 64 * (last + 1));
        ListingAscends(lows, s);
        result := EmitArray(key, lows, pool);
        return;
      }
      if cardinality > UINT32_MAX - count { return ResourceExhausted; }
      var block;
      result, block := pool.AllocLog2(BITMAP_LOG2);
      if !result.Success? { return; }
      var c := Container(key, count, Bits(OnZeros(words[..], first, last)), block, BITMAP_LOG2);
      OnZerosBits(words[..], first, last);
      var top := TopOf(words, first, last);
      LiftedBits(c, s, top);
      result := Emit(c, ValueOf(key, top), pool);
    }

    /** The blocks of the containers go back, one by one. */
    method FreeContainers(pool: Pool, ghost rest: set<Block>)
      requires pool.Valid() && Separate(containers, Block(directory, directoryLog2))
      requires pool.lent == rest + ContainerBlocks(containers) && rest !! ContainerBlocks(containers)
      modifies pool
      ensures pool.Valid() && pool.lent == rest && pool.refusals == old(pool.refusals)
    {
      hide Pool.Valid, ContainerBlocks;
      var i := 0;
      BlocksFrom(containers, 0);
      while i < |containers|
        invariant 0 <= i <= |containers| && pool.Valid() && pool.refusals == old(pool.refusals)
        invariant pool.lent == rest + ContainerBlocks(containers[i..]) && rest !! ContainerBlocks(containers[i..])
      {
        BlocksFrom(containers, i);
        BlockFree(pool, containers[i].address, containers[i].log2);
        i := i + 1;
      }
      BlocksFrom(containers, i);
    }

    /** `arnm_roaring_free`: every block goes back, the set is empty. */
    method Free(pool: Pool)
      requires Ready(pool)
      modifies this, pool
      ensures Ready(pool) && Valid() && Others(pool) == old(Others(pool)) && pool.refusals == old(pool.refusals)
      ensures Model() == {} && Blocks() == {} && View() == Views.View.View([], [], 0, 0)
    {
      hide Pool.Valid, Pow;
      if |containers| == 0 {
        if directory != 0 { BlockFree(pool, directory, directoryLog2); }
        assert Blocks() == if directory == 0 then {} else {Block(directory, directoryLog2)};
      } else {
        assert Block(directory, directoryLog2) !in ContainerBlocks(containers);
        FreeContainers(pool, Others(pool) + {Block(directory, directoryLog2)});
        BlockFree(pool, directory, directoryLog2);
      }
      Clear();
    }

    /** All fields zero. */
    method Clear()
      modifies this
      ensures Valid() && Model() == {} && Blocks() == {} && View() == Views.View.View([], [], 0, 0)
    {
      values, containers := [], [];
      cardinality, maximum := 0, 0;
      directory, directoryLog2 := 0, 0;
    }

    lemma EmptyIsOpen(limit: nat)
      requires Valid() && |containers| == 0 && values == []
      ensures Open(limit)
    {
    }

    /** `arnm_roaring_values_to_containers`: sorted values appended as one array per key. */
    method ValuesToContainers(from: seq<nat>, pool: Pool) returns (result: Result)
      requires Ready(pool) && Valid() && |containers| == 0 && values == []
      requires Ascending(from) && |from| <= 2 * SPARSE_MAX && forall v :: v in from ==> v <= UINT32_MAX
      modifies this, pool, pool.source
      ensures result.Success? <==> pool.refusals == old(pool.refusals)
      ensures Ready(pool) && Valid() && Others(pool) == old(Others(pool))
      ensures result.Success? ==> Model() == Elements(from)
      ensures result.Success? && from != [] ==> |containers| > 0
    {
      hide Pool.Valid, Content, SoundView, Separate, ContainerBlocks, Pow, KeyOf, LowOf, ValueOf, Lift, Ascending;
      EmptyContent(View());
      if from != [] { assert Open(KeyOf(from[0])) by { EmptyIsOpen(KeyOf(from[0])); } }
      var i := 0;
      while i < |from|
        invariant 0 <= i <= |from| && Ready(pool) && Others(pool) == old(Others(pool))
        invariant i < |from| ==> Open(KeyOf(from[i]))
        invariant SoundView(View()) && (|containers| == 0 ==> values == [])
        invariant Model() == Elements(from[..i]) && pool.refusals == old(pool.refusals)
      {
        var lows, end := TakeRun(from, i);
        SoundShape(View());
        PrefixCounted(from, i);
        result := EmitArray(KeyOf(from[i]), lows, pool);
        if !result.Success? { return; }
        i := end;
      }
      result := Success;
      assert from[..i] == from;
      NoElements(from);
      if |containers| == 0 { ContentOfNone(View()); }
    }

    /** `sparse_to_containers`: the set changes form, or nothing happens. */
    method SparseToContainers(pool: Pool) returns (result: Result)
      requires Ready(pool) && Valid() && |containers| == 0 && values != []
      modifies this, pool, pool.source
      ensures result.Success? <==> pool.refusals == old(pool.refusals)
      ensures Ready(pool) && Valid() && Others(pool) == old(Others(pool))
      ensures Model() == old(Model()) && cardinality == old(cardinality) && maximum == old(maximum)
      ensures result.Success? ==> |containers| > 0
      ensures !result.Success? ==> View() == old(View())
    {
      hide Pool.Valid, SoundView, Content, Separate, ContainerBlocks, Pow;
      ghost var lent := pool.lent;
      ghost var view, mine := View(), Blocks();
      NoBlocks(containers);
      assert mine == {Block(directory, directoryLog2)};
      SoundShape(view);
      SparseContent(view);
      var built := new RoaringBitmap();
      assert built.Others(pool) == lent;
      result := built.ValuesToContainers(values, pool);
      ghost var theirs := built.Blocks();
      assert pool.lent - theirs == lent && theirs <= pool.lent;
      if !result.Success? {
        built.Free(pool);
        assert pool.lent == built.Others(pool);
        return;
      }
      SameMaximum(view, built.View());
      BlockFree(pool, directory, directoryLog2);
      TakeOver(built);
      assert Blocks() == theirs;
    }

    /** `*set = built` */
    method TakeOver(built: RoaringBitmap)
      requires built != this && built.Stored()
      modifies this
      ensures View() == built.View() && Blocks() == built.Blocks() && Stored()
    {
      hide Separate, ContainerBlocks, Pow;
      values, containers := built.values, built.containers;
      cardinality, maximum := built.cardinality, built.maximum;
      directory, directoryLog2 := built.directory, built.directoryLog2;
    }

    /**
     * `arnm_roaring_values_result`: an empty set takes on `from`; it stays sparse exactly up to
     * SPARSE_MAX values.
     */
    method ValuesResult(from: seq<nat>, pool: Pool) returns (result: Result)
      requires Ready(pool) && Valid() && |containers| == 0 && values == []
      requires Ascending(from) && |from| <= 2 * SPARSE_MAX && forall v :: v in from ==> v <= UINT32_MAX
      modifies this, pool, pool.source
      ensures result.Success? <==> pool.refusals == old(pool.refusals)
      ensures Ready(pool) && Valid() && Others(pool) == old(Others(pool))
      ensures result.Success? ==> Model() == Elements(from)
      ensures result.Success? ==> (|containers| == 0 <==> |from| <= SPARSE_MAX)
    {
      hide Pool.Valid, SoundView, Content, Separate, ContainerBlocks, Pow;
      var count := |from|;
      if count == 0 {
        EmptyContent(View());
        NoElements(from);
        return Success;
      }
      if count > SPARSE_MAX {
        result := ValuesToContainers(from, pool);
        return;
      }
      var log2 := Log2ForBytes(count * 4);
      NoBlocks(containers);
      ghost var lent := pool.lent;
      var block;
      result, block := pool.AllocLog2(log2);
      if !result.Success? { return; }
      SparseSound(from);
      values, directory, directoryLog2 := from, block, log2;
      cardinality, maximum := count, from[count - 1];
      assert Blocks() == {Block(block, log2)};
    }

    /** Room in the block of a sparse set for one more value: it doubles when full. */
    method ReserveValues(pool: Pool) returns (result: Result)
      requires Ready(pool) && |containers| == 0 && |values| < SPARSE_MAX
      modifies this`directory, this`directoryLog2, pool, pool.source
      ensures result.Success? <==> pool.refusals == old(pool.refusals)
      ensures pool.Valid() && Blocks() <= pool.lent && Others(pool) == old(Others(pool))
      ensures result.Success? ==> directory != 0 && Tight((|values| + 1) * 4, directoryLog2)
      ensures !result.Success? ==> directory == old(directory) && directoryLog2 == old(directoryLog2)
    {
      hide Pool.Valid, ContainerBlocks, Tight, Pow;
      NoBlocks(containers);
      TightNext(|values|, 4, directoryLog2);
      var capacity := if directory != 0 then Pow(directoryLog2) / 4 else 0;
      if |values| == capacity {
        var log2 := if directory != 0 then directoryLog2 + 1 else FIRST_LOG2;
        if directory != 0 { SmallBlock(directoryLog2); }
        var block;
        result, block := pool.AllocLog2(log2);
        if !result.Success? { return; }
        if directory != 0 { BlockFree(pool, directory, directoryLog2); }
        directory, directoryLog2 := block, log2;
      }
      result := Success;
    }

    /** `sparse_add`: appended below the limit. */
    method SparseAdd(value: nat, pool: Pool) returns (result: Result)
      requires Ready(pool) && Valid() && |containers| == 0 && cardinality < SPARSE_MAX
      requires value <= UINT32_MAX && (cardinality > 0 ==> maximum < value)
      modifies this, pool, pool.source
      ensures result.Success? <==> pool.refusals == old(pool.refusals)
      ensures Ready(pool) && Valid() && Others(pool) == old(Others(pool))
      ensures result.Success? ==> Model() == old(Model()) + {value} && maximum == value
      ensures !result.Success? ==> View() == old(View())
    {
      hide Pool.Valid, SoundView, Content, Separate, ContainerBlocks, Pow;
      SparseCounted(View());
      SparseGrown(View(), value);
      result := ReserveValues(pool);
      if !result.Success? { return; }
      values := values + [value];
      cardinality, maximum := cardinality + 1, value;
    }

    /** A container with the new low part in it, its block grown or turned into a bitmap's. */
    method Extend(last: Container, low: nat, pool: Pool) returns (result: Result, out: Container)
      requires pool.Valid() && BlockOf(last) in pool.lent && Fits(last) && Sound(last) && KindByCount(last)
      requires low < LOWS && !Has(last, low) && forall x: nat :: x < LOWS && Has(last, x) ==> x < low
      modifies pool, pool.source
      ensures result.Success? <==> pool.refusals == old(pool.refusals)
      ensures pool.Valid()
      ensures !result.Success? ==> pool.lent == old(pool.lent)
      ensures result.Success? ==> out.key == last.key && Fits(out) && Sound(out) && KindByCount(out)
      ensures result.Success? ==> forall x: nat :: x < LOWS ==> (Has(out, x) <==> Has(last, x) || x == low)
      ensures result.Success? ==> pool.lent == old(pool.lent) - {BlockOf(last)} + {BlockOf(out)}
      ensures result.Success? ==> BlockOf(out) == BlockOf(last) || BlockOf(out) !in old(pool.lent)
    {
      hide Pool.Valid, HasBit;
      result, out := Success, last;
      if last.data.Bits? {
        var word := SetBit(last.data.words[low / 64], low % 64);
        var words := last.data.words[low / 64 := word];
        forall x: nat | x < LOWS ensures HasBit(words, x) <==> x == low || HasBit(last.data.words, x) {
          BitChanged(last.data.words, word, low, true, x);
        }
        out := last.(data := Bits(words), cardinality := last.cardinality + 1);
        BitmapExtended(last, low, out);
      } else if last.cardinality == ARRAY_MAX {
        result, out := ArrayToBitmap(last, low, pool);
        if !result.Success? { return; }
        out := out.(cardinality := last.cardinality + 1);
        BitmapExtended(last, low, out);
      } else {
        var room := last;
        if last.cardinality == Pow(last.log2) / 2 {
          SmallBlock(last.log2);
          result, room := ArrayGrow(last, pool);
          if !result.Success? { return; }
        }
        out := room.(data := Lows(last.data.lows + [low]), cardinality := last.cardinality + 1);
        LowsInRange(last);
        ArrayExtended(last, low, out);
      }
    }

    /** The new low part goes into the last container, which has its key. */
    method AddToLast(value: nat, pool: Pool) returns (result: Result)
      requires Ready(pool) && Valid() && |containers| > 0 && containers[|containers| - 1].key == KeyOf(value)
      requires maximum < value <= UINT32_MAX && cardinality < UINT32_MAX
      modifies this, pool, pool.source
      ensures result.Success? <==> pool.refusals == old(pool.refusals)
      ensures Ready(pool) && Valid() && Others(pool) == old(Others(pool))
      ensures result.Success? ==> Model() == old(Model()) + {value} && maximum == value
      ensures !result.Success? ==> View() == old(View())
    {
      hide Pool.Valid, SoundView, Content, Separate, ContainerBlocks, KeyOf, LowOf, Has, Sound, KindByCount, Pow;
      ghost var view, dir := View(), Block(directory, directoryLog2);
      SoundShape(view);
      BelowNewLow(view, value);
      JoinValue(value);
      var n := |containers| - 1;
      var c;
      LastBlock(containers, dir);
      result, c := Extend(containers[n], LowOf(value), pool);
      if !result.Success? { return; }
      BlocksReplaced(containers, c, dir);
      containers := containers[..n] + [c];
      cardinality, maximum := cardinality + 1, value;
      LastGrown(view, c, LowOf(value), View());
      OneAbove(view, View(), value);
    }

    /** The value opens a container of its own. */
    method AddNew(value: nat, pool: Pool) returns (result: Result)
      requires Ready(pool) && Valid() && (|containers| == 0 ==> values == [])
      requires |containers| > 0 ==> containers[|containers| - 1].key != KeyOf(value) && maximum < value
      requires value <= UINT32_MAX && cardinality < UINT32_MAX
      modifies this, pool, pool.source
      ensures result.Success? <==> pool.refusals == old(pool.refusals)
      ensures Ready(pool) && Valid() && Others(pool) == old(Others(pool))
      ensures result.Success? ==> maximum == value
      ensures Model() == if result.Success? then old(Model()) + {value} else old(Model())
    {
      hide Pool.Valid, SoundView, Content, Separate, ContainerBlocks, KeyOf, LowOf, Has, Pow;
      if |containers| > 0 { BelowNewLow(View(), value); }
      JoinValue(value);
      assert Open(KeyOf(value));
      var block;
      result, block := pool.AllocLog2(FIRST_LOG2);
      if !result.Success? { return; }
      var c := Container(KeyOf(value), 1, Lows([LowOf(value)]), block, FIRST_LOG2);
      OneValue(c, value);
      result := Emit(c, value, pool);
    }

    /**
     * `arnm_roaring_add`: in ascending order, the largest again being a success. The set of values
     * changes only on success, though a refused call may have changed its form.
     */
    method Add(value: nat, pool: Pool) returns (result: Result)
      requires Ready(pool) && Valid() && value <= UINT32_MAX
      modifies this, pool, pool.source
      ensures Ready(pool) && Valid() && Others(pool) == old(Others(pool))
      ensures old(cardinality) > 0 && value < old(maximum) ==> result.InvalidParam?
      ensures old(cardinality) == UINT32_MAX && value > old(maximum) ==> result.ResourceExhausted?
      ensures result.Success? <==>
                (old(cardinality) > 0 ==> value == old(maximum) || (value > old(maximum) && old(cardinality) < UINT32_MAX))
                && pool.refusals == old(pool.refusals)
      ensures result.Success? ==> Model() == old(Model()) + {value} && maximum == value
      ensures !result.Success? ==> Model() == old(Model())
      ensures old(cardinality) > 0 && value == old(maximum) ==> result.Success?
    {
      hide Pool.Valid, SoundView, Content, Separate, ContainerBlocks, KeyOf, LowOf, Pow;
      SoundShape(View());
      if |containers| > 0 { ContainersHold(View()); }
      if cardinality > 0 {
        if value < maximum { return InvalidParam; }
        if value == maximum {
          MaximumHeld(View());
          return Success;
        }
        if cardinality == UINT32_MAX { return ResourceExhausted; }
      }
      if |containers| == 0 {
        if cardinality < SPARSE_MAX {
          result := SparseAdd(value, pool);
          return;
        }
        SoundShape(View());
        SparseContent(View());
        result := SparseToContainers(pool);
        if !result.Success? { return; }
      }
      if containers[|containers| - 1].key == KeyOf(value) {
        result := AddToLast(value, pool);
      } else {
        result := AddNew(value, pool);
      }
    }
  }
}
