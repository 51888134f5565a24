// The branchless population counts: each fold adds neighbouring counts into fields twice as wide,
// and the multiplication adds the bytes up in the top one.
module PopFold {
  import opened Word64
  import opened WordBuffer

  function Pairs(x: bv64): bv64 { x - ((x >> 1) & 0x5555_5555_5555_5555) }
  function Nibbles(y: bv64): bv64 { (y & 0x3333_3333_3333_3333) + ((y >> 2) & 0x3333_3333_3333_3333) }
  function Bytes(z: bv64): bv64 { (z + (z >> 4)) & 0x0f0f_0f0f_0f0f_0f0f }

  function By8(w: bv64): bv64 { w * 0x101 }
  function By16(w: bv64): bv64 { w * 0x1_0001 }
  function By32(w: bv64): bv64 { w * 0x1_0000_0001 }
  function Low4(w: bv64): bv64 { w * 0x0101_0101 }
  function All8(w: bv64): bv64 { w * 0x0101_0101_0101_0101 }

  lemma SecondProduct(w: bv64)
    ensures By16(w * 0x101) == w * 0x0101_0101
  {
  }

  lemma ThirdProduct(w: bv64)
    ensures By32(w * 0x0101_0101) == w * 0x0101_0101_0101_0101
  {
  }

  lemma IsLow4(w: bv64)
    ensures By16(By8(w)) == Low4(w)
  {
    hide By16;
    SecondProduct(w);
  }

  lemma IsAll8(w: bv64)
    ensures By32(Low4(w)) == All8(w)
  {
    hide By32;
    ThirdProduct(w);
  }

  /** The multiplications of the two folds, factor by factor. */
  lemma OneMultiplication(w: bv64)
    ensures By16(By8(w)) == Low4(w) && By32(By16(By8(w))) == All8(w)
  {
    hide *;
    IsLow4(w);
    IsAll8(w);
  }

  function Top64(bytes: bv64): bv8 { ((bytes * 0x0101_0101_0101_0101) >> 56) as bv8 }

  /** The software branch of `arnm_popcountll`: three folds, one multiplication, one shift. */
  function PopCount64(bitmap: bv64): bv8 { Top64(Bytes(Nibbles(Pairs(bitmap)))) }

  function Pairs32(x: bv32): bv32 { x - ((x >> 1) & 0x5555_5555) }
  function Nibbles32(y: bv32): bv32 { (y & 0x3333_3333) + ((y >> 2) & 0x3333_3333) }
  function Bytes32(z: bv32): bv32 { (z + (z >> 4)) & 0x0f0f_0f0f }

  function Top32(bytes: bv32): bv8 { ((bytes * 0x0101_0101) >> 24) as bv8 }

  /** The software branch of `arnm_popcount`, in 32 bits throughout. */
  function PopCount32(bitmap: bv32): bv8 { Top32(Bytes32(Nibbles32(Pairs32(bitmap)))) }

  // ---------- counts of a stretch of bits, halves first ----------

  function One(w: bv64): bv8 { (w & 1) as bv8 }
  function Two(w: bv64): bv8 { (w & 3) as bv8 }
  function Four(w: bv64): bv8 { (w & 15) as bv8 }
  function Byte0(w: bv64): bv8 { (w & 255) as bv8 }
  function Byte1(w: bv64): bv8 { ((w >> 8) & 255) as bv8 }
  function Byte3(w: bv64): bv8 { ((w >> 24) & 255) as bv8 }
  function Byte5(w: bv64): bv8 { ((w >> 40) & 255) as bv8 }
  function Byte7(w: bv64): bv8 { (w >> 56) as bv8 }
  function Down2(w: bv64): bv64 { w >> 2 }
  function Down4(w: bv64): bv64 { w >> 4 }
  function Down8(w: bv64): bv64 { w >> 8 }
  function Down16(w: bv64): bv64 { w >> 16 }
  function Down32(w: bv64): bv64 { w >> 32 }
  function Plus(a: bv8, b: bv8): bv8 { a + b }

  function Count2(x: bv64): bv8 { Plus(One(Half(x)), One(x)) }
  function Count4(x: bv64): bv8 { Plus(Count2(Down2(x)), Count2(x)) }
  function Count8(x: bv64): bv8 { Plus(Count4(Down4(x)), Count4(x)) }
  function Count16(x: bv64): bv8 { Plus(Count8(Down8(x)), Count8(x)) }
  function Count32(x: bv64): bv8 { Plus(Count16(Down16(x)), Count16(x)) }
  function Count64(x: bv64): bv8 { Plus(Count32(Down32(x)), Count32(x)) }

  // ---------- the first fold: no field borrows from the next ----------

  lemma PairsEighth(x: bv64)
    ensures Down2(Pairs(x)) & 0xff == Pairs(Down2(x)) & 0xff && (Down2(Pairs(x)) >> 8) & 0xff == (Pairs(Down2(x)) >> 8) & 0xff
  {
  }

  lemma PairsSecond(x: bv64)
    ensures (Down2(Pairs(x)) >> 16) & 0xff == (Pairs(Down2(x)) >> 16) & 0xff
  {
  }

  lemma PairsThird(x: bv64)
    ensures (Down2(Pairs(x)) >> 24) & 0xff == (Pairs(Down2(x)) >> 24) & 0xff
  {
  }

  lemma PairsFourth(x: bv64)
    ensures (Down2(Pairs(x)) >> 32) & 0xff == (Pairs(Down2(x)) >> 32) & 0xff
  {
  }

  lemma PairsFifth(x: bv64)
    ensures (Down2(Pairs(x)) >> 40) & 0xff == (Pairs(Down2(x)) >> 40) & 0xff
  {
  }

  lemma PairsLast(x: bv64)
    ensures (Down2(Pairs(x)) >> 48) & 0xffff == (Pairs(Down2(x)) >> 48) & 0xffff
  {
  }

  lemma SamePieces(v: bv64, w: bv64)
    requires v & 0xff == w & 0xff && (v >> 8) & 0xff == (w >> 8) & 0xff
    requires (v >> 16) & 0xff == (w >> 16) & 0xff && (v >> 24) & 0xff == (w >> 24) & 0xff
    requires (v >> 32) & 0xff == (w >> 32) & 0xff && (v >> 40) & 0xff == (w >> 40) & 0xff
    requires (v >> 48) & 0xffff == (w >> 48) & 0xffff
    ensures v == w
  {
  }

  lemma PairsShift(x: bv64)
    ensures Down2(Pairs(x)) == Pairs(Down2(x))
  {
    hide Pairs, Down2;
    PairsEighth(x); PairsSecond(x); PairsThird(x); PairsFourth(x); PairsFifth(x); PairsLast(x);
    SamePieces(Down2(Pairs(x)), Pairs(Down2(x)));
  }

  lemma PairField(x: bv64)
    ensures Two(Pairs(x)) == Plus(One(Half(x)), One(x))
  {
  }

  // ---------- the second and third ----------

  lemma NibbleField(y: bv64)
    ensures Four(Nibbles(y)) == Plus(Two(Down2(y)), Two(y))
    ensures Down4(Nibbles(y)) == Nibbles(Down4(y)) && Small(Nibbles(y))
  {
  }

  predicate Small(z: bv64) { z & 0x8888_8888_8888_8888 == 0 }

  predicate Tiny(w: bv64) { w & 0xf0f0_f0f0_f0f0_f0f0 == 0 }

  lemma ByteField(z: bv64)
    requires Small(z)
    ensures Byte0(Bytes(z)) == Plus(Four(Down4(z)), Four(z)) && Down8(Bytes(z)) == Bytes(Down8(z)) && Tiny(Bytes(z))
  {
  }

  lemma DownFour(x: bv64)
    ensures Down4(x) == Down2(Down2(x))
  {
  }

  lemma DownEight(x: bv64)
    ensures Down8(x) == Down4(Down4(x))
  {
  }

  lemma DownSixteen(x: bv64)
    ensures Down16(x) == Down8(Down8(x))
  {
  }

  lemma DownThirtyTwo(x: bv64)
    ensures Down32(x) == Down16(Down16(x))
  {
  }

  lemma Downs(x: bv64)
    ensures Down4(x) == Down2(Down2(x)) && Down8(x) == Down4(Down4(x))
    ensures Down16(x) == Down8(Down8(x)) && Down32(x) == Down16(Down16(x))
  {
    hide *;
    DownFour(x); DownEight(x); DownSixteen(x); DownThirtyTwo(x);
  }

  /** The lowest byte after three folds is the count of the lowest eight bits. */
  lemma Folded(x: bv64)
    ensures var w := Bytes(Nibbles(Pairs(x)));
            Byte0(w) == Count8(x) && Down8(w) == Bytes(Nibbles(Pairs(Down8(x)))) && Tiny(w)
  {
    hide Pairs, Nibbles, Bytes, One, Two, Four, Byte0, Down2, Down4, Down8, Half, Plus, Small, Tiny;
    var p, n := Pairs(x), Nibbles(Pairs(x));
    Downs(x); Downs(p); Downs(n);
    ByteField(n) by { NibbleField(p); }
    NibbleField(p); NibbleField(Down4(p));
    PairField(x); PairField(Down2(x)); PairField(Down4(x)); PairField(Down2(Down4(x)));
    PairsShift(x); PairsShift(Down2(x)); PairsShift(Down4(x)); PairsShift(Down2(Down4(x)));
    Downs(Down4(x)); Downs(Down4(p));
  }

  // ---------- the multiplication ----------

  lemma FirstFactor(w: bv64)
    requires Tiny(w)
    ensures By8(w) & 0xe0e0_e0e0_e0e0_e0e0 == 0
    ensures Byte7(By8(w)) == Plus(Byte7(w), Byte0(w >> 48)) && Byte5(By8(w)) == Plus(Byte5(w), Byte0(w >> 32))
    ensures Byte3(By8(w)) == Plus(Byte3(w), Byte0(w >> 16)) && Byte1(By8(w)) == Plus(Byte1(w), Byte0(w))
  {
  }

  lemma SecondFactor(u: bv64)
    requires u & 0xe0e0_e0e0_e0e0_e0e0 == 0
    ensures By16(u) & 0xc0c0_c0c0_c0c0_c0c0 == 0
    ensures Byte7(By16(u)) == Plus(Byte7(u), Byte5(u)) && Byte3(By16(u)) == Plus(Byte3(u), Byte1(u))
  {
  }

  lemma ThirdFactor(v: bv64)
    requires v & 0xc0c0_c0c0_c0c0_c0c0 == 0
    ensures Byte7(By32(v)) == Plus(Byte7(v), Byte3(v))
  {
  }

  lemma ByteAt(w: bv64)
    ensures Byte1(w) == Byte0(Down8(w)) && Byte0(w >> 16) == Byte0(Down16(w)) && Byte3(w) == Byte0(Down8(Down16(w)))
    ensures Byte0(w >> 32) == Byte0(Down32(w)) && Byte5(w) == Byte0(Down8(Down32(w)))
    ensures Byte0(w >> 48) == Byte0(Down16(Down32(w))) && Byte7(w) == Byte0(Down8(Down16(Down32(w))))
  {
  }

  ghost predicate FoldOf(w: bv64, x: bv64) { Byte0(w) == Count8(x) && Tiny(w) && w == Bytes(Nibbles(Pairs(x))) }

  lemma FoldDown(x: bv64, w: bv64)
    requires FoldOf(w, x)
    ensures FoldOf(Down8(w), Down8(x)) && FoldOf(Down16(w), Down16(x)) && FoldOf(Down32(w), Down32(x))
  {
    hide Pairs, Nibbles, Bytes, Byte0, Count8, Down8, Down16, Down32, Tiny;
    FoldStep(x, w);
    FoldStep(Down8(x), Down8(w));
    Downs(x); Downs(w);
    var x2, w2 := Down16(x), Down16(w);
    FoldStep(x2, w2);
    FoldStep(Down8(x2), Down8(w2));
    Downs(x2); Downs(w2);
  }

  lemma FoldStep(x: bv64, w: bv64)
    requires FoldOf(w, x)
    ensures FoldOf(Down8(w), Down8(x))
  {
    hide Pairs, Nibbles, Bytes, Byte0, Count8, Down8, Tiny;
    Folded(x);
    Folded(Down8(x));
  }

  /** The fold is the count, halves first. */
  lemma FoldCounts(x: bv64)
    ensures Byte7(By32(By16(By8(Bytes(Nibbles(Pairs(x))))))) == Count64(x)
  {
    hide Pairs, Nibbles, Bytes, Byte0, Byte1, Byte3, Byte5, Byte7, Count8, Down8, Down16, Down32, Plus, By8, By16, By32, Tiny;
    var w := Bytes(Nibbles(Pairs(x)));
    Folded(x);
    assert FoldOf(w, x);
    FoldDown(x, w);
    FoldDown(Down16(x), Down16(w));
    FoldDown(Down32(x), Down32(w));
    FoldDown(Down16(Down32(x)), Down16(Down32(w)));
    FirstFactor(w);
    SecondFactor(By8(w));
    ThirdFactor(By16(By8(w)));
    ByteAt(w);
  }

  // ---------- the count is the size of BitSet ----------

  /** The set bits among the lowest `n`. */
  ghost function LowBits(x: bv64, n: nat): set<nat> { set k: nat | k < n && Bit(x, k) }

  ghost predicate Counts(c: bv8, x: bv64, n: nat) { c as nat == |LowBits(x, n)| <= n }

  lemma BitDown(x: bv64, k: nat)
    ensures Bit(Down2(x), k) <==> Bit(x, 2 + k)
  {
    assert Down2(x) == Half(Half(x));
    hide Down2, Half;
    assert Bit(x, 2 + k) <==> Bit(Half(x), 1 + k);
    assert Bit(Half(x), 1 + k) <==> Bit(Half(Half(x)), k);
  }

  lemma BitDowns(x: bv64, k: nat)
    ensures Bit(Down2(x), k) <==> Bit(x, 2 + k)
    ensures Bit(Down4(x), k) <==> Bit(x, 4 + k)
    ensures Bit(Down8(x), k) <==> Bit(x, 8 + k)
    ensures Bit(Down16(x), k) <==> Bit(x, 16 + k)
    ensures Bit(Down32(x), k) <==> Bit(x, 32 + k)
  {
    hide Bit, Down2, Down4, Down8, Down16, Down32;
    BitDown(x, k);
    BitDown4(x, k);
    BitDown8(x, k);
    DownSixteen(x);
    BitDown8(Down8(x), k); BitDown8(x, 8 + k);
    DownThirtyTwo(x); DownSixteen(Down16(x));
    BitDown8(Down8(Down16(x)), k); BitDown8(Down16(x), 8 + k);
    BitDown8(Down8(x), 16 + k); BitDown8(x, 24 + k);
  }

  lemma BitDown4(x: bv64, k: nat)
    ensures Bit(Down4(x), k) <==> Bit(x, 4 + k)
  {
    hide Bit, Down2, Down4;
    DownFour(x);
    BitDown(Down2(x), k); BitDown(x, 2 + k);
  }

  lemma BitDown8(x: bv64, k: nat)
    ensures Bit(Down8(x), k) <==> Bit(x, 8 + k)
  {
    hide Bit, Down4, Down8;
    DownEight(x);
    BitDown4(Down4(x), k); BitDown4(x, 4 + k);
  }

  lemma SmallSum(a: bv8, b: bv8)
    requires a <= 0x20 && b <= 0x20
    ensures (a + b) as nat == a as nat + b as nat
  {
  }

  lemma AtMost(a: bv8)
    requires a as nat <= 32
    ensures a <= 0x20
  {
  }

  lemma PlusNat(a: bv8, b: bv8)
    requires a as nat <= 32 && b as nat <= 32
    ensures Plus(a, b) as nat == a as nat + b as nat
  {
    AtMost(a); AtMost(b);
    SmallSum(a, b);
  }

  ghost function HighBits(x: bv64, n: nat): set<nat> { set k: nat | n <= k < 2 * n && Bit(x, k) }

  lemma HighShifted(y: bv64, x: bv64, n: nat)
    requires forall k: nat :: Bit(y, k) <==> Bit(x, n + k)
    ensures |HighBits(x, n)| == |LowBits(y, n)|
  {
    hide Bit;
    forall k: nat ensures k in HighBits(x, n) <==> k >= n && k - n in LowBits(y, n) {
      if k >= n { assert Bit(y, k - n) <==> Bit(x, n + (k - n)); }
    }
    ShiftedSize(LowBits(y, n), n, HighBits(x, n));
  }

  lemma HalvesSize(y: bv64, x: bv64, n: nat)
    requires forall k: nat :: Bit(y, k) <==> Bit(x, n + k)
    ensures |LowBits(x, 2 * n)| == |LowBits(x, n)| + |LowBits(y, n)|
  {
    HighShifted(y, x, n);
    BitsParted(x, n);
  }

  lemma BitsParted(x: bv64, n: nat)
    ensures |LowBits(x, 2 * n)| == |LowBits(x, n)| + |HighBits(x, n)|
  {
    hide Bit;
    DisjointSize(LowBits(x, n), HighBits(x, n), LowBits(x, 2 * n));
  }

  /** The counts of two halves are the count of the whole. */
  lemma HalvesAdd(c: bv8, y: bv64, d: bv8, x: bv64, n: nat)
    requires Counts(c, y, n) && Counts(d, x, n) && n <= 32 && forall k: nat :: Bit(y, k) <==> Bit(x, n + k)
    ensures Counts(Plus(c, d), x, 2 * n)
  {
    hide Bit, Plus, LowBits;
    HalvesSize(y, x, n);
    PlusNat(c, d);
  }

  lemma OneCounts(x: bv64)
    ensures Counts(One(x), x, 1)
  {
    if Odd(x) {
      assert LowBits(x, 1) == {0};
      assert One(x) == 1;
    } else {
      assert LowBits(x, 1) == {};
      assert One(x) == 0;
    }
  }

  lemma TwoCounts(x: bv64)
    ensures Counts(Count2(x), x, 2)
  {
    hide One, Plus, Counts, Half;
    OneCounts(x); OneCounts(Half(x));
    HalvesAdd(One(Half(x)), Half(x), One(x), x, 1);
  }

  lemma FourCounts(x: bv64)
    ensures Counts(Count4(x), x, 4)
  {
    hide Count2, Plus, Counts, Down2, Down4, Down8, Down16, Down32, Bit;
    TwoCounts(x); TwoCounts(Down2(x));
    forall k: nat { BitDowns(x, k); }
    HalvesAdd(Count2(Down2(x)), Down2(x), Count2(x), x, 2);
  }

  lemma EightCounts(x: bv64)
    ensures Counts(Count8(x), x, 8)
  {
    hide Count4, Plus, Counts, Down2, Down4, Down8, Down16, Down32, Bit;
    FourCounts(x); FourCounts(Down4(x));
    forall k: nat { BitDowns(x, k); }
    HalvesAdd(Count4(Down4(x)), Down4(x), Count4(x), x, 4);
  }

  lemma SixteenCounts(x: bv64)
    ensures Counts(Count16(x), x, 16)
  {
    hide Count8, Plus, Counts, Down2, Down4, Down8, Down16, Down32, Bit;
    EightCounts(x); EightCounts(Down8(x));
    forall k: nat { BitDowns(x, k); }
    HalvesAdd(Count8(Down8(x)), Down8(x), Count8(x), x, 8);
  }

  lemma ThirtyTwoCounts(x: bv64)
    ensures Counts(Count32(x), x, 32)
  {
    hide Count16, Plus, Counts, Down2, Down4, Down8, Down16, Down32, Bit;
    SixteenCounts(x); SixteenCounts(Down16(x));
    forall k: nat { BitDowns(x, k); }
    HalvesAdd(Count16(Down16(x)), Down16(x), Count16(x), x, 16);
  }

  lemma SixtyFourCounts(x: bv64)
    ensures Counts(Count64(x), x, 64)
  {
    hide Count32, Plus, Counts, Down2, Down4, Down8, Down16, Down32, Bit;
    ThirtyTwoCounts(x); ThirtyTwoCounts(Down32(x));
    forall k: nat { BitDowns(x, k); }
    HalvesAdd(Count32(Down32(x)), Down32(x), Count32(x), x, 32);
  }

  lemma TopByte(w: bv64)
    ensures Byte7(w * 0x0101_0101_0101_0101) == Top64(w)
  {
  }

  lemma TopOfAll8(w: bv64)
    ensures Byte7(All8(w)) == Top64(w)
  {
    hide Byte7, Top64;
    TopByte(w);
  }

  lemma FoldCounts64(x: bv64)
    ensures PopCount64(x) == Count64(x)
  {
    hide Pairs, Nibbles, Bytes, Byte7, By8, By16, By32, All8, Low4, Top64, Count64;
    FoldCounts(x);
    OneMultiplication(Bytes(Nibbles(Pairs(x))));
    TopOfAll8(Bytes(Nibbles(Pairs(x))));
  }

  /** The source's expression for 64 bits is the size of `BitSet`. */
  lemma FoldIsPopCount64(x: bv64)
    ensures PopCount64(x) as nat == |BitSet(x)|
  {
    hide Count64, Counts, Bit, PopCount64;
    FoldCounts64(x);
    SixtyFourCounts(x);
    Counted(Count64(x), x, 64);
    assert LowBits(x, 64) == BitSet(x);
  }

  // ---------- the fold of 32 bits ----------

  function Wide(x: bv32): bv64 { x as bv64 }
  function By8Of32(w: bv32): bv32 { w * 0x101 }
  function By16Of32(w: bv32): bv32 { w * 0x1_0001 }
  function Narrow0(w: bv32): bv8 { (w & 255) as bv8 }
  function Narrow1(w: bv32): bv8 { ((w >> 8) & 255) as bv8 }
  function Narrow2(w: bv32): bv8 { ((w >> 16) & 255) as bv8 }
  function Narrow3(w: bv32): bv8 { (w >> 24) as bv8 }

  predicate Tiny32(w: bv32) { w & 0xf0f0_f0f0 == 0 }
  predicate Small32(w: bv32) { w & 0xe0e0_e0e0 == 0 }

  lemma WidePairs(x: bv32)
    ensures Pairs(Wide(x)) == Wide(Pairs32(x))
  {
  }

  lemma WideNibbles(y: bv32)
    ensures Nibbles(Wide(y)) == Wide(Nibbles32(y)) && Nibbles32(y) & 0x8888_8888 == 0
  {
  }

  lemma WideBytes(z: bv32)
    requires z & 0x8888_8888 == 0
    ensures Bytes(Wide(z)) == Wide(Bytes32(z)) && Tiny32(Bytes32(z))
  {
  }

  lemma WideFields(w: bv32)
    ensures Narrow0(w) == Byte0(Wide(w)) && Narrow1(w) == Byte1(Wide(w))
    ensures Narrow2(w) == Byte0(Down16(Wide(w))) && Narrow3(w) == Byte3(Wide(w))
  {
  }

  lemma FirstFactor32(w: bv32)
    requires Tiny32(w)
    ensures Small32(By8Of32(w))
    ensures Narrow3(By8Of32(w)) == Plus(Narrow3(w), Narrow2(w)) && Narrow1(By8Of32(w)) == Plus(Narrow1(w), Narrow0(w))
  {
  }

  lemma SecondFactor32(u: bv32)
    requires Small32(u)
    ensures Narrow3(By16Of32(u)) == Plus(Narrow3(u), Narrow1(u))
  {
  }

  lemma Product32(w: bv32)
    ensures By16Of32(w * 0x101) == w * 0x0101_0101
    ensures Narrow3(w * 0x0101_0101) == Top32(w)
  {
  }

  lemma TopOf32(w: bv32)
    ensures Narrow3(By16Of32(By8Of32(w))) == Top32(w)
  {
    hide By16Of32, Narrow3, Top32;
    Product32(w);
  }

  lemma WideFold(x: bv32)
    ensures var w := Bytes32(Nibbles32(Pairs32(x)));
            Wide(w) == Bytes(Nibbles(Pairs(Wide(x)))) && Tiny32(w)
  {
    hide *;
    WidePairs(x);
    WideNibbles(Pairs32(x));
    WideBytes(Nibbles32(Pairs32(x)));
  }

  /** Each byte after the folds is the count of the byte it stands over. */
  lemma FoldFields(x: bv64)
    ensures var w := Bytes(Nibbles(Pairs(x)));
            Byte0(w) == Count8(x) && Byte1(w) == Count8(Down8(x))
            && Byte0(Down16(w)) == Count8(Down16(x)) && Byte3(w) == Count8(Down8(Down16(x)))
  {
    hide Pairs, Nibbles, Bytes, Byte0, Byte1, Byte3, Count8, Down8, Down16, Down32, Tiny;
    var w := Bytes(Nibbles(Pairs(x)));
    Folded(x);
    assert FoldOf(w, x);
    FoldDown(x, w);
    FoldDown(Down16(x), Down16(w));
    ByteAt(w);
  }

  lemma FoldCounts32(x: bv32)
    ensures PopCount32(x) == Count32(Wide(x))
  {
    hide Pairs, Nibbles, Bytes, Byte0, Byte1, Byte3, Count8, Down8, Down16, Plus, Wide, Top32, Pairs32, Nibbles32,
      Bytes32, By8Of32, By16Of32, Narrow0, Narrow1, Narrow2, Narrow3, Tiny32, Small32;
    var w := Bytes32(Nibbles32(Pairs32(x)));
    WideFold(x);
    TopOf32(w);
    FirstFactor32(w);
    SecondFactor32(By8Of32(w));
    WideFields(w);
    FoldFields(Wide(x));
  }

  /** The source's expression for 32 bits is the size of `BitSet` of the value widened. */
  lemma FoldIsPopCount32(x: bv32)
    ensures PopCount32(x) as nat == |BitSet(Wide(x))|
  {
    hide Count32, Counts, Bit, PopCount32, Wide;
    FoldCounts32(x);
    Widened(x);
    ThirtyTwoCounts(Wide(x));
    Counted(Count32(Wide(x)), Wide(x), 32);
    LowHalf(Wide(x));
  }

  lemma Widened(x: bv32)
    ensures Wide(x) <= 0xffff_ffff
  {
  }

  lemma LowHalf(x: bv64)
    requires x <= 0xffff_ffff
    ensures LowBits(x, 32) == BitSet(x)
  {
    hide Bit;
    forall k: nat | k >= 32 ensures !Bit(x, k) { HighClear(x, k); }
  }

  lemma Counted(c: bv8, x: bv64, n: nat)
    requires Counts(c, x, n)
    ensures c as nat == |LowBits(x, n)|
  {
  }

  lemma HighClear(x: bv64, k: nat)
    requires x <= 0xffff_ffff && k >= 32
    ensures !Bit(x, k)
  {
    assert Down32(x) == 0;
    hide Bit, Down2, Down4, Down8, Down16, Down32;
    BitDowns(x, k - 32);
    BitZero(k - 32);
  }
}
