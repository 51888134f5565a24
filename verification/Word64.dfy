// The 64 bit words a bitmap container is made of.
//
// A word is a bv64. What a client needs to know of one is which of its bits are set, so every
// machine operation the containers use is a method here whose contract speaks of `Bit` only. The
// lemmas above the methods tie those contracts to the bit-vector operations themselves.
module Word64 {

  const ONES: bv64 := 0xffff_ffff_ffff_ffff
  const TOP: bv64 := 0x8000_0000_0000_0000

  function Half(w: bv64): bv64 { w >> 1 }
  function Double(w: bv64): bv64 { w << 1 }
  function Both(v: bv64, w: bv64): bv64 { v & w }
  function Either(v: bv64, w: bv64): bv64 { v | w }
  function Without(v: bv64, w: bv64): bv64 { v & !w }
  function Pred(w: bv64): bv64 { w - 1 }
  predicate Odd(w: bv64) { w & 1 == 1 }

  /** `w << n`, one place at a time. */
  function Shl(w: bv64, n: nat): bv64 { if n == 0 then w else Double(Shl(w, n - 1)) }

  /** `w >> n`, one place at a time. */
  function Shr(w: bv64, n: nat): bv64 { if n == 0 then w else Shr(Half(w), n - 1) }

  /** `1ull << k`. */
  function Mask(k: nat): bv64 { Shl(1, k) }

  /** Is bit `k` of `w` set: `(w >> k) & 1`. */
  predicate Bit(w: bv64, k: nat) { if k == 0 then Odd(w) else Bit(Half(w), k - 1) }

  /** The positions of the set bits of `w`. */
  ghost function BitSet(w: bv64): set<nat> { set k: nat | k < 64 && Bit(w, k) }

  /** Exactly one bit of `m` is set. */
  predicate Single(m: bv64) { m != 0 && m & (m - 1) == 0 }

  // ---------- bit-vector facts, no recursion in sight ----------

  lemma HalfBoth(v: bv64, w: bv64)
    ensures Half(Both(v, w)) == Both(Half(v), Half(w))
  {}

  lemma OddBoth(v: bv64, w: bv64)
    ensures Odd(Both(v, w)) <==> Odd(v) && Odd(w)
  {}

  lemma HalfEither(v: bv64, w: bv64)
    ensures Half(Either(v, w)) == Either(Half(v), Half(w))
  {}

  lemma OddEither(v: bv64, w: bv64)
    ensures Odd(Either(v, w)) <==> Odd(v) || Odd(w)
  {}

  lemma HalfWithout(v: bv64, w: bv64)
    ensures Half(Without(v, w)) == Without(Half(v), Half(w))
  {}

  lemma OddWithout(v: bv64, w: bv64)
    ensures Odd(Without(v, w)) <==> Odd(v) && !Odd(w)
  {}

  lemma BvZero()
    ensures Half(0) == 0 && Double(0) == 0 && !Odd(0)
  {}

  lemma BvOne()
    ensures Half(1) == 0 && Odd(1) && Half(TOP) == 0x4000_0000_0000_0000 && Odd(ONES)
  {}

  /** Doubling drops the top bit, so halving afterwards gives the word without it. */
  lemma BvUpDown(w: bv64)
    ensures Half(Double(w)) == Without(w, TOP) && !Odd(Double(w))
  {}

  /** An even word comes back from being halved. */
  lemma BvDownUp(w: bv64)
    ensures !Odd(w) ==> Double(Half(w)) == w
    ensures w == 0 <==> Half(w) == 0 && !Odd(w)
  {}

  // ---------- the bits of combined words ----------

  lemma {:induction false} BitBoth(v: bv64, w: bv64, k: nat)
    ensures Bit(Both(v, w), k) <==> Bit(v, k) && Bit(w, k)
    decreases k
  {
    hide Both, Half, Odd;
    HalfBoth(v, w);
    OddBoth(v, w);
    if k > 0 { BitBoth(Half(v), Half(w), k - 1); }
  }

  lemma {:induction false} BitEither(v: bv64, w: bv64, k: nat)
    ensures Bit(Either(v, w), k) <==> Bit(v, k) || Bit(w, k)
    decreases k
  {
    hide Either, Half, Odd;
    HalfEither(v, w);
    OddEither(v, w);
    if k > 0 { BitEither(Half(v), Half(w), k - 1); }
  }

  lemma {:induction false} BitWithout(v: bv64, w: bv64, k: nat)
    ensures Bit(Without(v, w), k) <==> Bit(v, k) && !Bit(w, k)
    decreases k
  {
    hide Without, Half, Odd;
    HalfWithout(v, w);
    OddWithout(v, w);
    if k > 0 { BitWithout(Half(v), Half(w), k - 1); }
  }

  lemma {:induction false} BitZero(k: nat)
    ensures !Bit(0, k)
  {
    hide Half, Odd;
    BvZero();
    if k > 0 { BitZero(k - 1); }
  }

  lemma {:induction false} BitShr(w: bv64, n: nat, k: nat)
    ensures Bit(Shr(w, n), k) <==> Bit(w, n + k)
    decreases n
  {
    hide Half, Odd;
    if n > 0 { BitShr(Half(w), n - 1, k); }
  }

  // ---------- masks ----------

  function UpEight(w: bv64): bv64 { w << 8 }
  function DownEight(w: bv64): bv64 { w >> 8 }

  lemma BvEightDoubles(w: bv64)
    ensures Double(Double(Double(Double(Double(Double(Double(Double(w)))))))) == UpEight(w)
    ensures Half(Half(Half(Half(Half(Half(Half(Half(w)))))))) == DownEight(w)
  {}

  lemma ShlEight(w: bv64, n: nat)
    ensures Shl(w, n + 8) == UpEight(Shl(w, n))
  {
    hide Double, UpEight;
    assert Shl(w, n + 2) == Double(Double(Shl(w, n)));
    assert Shl(w, n + 4) == Double(Double(Shl(w, n + 2)));
    assert Shl(w, n + 6) == Double(Double(Shl(w, n + 4)));
    assert Shl(w, n + 8) == Double(Double(Shl(w, n + 6)));
    BvEightDoubles(Shl(w, n));
  }

  lemma ShrEight(w: bv64, n: nat)
    ensures Shr(w, n + 8) == Shr(DownEight(w), n)
  {
    hide Half, DownEight;
    assert Shr(w, n + 8) == Shr(Half(Half(w)), n + 6);
    var w4 := Half(Half(Half(Half(w))));
    assert Shr(Half(Half(w)), n + 6) == Shr(w4, n + 4);
    assert Shr(w4, n + 4) == Shr(Half(Half(w4)), n + 2);
    BvEightDoubles(w);
  }

  lemma Mask63()
    ensures Mask(63) == TOP
  {
    hide Shl;
    SevenDoubles(1, 7);
    ShlEight(1, 7); ShlEight(1, 15); ShlEight(1, 23); ShlEight(1, 31);
    ShlEight(1, 39); ShlEight(1, 47); ShlEight(1, 55);
  }

  lemma SevenDoubles(w: bv64, n: nat)
    requires w == 1 && n == 7
    ensures Shl(w, n) == 0x80
  {
    assert Shl(w, n - 6) == Double(w);
    assert Shl(w, n - 4) == Double(Double(Shl(w, n - 6)));
    assert Shl(w, n - 2) == Double(Double(Shl(w, n - 4)));
  }

  lemma {:induction false} MaskNotTop(j: nat)
    requires j < 63
    ensures Mask(j) != TOP
  {
    if Mask(j) == TOP {
      BvOne();
      assert Mask(j + 1) == 0;
      MaskStaysZero(j + 1, 63);
      Mask63();
    }
  }

  lemma {:induction false} MaskStaysZero(j: nat, k: nat)
    requires j <= k && Mask(j) == 0
    ensures Mask(k) == 0
    decreases k
  {
    hide Double;
    BvZero();
    if j < k { MaskStaysZero(j, k - 1); }
  }

  lemma BvDoubleSingle(m: bv64)
    requires Single(m) && m != TOP
    ensures Single(Double(m)) && Half(Double(m)) == m && !Odd(Double(m)) && m < Double(m)
  {}

  lemma {:induction false} MaskSingle(k: nat)
    requires k < 64
    ensures Single(Mask(k))
  {
    if k > 0 {
      MaskSingle(k - 1);
      MaskNotTop(k - 1);
      BvDoubleSingle(Mask(k - 1));
    }
  }

  lemma {:induction false} BitMask(j: nat, k: nat)
    requires j < 64
    ensures Bit(Mask(j), k) <==> j == k
  {
    hide Half, Odd, Double, Single;
    if j == 0 {
      BvOne();
      if k > 0 { BitZero(k - 1); }
    } else {
      MaskSingle(j - 1);
      MaskNotTop(j - 1);
      BvDoubleSingle(Mask(j - 1));
      if k > 0 { BitMask(j - 1, k - 1); }
    }
  }

  lemma {:induction false} BitShl(w: bv64, n: nat, k: nat)
    requires k < 64
    ensures Bit(Shl(w, n), k) <==> n <= k && Bit(w, k - n)
    decreases n
  {
    hide Half, Odd, Double, Without;
    if n > 0 {
      var x := Shl(w, n - 1);
      BvUpDown(x);
      if k > 0 {
        BitShl(w, n - 1, k - 1);
        BitWithout(x, TOP, k - 1);
        Mask63();
        BitMask(63, k - 1);
      }
    }
  }

  lemma BvEightDowns(w: bv64)
    ensures DownEight(DownEight(DownEight(DownEight(DownEight(DownEight(DownEight(DownEight(w)))))))) == 0
  {}

  lemma ShrWidth(w: bv64)
    ensures Shr(w, 64) == 0
  {
    hide Shr, DownEight;
    var w1 := DownEight(w); var w2 := DownEight(w1); var w3 := DownEight(w2); var w4 := DownEight(w3);
    var w5 := DownEight(w4); var w6 := DownEight(w5); var w7 := DownEight(w6); var w8 := DownEight(w7);
    ShrEight(w, 56); ShrEight(w1, 48); ShrEight(w2, 40); ShrEight(w3, 32);
    ShrEight(w4, 24); ShrEight(w5, 16); ShrEight(w6, 8); ShrEight(w7, 0);
    BvEightDowns(w);
    ShrNone(w8);
  }

  lemma ShrNone(w: bv64)
    ensures Shr(w, 0) == w
  {}

  lemma BitBeyond(w: bv64, k: nat)
    requires k >= 64
    ensures !Bit(w, k)
  {
    hide Shr, Bit;
    ShrWidth(w);
    BitShr(w, 64, k - 64);
    BitZero(k - 64);
  }

  lemma BvOnes(m: bv64)
    ensures Either(ONES, m) == ONES
  {}

  lemma BitOnes(k: nat)
    requires k < 64
    ensures Bit(ONES, k)
  {
    hide Either;
    BvOnes(Mask(k));
    BitEither(ONES, Mask(k), k);
    BitMask(k, k);
  }

  /** A word with no bit set below `n` is what its upper part was shifted from. */
  lemma {:induction false} LowClear(w: bv64, n: nat)
    requires forall k: nat | k < n :: !Bit(w, k)
    ensures Shl(Shr(w, n), n) == w
    decreases n
  {
    hide Half, Odd, Double;
    if n > 0 {
      assert !Bit(w, 0);
      BvDownUp(w);
      forall k: nat | k < n - 1 ensures !Bit(Half(w), k) { assert !Bit(w, k + 1); }
      LowClear(Half(w), n - 1);
    }
  }

  lemma {:induction false} ShlZero(n: nat)
    ensures Shl(0, n) == 0
  {
    hide Double;
    BvZero();
    if n > 0 { ShlZero(n - 1); }
  }

  lemma NoBitIsZero(w: bv64)
    requires forall k: nat | k < 64 :: !Bit(w, k)
    ensures w == 0
  {
    hide Shl, Shr;
    LowClear(w, 64);
    ShrWidth(w);
    ShlZero(64);
  }

  lemma BvDropOdd(w: bv64)
    ensures Odd(w) ==> Both(w, Pred(w)) == Double(Half(w))
    ensures Half(Double(Half(w))) == Half(w) && !Odd(Double(Half(w)))
  {}

  lemma BvDropEven(w: bv64)
    requires !Odd(w)
    ensures Half(Both(w, Pred(w))) == Both(Half(w), Pred(Half(w)))
  {
    assert w != 0 ==> Half(Pred(w)) == Pred(Half(w));
  }

  lemma BvEvenBoth(v: bv64, w: bv64)
    ensures !Odd(v) ==> !Odd(Both(v, w))
  {}

  /** `w & (w - 1)` is `w` without its lowest bit. */
  lemma {:induction false} BitDropLowest(w: bv64, n: nat, k: nat)
    requires Bit(w, n) && forall j: nat | j < n :: !Bit(w, j)
    ensures Bit(Both(w, Pred(w)), k) <==> Bit(w, k) && k != n
    decreases n
  {
    hide Half, Odd, Double, Both, Pred;
    BvDropOdd(w);
    BvEvenBoth(w, Pred(w));
    if n > 0 {
      assert !Bit(w, 0);
      BvDropEven(w);
      forall j: nat | j < n - 1 ensures !Bit(Half(w), j) { assert !Bit(w, j + 1); }
      if k > 0 { BitDropLowest(Half(w), n - 1, k - 1); }
    }
  }

  // ---------- the machine operations ----------

  /** `v & w` */
  method And(v: bv64, w: bv64) returns (r: bv64)
    ensures forall k: nat | k < 64 :: Bit(r, k) <==> Bit(v, k) && Bit(w, k)
  {
    hide Both;
    r := Both(v, w);
    forall k: nat | k < 64 ensures Bit(r, k) <==> Bit(v, k) && Bit(w, k) { BitBoth(v, w, k); }
  }

  /** `v | w` */
  method Or(v: bv64, w: bv64) returns (r: bv64)
    ensures forall k: nat | k < 64 :: Bit(r, k) <==> Bit(v, k) || Bit(w, k)
  {
    hide Either;
    r := Either(v, w);
    forall k: nat | k < 64 ensures Bit(r, k) <==> Bit(v, k) || Bit(w, k) { BitEither(v, w, k); }
  }

  /** `v & ~w` */
  method AndNot(v: bv64, w: bv64) returns (r: bv64)
    ensures forall k: nat | k < 64 :: Bit(r, k) <==> Bit(v, k) && !Bit(w, k)
  {
    hide Without;
    r := Without(v, w);
    forall k: nat | k < 64 ensures Bit(r, k) <==> Bit(v, k) && !Bit(w, k) { BitWithout(v, w, k); }
  }

  /** `w | (1ull << j)` */
  method SetBit(w: bv64, j: nat) returns (r: bv64)
    requires j < 64
    ensures forall k: nat | k < 64 :: Bit(r, k) <==> Bit(w, k) || k == j
  {
    hide Mask, Shl;
    r := Or(w, Mask(j));
    forall k: nat | k < 64 ensures Bit(Mask(j), k) <==> k == j { BitMask(j, k); }
  }

  /** `w & ~(1ull << j)` */
  method ClearBit(w: bv64, j: nat) returns (r: bv64)
    requires j < 64
    ensures forall k: nat | k < 64 :: Bit(r, k) <==> Bit(w, k) && k != j
  {
    hide Mask, Shl;
    r := AndNot(w, Mask(j));
    forall k: nat | k < 64 ensures Bit(Mask(j), k) <==> k == j { BitMask(j, k); }
  }

  /** `(w >> k) & 1u` */
  method TestBit(w: bv64, k: nat) returns (b: bool)
    requires k < 64
    ensures b == Bit(w, k)
  {
    hide Half, Odd;
    b := Odd(Shr(w, k));
    BitShr(w, k, 0);
  }

  /** `w & (~0ull << low)` */
  method KeepFrom(w: bv64, low: nat) returns (r: bv64)
    requires low < 64
    ensures forall k: nat | k < 64 :: Bit(r, k) <==> Bit(w, k) && low <= k
  {
    hide Shl;
    r := And(w, Shl(ONES, low));
    forall k: nat | k < 64 ensures Bit(Shl(ONES, low), k) <==> low <= k {
      BitShl(ONES, low, k);
      if low <= k { BitOnes(k - low); }
    }
  }

  /** `w & (~0ull >> (63 - high))` */
  method KeepUpTo(w: bv64, high: nat) returns (r: bv64)
    requires high < 64
    ensures forall k: nat | k < 64 :: Bit(r, k) <==> Bit(w, k) && k <= high
  {
    hide Shr;
    var edge := Shr(ONES, 63 - high);
    r := And(w, edge);
    forall k: nat | k < 64 ensures Bit(edge, k) <==> k <= high {
      BitShr(ONES, 63 - high, k);
      if k <= high { BitOnes(63 - high + k); } else { BitBeyond(ONES, 63 - high + k); }
    }
  }

  /** `arnm_ctzll`: `k` is the least element of `BitSet(w)`. */
  method Ctz(w: bv64) returns (k: nat)
    requires w != 0
    ensures k < 64 && Bit(w, k) && forall j: nat | j < k :: !Bit(w, j)
  {
    k := 0;
    while k < 64
      invariant k <= 64 && forall j: nat | j < k :: !Bit(w, j)
    {
      var set_ := TestBit(w, k);
      if set_ { return; }
      k := k + 1;
    }
    NoBitIsZero(w);
  }

  /** `63 - arnm_clzll`: `k` is the greatest element of `BitSet(w)`. */
  method Top(w: bv64) returns (k: nat)
    requires w != 0
    ensures k < 64 && Bit(w, k) && forall j: nat | k < j < 64 :: !Bit(w, j)
  {
    k := 63;
    while true
      invariant k < 64 && forall j: nat | k < j < 64 :: !Bit(w, j)
      decreases k
    {
      var set_ := TestBit(w, k);
      if set_ { return; }
      if k == 0 { NoBitIsZero(w); return; }
      k := k - 1;
    }
  }

  /** `w & (w - 1)` on a word whose lowest set bit is `n`. */
  method DropLowest(w: bv64, ghost n: nat) returns (r: bv64)
    requires n < 64 && Bit(w, n) && forall j: nat | j < n :: !Bit(w, j)
    ensures forall k: nat | k < 64 :: Bit(r, k) <==> Bit(w, k) && k != n
  {
    hide Both, Pred;
    r := Both(w, Pred(w));
    forall k: nat | k < 64 ensures Bit(r, k) <==> Bit(w, k) && k != n { BitDropLowest(w, n, k); }
  }
}
