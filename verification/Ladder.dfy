// The ladder of a graded arena pool: powers of two, found by rounding up, masking and counting.
module Ladder {
  import opened Word64
  import opened Order
  import opened WordBuffer

  const MIN_SIZE: bv64 := 8
  const MAX_SIZE: bv64 := 0x8000_0000
  const MAX_GRADES: nat := 29

  /** `arnm_is_power_of_two` */
  predicate IsPowerOfTwo(size: bv64) { Single(size) }

  /** The five shifts of `arnm_ceil_power_of_two`. */
  function Smear(v: bv64): bv64 {
    var a := v | (v >> 1);
    var b := a | (a >> 2);
    var c := b | (b >> 4);
    var d := c | (c >> 8);
    d | (d >> 16)
  }

  function CeilPowerOfTwo(value: bv64): bv64 { Smear(value - 1) + 1 }

  /** The result has one bit, reaches `v`, and half of it does not. */
  lemma CeilIsSmallest(v: bv64)
    requires 1 <= v <= MAX_SIZE
    ensures var r := CeilPowerOfTwo(v); Single(r) && v <= r <= MAX_SIZE && (r == 1 || Half(r) < v)
  {
  }

  // ---------- powers of two as bits ----------

  lemma LowestBit(m: bv64) returns (k: nat)
    requires m != 0
    ensures k < 64 && Bit(m, k) && forall j: nat | j < k :: !Bit(m, j)
  {
    hide Bit;
    if forall j: nat | j < 64 :: !Bit(m, j) { NoBitIsZero(m); }
    var top: nat :| top < 64 && Bit(m, top);
    k := 0;
    while !Bit(m, k)
      invariant k <= top && forall j: nat | j < k :: !Bit(m, j)
      decreases top - k
    {
      k := k + 1;
    }
  }

  lemma BothAre(m: bv64)
    ensures Both(m, Pred(m)) == m & (m - 1)
  {
  }

  lemma SameWord(v: bv64, w: bv64)
    requires Without(v, w) == 0 && Without(w, v) == 0
    ensures v == w
  {
  }

  /** The single bit of `m` has a position, and `Mask` of it is `m`. */
  lemma SingleIsMask(m: bv64) returns (k: nat)
    requires Single(m)
    ensures k < 64 && m == Mask(k)
  {
    k := LowestBit(m);
    BothAre(m);
    OneBitMask(m, k);
  }

  lemma OneBitMask(m: bv64, k: nat)
    requires Both(m, Pred(m)) == 0 && k < 64 && Bit(m, k) && forall j: nat | j < k :: !Bit(m, j)
    ensures m == Mask(k)
  {
    hide Bit, Mask, Both, Pred, Without;
    forall j: nat | j < 64 ensures !Bit(Without(m, Mask(k)), j) && !Bit(Without(Mask(k), m), j) {
      BitDropLowest(m, k, j);
      BitZero(j);
      BitMask(k, j);
      BitWithout(m, Mask(k), j);
      BitWithout(Mask(k), m, j);
    }
    NoBitIsZero(Without(m, Mask(k)));
    NoBitIsZero(Without(Mask(k), m));
    SameWord(m, Mask(k));
  }

  lemma {:induction false} MaskGrows(j: nat, k: nat)
    requires j < k < 64
    ensures Mask(j) < Mask(k)
  {
    hide Single;
    MaskSingle(k - 1);
    MaskNotTop(k - 1);
    BvDoubleSingle(Mask(k - 1));
    if j < k - 1 { MaskGrows(j, k - 1); }
  }

  lemma BvPredDouble(m: bv64)
    requires m != 0
    ensures Half(Pred(Double(m))) == Pred(m) || m >= TOP
    ensures Odd(Pred(Double(m))) && Pred(1) == 0
  {
  }

  /** One below a power of two has exactly the bits below its exponent. */
  lemma {:induction false} BelowMask(k: nat, j: nat)
    requires k < 64
    ensures Bit(Pred(Mask(k)), j) <==> j < k
  {
    hide Pred, Half, Odd, Double;
    if k == 0 {
      BvPredDouble(1);
      BitZero(j);
    } else {
      MaskSingle(k - 1);
      MaskNotTop(k - 1);
      MaskBelowTop(k - 1);
      BvPredDouble(Mask(k - 1));
      if j > 0 { BelowMask(k - 1, j - 1); }
    }
  }

  lemma MaskBelowTop(k: nat)
    requires k < 63
    ensures 0 < Mask(k) < TOP
  {
    Mask63();
    MaskGrows(k, 63);
    if k > 0 { MaskGrows(0, k); }
  }

  // ---------- order ----------

  predicate Le(a: bv64, b: bv64) { a <= b }

  lemma BvRoundedReach(v: bv64, g: bv64)
    requires Single(g) && 1 <= v <= MAX_SIZE
    ensures v <= g <==> CeilPowerOfTwo(v) <= g
  {
  }

  lemma ReachRounded(v: bv64, g: bv64)
    requires Single(g) && 1 <= v <= MAX_SIZE
    ensures Le(v, g) <==> Le(CeilPowerOfTwo(v), g)
  {
    hide Single, CeilPowerOfTwo;
    BvRoundedReach(v, g);
  }

  lemma BvAbove(v: bv64, g: bv64)
    requires Single(g) && g <= MAX_SIZE && v > MAX_SIZE
    ensures !(v <= g)
  {
  }

  lemma MaskOrder(j: nat, k: nat)
    requires j < 64 && k < 64
    ensures Le(Mask(j), Mask(k)) <==> j <= k
    ensures Mask(j) == Mask(k) <==> j == k
  {
    hide Mask;
    if j < k { MaskGrows(j, k); } else if k < j { MaskGrows(k, j); }
  }

  /** A power of two reaches the request if and only if it reaches the request rounded up. */
  lemma RoundedReach(size: bv64, k: nat, e: nat)
    requires 1 <= size <= MAX_SIZE && k < 64 && e < 64 && Mask(k) == CeilPowerOfTwo(size)
    ensures Le(size, Mask(e)) <==> k <= e
  {
    hide Le, CeilPowerOfTwo, Mask, Single;
    MaskSingle(e);
    ReachRounded(size, Mask(e));
    MaskOrder(k, e);
  }

  // ---------- the ladder ----------

  /** `exps` lists the exponents of `grades`, each between 3 and 31, in ascending order. */
  ghost predicate Rungs(grades: seq<bv64>, exps: seq<nat>) {
    |exps| == |grades| && Ascending(exps) && forall i :: 0 <= i < |grades| ==> 3 <= exps[i] <= 31 && grades[i] == Mask(exps[i])
  }

  /** The mask names exactly the rungs. */
  ghost predicate Names(bits: bv64, exps: seq<nat>) { BitSet(bits) == Elements(exps) }

  /** Where a walk along the ladder would meet the first exponent from `k` on. */
  ghost function Walk(exps: seq<nat>, k: nat): (p: nat)
    requires Ascending(exps)
    ensures p <= |exps| && (forall i :: 0 <= i < p ==> exps[i] < k) && (forall i :: p <= i < |exps| ==> k <= exps[i])
  {
    if exps == [] then 0 else if exps[|exps| - 1] < k then |exps| else Walk(exps[..|exps| - 1], k)
  }

  /** The rungs below an exponent, counted through the mask. */
  lemma RungsBelow(bits: bv64, exps: seq<nat>, k: nat)
    requires Ascending(exps) && Names(bits, exps) && k < 64
    ensures |BitSet(Both(bits, Pred(Mask(k))))| == Walk(exps, k)
  {
    hide Mask, Bit, Both, Pred;
    var p := Walk(exps, k);
    var front := exps[..p];
    forall e: nat ensures e in BitSet(Both(bits, Pred(Mask(k)))) <==> e in Elements(front) {
      BitBoth(bits, Pred(Mask(k)), e);
      BelowMask(k, e);
      assert e in BitSet(bits) <==> e in Elements(exps);
      if e in exps && e < k {
        var i :| 0 <= i < |exps| && exps[i] == e;
        assert i < p && front[i] == e;
      }
      if e in front { assert e in exps; }
    }
    assert BitSet(Both(bits, Pred(Mask(k)))) == Elements(front);
    AscendingSize(front);
  }

  lemma MaskedTwice(bits: bv64, m: bv64)
    ensures Without(bits, Without(bits, m)) == Both(bits, m)
  {
  }

  lemma NothingAbove(bits: bv64, exps: seq<nat>, k: nat)
    requires Ascending(exps) && Names(bits, exps) && k < 64
    ensures Without(bits, Pred(Mask(k))) == 0 <==> Walk(exps, k) == |exps|
  {
    hide Mask, Bit, Without, Pred;
    var above := Without(bits, Pred(Mask(k)));
    forall e: nat ensures Bit(above, e) <==> Bit(bits, e) && e >= k {
      BitWithout(bits, Pred(Mask(k)), e);
      BelowMask(k, e);
    }
    var p := Walk(exps, k);
    if p < |exps| {
      assert exps[p] in Elements(exps) && exps[p] in BitSet(bits);
      BitZero(exps[p]);
    } else {
      forall e: nat | e < 64 ensures !Bit(above, e) { assert Bit(bits, e) ==> e in BitSet(bits) && e in Elements(exps); }
      NoBitIsZero(above);
    }
  }

  // ---------- building the ladder ----------

  /** The lists `init` takes; see `AcceptedMeans`. */
  ghost predicate Accepted(sizes: seq<bv64>) {
    0 < |sizes| <= MAX_GRADES
    && (forall i :: 0 <= i < |sizes| ==> Single(sizes[i]) && Le(MIN_SIZE, sizes[i]) && Le(sizes[i], MAX_SIZE))
    && (forall i :: 0 < i < |sizes| ==> !Le(sizes[i], sizes[i - 1]))
  }

  /** The length is never what a list is refused for: MAX_GRADES counts every rung that passes the other checks. */
  lemma NeverTooMany(sizes: seq<bv64>)
    requires forall i :: 0 <= i < |sizes| ==> Single(sizes[i]) && Le(MIN_SIZE, sizes[i]) && Le(sizes[i], MAX_SIZE)
    requires forall i :: 0 < i < |sizes| ==> !Le(sizes[i], sizes[i - 1])
    ensures |sizes| <= MAX_GRADES
  {
    hide Single, Le, Mask;
    if sizes != [] {
      var n := |sizes| - 1;
      LastIsHigh(sizes);
      var k := SingleIsMask(sizes[n]);
      MaskBounds();
      MaskOrder(k, 31);
    }
  }

  /** Ascending, one bit each, in range, and nothing said of their number. */
  lemma AcceptedMeans(sizes: seq<bv64>)
    ensures Accepted(sizes) <==>
              sizes != []
              && (forall i :: 0 <= i < |sizes| ==> Single(sizes[i]) && 8 <= sizes[i] <= 0x8000_0000)
              && (forall i :: 0 < i < |sizes| ==> sizes[i - 1] < sizes[i])
  {
    hide Single;
    if (forall i :: 0 <= i < |sizes| ==> Single(sizes[i]) && Le(MIN_SIZE, sizes[i]) && Le(sizes[i], MAX_SIZE))
      && (forall i :: 0 < i < |sizes| ==> !Le(sizes[i], sizes[i - 1]))
    {
      NeverTooMany(sizes);
    }
  }

  /** The exponent of the last rung is at least two more than the number of rungs. */
  lemma {:induction false} LastIsHigh(sizes: seq<bv64>)
    requires sizes != []
    requires forall i :: 0 <= i < |sizes| ==> Single(sizes[i]) && Le(MIN_SIZE, sizes[i])
    requires forall i :: 0 < i < |sizes| ==> !Le(sizes[i], sizes[i - 1])
    ensures forall k: nat :: k < 64 && sizes[|sizes| - 1] == Mask(k) ==> k >= |sizes| + 2
  {
    hide Single, Le, Mask;
    var n := |sizes| - 1;
    forall k: nat | k < 64 && sizes[n] == Mask(k) ensures k >= |sizes| + 2 {
      if n == 0 {
        MaskBounds();
        MaskOrder(3, k);
      } else {
        LastIsHigh(sizes[..n]);
        var j := SingleIsMask(sizes[n - 1]);
        MaskOrder(k, j);
      }
    }
  }

  lemma MaskBounds()
    ensures Mask(3) == MIN_SIZE && Mask(31) == MAX_SIZE
  {
    LargestMask();
    assert Shl(1, 3) == Double(Double(Double(Shl(1, 0))));
    assert Double(Double(Double(1))) == 8;
  }

  lemma NextRung(grades: seq<bv64>, exps: seq<nat>, g: bv64, k: nat, bits: bv64, more: bv64)
    requires Rungs(grades, exps) && Names(bits, exps) && k < 64 && g == Mask(k)
    requires Le(MIN_SIZE, g) && Le(g, MAX_SIZE) && (|grades| > 0 ==> !Le(g, grades[|grades| - 1]))
    requires forall j: nat | j < 64 :: Bit(more, j) <==> Bit(bits, j) || j == k
    ensures Rungs(grades + [g], exps + [k]) && Names(more, exps + [k])
  {
    hide Mask, Bit, Le;
    MaskBounds();
    MaskOrder(3, k); MaskOrder(k, 31);
    if |grades| > 0 { MaskOrder(k, exps[|exps| - 1]); }
    forall j: nat ensures j in BitSet(more) <==> j in exps + [k] {
      assert j in BitSet(bits) <==> j in Elements(exps);
      assert j in exps + [k] <==> j in exps || j == k;
    }
    assert BitSet(more) == Elements(exps + [k]);
  }

  lemma NoRungs()
    ensures Rungs([], []) && Names(0, [])
  {
    BitSetOfZero();
  }

  /** `arnm_graded_arena_pool_init`: the list is judged and the mask built in one pass. */
  method BuildMask(sizes: seq<bv64>) returns (accepted: bool, bits: bv64, ghost exps: seq<nat>)
    ensures accepted <==>
              sizes != []
              && (forall i :: 0 <= i < |sizes| ==> Single(sizes[i]) && 8 <= sizes[i] <= 0x8000_0000)
              && (forall i :: 0 < i < |sizes| ==> sizes[i - 1] < sizes[i])
    ensures accepted ==> Rungs(sizes, exps) && Names(bits, exps)
  {
    hide Mask, Bit, Le, Rungs, Names, Single;
    bits, exps := 0, [];
    AcceptedMeans(sizes);
    if |sizes| == 0 || |sizes| > MAX_GRADES { return false, bits, exps; }
    NoRungs();
    var i := 0;
    assert sizes[..0] == [];
    while i < |sizes|
      invariant 0 <= i <= |sizes| && Rungs(sizes[..i], exps) && Names(bits, exps)
      invariant forall j :: 0 <= j < i ==> Single(sizes[j]) && Le(MIN_SIZE, sizes[j]) && Le(sizes[j], MAX_SIZE)
      invariant forall j :: 0 < j < i ==> !Le(sizes[j], sizes[j - 1])
    {
      var capacity := sizes[i];
      if !IsPowerOfTwo(capacity) { return false, bits, exps; }
      if !Le(MIN_SIZE, capacity) || !Le(capacity, MAX_SIZE) { return false, bits, exps; }
      if i > 0 && Le(capacity, sizes[i - 1]) { return false, bits, exps; }
      SingleNotZero(capacity);
      ghost var k := SingleIsMask(capacity);
      var bit := Ctz(capacity);
      MaskBit(k, bit);
      var more := SetBit(bits, bit);
      NextRung(sizes[..i], exps, capacity, k, bits, more);
      assert sizes[..i + 1] == sizes[..i] + [capacity];
      bits, exps, i := more, exps + [k], i + 1;
    }
    assert sizes[..i] == sizes;
    accepted := true;
  }

  lemma MaskBit(k: nat, bit: nat)
    requires k < 64 && bit < 64 && Bit(Mask(k), bit)
    ensures bit == k
  {
    hide Bit, Mask;
    BitMask(k, bit);
  }

  /**
   * `grade_for_size`: `index` splits `grades` into those below `size` and those that reach it, so it
   * is where a linear search would stop.
   */
  method GradeForSize(bits: bv64, grades: seq<bv64>, size: bv64, ghost exps: seq<nat>) returns (index: nat)
    requires Rungs(grades, exps) && Names(bits, exps) && size > 0
    ensures index <= |grades| && forall i :: 0 <= i < index ==> !Le(size, grades[i])
    ensures forall i :: index <= i < |grades| ==> Le(size, grades[i])
  {
    hide Le, CeilPowerOfTwo, Mask, BitSet, Single, Both, Without, Pred;
    if size > MAX_SIZE {
      TooLarge(grades, size, exps);
      return |grades|;
    }
    var below := Pred(CeilPowerOfTwo(size));
    CeilIsSmallest(size);
    ghost var k := SingleIsMask(CeilPowerOfTwo(size));
    forall i | 0 <= i < |grades| ensures Le(size, grades[i]) <==> k <= exps[i] { RoundedReach(size, k, exps[i]); }
    NothingAbove(bits, exps, k);
    RungsBelow(bits, exps, k);
    var atOrAbove := Without(bits, below);
    if atOrAbove == 0 { return |grades|; }
    MaskedTwice(bits, below);
    index := PopCount(Without(bits, atOrAbove));
  }

  lemma LargestMask()
    ensures Mask(31) == MAX_SIZE
  {
    assert Mask(7) == 0x80 by { SevenDoubles(1, 7); }
    ShlEight(1, 7); ShlEight(1, 15); ShlEight(1, 23);
  }

  lemma TooLarge(grades: seq<bv64>, size: bv64, exps: seq<nat>)
    requires Rungs(grades, exps) && size > MAX_SIZE
    ensures forall i :: 0 <= i < |grades| ==> !Le(size, grades[i])
  {
    hide Mask, Single;
    LargestMask();
    forall i | 0 <= i < |grades| ensures !Le(size, grades[i]) {
      MaskOrder(exps[i], 31);
      MaskSingle(exps[i]);
      BvAbove(size, grades[i]);
    }
  }

  /** `grade_for_capacity`: the rung of exactly that capacity, or the number of rungs. */
  method GradeForCapacity(bits: bv64, grades: seq<bv64>, capacity: bv64, ghost exps: seq<nat>) returns (index: nat)
    requires Rungs(grades, exps) && Names(bits, exps)
    ensures index <= |grades| && (index < |grades| ==> grades[index] == capacity)
    ensures index == |grades| <==> capacity !in grades
  {
    hide Mask, BitSet, Both, Pred, Single;
    if !IsPowerOfTwo(capacity) {
      RungsSingle(grades, exps);
      return |grades|;
    }
    ghost var k := SingleIsMask(capacity);
    RungsBelow(bits, exps, k);
    var slot := PopCount(Both(bits, Pred(capacity)));
    forall i | 0 <= i < |grades| ensures grades[i] == capacity <==> exps[i] == k { MaskOrder(exps[i], k); }
    if slot >= |grades| || grades[slot] != capacity { return |grades|; }
    index := slot;
  }

  lemma RungsSingle(grades: seq<bv64>, exps: seq<nat>)
    requires Rungs(grades, exps)
    ensures forall i :: 0 <= i < |grades| ==> Single(grades[i])
  {
    hide Mask, Single;
    forall i | 0 <= i < |grades| ensures Single(grades[i]) { MaskSingle(exps[i]); }
  }

  /** `grade_for_capacity` inverts the lookup on a rung's own capacity. */
  method Inverse(bits: bv64, grades: seq<bv64>, slot: nat, ghost exps: seq<nat>) returns (bySize: nat, byCapacity: nat)
    requires Rungs(grades, exps) && Names(bits, exps) && slot < |grades|
    ensures bySize == byCapacity == slot
  {
    hide Mask, Single;
    RungsSingle(grades, exps);
    assert grades[slot] != 0 by { SingleNotZero(grades[slot]); }
    bySize := GradeForSize(bits, grades, grades[slot], exps);
    byCapacity := GradeForCapacity(bits, grades, grades[slot], exps);
    MaskOrder(exps[slot], exps[slot]);
    if bySize < slot { MaskOrder(exps[slot], exps[bySize]); }
    if byCapacity != slot { MaskOrder(exps[slot], exps[byCapacity]); }
  }

  lemma SingleNotZero(m: bv64)
    requires Single(m)
    ensures m != 0
  {
  }
}
