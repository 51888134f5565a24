// Arenas and chains of arenas.
//
// A handle is a single arena or a chain of them; `multi` says which, and a single arena is held
// as the one entry of `arenas`. Addresses are numbers, 0 is NULL. `live` is what the handle has
// reserved and not taken back: the blocks handed out, each with the size it was taken for. A
// block the handle answers `NotReclaimed` for stays reserved, so it stays in `live`.
module Memory {
  import opened Results

  const UINT32_MAX: nat := 0xffff_ffff
  const MAX_ALLOC_SIZE: nat := UINT32_MAX - 7

  /** The largest size a multiple of 8 can have in 32 bits. */
  lemma LargestSize()
    ensures MAX_ALLOC_SIZE % 8 == 0 && MAX_ALLOC_SIZE < 0x1_0000_0000 <= MAX_ALLOC_SIZE + 8
  {
  }

  /** `arnm_align8_u32`: 0 for nothing and for what cannot be rounded. */
  function Align8(size: nat): (n: nat)
    ensures n % 8 == 0
    ensures 0 < size <= MAX_ALLOC_SIZE ==> size <= n < size + 8 && n <= MAX_ALLOC_SIZE
    ensures n == 0 <==> size == 0 || size > MAX_ALLOC_SIZE
  {
    if size > MAX_ALLOC_SIZE then 0 else (size + 7) / 8 * 8
  }

  /** One arena: its ground, how far it is used, what it had to refuse. */
  datatype Arena = Arena(base: nat, lastIndex: nat, capacity: nat, overflow: nat, owned: bool) {
    function Remaining(): nat
      requires lastIndex <= capacity
    {
      capacity - lastIndex
    }

    /** Where the next block starts. */
    function Tail(): nat { base + lastIndex }

    predicate Sound() {
      0 < base && base % 8 == 0 && lastIndex % 8 == 0 && capacity % 8 == 0
      && 0 < capacity <= MAX_ALLOC_SIZE && lastIndex <= capacity && overflow <= UINT32_MAX
    }

    predicate Holds(address: nat) { base <= address < base + capacity }
  }

  /** No byte belongs to both. */
  predicate Apart(a: Arena, b: Arena) { a.base + a.capacity <= b.base || b.base + b.capacity <= a.base }

  ghost predicate Grounds(arenas: seq<Arena>) {
    (forall i :: 0 <= i < |arenas| ==> arenas[i].Sound())
    && (forall i, j :: 0 <= i < j < |arenas| ==> Apart(arenas[i], arenas[j]))
  }

  /** The bytes a reserved block takes lie in the used part of `a`. */
  ghost predicate InUsed(a: Arena, address: nat, size: nat) {
    a.base <= address && address + Align8(size) <= a.Tail()
  }

  ghost predicate InSomeArena(arenas: seq<Arena>, address: nat, size: nat) {
    exists i :: 0 <= i < |arenas| && InUsed(arenas[i], address, size)
  }

  /** Every reserved block is aligned, lies in the used part of an arena and overlaps no other. */
  ghost predicate Blocks(arenas: seq<Arena>, live: map<nat, nat>) {
    (forall a :: a in live ==> a % 8 == 0 && 0 < live[a] <= MAX_ALLOC_SIZE && InSomeArena(arenas, a, live[a]))
    && (forall a, b :: a in live && b in live && a < b ==> a + Align8(live[a]) <= b)
  }

  /** `arnm_arena_is_used_up` */
  predicate UsedUp(a: Arena, fullRemaining: nat)
    requires a.lastIndex <= a.capacity
  {
    a.Remaining() <= fullRemaining
  }

  /** Every arena the scan no longer starts at is used up. */
  ghost predicate MarkerSound(arenas: seq<Arena>, firstOpen: nat, fullRemaining: nat)
    requires Grounds(arenas)
  {
    firstOpen <= |arenas| && forall i :: 0 <= i < firstOpen ==> UsedUp(arenas[i], fullRemaining)
  }

  /** Would a scan take the request here? */
  predicate Serves(a: Arena, size: nat, fullRemaining: nat)
    requires a.lastIndex <= a.capacity
  {
    !UsedUp(a, fullRemaining) && size <= a.Remaining()
  }

  /** First fit: the earliest arena from `from` on that serves the request, or their number. */
  ghost function FirstFit(arenas: seq<Arena>, size: nat, fullRemaining: nat, from: nat): (i: nat)
    requires Grounds(arenas) && from <= |arenas|
    ensures from <= i <= |arenas|
    ensures i < |arenas| ==> fullRemaining < arenas[i].Remaining() && size <= arenas[i].Remaining()
    ensures forall j :: from <= j < i ==> arenas[j].Remaining() <= fullRemaining || arenas[j].Remaining() < size
    decreases |arenas| - from
  {
    if from == |arenas| || Serves(arenas[from], size, fullRemaining) then from
    else FirstFit(arenas, size, fullRemaining, from + 1)
  }

  /** The marker is harmless: starting there finds the arena a full scan finds. */
  lemma {:induction false} MarkerHarmless(arenas: seq<Arena>, size: nat, fullRemaining: nat, firstOpen: nat)
    requires Grounds(arenas) && MarkerSound(arenas, firstOpen, fullRemaining)
    ensures FirstFit(arenas, size, fullRemaining, firstOpen) == FirstFit(arenas, size, fullRemaining, 0)
    decreases firstOpen
  {
    if firstOpen > 0 {
      assert UsedUp(arenas[firstOpen - 1], fullRemaining);
      MarkerHarmless(arenas, size, fullRemaining, firstOpen - 1);
    }
  }

  /** The byte belongs to a reserved block. */
  ghost predicate Covered(live: map<nat, nat>, x: nat) {
    exists a :: a in live && a <= x < a + Align8(live[a])
  }

  /** No byte of a used part is lost: each belongs to a reserved block. */
  ghost predicate Tiled(arenas: seq<Arena>, live: map<nat, nat>) {
    forall i: nat, x: nat :: i < |arenas| && arenas[i].base <= x < arenas[i].Tail() ==> Covered(live, x)
  }

  /** The arenas there were are still there, on their ground. */
  ghost predicate SameGround(was: seq<Arena>, now: seq<Arena>) {
    |was| <= |now|
    && forall i :: 0 <= i < |was| ==>
         now[i].base == was[i].base && now[i].capacity == was[i].capacity && now[i].owned == was[i].owned
  }

  // ---------- what one step does to the blocks ----------

  lemma GroundsApart(arenas: seq<Arena>, i: nat, j: nat)
    requires Grounds(arenas) && i < |arenas| && j < |arenas| && i != j
    ensures Apart(arenas[i], arenas[j])
  {
    assert i < j ==> Apart(arenas[i], arenas[j]);
    assert j < i ==> Apart(arenas[j], arenas[i]);
  }

  /** Moving one arena's index keeps the grounds apart. */
  lemma IndexMoved(arenas: seq<Arena>, i: nat, lastIndex: nat)
    requires Grounds(arenas) && i < |arenas| && lastIndex <= arenas[i].capacity && lastIndex % 8 == 0
    ensures Grounds(arenas[i := arenas[i].(lastIndex := lastIndex)])
  {
    var moved := arenas[i := arenas[i].(lastIndex := lastIndex)];
    forall j, k | 0 <= j < k < |moved| ensures Apart(moved[j], moved[k]) {
      assert Apart(arenas[j], arenas[k]);
    }
  }

  /** Bumping an index keeps every block where it is. */
  lemma StillInside(arenas: seq<Arena>, i: nat, lastIndex: nat, live: map<nat, nat>)
    requires Grounds(arenas) && Blocks(arenas, live)
    requires i < |arenas| && arenas[i].lastIndex <= lastIndex
    ensures Blocks(arenas[i := arenas[i].(lastIndex := lastIndex)], live)
  {
    var moved := arenas[i := arenas[i].(lastIndex := lastIndex)];
    forall a | a in live ensures InSomeArena(moved, a, live[a]) {
      var j :| 0 <= j < |arenas| && InUsed(arenas[j], a, live[a]);
      assert InUsed(moved[j], a, live[a]);
    }
  }

  /** The bytes from a tail on are nobody's. */
  lemma TailIsFree(arenas: seq<Arena>, i: nat, live: map<nat, nat>, a: nat)
    requires Grounds(arenas) && Blocks(arenas, live) && i < |arenas| && a in live
    ensures a + Align8(live[a]) <= arenas[i].Tail() || arenas[i].base + arenas[i].capacity <= a
  {
    var j :| 0 <= j < |arenas| && InUsed(arenas[j], a, live[a]);
    assert arenas[i].Sound() && arenas[j].Sound();
    if i != j { GroundsApart(arenas, i, j); }
  }

  /** A block cut off at the tail joins the others. */
  lemma BlockAdded(arenas: seq<Arena>, i: nat, live: map<nat, nat>, size: nat)
    requires Grounds(arenas) && Blocks(arenas, live) && i < |arenas|
    requires 0 < size <= MAX_ALLOC_SIZE && Align8(size) <= arenas[i].Remaining()
    ensures arenas[i].Tail() !in live
    ensures var grown := arenas[i := arenas[i].(lastIndex := arenas[i].lastIndex + Align8(size))];
            Grounds(grown) && Blocks(grown, live[arenas[i].Tail() := size])
  {
    var at := arenas[i].Tail();
    var top := arenas[i].lastIndex + Align8(size);
    var grown := arenas[i := arenas[i].(lastIndex := top)];
    assert arenas[i].Sound();
    Eights(arenas[i].lastIndex, Align8(size));
    Eights(arenas[i].base, arenas[i].lastIndex);
    hide Align8;
    IndexMoved(arenas, i, top);
    StillInside(arenas, i, top, live);
    assert InSomeArena(grown, at, size) by { assert InUsed(grown[i], at, size); }
    forall a | a in live ensures a + Align8(live[a]) <= at || at + Align8(size) <= a {
      TailIsFree(arenas, i, live, a);
    }
    OneMore(grown, live, at, size);
  }

  lemma OneMore(arenas: seq<Arena>, live: map<nat, nat>, at: nat, size: nat)
    requires Blocks(arenas, live) && InSomeArena(arenas, at, size)
    requires at % 8 == 0 && 0 < size <= MAX_ALLOC_SIZE
    requires forall a :: a in live ==> a + Align8(live[a]) <= at || at + Align8(size) <= a
    ensures at !in live && Blocks(arenas, live[at := size])
  {
    hide InSomeArena, Align8;
    assert 0 < Align8(size);
  }

  /** Taking a tail block back, or part of it, leaves the others where they are. */
  lemma TailLowered(arenas: seq<Arena>, i: nat, live: map<nat, nat>, at: nat)
    requires Grounds(arenas) && Blocks(arenas, live) && i < |arenas| && at in live
    requires arenas[i].Holds(at) && at + Align8(live[at]) == arenas[i].Tail()
    ensures arenas[i].base <= at
    ensures var cut := arenas[i := arenas[i].(lastIndex := at - arenas[i].base)];
            Grounds(cut) && Blocks(cut, live - {at}) && cut[i].Tail() == at
  {
    assert arenas[i].Sound();
    assert at % 8 == 0;
    Eights(at, arenas[i].base);
    LoweredBlocks(arenas, i, live, at);
    hide Align8, Blocks, InSomeArena;
    IndexMoved(arenas, i, at - arenas[i].base);
  }

  /** Resizing a tail block leaves the others where they are. */
  lemma TailResized(arenas: seq<Arena>, i: nat, live: map<nat, nat>, at: nat, size: nat)
    requires Grounds(arenas) && Blocks(arenas, live) && i < |arenas| && at in live && 0 < size <= MAX_ALLOC_SIZE
    requires arenas[i].Holds(at) && at + Align8(live[at]) == arenas[i].Tail()
    requires Align8(size) <= arenas[i].Remaining() + Align8(live[at])
    ensures arenas[i].base <= at
    ensures var resized := arenas[i := arenas[i].(lastIndex := at - arenas[i].base + Align8(size))];
            Grounds(resized) && Blocks(resized, live[at := size])
  {
    TailLowered(arenas, i, live, at);
    hide Align8, Grounds, Blocks;
    var cut := arenas[i := arenas[i].(lastIndex := at - arenas[i].base)];
    BlockAdded(cut, i, live - {at}, size);
    assert cut[i := cut[i].(lastIndex := cut[i].lastIndex + Align8(size))]
        == arenas[i := arenas[i].(lastIndex := at - arenas[i].base + Align8(size))];
    assert (live - {at})[at := size] == live[at := size];
  }

  lemma Eights(a: nat, b: nat)
    requires a % 8 == 0 && b % 8 == 0
    ensures (a + b) % 8 == 0 && (b <= a ==> (a - b) % 8 == 0)
  {
    SumOfEights(a, a / 8, b, b / 8);
    if b <= a { SumOfEights(a, a / 8, 0 - b, 0 - b / 8); }
  }

  lemma SumOfEights(a: int, p: int, b: int, q: int)
    requires a == 8 * p && b == 8 * q
    ensures (a + b) % 8 == 0
  {
    var k := p + q;
    assert a + b == 8 * k;
  }

  lemma LoweredBlocks(arenas: seq<Arena>, i: nat, live: map<nat, nat>, at: nat)
    requires Grounds(arenas) && Blocks(arenas, live) && i < |arenas| && at in live
    requires arenas[i].base <= at && at + Align8(live[at]) == arenas[i].Tail()
    ensures Blocks(arenas[i := arenas[i].(lastIndex := at - arenas[i].base)], live - {at})
  {
    hide Align8, Grounds, InSomeArena;
    var cut := arenas[i := arenas[i].(lastIndex := at - arenas[i].base)];
    var rest := live - {at};
    forall a | a in rest ensures InSomeArena(cut, a, rest[a]) {
      InsideLowered(arenas, i, live, at, a);
    }
  }

  lemma InsideLowered(arenas: seq<Arena>, i: nat, live: map<nat, nat>, at: nat, a: nat)
    requires Grounds(arenas) && Blocks(arenas, live) && i < |arenas| && at in live && a in live && a != at
    requires arenas[i].base <= at && at + Align8(live[at]) == arenas[i].Tail()
    ensures InSomeArena(arenas[i := arenas[i].(lastIndex := at - arenas[i].base)], a, live[a])
  {
    var cut := arenas[i := arenas[i].(lastIndex := at - arenas[i].base)];
    assert InSomeArena(arenas, a, live[a]);
    var j :| 0 <= j < |arenas| && InUsed(arenas[j], a, live[a]);
    assert a < at ==> a + Align8(live[a]) <= at;
    assert at < a ==> at + Align8(live[at]) <= a;
    assert InUsed(cut[j], a, live[a]);
  }

  /** Taking back everything from a block on leaves the blocks before it where they are. */
  lemma RunLowered(arenas: seq<Arena>, live: map<nat, nat>, at: nat)
    requires Grounds(arenas) && Blocks(arenas, live) && |arenas| == 1 && at in live
    ensures arenas[0].base <= at <= arenas[0].Tail()
    ensures var cut := arenas[0 := arenas[0].(lastIndex := at - arenas[0].base)];
            Grounds(cut) && Blocks(cut, map a | a in live && a < at :: live[a])
  {
    var j :| 0 <= j < |arenas| && InUsed(arenas[j], at, live[at]);
    assert arenas[0].Sound();
    Eights(at, arenas[0].base);
    hide Align8;
    IndexMoved(arenas, 0, at - arenas[0].base);
    var cut := arenas[0 := arenas[0].(lastIndex := at - arenas[0].base)];
    var rest := map a | a in live && a < at :: live[a];
    forall a | a in rest ensures InSomeArena(cut, a, rest[a]) {
      var i :| 0 <= i < |arenas| && InUsed(arenas[i], a, live[a]);
      assert InUsed(cut[0], a, live[a]);
    }
  }

  /** Opening ground that no arena holds keeps every block. */
  lemma ArenaOpened(arenas: seq<Arena>, live: map<nat, nat>, ground: Arena)
    requires Grounds(arenas) && Blocks(arenas, live) && ground.Sound() && ground.lastIndex == 0
    requires forall i :: 0 <= i < |arenas| ==> Apart(arenas[i], ground)
    ensures Grounds(arenas + [ground]) && Blocks(arenas + [ground], live)
    ensures Tiled(arenas, live) ==> Tiled(arenas + [ground], live)
  {
    var more := arenas + [ground];
    forall a | a in live ensures InSomeArena(more, a, live[a]) {
      var j :| 0 <= j < |arenas| && InUsed(arenas[j], a, live[a]);
      assert InUsed(more[j], a, live[a]);
    }
  }

  /** Closing the youngest arena while it is empty keeps every block. */
  lemma ArenaClosed(arenas: seq<Arena>, live: map<nat, nat>)
    requires Grounds(arenas) && Blocks(arenas, live) && |arenas| > 0 && arenas[|arenas| - 1].lastIndex == 0
    ensures Grounds(arenas[..|arenas| - 1]) && Blocks(arenas[..|arenas| - 1], live)
    ensures Tiled(arenas, live) ==> Tiled(arenas[..|arenas| - 1], live)
  {
    var fewer := arenas[..|arenas| - 1];
    forall a | a in live ensures InSomeArena(fewer, a, live[a]) {
      var j :| 0 <= j < |arenas| && InUsed(arenas[j], a, live[a]);
      assert InUsed(fewer[j], a, live[a]);
    }
  }

  // ---------- what one step does to the used bytes ----------

  /** The bytes of a new block are its own. */
  lemma TiledCut(arenas: seq<Arena>, i: nat, live: map<nat, nat>, size: nat)
    requires Tiled(arenas, live) && i < |arenas| && arenas[i].Tail() !in live
    ensures Tiled(arenas[i := arenas[i].(lastIndex := arenas[i].lastIndex + Align8(size))], live[arenas[i].Tail() := size])
  {
    hide Align8;
    var at := arenas[i].Tail();
    var grown := arenas[i := arenas[i].(lastIndex := arenas[i].lastIndex + Align8(size))];
    var more := live[at := size];
    forall j: nat, x: nat | j < |grown| && grown[j].base <= x < grown[j].Tail() ensures Covered(more, x) {
      if x < arenas[j].Tail() {
        assert Covered(live, x);
        var a :| a in live && a <= x < a + Align8(live[a]);
        assert a in more && more[a] == live[a];
      } else {
        assert at in more && more[at] == size;
      }
    }
  }

  /** Below a block that goes back, every byte stays with its own. */
  lemma TiledLowered(arenas: seq<Arena>, i: nat, live: map<nat, nat>, at: nat)
    requires Grounds(arenas) && Blocks(arenas, live) && Tiled(arenas, live) && i < |arenas| && at in live
    requires arenas[i].base <= at && at + Align8(live[at]) == arenas[i].Tail()
    ensures Tiled(arenas[i := arenas[i].(lastIndex := at - arenas[i].base)], live - {at})
  {
    hide Align8, Grounds, Blocks;
    var cut := arenas[i := arenas[i].(lastIndex := at - arenas[i].base)];
    forall j: nat, x: nat | j < |cut| && cut[j].base <= x < cut[j].Tail() ensures Covered(live - {at}, x) {
      assert x < arenas[j].Tail();
      assert Covered(live, x);
      var a :| a in live && a <= x < a + Align8(live[a]);
      if a == at { NotUnder(arenas, i, j, live, at, x); }
      assert a in live - {at};
    }
  }

  /** A byte below a tail block, or in another arena, is not one of its bytes. */
  lemma NotUnder(arenas: seq<Arena>, i: nat, j: nat, live: map<nat, nat>, at: nat, x: nat)
    requires Grounds(arenas) && Blocks(arenas, live) && i < |arenas| && j < |arenas| && at in live
    requires arenas[i].base <= at && at + Align8(live[at]) == arenas[i].Tail()
    requires arenas[j].base <= x < arenas[j].Tail() && (j == i ==> x < at)
    ensures !(at <= x < at + Align8(live[at]))
  {
    hide Align8, Blocks;
    assert arenas[i].Sound() && arenas[j].Sound();
    if i != j { GroundsApart(arenas, i, j); }
  }

  lemma TiledResized(arenas: seq<Arena>, i: nat, live: map<nat, nat>, at: nat, size: nat)
    requires Grounds(arenas) && Blocks(arenas, live) && Tiled(arenas, live) && i < |arenas| && at in live
    requires arenas[i].base <= at && at + Align8(live[at]) == arenas[i].Tail()
    ensures Tiled(arenas[i := arenas[i].(lastIndex := at - arenas[i].base + Align8(size))], live[at := size])
  {
    hide Align8, Grounds, Blocks, Tiled;
    TiledLowered(arenas, i, live, at);
    var cut := arenas[i := arenas[i].(lastIndex := at - arenas[i].base)];
    TiledCut(cut, i, live - {at}, size);
    assert cut[i := cut[i].(lastIndex := cut[i].lastIndex + Align8(size))]
        == arenas[i := arenas[i].(lastIndex := at - arenas[i].base + Align8(size))];
    assert (live - {at})[at := size] == live[at := size];
  }

  lemma TiledRun(arenas: seq<Arena>, live: map<nat, nat>, at: nat)
    requires Blocks(arenas, live) && Tiled(arenas, live) && |arenas| == 1 && at in live
    requires arenas[0].base <= at <= arenas[0].Tail()
    ensures Tiled(arenas[0 := arenas[0].(lastIndex := at - arenas[0].base)], map a | a in live && a < at :: live[a])
  {
    hide Align8, Blocks;
    var cut := arenas[0 := arenas[0].(lastIndex := at - arenas[0].base)];
    var rest := map a | a in live && a < at :: live[a];
    forall j: nat, x: nat | j < |cut| && cut[j].base <= x < cut[j].Tail() ensures Covered(rest, x) {
      assert j == 0 && arenas[0].base <= x < arenas[0].Tail();
      assert Covered(live, x);
      var a :| a in live && a <= x < a + Align8(live[a]);
      assert a in rest && rest[a] == live[a];
    }
  }

  type Byte = b: nat | b < 256

  /** `memcpy` */
  function Copied(was: nat -> Byte, target: nat, source: nat, size: nat): (now: nat -> Byte)
    ensures Carried(was, source, now, target, size)
    ensures forall a: nat :: a < target || target + size <= a ==> now(a) == was(a)
  {
    (a: nat) => if target <= a < target + size then was(a - target + source) else was(a)
  }

  /** `size` bytes from `source` on arrived at `target`. */
  ghost predicate Carried(was: nat -> Byte, source: nat, now: nat -> Byte, target: nat, size: nat) {
    forall a: nat :: target <= a < target + size ==> now(a) == was(a - target + source)
  }

  lemma Untouched(bytes: nat -> Byte)
    ensures forall a: nat, n: nat :: Carried(bytes, a, bytes, a, n)
  {
  }

  /** Bytes written into one block are in no other. */
  lemma OthersKept(live: map<nat, nat>, out: nat, arenas: seq<Arena>, was: nat -> Byte, now: nat -> Byte, size: nat)
    requires Blocks(arenas, live) && out in live && size <= Align8(live[out])
    requires forall a: nat :: a < out || out + size <= a ==> now(a) == was(a)
    ensures forall b :: b in live && b != out ==> Carried(was, b, now, b, Align8(live[b]))
  {
    hide Align8;
    forall b | b in live && b != out ensures Carried(was, b, now, b, Align8(live[b])) {
      assert b < out ==> b + Align8(live[b]) <= out;
      assert out < b ==> out + Align8(live[out]) <= b;
    }
  }

  lemma NullIsNoBlock(arenas: seq<Arena>, live: map<nat, nat>)
    requires Grounds(arenas) && Blocks(arenas, live)
    ensures 0 !in live
  {
  }

  lemma AlignMonotone(a: nat, b: nat)
    requires a <= b <= MAX_ALLOC_SIZE
    ensures Align8(a) <= Align8(b)
  {
  }

  lemma AlignCovers(a: nat, b: nat)
    requires Align8(a) < Align8(b) && a <= MAX_ALLOC_SIZE
    ensures a <= Align8(b)
  {
  }

  lemma AlignTwice(size: nat)
    ensures Align8(Align8(size)) == Align8(size)
  {
  }

  // ---------- the handle ----------

  class Handle {
    const multi: bool
    const arenaCapacity: nat
    const arenaMaxCount: nat
    const fullRemaining: nat
    /** Whether the host has ground for the n-th request made of it, and the vector a slot. */
    const grants: nat -> bool
    /** How many requests the host has had. */
    var asked: nat
    var arenas: seq<Arena>
    var firstOpen: nat
    var bytes: nat -> Byte
    ghost var live: map<nat, nat>

    ghost predicate Valid()
      reads this
    {
      Grounds(arenas) && Blocks(arenas, live) && Tiled(arenas, live)
      && MarkerSound(arenas, firstOpen, fullRemaining)
      && (multi ==> 0 < arenaCapacity <= MAX_ALLOC_SIZE && arenaCapacity % 8 == 0 && fullRemaining < arenaCapacity)
      && (multi && arenaMaxCount > 0 ==> |arenas| <= arenaMaxCount)
      && (!multi ==> |arenas| == 1 && firstOpen == 0)
    }

    /** The block is reserved here, for a size charged as this one. */
    ghost predicate Reserved(buffer: nat, size: nat)
      reads this
    {
      buffer in live && 0 < size <= MAX_ALLOC_SIZE && Align8(live[buffer]) == Align8(size)
    }

    /** An arena serves the request as it stands. */
    ghost predicate Fits(size: nat)
      requires Valid()
      reads this
    {
      0 < size <= MAX_ALLOC_SIZE
      && if multi then FirstFit(arenas, Align8(size), fullRemaining, 0) < |arenas|
         else Align8(size) <= arenas[0].Remaining()
    }

    /** Where the block then starts. */
    ghost function FitsAt(size: nat): nat
      requires Valid() && Fits(size)
      reads this
    {
      if multi then arenas[FirstFit(arenas, Align8(size), fullRemaining, 0)].Tail() else arenas[0].Tail()
    }

    /** The request goes on to the host. */
    ghost predicate AsksHost(size: nat)
      requires Valid()
      reads this
    {
      multi && 0 < size <= MAX_ALLOC_SIZE && !Fits(size) && (arenaMaxCount == 0 || |arenas| < arenaMaxCount)
    }

    /** Whether a request of this size is served. */
    ghost predicate CanServe(size: nat)
      requires Valid()
      reads this
    {
      Fits(size) || (AsksHost(size) && grants(asked))
    }

    /** What a request is told that is not served. */
    ghost function Refusal(size: nat): (r: Result)
      requires Valid()
      reads this
      ensures r.ResourceExhausted? || r.OutOfMemory?
    {
      if multi && !AsksHost(size) then ResourceExhausted else OutOfMemory
    }

    /** How many arenas a request adds. */
    ghost function Opened(size: nat): nat
      requires Valid()
      reads this
    {
      if AsksHost(size) && grants(asked) then 1 else 0
    }

    /** The block ends where the index of its arena stands. */
    ghost predicate AtTail(buffer: nat)
      requires buffer in live
      reads this
    {
      exists i :: 0 <= i < |arenas| && arenas[i].Holds(buffer) && buffer + Align8(live[buffer]) == arenas[i].Tail()
    }

    /** The block ends where the index stands, and its arena has the bytes for `size` from its start on. */
    ghost predicate CanStretch(buffer: nat, size: nat)
      requires buffer in live
      reads this
    {
      exists i :: 0 <= i < |arenas| && arenas[i].Holds(buffer) && buffer + Align8(live[buffer]) == arenas[i].Tail()
                  && buffer + Align8(size) <= arenas[i].base + arenas[i].capacity
    }

    /** A resize that needs memory elsewhere: a chain's tail block without room, or a buried one that grows. */
    ghost predicate TakesNew(buffer: nat, oldSize: nat, newSize: nat)
      requires buffer == 0 || buffer in live
      reads this
    {
      0 < newSize <= MAX_ALLOC_SIZE
      && if buffer == 0 then Align8(oldSize) < Align8(newSize)
         else if AtTail(buffer) then multi && !CanStretch(buffer, newSize)
         else Align8(oldSize) < Align8(newSize)
    }

    /** Only the arena that holds a block can have it at its tail. */
    lemma TailOf(owner: nat, buffer: nat, size: nat)
      requires Valid() && owner < |arenas| && buffer in live && arenas[owner].Holds(buffer)
      ensures AtTail(buffer) <==> buffer + Align8(live[buffer]) == arenas[owner].Tail()
      ensures CanStretch(buffer, size) <==>
                AtTail(buffer) && Align8(size) <= arenas[owner].Remaining() + Align8(live[buffer])
    {
      hide Blocks, Tiled, Align8;
      forall i | 0 <= i < |arenas| && arenas[i].Holds(buffer) ensures i == owner {
        if i != owner { GroundsApart(arenas, i, owner); assert false; }
      }
      assert arenas[owner].Sound();
    }

    lemma FitsServed(size: nat)
      requires Valid()
      ensures Fits(size) ==> CanServe(size)
    {
    }

    lemma NotForeign(buffer: nat)
      requires Valid() && buffer in live
      ensures !Foreign(buffer)
    {
      hide Tiled;
      assert InSomeArena(arenas, buffer, live[buffer]);
      var j :| 0 <= j < |arenas| && InUsed(arenas[j], buffer, live[buffer]);
      assert arenas[j].Sound() && arenas[j].Holds(buffer);
    }

    /** What a valid handle knows of its blocks. */
    lemma Holding()
      requires Valid()
      ensures Grounds(arenas) && Blocks(arenas, live) && 0 !in live && (!multi ==> |arenas| == 1)
    {
      NullIsNoBlock(arenas, live);
    }

    /** The single arena ends here, on the ground it had. */
    twostate predicate TailAfter(tail: nat)
      reads this
    {
      |arenas| == 1 && old(|arenas|) == 1 && arenas[0].Tail() == tail && arenas[0].base == old(arenas[0].base) && arenas[0].capacity == old(arenas[0].capacity)
    }

    /** The address lies in no arena of this handle. */
    ghost predicate Foreign(buffer: nat)
      reads this
    {
      forall i :: 0 <= i < |arenas| ==> !arenas[i].Holds(buffer)
    }

    /** `arnm_init_arena` and `arnm_init_arena_borrow`, on ground that passed their checks. */
    constructor Single(ground: Arena)
      requires ground.Sound() && ground.lastIndex == 0
      ensures Valid() && !multi && arenas == [ground] && live == map[]
    {
      multi := false;
      grants, asked := _ => false, 0;
      arenaCapacity, arenaMaxCount, fullRemaining := 0, 0, 0;
      arenas, firstOpen := [ground], 0;
      bytes := _ => 0;
      live := map[];
    }

    /** `arnm_create_multi_arena`, on options that passed their check; `grants` is what the host will answer. */
    constructor Chain(arenaCapacity: nat, arenaMaxCount: nat, fullRemaining: nat, grants: nat -> bool)
      requires 0 < arenaCapacity <= MAX_ALLOC_SIZE && arenaCapacity % 8 == 0 && fullRemaining < arenaCapacity
      ensures Valid() && multi && arenas == [] && live == map[]
      ensures this.arenaCapacity == arenaCapacity && this.arenaMaxCount == arenaMaxCount
      ensures this.fullRemaining == fullRemaining && this.grants == grants
    {
      multi := true;
      this.grants, asked := grants, 0;
      this.arenaCapacity, this.arenaMaxCount, this.fullRemaining := arenaCapacity, arenaMaxCount, fullRemaining;
      arenas, firstOpen := [], 0;
      bytes := _ => 0;
      live := map[];
    }

    /** The host's answer to a request for ground: 0, or an aligned base apart from every arena held. */
    method HostGround(capacity: nat) returns (base: nat)
      requires Grounds(arenas)
      modifies this`asked
      ensures asked == old(asked) + 1 && (base != 0 <==> grants(old(asked)))
      ensures base != 0 ==> base % 8 == 0
      ensures base != 0 ==> forall i :: 0 <= i < |arenas| ==> Apart(arenas[i], Arena(base, 0, capacity, 0, true))
    {
      asked := asked + 1;
      if !grants(asked - 1) { return 0; }
      base := 8;
      var i := 0;
      while i < |arenas|
        invariant 0 <= i <= |arenas| && base > 0 && base % 8 == 0
        invariant forall j :: 0 <= j < i ==> arenas[j].base + arenas[j].capacity <= base
      {
        if base < arenas[i].base + arenas[i].capacity { base := arenas[i].base + arenas[i].capacity; }
        i := i + 1;
      }
    }

    /** Bumps the index of arena `i` over a block of `size` bytes. */
    method Cut(i: nat, size: nat) returns (buffer: nat)
      requires Valid() && i < |arenas| && 0 < size <= MAX_ALLOC_SIZE && Align8(size) <= arenas[i].Remaining()
      modifies this
      ensures Valid() && firstOpen == old(firstOpen) && bytes == old(bytes) && asked == old(asked)
      ensures buffer == old(arenas[i].Tail()) && buffer !in old(live) && live == old(live)[buffer := size]
      ensures arenas == old(arenas)[i := old(arenas[i]).(lastIndex := old(arenas[i]).lastIndex + Align8(size))]
    {
      hide Align8, Grounds, Blocks;
      BlockAdded(arenas, i, live, size);
      TiledCut(arenas, i, live, size);
      hide Tiled;
      buffer := arenas[i].Tail();
      live := live[buffer := size];
      arenas := arenas[i := arenas[i].(lastIndex := arenas[i].lastIndex + Align8(size))];
    }

    /** `account_capacity_exceeded`: the shortfall of a single arena, saturating. */
    method NoteOverflow(size: nat)
      requires Valid() && !multi
      modifies this`arenas
      ensures Valid()
      ensures arenas == [old(arenas[0]).(overflow := Capped(old(arenas[0]).overflow + size))]
    {
      var noted := [arenas[0].(overflow := Capped(arenas[0].overflow + size))];
      OverflowNoted(arenas, noted, live);
      arenas := noted;
    }

    /** The single arena's half of `arena_alloc_aligned`. */
    method AllocSingle(size: nat) returns (result: Result, buffer: nat)
      requires Valid() && !multi && 0 < size <= MAX_ALLOC_SIZE
      modifies this
      ensures Valid() && bytes == old(bytes) && asked == old(asked)
      ensures result == if Align8(size) <= old(arenas[0].Remaining()) then Success else OutOfMemory
      ensures result.Success? ==> buffer == old(arenas[0].Tail()) && buffer !in old(live) && live == old(live)[buffer := size]
      ensures result.Success? ==> arenas == [old(arenas[0]).(lastIndex := old(arenas[0]).lastIndex + Align8(size))]
      ensures !result.Success? ==> live == old(live)
      ensures !result.Success? ==> arenas == [old(arenas[0]).(overflow := Capped(old(arenas[0]).overflow + Align8(size)))]
    {
      if arenas[0].Remaining() < Align8(size) {
        NoteOverflow(Align8(size));
        return OutOfMemory, 0;
      }
      buffer := Cut(0, size);
      result := Success;
    }

    /** The scan of `multi_arena_alloc`, from the marker on, the marker following while it leads. */
    method Scan(n: nat) returns (i: nat)
      requires Valid() && multi
      modifies this`firstOpen
      ensures Valid()
      ensures i == FirstFit(arenas, n, fullRemaining, 0)
    {
      hide Blocks, Align8;
      MarkerHarmless(arenas, n, fullRemaining, firstOpen);
      i := firstOpen;
      while i < |arenas|
        invariant firstOpen <= i <= |arenas| && Valid()
        invariant FirstFit(arenas, n, fullRemaining, i) == FirstFit(arenas, n, fullRemaining, 0)
      {
        if UsedUp(arenas[i], fullRemaining) {
          if i == firstOpen { firstOpen := firstOpen + 1; }
        } else if n <= arenas[i].Remaining() {
          return;
        }
        i := i + 1;
      }
    }

    /** `multi_arena_push` of fresh ground. */
    method OpenGround(ground: Arena)
      requires Valid() && multi && ground.Sound() && ground.lastIndex == 0 && (arenaMaxCount > 0 ==> |arenas| < arenaMaxCount)
      requires forall i :: 0 <= i < |arenas| ==> Apart(arenas[i], ground)
      modifies this`arenas
      ensures Valid() && arenas == old(arenas) + [ground]
    {
      hide Align8;
      ArenaOpened(arenas, live, ground);
      arenas := arenas + [ground];
    }

    /**
     * `multi_arena_alloc`: first fit from the marker on, the marker following while it leads;
     * fresh ground where nothing serves the request and the cap allows it.
     */
    method AllocChain(size: nat) returns (result: Result, buffer: nat)
      requires Valid() && multi && 0 < size <= MAX_ALLOC_SIZE
      modifies this
      ensures Valid() && bytes == old(bytes)
      ensures var n := Align8(size);
              var fit := FirstFit(old(arenas), n, fullRemaining, 0);
              if fit < |old(arenas)| then
                result.Success? && buffer == old(arenas)[fit].Tail()
                && arenas == old(arenas)[fit := old(arenas)[fit].(lastIndex := old(arenas)[fit].lastIndex + n)]
              else if arenaMaxCount > 0 && |old(arenas)| >= arenaMaxCount then
                result.ResourceExhausted? && arenas == old(arenas)
              else if result.Success? then
                |arenas| == |old(arenas)| + 1 && arenas[..|old(arenas)|] == old(arenas)
                && buffer == arenas[|old(arenas)|].base
                && arenas[|old(arenas)|].capacity == (if arenaCapacity < n then n else arenaCapacity)
                && arenas[|old(arenas)|].lastIndex == n
              else
                result.OutOfMemory? && arenas == old(arenas)
      ensures result.Success? ==> buffer !in old(live) && live == old(live)[buffer := size]
      ensures !result.Success? ==> live == old(live)
      ensures result.Success? <==> old(CanServe(size))
      ensures asked == old(asked) + if old(AsksHost(size)) then 1 else 0
    {
      hide Align8, Blocks, Grounds, Tiled;
      var n := Align8(size);
      var i := Scan(n);
      if i < |arenas| {
        buffer := Cut(i, size);
        return Success, buffer;
      }
      if arenaMaxCount > 0 && |arenas| >= arenaMaxCount { return ResourceExhausted, 0; }
      var capacity := if arenaCapacity < n then n else arenaCapacity;
      var base := HostGround(capacity);
      if base == 0 { return OutOfMemory, 0; }
      OpenGround(Arena(base, 0, capacity, 0, true));
      buffer := Cut(|arenas| - 1, size);
      result := Success;
    }

    /**
     * `arnm_alloc` on an arena or a chain. Served if an arena fits the request, where first fit
     * puts it, or if the host is asked and grants fresh ground.
     */
    method Alloc(size: nat) returns (result: Result, buffer: nat)
      requires Valid() && size <= UINT32_MAX
      modifies this
      ensures Valid() && bytes == old(bytes)
      ensures result.Success? <==> old(CanServe(size))
      ensures !result.Success? ==>
                result == if size == 0 then InvalidParam else if size > MAX_ALLOC_SIZE then ArithmeticOverflow
                          else old(Refusal(size))
      ensures result.Success? ==> 0 < size <= MAX_ALLOC_SIZE && buffer !in old(live) && live == old(live)[buffer := size]
      ensures !result.Success? ==> live == old(live)
      ensures old(Fits(size)) ==> buffer == old(FitsAt(size))
      ensures |arenas| == |old(arenas)| + old(Opened(size))
      ensures old(Fits(size)) && multi ==>
                var fit := FirstFit(old(arenas), Align8(size), fullRemaining, 0);
                arenas == old(arenas)[fit := old(arenas)[fit].(lastIndex := old(arenas)[fit].lastIndex + Align8(size))]
      ensures result.Success? && !old(Fits(size)) ==>
                arenas[..|old(arenas)|] == old(arenas)
                && buffer == arenas[|old(arenas)|].base && arenas[|old(arenas)|].lastIndex == Align8(size)
                && arenas[|old(arenas)|].capacity == if arenaCapacity < Align8(size) then Align8(size) else arenaCapacity
      ensures SameGround(old(arenas), arenas)
      ensures asked == old(asked) + if old(AsksHost(size)) then 1 else 0
      ensures !result.Success? && multi ==> arenas == old(arenas)
      ensures !result.Success? && !multi && 0 < size <= MAX_ALLOC_SIZE ==>
                arenas == [old(arenas[0]).(overflow := Capped(old(arenas[0]).overflow + Align8(size)))]
      ensures !multi ==> TailAfter(if result.Success? then old(arenas[0].Tail()) + Align8(size) else old(arenas[0].Tail()))
      ensures !multi && result.Success? ==> buffer == old(arenas[0].Tail())
    {
      hide Blocks, Tiled, Grounds, Align8;
      if size == 0 { return InvalidParam, 0; }
      if size > MAX_ALLOC_SIZE { return ArithmeticOverflow, 0; }
      if multi { result, buffer := AllocChain(size); } else { result, buffer := AllocSingle(size); }
    }

    /** `multi_arena_find_owner`: around the chain once, from the marker on. */
    method FindOwner(buffer: nat) returns (index: nat)
      requires Valid() && multi
      ensures index <= |arenas|
      ensures index < |arenas| ==> arenas[index].Holds(buffer)
      ensures index == |arenas| <==> Foreign(buffer)
    {
      var count := |arenas|;
      if count == 0 { return 0; }
      var start := if firstOpen < count then firstOpen else 0;
      var seen := 0;
      while seen < count
        invariant 0 <= seen <= count
        invariant forall j :: start <= j < count && j < start + seen ==> !arenas[j].Holds(buffer)
        invariant forall j :: 0 <= j < start && j < start + seen - count ==> !arenas[j].Holds(buffer)
      {
        index := start + seen;
        if index >= count { index := index - count; }
        if arenas[index].Holds(buffer) { return; }
        seen := seen + 1;
      }
      index := count;
    }

    /** `multi_arena_reopen`: restores `MarkerSound` after the index of arena `index` went down. */
    method Reopen(index: nat)
      requires index < |arenas| && Grounds(arenas) && firstOpen <= |arenas|
      requires forall i :: 0 <= i < firstOpen && i != index ==> UsedUp(arenas[i], fullRemaining)
      modifies this`firstOpen
      ensures MarkerSound(arenas, firstOpen, fullRemaining)
      ensures firstOpen == if index < old(firstOpen) && !UsedUp(arenas[index], fullRemaining) then index else old(firstOpen)
    {
      if index < firstOpen && !UsedUp(arenas[index], fullRemaining) { firstOpen := index; }
    }

    /** The tail block of arena `i` goes back to it. */
    method Lower(i: nat, buffer: nat, size: nat)
      requires Valid() && i < |arenas| && Reserved(buffer, size) && arenas[i].Holds(buffer)
      requires buffer + Align8(size) == arenas[i].Tail()
      modifies this
      ensures Valid() && live == old(live) - {buffer} && bytes == old(bytes) && asked == old(asked)
      ensures arenas == old(arenas)[i := old(arenas)[i].(lastIndex := old(arenas)[i].lastIndex - Align8(size))]
      ensures arenas[i].Tail() == buffer
    {
      TailLowered(arenas, i, live, buffer);
      TiledLowered(arenas, i, live, buffer);
      assert arenas[i].lastIndex - Align8(size) == buffer - arenas[i].base;
      hide Tiled, Blocks, Grounds, Align8;
      arenas := arenas[i := arenas[i].(lastIndex := arenas[i].lastIndex - Align8(size))];
      live := live - {buffer};
      if multi { Reopen(i); }
    }

    /**
     * `arnm_free` on an arena or a chain: for a reserved block the answer is Success if `AtTail`
     * held, and then `live` loses it; else the warning, and `live` keeps it.
     */
    method Free(buffer: nat, size: nat) returns (result: Result)
      requires Valid() && size <= UINT32_MAX
      requires buffer == 0 || size == 0 || Reserved(buffer, size) || (multi && Foreign(buffer))
      modifies this
      ensures Valid() && bytes == old(bytes) && asked == old(asked)
      ensures result == if size > MAX_ALLOC_SIZE then ArithmeticOverflow
                        else if multi && buffer != 0 && old(Foreign(buffer)) then InvalidParam
                        else if buffer != 0 && size > 0 && old(AtTail(buffer)) then Success
                        else NotReclaimed
      ensures result.Success? ==> live == old(live) - {buffer} && old(Reserved(buffer, size))
      ensures SameGround(old(arenas), arenas) && |arenas| == |old(arenas)|
      ensures !result.Success? ==> live == old(live) && arenas == old(arenas)
      ensures !multi && result.Success? ==> TailAfter(buffer) && buffer + Align8(size) == old(arenas[0].Tail())
    {
      hide Align8, Grounds, Blocks, Tiled, Handle.AtTail;
      if size > MAX_ALLOC_SIZE { return ArithmeticOverflow; }
      if buffer in live { NotForeign(buffer); }
      var owner := 0;
      if multi {
        owner := FindOwner(buffer);
        if buffer != 0 && owner == |arenas| { return InvalidParam; }
      }
      if owner < |arenas| && buffer != 0 && size != 0 {
        OwnerHolds(arenas, owner, live, buffer, multi);
        TailOf(owner, buffer, 0);
        if buffer + Align8(size) == arenas[owner].Tail() {
          Lower(owner, buffer, size);
          return Success;
        }
      }
      result := NotReclaimed;
    }

    /**
     * `arnm_free` on a single arena, handed the first block of a stretch and a size of its own:
     * the stretch comes back whole if it ends where the arena does, or not at all.
     */
    method FreeRun(buffer: nat, size: nat) returns (result: Result)
      requires Valid() && !multi && buffer in live && 0 < size <= UINT32_MAX
      modifies this
      ensures Valid() && bytes == old(bytes) && asked == old(asked)
      ensures result == if size > MAX_ALLOC_SIZE then ArithmeticOverflow
                        else if buffer + Align8(size) == old(arenas[0].Tail()) then Success else NotReclaimed
      ensures result.Success? ==> live == (map a | a in old(live) && a < buffer :: old(live)[a]) && TailAfter(buffer)
      ensures !result.Success? ==> live == old(live) && arenas == old(arenas)
    {
      hide Align8, Grounds, Blocks;
      if size > MAX_ALLOC_SIZE { return ArithmeticOverflow; }
      if buffer + Align8(size) != arenas[0].Tail() { return NotReclaimed; }
      RunLowered(arenas, live, buffer);
      TiledRun(arenas, live, buffer);
      hide Tiled;
      arenas := arenas[0 := arenas[0].(lastIndex := arenas[0].lastIndex - Align8(size))];
      live := map a | a in live && a < buffer :: live[a];
      result := Success;
    }

    /**
     * Resizes the tail block of arena `i` in place. Only a block that gets smaller can bring its
     * arena back into the scan.
     */
    method ResizeTail(i: nat, buffer: nat, oldSize: nat, newSize: nat)
      requires Valid() && i < |arenas| && Reserved(buffer, oldSize) && arenas[i].Holds(buffer)
      requires buffer + Align8(oldSize) == arenas[i].Tail() && 0 < newSize <= MAX_ALLOC_SIZE
      requires Align8(newSize) <= arenas[i].Remaining() + Align8(oldSize)
      modifies this
      ensures Valid() && live == old(live)[buffer := newSize] && bytes == old(bytes) && asked == old(asked)
      ensures arenas == old(arenas)[i := old(arenas)[i].(lastIndex := buffer - old(arenas)[i].base + Align8(newSize))]
      ensures Align8(newSize) >= Align8(oldSize) ==> firstOpen == old(firstOpen)
      ensures !multi ==> TailAfter(buffer + Align8(newSize))
    {
      hide Align8, Grounds, Blocks;
      TailResized(arenas, i, live, buffer, newSize);
      TiledResized(arenas, i, live, buffer, newSize);
      hide Tiled;
      live := live[buffer := newSize];
      if Align8(newSize) < Align8(oldSize) {
        arenas := arenas[i := arenas[i].(lastIndex := arenas[i].lastIndex - (Align8(oldSize) - Align8(newSize)))];
        if multi { Reopen(i); }
      } else {
        arenas := arenas[i := arenas[i].(lastIndex := arenas[i].lastIndex + (Align8(newSize) - Align8(oldSize)))];
      }
    }

    /** A tail block the arena has no room to grow: moved to another arena of the chain. */
    method MoveTail(i: nat, buffer: nat, oldSize: nat, newSize: nat) returns (result: Result, out: nat)
      requires Valid() && multi && i < |arenas| && Reserved(buffer, oldSize) && arenas[i].Holds(buffer)
      requires buffer + Align8(oldSize) == arenas[i].Tail() && 0 < newSize <= MAX_ALLOC_SIZE
      requires arenas[i].Remaining() < Align8(newSize) - Align8(oldSize)
      modifies this
      ensures Valid() && SameGround(old(arenas), arenas) && |arenas| == |old(arenas)| + old(Opened(newSize))
      ensures result == if old(CanServe(newSize)) then Success else old(Refusal(newSize))
      ensures asked == old(asked) + if old(AsksHost(newSize)) then 1 else 0
      ensures old(Fits(newSize)) ==> out == old(FitsAt(newSize))
      ensures !result.Success? ==> live == old(live) && bytes == old(bytes) && out == buffer
      ensures result.Success? ==> out !in old(live) && live == (old(live) - {buffer})[out := newSize]
      ensures result.Success? ==> Carried(old(bytes), buffer, bytes, out, oldSize)
      ensures result.Success? ==> forall a: nat :: a < out || out + Align8(newSize) <= a ==> bytes(a) == old(bytes)(a)
    {
      hide Align8, Grounds, Blocks, Tiled, Handle.FitsAt, Handle.AsksHost, Handle.Opened, Handle.Refusal;
      result, out := Alloc(newSize);
      if !result.Success? { return result, buffer; }
      bytes := Copied(bytes, out, buffer, oldSize);
      Lower(i, buffer, oldSize);
    }

    /**
     * A tail block to another size: in place where its arena has the bytes, else refused on a single
     * arena, which notes the shortfall, and moved on a chain.
     */
    method StretchOrMove(owner: nat, buffer: nat, oldSize: nat, newSize: nat) returns (result: Result, out: nat)
      requires Valid() && owner < |arenas| && Reserved(buffer, oldSize) && arenas[owner].Holds(buffer)
      requires buffer + Align8(oldSize) == arenas[owner].Tail() && 0 < newSize <= MAX_ALLOC_SIZE
      modifies this
      ensures Valid() && SameGround(old(arenas), arenas)
      ensures if old(CanStretch(buffer, newSize)) then
                result.Success? && out == buffer && live == old(live)[buffer := newSize] && bytes == old(bytes)
              else if multi then
                result == (if old(CanServe(newSize)) then Success else old(Refusal(newSize)))
                && (old(Fits(newSize)) ==> out == old(FitsAt(newSize)))
                && if result.Success? then out !in old(live) && live == (old(live) - {buffer})[out := newSize]
                   else out == buffer && live == old(live) && bytes == old(bytes)
              else
                result.OutOfMemory? && out == buffer && live == old(live) && bytes == old(bytes)
                && Align8(oldSize) < Align8(newSize)
                && arenas == [old(arenas[0]).(overflow := Capped(old(arenas[0]).overflow + Align8(newSize) - Align8(oldSize)))]
      ensures if multi && !old(CanStretch(buffer, newSize)) then
                |arenas| == |old(arenas)| + old(Opened(newSize))
                && asked == old(asked) + if old(AsksHost(newSize)) then 1 else 0
              else |arenas| == |old(arenas)| && asked == old(asked)
      ensures result.Success? ==> Carried(old(bytes), buffer, bytes, out, if oldSize < newSize then oldSize else newSize)
      ensures forall b :: b in live && b != out ==> Carried(old(bytes), b, bytes, b, Align8(live[b]))
      ensures !multi ==> TailAfter(if result.Success? then buffer + Align8(newSize) else old(arenas[0].Tail()))
    {
      hide Align8, Grounds, Blocks, Tiled, Handle.Fits, Handle.FitsAt, Handle.AsksHost, Handle.CanServe, Handle.Opened,
          Handle.Refusal, Handle.AtTail, Handle.CanStretch;
      TailOf(owner, buffer, newSize);
      if Align8(newSize) <= Align8(oldSize) || arenas[owner].Remaining() >= Align8(newSize) - Align8(oldSize) {
        ResizeTail(owner, buffer, oldSize, newSize);
        return Success, buffer;
      }
      if !multi {
        NoteOverflow(Align8(newSize) - Align8(oldSize));
        return OutOfMemory, buffer;
      }
      if newSize <= oldSize { AlignMonotone(newSize, oldSize); }
      result, out := MoveTail(owner, buffer, oldSize, newSize);
      if result.Success? { OthersKept(live, out, arenas, old(bytes), bytes, Align8(newSize)); }
    }

    /** A block that has to grow and is no tail: copied to a new one, and left where it is. */
    method MoveBuried(buffer: nat, oldSize: nat, newSize: nat) returns (result: Result, out: nat)
      requires Valid() && 0 < newSize <= MAX_ALLOC_SIZE && oldSize <= MAX_ALLOC_SIZE && Align8(oldSize) < Align8(newSize)
      requires buffer == 0 || oldSize == 0 || Reserved(buffer, oldSize) || (multi && Foreign(buffer))
      modifies this
      ensures Valid() && SameGround(old(arenas), arenas) && |arenas| == |old(arenas)| + old(Opened(newSize))
      ensures result == if old(CanServe(newSize)) then Success else old(Refusal(newSize))
      ensures asked == old(asked) + if old(AsksHost(newSize)) then 1 else 0
      ensures old(Fits(newSize)) ==> out == old(FitsAt(newSize))
      ensures !result.Success? ==> live == old(live) && bytes == old(bytes) && out == buffer
      ensures result.Success? ==> out !in old(live) && out != 0 && live == old(live)[out := newSize]
      ensures result.Success? && buffer != 0 && oldSize > 0 ==> Carried(old(bytes), buffer, bytes, out, oldSize)
      ensures forall b :: b in old(live) && b != out ==> Carried(old(bytes), b, bytes, b, Align8(live[b]))
      ensures !multi ==> TailAfter(if result.Success? then out + Align8(newSize) else old(arenas[0].Tail()))
      ensures !multi && result.Success? ==> out == old(arenas[0].Tail())
      ensures !multi && !result.Success? ==>
                arenas == [old(arenas[0]).(overflow := Capped(old(arenas[0]).overflow + Align8(newSize)))]
    {
      hide Align8, Grounds, Blocks, Tiled, Carried, Handle.Fits, Handle.FitsAt, Handle.AsksHost, Handle.CanServe,
          Handle.Opened, Handle.Refusal;
      Untouched(bytes);
      assert Fits(newSize) ==> CanServe(newSize) by { FitsServed(newSize); }
      result, out := Alloc(newSize);
      if !result.Success? { return result, buffer; }
      NullIsNoBlock(arenas, live);
      if buffer != 0 && oldSize > 0 {
        AlignCovers(oldSize, newSize);
        bytes := Copied(bytes, out, buffer, oldSize);
        OthersKept(live, out, arenas, old(bytes), bytes, oldSize);
      }
    }

    /**
     * `arnm_realloc` on an arena or a chain. What is answered for a reserved block depends on where
     * it lies: stretched in place at the tail where its arena has the bytes, refused there on a
     * single arena, moved there on a chain; left alone when buried and shrinking, copied when
     * buried and growing. The rest of the contract says what `live` becomes, which bytes arrive at
     * `out`, and where a single arena then ends.
     */
    method Realloc(buffer: nat, oldSize: nat, newSize: nat) returns (result: Result, out: nat)
      requires Valid() && oldSize <= UINT32_MAX && newSize <= UINT32_MAX
      requires buffer == 0 || Reserved(buffer, oldSize) || (multi && Foreign(buffer))
      modifies this
      ensures Valid()
      // the answer
      ensures oldSize > MAX_ALLOC_SIZE || newSize > MAX_ALLOC_SIZE ==> result.ArithmeticOverflow?
      ensures newSize == 0 && oldSize <= MAX_ALLOC_SIZE ==>
                result == if multi && buffer != 0 && old(Foreign(buffer)) then InvalidParam
                          else if buffer != 0 && oldSize > 0 && old(AtTail(buffer)) then Success
                          else NotReclaimed
      ensures multi && buffer != 0 && old(Foreign(buffer)) && 0 < newSize <= MAX_ALLOC_SIZE && oldSize <= MAX_ALLOC_SIZE ==>
                result == if oldSize == newSize then Success else InvalidParam
      ensures multi && buffer != 0 && old(Foreign(buffer)) ==> out == buffer && live == old(live) && bytes == old(bytes)
      ensures buffer == 0 && 0 < newSize <= MAX_ALLOC_SIZE && oldSize <= MAX_ALLOC_SIZE ==>
                result == if Align8(newSize) <= Align8(oldSize) || old(CanServe(newSize)) then NotReclaimed
                          else old(Refusal(newSize))
      ensures old(Reserved(buffer, oldSize)) && oldSize == newSize ==>
                result.Success? && out == buffer && arenas == old(arenas) && asked == old(asked) && bytes == old(bytes)
      ensures old(Reserved(buffer, oldSize)) && 0 < newSize <= MAX_ALLOC_SIZE && oldSize != newSize ==>
                if old(CanStretch(buffer, newSize)) then
                  result.Success? && out == buffer
                else if old(AtTail(buffer)) then
                  if !multi then result.OutOfMemory?
                  else if old(CanServe(newSize)) then result.Success? && out != buffer
                  else result == old(Refusal(newSize))
                else if Align8(newSize) <= Align8(oldSize) then
                  result.NotReclaimed? && out == buffer
                else if old(CanServe(newSize)) then result.NotReclaimed? && out != buffer
                else result == old(Refusal(newSize))
      ensures (buffer == 0 || (old(Reserved(buffer, oldSize)) && oldSize != newSize)) && oldSize <= MAX_ALLOC_SIZE ==>
                if old(TakesNew(buffer, oldSize, newSize)) then
                  |arenas| == |old(arenas)| + old(Opened(newSize))
                  && asked == old(asked) + (if old(AsksHost(newSize)) then 1 else 0)
                  && (old(Fits(newSize)) ==> out == old(FitsAt(newSize)))
                else
                  |arenas| == |old(arenas)| && asked == old(asked)
      ensures SameGround(old(arenas), arenas)
      ensures !result.Success? && !result.NotReclaimed? ==> live == old(live) && bytes == old(bytes) && out == buffer
      // released
      ensures newSize == 0 && result.Success? ==> live == old(live) - {buffer} && out == 0
      ensures newSize == 0 && result.NotReclaimed? ==> live == old(live) && out == buffer
      // resized: reserved for the new size, and not lost on the way
      ensures newSize > 0 && old(Reserved(buffer, oldSize)) && result.Success? ==>
                out in live && (out == buffer || out !in old(live)) && live == if oldSize == newSize then old(live) else (old(live) - {buffer})[out := newSize]
      ensures newSize > 0 && old(Reserved(buffer, oldSize)) && result.NotReclaimed? ==>
                if out == buffer then live == old(live) && newSize <= Align8(oldSize)
                else out !in old(live) && live == old(live)[out := newSize]
      ensures newSize > 0 && old(Reserved(buffer, oldSize)) && (result.Success? || result.NotReclaimed?) ==>
                Carried(old(bytes), buffer, bytes, out, if oldSize < newSize then oldSize else newSize)
      // from scratch, the memory is there and the answer is the warning
      ensures newSize > 0 && buffer == 0 && result.NotReclaimed? ==>
                if Align8(newSize) <= Align8(oldSize) then live == old(live) && out == 0
                else out !in old(live) && live == old(live)[out := newSize]
      // every other block keeps its contents
      ensures forall b :: b in old(live) && b in live && b != out ==> Carried(old(bytes), b, bytes, b, Align8(live[b]))
      // a single arena notes what it fell short of
      ensures !multi && result.OutOfMemory? ==>
                var short := Align8(newSize) - if buffer in old(live) && old(AtTail(buffer)) then Align8(oldSize) else 0;
                short > 0 && arenas == [old(arenas[0]).(overflow := Capped(old(arenas[0]).overflow + short))]
      // where a single arena ends afterwards
      ensures !multi && !result.Success? && (!result.NotReclaimed? || out == buffer) ==> TailAfter(old(arenas[0].Tail()))
      ensures !multi && result.Success? && newSize > 0 && oldSize == newSize ==> TailAfter(old(arenas[0].Tail()))
      ensures !multi && result.Success? && newSize > 0 && oldSize != newSize ==>
                out == buffer && buffer + Align8(oldSize) == old(arenas[0].Tail()) && TailAfter(out + Align8(newSize))
      ensures !multi && result.NotReclaimed? && out != buffer ==>
                out == old(arenas[0].Tail()) && TailAfter(out + Align8(newSize))
      ensures !multi && result.Success? && newSize == 0 ==>
                buffer + Align8(oldSize) == old(arenas[0].Tail()) && TailAfter(buffer)
    {
      hide Align8, Grounds, Blocks, Tiled, Handle.Fits, Handle.FitsAt, Handle.AsksHost, Handle.CanServe, Handle.Opened,
          Handle.Refusal, Handle.AtTail, Handle.CanStretch, Handle.Foreign, Carried;
      Untouched(bytes);
      if (newSize > 0 && newSize > MAX_ALLOC_SIZE) || (oldSize > 0 && oldSize > MAX_ALLOC_SIZE) {
        return ArithmeticOverflow, buffer;
      }
      if buffer in live { NotForeign(buffer); }
      if newSize == 0 {
        AlignTwice(oldSize);
        result := Free(buffer, Align8(oldSize));
        return result, if result.Success? then 0 else buffer;
      }
      if buffer != 0 && oldSize == newSize { return Success, buffer; }
      var owner := 0;
      if multi {
        owner := FindOwner(buffer);
        if buffer != 0 && owner == |arenas| { return InvalidParam, buffer; }
      }
      if owner < |arenas| && buffer != 0 && oldSize > 0 {
        OwnerHolds(arenas, owner, live, buffer, multi);
        TailOf(owner, buffer, newSize);
        if buffer + Align8(oldSize) == arenas[owner].Tail() {
          result, out := StretchOrMove(owner, buffer, oldSize, newSize);
          return;
        }
      }
      NullIsNoBlock(arenas, live);
      if newSize <= oldSize { AlignMonotone(newSize, oldSize); }
      if Align8(newSize) > Align8(oldSize) {
        result, out := MoveBuried(buffer, oldSize, newSize);
        return if result.Success? then NotReclaimed else result, out;
      }
      return NotReclaimed, buffer;
    }

    /** `arnm_reset`: everything is taken back, the ground stays. */
    method Reset()
      requires Valid()
      modifies this
      ensures Valid() && live == map[] && bytes == old(bytes) && asked == old(asked)
      ensures |arenas| == |old(arenas)|
      ensures forall i :: 0 <= i < |arenas| ==> arenas[i] == old(arenas)[i].(lastIndex := 0, overflow := 0)
    {
      ghost var was := arenas;
      var i := 0;
      while i < |arenas|
        invariant 0 <= i <= |arenas| == |was|
        invariant forall j :: 0 <= j < i ==> arenas[j] == was[j].(lastIndex := 0, overflow := 0)
        invariant forall j :: i <= j < |arenas| ==> arenas[j] == was[j]
        invariant bytes == old(bytes) && asked == old(asked)
      {
        arenas := arenas[i := arenas[i].(lastIndex := 0, overflow := 0)];
        i := i + 1;
      }
      forall j, k | 0 <= j < k < |arenas| ensures Apart(arenas[j], arenas[k]) { GroundsApart(was, j, k); }
      firstOpen, live := 0, map[];
    }

    /**
     * `arnm_multi_arena_borrow` of a buffer that overlaps nothing the chain holds; `push` is the
     * answer of the vector that takes the descriptor.
     */
    method Borrow(data: nat, capacity: nat, push: Result) returns (result: Result)
      requires Valid() && multi && data != 0 && capacity <= UINT32_MAX
      requires forall i :: 0 <= i < |arenas| ==> Apart(arenas[i], Arena(data, 0, capacity, 0, false))
      modifies this
      ensures Valid() && live == old(live) && bytes == old(bytes) && firstOpen == old(firstOpen) && asked == old(asked)
      ensures result == if 0 < arenaMaxCount <= |old(arenas)| then ResourceExhausted
                        else if capacity == 0 then InvalidParam
                        else if capacity > MAX_ALLOC_SIZE then ArithmeticOverflow
                        else if capacity % 8 != 0 || data % 8 != 0 then InvalidParam
                        else push
      ensures arenas == if result.Success? then old(arenas) + [Arena(data, 0, capacity, 0, false)] else old(arenas)
    {
      if arenaMaxCount > 0 && arenaMaxCount < |arenas| + 1 { return ResourceExhausted; }
      if capacity == 0 { return InvalidParam; }
      if capacity > MAX_ALLOC_SIZE { return ArithmeticOverflow; }
      if Align8(capacity) != capacity || data % 8 != 0 { return InvalidParam; }
      if push.Success? { OpenGround(Arena(data, 0, capacity, 0, false)); }
      result := push;
    }

    /**
     * `arnm_multi_arena_shrink`: cuts the chain behind its last arena that is used or borrowed.
     * The answer is the one of the descriptor vector, which gives back its own unused buckets.
     */
    method Shrink(vector: Result) returns (result: Result)
      requires Valid() && multi
      modifies this
      ensures Valid() && live == old(live) && bytes == old(bytes) && asked == old(asked) && result == vector
      ensures |arenas| <= |old(arenas)| && arenas == old(arenas)[..|arenas|]
      ensures forall i :: |arenas| <= i < |old(arenas)| ==> old(arenas)[i].lastIndex == 0 && old(arenas)[i].owned
      ensures |arenas| > 0 ==> arenas[|arenas| - 1].lastIndex > 0 || !arenas[|arenas| - 1].owned
      ensures firstOpen == if old(firstOpen) > |arenas| then |arenas| else old(firstOpen)
    {
      hide Blocks, Align8;
      while |arenas| > 0 && arenas[|arenas| - 1].lastIndex == 0 && arenas[|arenas| - 1].owned
        invariant |arenas| <= |old(arenas)| && arenas == old(arenas)[..|arenas|]
        invariant Grounds(arenas) && Blocks(arenas, live) && Tiled(arenas, live)
        invariant live == old(live) && bytes == old(bytes) && asked == old(asked)
        invariant firstOpen == old(firstOpen)
        invariant forall i :: |arenas| <= i < |old(arenas)| ==> old(arenas)[i].lastIndex == 0 && old(arenas)[i].owned
        decreases |arenas|
      {
        hide Grounds;
        ArenaClosed(arenas, live);
        arenas := arenas[..|arenas| - 1];
      }
      if firstOpen > |arenas| { firstOpen := |arenas|; }
      result := vector;
    }
  }

  /** The arena a reserved block is looked up in holds it. */
  lemma OwnerHolds(arenas: seq<Arena>, owner: nat, live: map<nat, nat>, buffer: nat, multi: bool)
    requires Grounds(arenas) && Blocks(arenas, live) && owner < |arenas| && buffer in live
    requires multi ==> arenas[owner].Holds(buffer)
    requires !multi ==> |arenas| == 1
    ensures arenas[owner].Holds(buffer) && arenas[owner].Sound()
  {
    assert arenas[owner].Sound();
    var j :| 0 <= j < |arenas| && InUsed(arenas[j], buffer, live[buffer]);
    assert arenas[j].Sound();
  }

  lemma OverflowNoted(arenas: seq<Arena>, noted: seq<Arena>, live: map<nat, nat>)
    requires Grounds(arenas) && Blocks(arenas, live) && Tiled(arenas, live) && |arenas| == 1 && |noted| == 1
    requires noted[0] == arenas[0].(overflow := noted[0].overflow) && noted[0].overflow <= UINT32_MAX
    ensures Grounds(noted) && Blocks(noted, live) && Tiled(noted, live)
  {
    assert forall x: nat :: arenas[0].base <= x < arenas[0].Tail() ==> Covered(live, x);
    forall a | a in live ensures InSomeArena(noted, a, live[a]) {
      var j :| 0 <= j < |arenas| && InUsed(arenas[j], a, live[a]);
      assert InUsed(noted[0], a, live[a]);
    }
  }

  /** What a saturating 32 bit counter makes of a sum. */
  function Capped(n: nat): (r: nat)
    ensures r <= UINT32_MAX && r <= n && (r == n || r == UINT32_MAX)
  {
    if n > UINT32_MAX then UINT32_MAX else n
  }
}