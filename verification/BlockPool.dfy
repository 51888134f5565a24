// The graded block pool: memory handed out in sizes that are powers of two.
//
// The state is three disjoint places a byte of the pool's arenas can be in: in a block of `lent`,
// in a block of `cached`, or in the stretch of `current` not yet cut. A `Block` is an address with
// the exponent its caller named, which may lie below the smallest grade; `Grade` says what it is
// worth.
module BlockPool {
  import opened Results
  import opened Memory

  function Pow(n: nat): (p: nat)
    ensures p > 0
  {
    if n == 0 then 1 else 2 * Pow(n - 1)
  }

  lemma {:induction false} PowMonotone(m: nat, n: nat)
    requires m <= n
    ensures Pow(m) <= Pow(n)
    ensures m < n ==> Pow(m) < Pow(n)
  {
    if m < n { PowMonotone(m, n - 1); }
  }

  lemma PowNext(n: nat)
    ensures Pow(n + 1) == Pow(n) + Pow(n)
  {
  }

  /** What whole pieces of `m` leave of `n`. */
  function Rest(n: nat, m: nat): (r: nat)
    requires m > 0
    ensures r < m
  {
    if n < m then n else Rest(n - m, m)
  }

  lemma {:induction false} RestOfSum(a: nat, b: nat, m: nat)
    requires m > 0 && Rest(a, m) == 0
    ensures Rest(a + b, m) == Rest(b, m)
    decreases a
  {
    if a >= m { RestOfSum(a - m, b, m); }
  }

  /** A larger grade is whole pieces of a smaller one. */
  lemma {:induction false} PowRest(m: nat, n: nat)
    requires m <= n
    ensures Rest(Pow(n), Pow(m)) == 0
  {
    if m < n {
      PowRest(m, n - 1);
      RestOfSum(Pow(n - 1), Pow(n - 1), Pow(m));
    } else {
      assert Rest(0, Pow(m)) == 0;
    }
  }

  /** `arnm_log2_power_of_two`: the least exponent whose power reaches `n`. */
  function CeilLog2(n: nat): nat
  {
    if n <= 1 then 0 else 1 + CeilLog2((n + 1) / 2)
  }

  lemma {:induction false} CeilLog2Fits(n: nat)
    requires n > 0
    ensures n <= Pow(CeilLog2(n))
    ensures n > 1 ==> Pow(CeilLog2(n)) < 2 * n
  {
    if n > 1 {
      var h := (n + 1) / 2;
      CeilLog2Fits(h);
      HalfStep(n, h, Pow(CeilLog2(h)), if h > 1 then Pow(CeilLog2(h) - 1) else 0);
      assert Pow(CeilLog2(n)) == 2 * Pow(CeilLog2(h));
    }
  }

  /** Both bounds survive doubling, since an even number below 2 * h is below it by two. */
  lemma HalfStep(n: nat, h: nat, p: nat, q: nat)
    requires n > 1 && (n == 2 * h || n + 1 == 2 * h) && h <= p
    requires if h > 1 then p == 2 * q && p < 2 * h else p == 1
    ensures n <= 2 * p < 2 * n
  {
  }

  datatype Block = Block(address: nat, log2: nat)

  function Grade(log2: nat, minLog2: nat): nat { if log2 < minLog2 then minLog2 else log2 }

  function Size(b: Block, minLog2: nat): (n: nat)
    ensures n > 0
  {
    Pow(Grade(b.log2, minLog2))
  }

  /** Bytes of a set of blocks, counted in whole grades. */
  ghost function Bytes(s: set<Block>, minLog2: nat): nat {
    if s == {} then 0 else var b :| b in s; Size(b, minLog2) + Bytes(s - {b}, minLog2)
  }

  lemma {:induction false} BytesWithout(s: set<Block>, b: Block, minLog2: nat)
    requires b in s
    ensures Bytes(s, minLog2) == Size(b, minLog2) + Bytes(s - {b}, minLog2)
    decreases |s|
  {
    var c :| c in s && Bytes(s, minLog2) == Size(c, minLog2) + Bytes(s - {c}, minLog2);
    if b != c {
      BytesWithout(s - {c}, b, minLog2);
      BytesWithout(s - {b}, c, minLog2);
      assert s - {c} - {b} == s - {b} - {c};
    }
  }

  lemma BytesWith(s: set<Block>, b: Block, minLog2: nat)
    requires b !in s
    ensures Bytes(s + {b}, minLog2) == Size(b, minLog2) + Bytes(s, minLog2)
  {
    BytesWithout(s + {b}, b, minLog2);
    assert s + {b} - {b} == s;
  }

  /** The bytes of two sets without a block in common add up. */
  lemma {:induction false} BytesJoined(s: set<Block>, t: set<Block>, minLog2: nat)
    requires s !! t
    ensures Bytes(s + t, minLog2) == Bytes(s, minLog2) + Bytes(t, minLog2)
    decreases |s|
  {
    if s == {} {
      assert s + t == t;
    } else {
      var b :| b in s;
      BytesJoined(s - {b}, t, minLog2);
      BytesWithout(s, b, minLog2);
      BytesWithout(s + t, b, minLog2);
      assert s + t - {b} == (s - {b}) + t;
    }
  }

  // ---------- where the blocks lie ----------

  /** The arenas taken from the chain: aligned, all of one size, none on top of another. */
  ghost predicate ArenasTaken(grounds: map<nat, nat>, capacity: nat) {
    (forall g :: g in grounds ==> 0 < g && g % 8 == 0 && grounds[g] == capacity)
    && (forall g, h :: g in grounds && h in grounds && g < h ==> g + capacity <= h)
  }

  /** `current` is no arena yet, or one of the pool's with its cursor on the grid. */
  ghost predicate Open(current: Arena, grounds: map<nat, nat>, capacity: nat, minLog2: nat) {
    (current.capacity == 0 && current.lastIndex == 0)
    || (current.base in grounds && current.capacity == capacity && current.lastIndex <= capacity
        && current.lastIndex % 8 == 0 && Rest(current.lastIndex, Pow(minLog2)) == 0)
  }

  /** How far blocks reach into an arena: up to the cursor of the current one. */
  function Limit(current: Arena, ground: nat, capacity: nat): nat {
    if current.capacity > 0 && ground == current.base then current.Tail() else ground + capacity
  }

  ghost predicate HomeAt(ground: nat, current: Arena, capacity: nat, b: Block, minLog2: nat) {
    ground <= b.address && b.address + Size(b, minLog2) <= Limit(current, ground, capacity)
  }

  ghost predicate Home(grounds: map<nat, nat>, current: Arena, capacity: nat, b: Block, minLog2: nat) {
    exists g :: g in grounds && HomeAt(g, current, capacity, b, minLog2)
  }

  predicate Clear(b: Block, c: Block, minLog2: nat) {
    b.address + Size(b, minLog2) <= c.address || c.address + Size(c, minLog2) <= b.address
  }

  /** Every block lies in an arena of the pool, and no two share a byte. */
  ghost predicate Placed(blocks: set<Block>, grounds: map<nat, nat>, current: Arena, capacity: nat, minLog2: nat) {
    (forall b :: b in blocks ==> b.address % 8 == 0 && Home(grounds, current, capacity, b, minLog2))
    && (forall b, c :: b in blocks && c in blocks && b != c ==> Clear(b, c, minLog2))
  }

  /** List by list, the free lists are the cached blocks of their grade without repetition. */
  ghost predicate Listed(free: seq<seq<nat>>, cached: set<Block>, minLog2: nat, maxLog2: nat) {
    minLog2 <= maxLog2 && |free| == maxLog2 - minLog2 + 1
    && (forall b :: b in cached ==> minLog2 <= b.log2 <= maxLog2 && b.address in free[b.log2 - minLog2])
    && (forall i, j :: 0 <= i < |free| && 0 <= j < |free[i]| ==> Block(free[i][j], minLog2 + i) in cached)
    && (forall i, j, k :: 0 <= i < |free| && 0 <= j < k < |free[i]| ==> free[i][j] != free[i][k])
  }

  /** Arenas no block will be cut from any more. */
  function Closed(arenas: nat, current: Arena): int { arenas - if current.capacity > 0 then 1 else 0 }

  /** Every byte drawn from the chain is lent, cached, still to be cut, or the end of a closed arena. */
  ghost predicate Conserved(arenas: nat, capacity: nat, lentBytes: nat, cachedBytes: nat, current: Arena, minLog2: nat)
    requires current.lastIndex <= current.capacity
  {
    arenas * capacity
      == lentBytes + cachedBytes + current.Remaining() + Closed(arenas, current) * Rest(capacity, Pow(minLog2))
  }

  /** The block at the cursor lies apart from every other. */
  lemma CursorClear(blocks: set<Block>, grounds: map<nat, nat>, current: Arena, capacity: nat, minLog2: nat, b: Block)
    requires ArenasTaken(grounds, capacity) && Open(current, grounds, capacity, minLog2)
    requires Placed(blocks, grounds, current, capacity, minLog2)
    requires current.capacity > 0 && b.address == current.Tail() && Size(b, minLog2) <= current.Remaining()
    ensures b !in blocks && forall c :: c in blocks ==> Clear(b, c, minLog2)
  {
    forall c | c in blocks ensures c != b && Clear(b, c, minLog2) {
      assert Home(grounds, current, capacity, c, minLog2);
      var g :| g in grounds && HomeAt(g, current, capacity, c, minLog2);
    }
  }

  /** Cutting a block off at the cursor. */
  lemma BlockCut(blocks: set<Block>, grounds: map<nat, nat>, current: Arena, capacity: nat, minLog2: nat, b: Block)
    requires ArenasTaken(grounds, capacity) && Open(current, grounds, capacity, minLog2)
    requires Placed(blocks, grounds, current, capacity, minLog2)
    requires current.capacity > 0 && b.address == current.Tail() && Size(b, minLog2) <= current.Remaining()
    requires 3 <= minLog2
    ensures b !in blocks
    ensures var on := current.(lastIndex := current.lastIndex + Size(b, minLog2));
            Open(on, grounds, capacity, minLog2) && Placed(blocks + {b}, grounds, on, capacity, minLog2)
  {
    var on := current.(lastIndex := current.lastIndex + Size(b, minLog2));
    CursorClear(blocks, grounds, current, capacity, minLog2, b);
    GradeAligned(Grade(b.log2, minLog2));
    PowRest(minLog2, Grade(b.log2, minLog2));
    RestOfSum(current.lastIndex, Size(b, minLog2), Pow(minLog2));
    Eights(current.lastIndex, Size(b, minLog2));
    Eights(current.base, current.lastIndex);
    CutPlaced(blocks, grounds, current, capacity, minLog2, b);
  }

  lemma CutPlaced(blocks: set<Block>, grounds: map<nat, nat>, current: Arena, capacity: nat, minLog2: nat, b: Block)
    requires Placed(blocks, grounds, current, capacity, minLog2)
    requires b.address % 8 == 0 && forall c :: c in blocks ==> Clear(b, c, minLog2)
    requires current.capacity > 0 && current.base in grounds && b.address == current.Tail()
    ensures Placed(blocks + {b}, grounds, current.(lastIndex := current.lastIndex + Size(b, minLog2)), capacity, minLog2)
  {
    hide Size;
    var on := current.(lastIndex := current.lastIndex + Size(b, minLog2));
    forall c | c in blocks + {b} ensures Home(grounds, on, capacity, c, minLog2) {
      if c == b {
        assert HomeAt(current.base, on, capacity, b, minLog2);
      } else {
        assert Home(grounds, current, capacity, c, minLog2);
        var g :| g in grounds && HomeAt(g, current, capacity, c, minLog2);
        assert HomeAt(g, on, capacity, c, minLog2);
      }
    }
  }

  lemma {:induction false} GradeAligned(log2: nat)
    requires 3 <= log2
    ensures Pow(log2) % 8 == 0
  {
    if log2 == 3 {
      assert Pow(1) == 2 && Pow(2) == 4;
    } else {
      GradeAligned(log2 - 1);
    }
  }

  /** Moving on to an arena no block lies in yet. */
  lemma ArenaChanged(blocks: set<Block>, grounds: map<nat, nat>, current: Arena, capacity: nat, minLog2: nat, next: Arena)
    requires Placed(blocks, grounds, current, capacity, minLog2) && Open(current, grounds, capacity, minLog2)
    requires next.base !in grounds && next.capacity == capacity && next.lastIndex == 0
    ensures Placed(blocks, grounds[next.base := capacity], next, capacity, minLog2)
  {
    hide Size;
    forall b | b in blocks ensures Home(grounds[next.base := capacity], next, capacity, b, minLog2) {
      assert Home(grounds, current, capacity, b, minLog2);
      var g :| g in grounds && HomeAt(g, current, capacity, b, minLog2);
      assert HomeAt(g, next, capacity, b, minLog2);
    }
  }

  // ---------- the lists ----------

  lemma Pushed(free: seq<seq<nat>>, cached: set<Block>, minLog2: nat, maxLog2: nat, b: Block)
    requires Listed(free, cached, minLog2, maxLog2) && b !in cached && minLog2 <= b.log2 <= maxLog2
    ensures var i := b.log2 - minLog2;
            Listed(free[i := [b.address] + free[i]], cached + {b}, minLog2, maxLog2)
  {
    var at := b.log2 - minLog2;
    var more := free[at := [b.address] + free[at]];
    assert forall j :: 0 <= j < |free[at]| ==> Block(free[at][j], minLog2 + at) in cached;
    forall c | c in cached + {b} ensures c.address in more[c.log2 - minLog2] {
      assert more[at][0] == b.address;
      if c != b { assert c.address in free[c.log2 - minLog2]; }
    }
  }

  lemma Popped(free: seq<seq<nat>>, cached: set<Block>, minLog2: nat, maxLog2: nat, at: nat)
    requires Listed(free, cached, minLog2, maxLog2) && at < |free| && free[at] != []
    ensures Block(free[at][0], minLog2 + at) in cached
    ensures Listed(free[at := free[at][1..]], cached - {Block(free[at][0], minLog2 + at)}, minLog2, maxLog2)
  {
    var b := Block(free[at][0], minLog2 + at);
    var fewer := free[at := free[at][1..]];
    forall c | c in cached - {b} ensures c.address in fewer[c.log2 - minLog2] {
      assert c.address in free[c.log2 - minLog2];
      assert free[at] == [free[at][0]] + free[at][1..];
    }
    forall i, j | 0 <= i < |fewer| && 0 <= j < |fewer[i]| ensures Block(fewer[i][j], minLog2 + i) in cached - {b} {
      if i == at {
        assert fewer[i][j] == free[at][j + 1];
        assert free[at][0] != free[at][j + 1];
      } else {
        assert Block(free[i][j], minLog2 + i) in cached;
      }
    }
  }

  /** The live blocks of a chain that only ever hands out whole arenas. */
  lemma LiveIsGrounds(arenas: seq<Arena>, live: map<nat, nat>, capacity: nat)
    requires Memory.Grounds(arenas) && Blocks(arenas, live) && capacity % 8 == 0
    requires forall a :: a in live ==> live[a] == capacity
    ensures ArenasTaken(live, capacity)
  {
    forall g | g in live ensures 0 < g && Align8(live[g]) == capacity {
      assert InSomeArena(arenas, g, live[g]);
      AlignedIsSame(capacity);
    }
  }

  lemma AlignedIsSame(n: nat)
    requires n % 8 == 0 && n <= MAX_ALLOC_SIZE
    ensures Align8(n) == n
  {
  }

  // ---------- the pool ----------

  /** The largest grade a pool has by default; nothing here needs a larger one. */
  const DEFAULT_MAX_LOG2: nat := 20

  class Pool {
    const source: Handle
    const minLog2: nat
    const maxLog2: nat
    const arenaCapacity: nat
    var lentBytes: nat
    var cachedBytes: nat
    var freeHead: seq<seq<nat>>
    var current: Arena
    ghost var lent: set<Block>
    ghost var cached: set<Block>
    /** How many requests up to `DEFAULT_MAX_LOG2` have been refused. */
    ghost var refusals: nat

    /** What the pool holds, given the arenas it has taken from its chain. */
    ghost predicate Holds(grounds: map<nat, nat>)
      reads this
    {
      Shaped()
      && Pow(maxLog2) <= arenaCapacity <= MAX_ALLOC_SIZE && arenaCapacity % 8 == 0
      && Open(current, grounds, arenaCapacity, minLog2)
      && lent !! cached && Placed(lent + cached, grounds, current, arenaCapacity, minLog2)
      && Listed(freeHead, cached, minLog2, maxLog2)
      && (forall b :: b in lent ==> b.log2 <= maxLog2)
      && lentBytes == Bytes(lent, minLog2) && cachedBytes == Bytes(cached, minLog2)
      && Conserved(|grounds|, arenaCapacity, lentBytes, cachedBytes, current, minLog2)
    }

    /** The bounds every step relies on. */
    ghost predicate Shaped()
      reads this
    {
      3 <= minLog2 <= maxLog2 <= 31 && |freeHead| == maxLog2 - minLog2 + 1 && current.lastIndex <= current.capacity
    }

    lemma HoldsShaped(grounds: map<nat, nat>)
      requires Holds(grounds)
      ensures Shaped()
    {
    }

    ghost predicate SourceValid()
      reads source
    {
      source.Valid() && source.multi && arenaCapacity % 8 == 0
      && forall a :: a in source.live ==> source.live[a] == arenaCapacity
    }

    ghost predicate Valid()
      reads this, source
    {
      SourceValid() && Holds(source.live) && (Generous() ==> refusals == 0)
    }

    /** Grades up to the default, arenas without number, and a host that never says no. */
    ghost predicate Generous() {
      DEFAULT_MAX_LOG2 <= maxLog2 && source.arenaMaxCount == 0 && forall n: nat :: source.grants(n)
    }

    /** The free list an exponent is served from. */
    function ListOf(log2: nat): seq<nat>
      requires Shaped() && log2 <= maxLog2
      reads this
    {
      freeHead[Grade(log2, minLog2) - minLog2]
    }

    /** Whether a block of this exponent is handed out: from a list, the current arena, or a new one. */
    ghost predicate CanServe(log2: nat)
      requires Valid()
      reads this, source
    {
      log2 <= maxLog2
      && var grade := Grade(log2, minLog2);
         |freeHead[grade - minLog2]| > 0 || Pow(grade) <= current.Remaining() || source.CanServe(arenaCapacity)
    }

    /** A chain without a cap whose host never refuses has an arena for the asking. */
    lemma SourceGives()
      requires Valid() && Generous()
      ensures source.CanServe(arenaCapacity)
    {
      hide Placed, Listed, Open, Rest, Bytes, Conserved, Memory.Grounds, Memory.Blocks, Tiled;
      PowMonotone(3, maxLog2);
    }

    lemma NeverRefused()
      requires Valid() && Generous()
      ensures refusals == 0
    {
    }

    /** A generous pool hands out every block up to the default grade. */
    lemma GenerousServes(log2: nat)
      requires Valid() && Generous() && log2 <= DEFAULT_MAX_LOG2
      ensures CanServe(log2)
    {
      hide Placed, Listed, Open, Rest, Bytes, Conserved, Pow;
      SourceGives();
    }

    /** `lentBytes` is determined by `lent`. */
    lemma LentCounted()
      requires Valid()
      ensures lentBytes == Bytes(lent, minLog2)
    {
    }

    lemma ValidShaped()
      requires Valid()
      ensures Shaped() && ArenasTaken(source.live, arenaCapacity) && Holds(source.live)
    {
      hide Placed, Listed, Open, Pow, Rest, Bytes, Conserved;
      LiveIsGrounds(source.arenas, source.live, arenaCapacity);
    }

    /**
     * `arnm_graded_block_pool_init` on options that passed their check; an arena has room for
     * `count` blocks of grade `maxLog2`.
     */
    constructor (minLog2: nat, maxLog2: nat, count: nat, grants: nat -> bool)
      requires 3 <= minLog2 <= maxLog2 <= 31 && 0 < count <= 255
      ensures Valid() && fresh(source)
      ensures lent == {} && cached == {} && lentBytes == 0 && cachedBytes == 0
      ensures this.minLog2 == minLog2 && this.maxLog2 == maxLog2 && refusals == 0
      ensures source.grants == grants && source.arenaMaxCount == 0
      ensures var whole := Pow(maxLog2) * count; arenaCapacity == if whole > MAX_ALLOC_SIZE then MAX_ALLOC_SIZE else whole
      ensures source.arenaCapacity == arenaCapacity && source.fullRemaining == Pow(minLog2) - 1
    {
      var capacity := ArenaCapacity(maxLog2, count);
      CapacitySound(minLog2, maxLog2, count);
      source := new Handle.Chain(capacity, 0, Pow(minLog2) - 1, grants);
      this.minLog2, this.maxLog2, arenaCapacity := minLog2, maxLog2, capacity;
      lentBytes, cachedBytes := 0, 0;
      freeHead := EmptyLists(maxLog2 - minLog2 + 1);
      hide Placed, Listed, Bytes, Conserved, Open, Pow, Rest;
      NothingCut(EmptyLists(maxLog2 - minLog2 + 1), Arena(0, 0, 0, 0, false), capacity, minLog2, maxLog2);
      current := Arena(0, 0, 0, 0, false);
      lent, cached, refusals := {}, {}, 0;
    }

    /** Cuts `bytes` off the current arena. */
    method CutCurrent(ghost b: Block, ghost grounds: map<nat, nat>, bytes: nat) returns (address: nat)
      requires Holds(grounds) && ArenasTaken(grounds, arenaCapacity)
      requires bytes == Size(b, minLog2) && bytes <= current.Remaining() && b.address == current.Tail()
      modifies this`current
      ensures address == b.address && b !in lent + cached
      ensures current == old(current).(lastIndex := old(current).lastIndex + bytes)
      ensures Open(current, grounds, arenaCapacity, minLog2)
      ensures Placed(lent + cached + {b}, grounds, current, arenaCapacity, minLog2)
    {
      hide Bytes, Listed, Conserved, Rest;
      BlockCut(lent + cached, grounds, current, arenaCapacity, minLog2, b);
      address := current.Tail();
      current := current.(lastIndex := current.lastIndex + bytes);
    }

    /** `push_free`, of a block just cut off. */
    method CutToList(log2: nat, ghost grounds: map<nat, nat>)
      requires Holds(grounds) && ArenasTaken(grounds, arenaCapacity)
      requires minLog2 <= log2 <= maxLog2 && Pow(log2) <= current.Remaining()
      modifies this
      ensures Shaped() && Holds(grounds) && lent == old(lent) && lentBytes == old(lentBytes) && refusals == old(refusals)
      ensures current == old(current).(lastIndex := old(current).lastIndex + Pow(log2))
      ensures freeHead == old(freeHead)[log2 - minLog2 := [old(current).Tail()] + old(freeHead)[log2 - minLog2]]
    {
      hide Placed, Open, Bytes, Rest, Listed, Conserved, ArenasTaken, Pow;
      CutConserved(|grounds|, arenaCapacity, lentBytes, cachedBytes, current, minLog2, 0, Pow(log2));
      ghost var b := Block(current.Tail(), log2);
      ghost var blocks := lent + cached;
      var piece := CutCurrent(b, grounds, Pow(log2));
      assert blocks + {b} == lent + (cached + {b});
      BytesWith(cached, b, minLog2);
      Pushed(freeHead, cached, minLog2, maxLog2, b);
      cached := cached + {b};
      freeHead := freeHead[log2 - minLog2 := [piece] + freeHead[log2 - minLog2]];
      cachedBytes := cachedBytes + Pow(log2);
    }

    /**
     * `split_current`: afterwards fewer than `Pow(minLog2)` bytes of the arena are uncut, no list
     * has grown by more than one block, and the lists from `asked` on have not grown at all.
     */
    method SplitCurrent(ghost asked: nat, ghost grounds: map<nat, nat>)
      requires Holds(grounds) && ArenasTaken(grounds, arenaCapacity)
      requires minLog2 <= asked <= maxLog2 && current.Remaining() < Pow(asked)
      modifies this
      ensures Holds(grounds) && lent == old(lent) && lentBytes == old(lentBytes) && refusals == old(refusals)
      ensures current == old(current).(lastIndex := current.lastIndex) && current.Remaining() < Pow(minLog2)
      ensures forall i :: 0 <= i < |freeHead| ==> |freeHead[i]| <= |old(freeHead)[i]| + 1
      ensures forall i :: asked - minLog2 <= i < |freeHead| ==> freeHead[i] == old(freeHead)[i]
    {
      hide Holds, Pow;
      HoldsShaped(grounds);
      var left := current.Remaining();
      var log2 := maxLog2;
      PowMonotone(asked, maxLog2 + 1);
      while left >= Pow(minLog2)
        invariant Shaped() && Holds(grounds) && lent == old(lent) && lentBytes == old(lentBytes) && refusals == old(refusals)
        invariant current == old(current).(lastIndex := current.lastIndex) && left == current.Remaining()
        invariant minLog2 <= log2 + 1 && log2 <= maxLog2
        invariant left < Pow(asked) && left < Pow(log2 + 1)
        invariant forall i :: 0 <= i < |freeHead| && i <= log2 - minLog2 ==> freeHead[i] == old(freeHead)[i]
        invariant forall i :: 0 <= i < |freeHead| ==> |freeHead[i]| <= |old(freeHead)[i]| + 1
        invariant forall i :: asked - minLog2 <= i < |freeHead| ==> freeHead[i] == old(freeHead)[i]
        decreases log2 + 1
      {
        if log2 + 1 == minLog2 { assert false; }
        var bytes := Pow(log2);
        if asked <= log2 { PowMonotone(asked, log2); }
        PowNext(log2);
        while left >= bytes
          invariant Shaped() && Holds(grounds) && lent == old(lent) && lentBytes == old(lentBytes) && refusals == old(refusals)
          invariant current == old(current).(lastIndex := current.lastIndex) && left == current.Remaining()
          invariant left < Pow(asked) && left < Pow(log2 + 1)
          invariant forall i :: 0 <= i < |freeHead| && i < log2 - minLog2 ==> freeHead[i] == old(freeHead)[i]
          invariant left >= bytes ==> freeHead[log2 - minLog2] == old(freeHead)[log2 - minLog2]
          invariant forall i :: 0 <= i < |freeHead| ==> |freeHead[i]| <= |old(freeHead)[i]| + 1
          invariant forall i :: asked - minLog2 <= i < |freeHead| ==> freeHead[i] == old(freeHead)[i]
          decreases left
        {
          CutToList(log2, grounds);
          left := left - bytes;
        }
        log2 := log2 - 1;
      }
    }

    /**
     * `next_arena`: on success `current` is whole and uncut and the list of `asked` is as it was;
     * refused, so is everything.
     */
    method NextArena(ghost asked: nat) returns (result: Result)
      requires Valid() && minLog2 <= asked <= maxLog2 && current.Remaining() < Pow(asked)
      modifies this, source
      ensures Valid() && Shaped() && lent == old(lent) && lentBytes == old(lentBytes) && refusals == old(refusals)
      ensures source.bytes == old(source.bytes)
      ensures result == if old(source.CanServe(arenaCapacity)) then Success else old(source.Refusal(arenaCapacity))
      ensures result.Success? ==> current.base !in old(source.live)
      ensures old(source.Fits(arenaCapacity)) ==> result.Success? && current.base == old(source.FitsAt(arenaCapacity))
      ensures !result.Success? ==> freeHead == old(freeHead) && cached == old(cached) && current == old(current)
      ensures result.Success? ==> current.capacity == current.Remaining() == arenaCapacity && Pow(maxLog2) <= arenaCapacity
      ensures result.Success? ==> freeHead[asked - minLog2] == old(freeHead)[asked - minLog2]
    {
      hide Holds, SourceValid, ArenasTaken, Pow;
      ghost var grounds := source.live;
      var block;
      result, block := Draw();
      if !result.Success? { return; }
      SplitCurrent(asked, grounds);
      MoveOn(block, grounds);
      HoldsShaped(source.live);
      HoldsRoom(source.live);
    }

    lemma HoldsRoom(grounds: map<nat, nat>)
      requires Holds(grounds)
      ensures Pow(maxLog2) <= arenaCapacity
    {
      hide Placed, Listed, Open, Pow, Rest, Bytes, Conserved;
    }

    /** A whole arena is asked of the chain; the pool itself does not change yet. */
    method Draw() returns (result: Result, block: nat)
      requires Valid()
      modifies source
      ensures SourceValid() && source.bytes == old(source.bytes)
      ensures result == if old(source.CanServe(arenaCapacity)) then Success else old(source.Refusal(arenaCapacity))
      ensures old(source.Fits(arenaCapacity)) ==> result.Success? && block == old(source.FitsAt(arenaCapacity))
      ensures Holds(old(source.live)) && ArenasTaken(old(source.live), arenaCapacity) && Shaped()
      ensures source.live == if result.Success? then old(source.live)[block := arenaCapacity] else old(source.live)
      ensures result.Success? ==> block !in old(source.live)
    {
      ghost var grounds := source.live;
      ValidShaped();
      assert 0 < arenaCapacity <= MAX_ALLOC_SIZE;
      assert source.Fits(arenaCapacity) ==> source.CanServe(arenaCapacity) by { source.FitsServed(arenaCapacity); }
      hide Holds, ArenasTaken, Handle.Fits, Handle.FitsAt, Handle.CanServe, Handle.Refusal, Handle.AsksHost, Handle.Opened;
      result, block := source.Alloc(arenaCapacity);
    }

    /** The ground at `block` becomes the arena to cut from, once the old one is split up. */
    method MoveOn(block: nat, ghost grounds: map<nat, nat>)
      requires Holds(grounds) && current.Remaining() < Pow(minLog2) && block !in grounds
      modifies this`current
      ensures Holds(grounds[block := arenaCapacity]) && current == Arena(block, 0, arenaCapacity, 0, false)
    {
      hide Placed, Listed, Open, Pow, Rest, Bytes, Conserved;
      var next := Arena(block, 0, arenaCapacity, 0, false);
      ArenaChanged(lent + cached, grounds, current, arenaCapacity, minLog2, next);
      EndOfArena(grounds, current, arenaCapacity, lentBytes, cachedBytes, minLog2, block);
      current := next;
    }

    /** A block of the current arena goes to a caller. */
    method CutToCaller(asked: nat, ghost grounds: map<nat, nat>) returns (address: nat)
      requires Holds(grounds) && ArenasTaken(grounds, arenaCapacity)
      requires asked <= maxLog2 && Pow(Grade(asked, minLog2)) <= current.Remaining()
      modifies this
      ensures Holds(grounds) && lent == old(lent) + {Block(address, asked)} && cached == old(cached)
      ensures refusals == old(refusals) && freeHead == old(freeHead) && address == old(current).Tail()
      ensures current == old(current).(lastIndex := old(current).lastIndex + Pow(Grade(asked, minLog2)))
      ensures Block(address, asked) !in old(lent) && address % 8 == 0 && address > 0
      ensures lentBytes == old(lentBytes) + Pow(Grade(asked, minLog2)) && cachedBytes == old(cachedBytes)
    {
      hide Listed, Bytes, Rest, Conserved, Pow;
      CutConserved(|grounds|, arenaCapacity, lentBytes, cachedBytes, current, minLog2, Pow(Grade(asked, minLog2)), 0);
      ghost var b := Block(current.Tail(), asked);
      ghost var blocks := lent + cached;
      address := CutCurrent(b, grounds, Pow(Grade(asked, minLog2)));
      assert blocks + {b} == (lent + {b}) + cached;
      BytesWith(lent, b, minLog2);
      lent := lent + {b};
      lentBytes := lentBytes + Pow(Grade(asked, minLog2));
    }

    /** What `CanServe` comes to, and what a generous pool makes of it. */
    lemma Serving(log2: nat)
      requires Valid()
      ensures Shaped() && SourceValid() && 3 <= minLog2 <= maxLog2 && |freeHead| == maxLog2 - minLog2 + 1
      ensures current.lastIndex <= current.capacity && source.Valid()
      ensures Grade(log2, minLog2) == if log2 < minLog2 then minLog2 else log2
      ensures log2 <= maxLog2 ==> ListOf(log2) == freeHead[Grade(log2, minLog2) - minLog2]
      ensures CanServe(log2) <==>
                log2 <= maxLog2
                && (|freeHead[Grade(log2, minLog2) - minLog2]| > 0
                    || Pow(Grade(log2, minLog2)) <= current.Remaining() || source.CanServe(arenaCapacity))
      ensures Generous() ==> DEFAULT_MAX_LOG2 <= maxLog2 && source.CanServe(arenaCapacity)
    {
      hide Placed, Listed, Open, Rest, Bytes, Conserved, Pow, Handle.CanServe, Handle.Valid;
      if Generous() { SourceGives(); }
    }

    ghost method NoteRefusal()
      requires Valid() && !Generous()
      modifies this`refusals
      ensures Valid() && Shaped() && refusals == old(refusals) + 1
    {
      hide Open, Rest, Bytes, SourceValid, Placed, Pow, Listed, Conserved, ArenasTaken;
      refusals := refusals + 1;
    }

    /** `arnm_graded_block_pool_alloc_fresh`: the list of the grade is empty. */
    method AllocFresh(asked: nat) returns (result: Result, address: nat)
      requires Valid() && asked <= maxLog2 && |freeHead[Grade(asked, minLog2) - minLog2]| == 0
      modifies this, source
      ensures Valid() && Shaped() && source.bytes == old(source.bytes) && refusals == old(refusals)
      ensures result.Success? ==> lent == old(lent) + {Block(address, asked)} && Block(address, asked) !in old(lent)
      ensures result.Success? ==> address % 8 == 0 && address > 0
      ensures result.Success? ==> lentBytes == old(lentBytes) + Pow(Grade(asked, minLog2))
      ensures if Pow(Grade(asked, minLog2)) <= old(current).Remaining() then
                result.Success? && address == old(current).Tail() && freeHead == old(freeHead)
              else
                result == (if old(source.CanServe(arenaCapacity)) then Success else old(source.Refusal(arenaCapacity)))
                && (result.Success? ==> address == current.base && address !in old(source.live))
                && (old(source.Fits(arenaCapacity)) ==> address == old(source.FitsAt(arenaCapacity)))
      ensures !result.Success? ==> lent == old(lent) && lentBytes == old(lentBytes)
                                   && cached == old(cached) && freeHead == old(freeHead)
    {
      hide Holds, SourceValid, Pow, Generous, Handle.CanServe, Handle.Refusal, Handle.Fits, Handle.FitsAt;
      ValidShaped();
      var log2 := Grade(asked, minLog2);
      result, address := Success, 0;
      if current.Remaining() < Pow(log2) {
        result := NextArena(log2);
        if !result.Success? { return; }
        ValidShaped();
        // what was left of the old arena was less than a block of this grade
        if freeHead[log2 - minLog2] != [] { assert false; }
        PowMonotone(log2, maxLog2);
      }
      address := CutToCaller(asked, source.live);
      ValidShaped();
    }

    /**
     * `arnm_graded_block_pool_alloc_log2`: the head of the grade's list, else the next bytes of the
     * current arena, else the first bytes of a new one, and refused only where the chain refuses that.
     */
    method AllocLog2(log2: nat) returns (result: Result, address: nat)
      requires Valid()
      modifies this, source
      ensures Valid() && Shaped() && source.bytes == old(source.bytes)
      ensures refusals == old(refusals) + if result.Success? || log2 > DEFAULT_MAX_LOG2 then 0 else 1
      ensures result.Success? <==> old(CanServe(log2))
      ensures log2 > maxLog2 <==> result.SizeExceed?
      ensures log2 <= maxLog2 && old(|ListOf(log2)|) > 0 ==>
                result.Success? && old(ListOf(log2)) == [address] + ListOf(log2) && current == old(current)
                && freeHead == old(freeHead)[Grade(log2, minLog2) - minLog2 := ListOf(log2)]
      ensures log2 <= maxLog2 && old(|ListOf(log2)|) == 0 && Pow(Grade(log2, minLog2)) <= old(current).Remaining() ==>
                result.Success? && address == old(current).Tail() && freeHead == old(freeHead)
      ensures log2 <= maxLog2 && old(|ListOf(log2)|) == 0 && old(current).Remaining() < Pow(Grade(log2, minLog2)) ==>
                result == (if old(source.CanServe(arenaCapacity)) then Success else old(source.Refusal(arenaCapacity)))
                && (old(source.Fits(arenaCapacity)) ==> address == old(source.FitsAt(arenaCapacity)))
                && (result.Success? ==> address !in old(source.live))
      ensures result.Success? ==> lent == old(lent) + {Block(address, log2)} && Block(address, log2) !in old(lent)
      ensures result.Success? ==> address % 8 == 0 && address > 0
      ensures result.Success? ==> lentBytes == old(lentBytes) + Pow(Grade(log2, minLog2))
      ensures !result.Success? ==> lent == old(lent) && lentBytes == old(lentBytes) && freeHead == old(freeHead)
    {
      hide *;
      Serving(log2);
      if log2 > maxLog2 {
        if log2 <= DEFAULT_MAX_LOG2 { NoteRefusal(); }
        return SizeExceed, 0;
      }
      var grade := Grade(log2, minLog2);
      if |freeHead[grade - minLog2]| == 0 {
        result, address := AllocFresh(log2);
        if !result.Success? && log2 <= DEFAULT_MAX_LOG2 { NoteRefusal(); }
        return;
      }
      address := freeHead[grade - minLog2][0];
      TakeFromList(address, log2);
      result := Success;
    }

    /** The head of a list goes to a caller. */
    method TakeFromList(address: nat, log2: nat)
      requires Valid() && Shaped() && log2 <= maxLog2 && |freeHead[Grade(log2, minLog2) - minLog2]| > 0
      requires address == freeHead[Grade(log2, minLog2) - minLog2][0]
      modifies this
      ensures Valid() && Shaped() && lent == old(lent) + {Block(address, log2)} && Block(address, log2) !in old(lent)
      ensures refusals == old(refusals) && current == old(current)
      ensures old(ListOf(log2)) == [address] + ListOf(log2)
      ensures freeHead == old(freeHead)[Grade(log2, minLog2) - minLog2 := ListOf(log2)]
      ensures lentBytes == old(lentBytes) + Pow(Grade(log2, minLog2))
      ensures address % 8 == 0 && address > 0
    {
      hide Open, Rest, Bytes, SourceValid, Placed, Pow, Conserved, Listed, ArenasTaken;
      var grade := Grade(log2, minLog2);
      ghost var kept, taken := Block(address, grade), Block(address, log2);
      ValidShaped();
      Popped(freeHead, cached, minLog2, maxLog2, grade - minLog2);
      BytesWithout(cached, kept, minLog2);
      Relabelled(lent, cached, kept, taken, source.live, current, arenaCapacity, minLog2);
      BytesWith(lent, taken, minLog2);
      HandedOver(|source.live|, arenaCapacity, lentBytes, cachedBytes, current, minLog2,
                 lentBytes + Pow(grade), cachedBytes - Pow(grade));
      freeHead := freeHead[grade - minLog2 := freeHead[grade - minLog2][1..]];
      cached := cached - {kept};
      lent := lent + {taken};
      cachedBytes := cachedBytes - Pow(grade);
      lentBytes := lentBytes + Pow(grade);
    }

    /**
     * `arnm_graded_block_pool_free_log2` of a block the pool lent; `taken` is the exponent it was
     * taken with, of the same grade.
     */
    method FreeLog2(address: nat, log2: nat, ghost taken: nat) returns (result: Result)
      requires Valid()
      requires address != 0 ==> Block(address, taken) in lent && (log2 <= maxLog2 ==> Grade(taken, minLog2) == Grade(log2, minLog2))
      modifies this
      ensures Valid() && refusals == old(refusals)
      ensures result == if address != 0 && log2 > maxLog2 then SizeExceed else Success
      ensures address != 0 && log2 <= maxLog2 ==> lent == old(lent) - {Block(address, taken)}
      ensures address != 0 && log2 <= maxLog2 ==> lentBytes == old(lentBytes) - Pow(Grade(log2, minLog2))
      ensures address != 0 && log2 <= maxLog2 ==>
                Shaped() && ListOf(log2) == [address] + old(ListOf(log2))
                && freeHead == old(freeHead)[Grade(log2, minLog2) - minLog2 := ListOf(log2)]
      ensures current == old(current)
      ensures address == 0 || log2 > maxLog2 ==> lent == old(lent) && lentBytes == old(lentBytes)
    {
      hide Open, Rest, Bytes, SourceValid, Placed, Pow, Conserved, Listed, ArenasTaken;
      if address == 0 { return Success; }
      if log2 > maxLog2 { return SizeExceed; }
      var grade := Grade(log2, minLog2);
      ghost var given, kept := Block(address, taken), Block(address, grade);
      BytesWithout(lent, given, minLog2);
      ValidShaped();
      Swapped(lent, cached);
      Relabelled(cached, lent, given, kept, source.live, current, arenaCapacity, minLog2);
      Swapped(lent - {given}, cached + {kept});
      BytesWith(cached, kept, minLog2);
      Pushed(freeHead, cached, minLog2, maxLog2, kept);
      HandedOver(|source.live|, arenaCapacity, lentBytes, cachedBytes, current, minLog2,
                 lentBytes - Pow(grade), cachedBytes + Pow(grade));
      freeHead := freeHead[grade - minLog2 := [address] + freeHead[grade - minLog2]];
      lent := lent - {given};
      cached := cached + {kept};
      lentBytes := lentBytes - Pow(grade);
      cachedBytes := cachedBytes + Pow(grade);
      result := Success;
    }

    /** `size_to_log2`. */
    method SizeToLog2(size: nat) returns (result: Result, log2: nat)
      requires Valid() && size <= UINT32_MAX
      ensures size == 0 <==> result.InvalidParam?
      ensures size > MAX_ALLOC_SIZE <==> result.ArithmeticOverflow?
      ensures result.Success? <==> 0 < size <= MAX_ALLOC_SIZE && CeilLog2(Align8(size)) <= maxLog2
      ensures !result.Success? ==> result.InvalidParam? || result.ArithmeticOverflow? || result.SizeExceed?
      ensures result.Success? ==> minLog2 <= log2 <= maxLog2 && size <= Pow(log2)
      ensures result.Success? && log2 > minLog2 ==> Pow(log2) < 2 * Align8(size)
      ensures result.Success? ==> log2 == GradeOf(size, minLog2)
    {
      hide Holds, SourceValid;
      ValidShaped();
      log2 := 0;
      if size == 0 { return InvalidParam, 0; }
      if size > MAX_ALLOC_SIZE { return ArithmeticOverflow, 0; }
      var exponent := CeilLog2(Align8(size));
      CeilLog2Fits(Align8(size));
      if exponent > maxLog2 { return SizeExceed, 0; }
      log2 := if exponent < minLog2 then minLog2 else exponent;
      PowMonotone(exponent, log2);
      result := Success;
    }

    /** `arnm_graded_block_pool_alloc`. */
    method Alloc(size: nat) returns (result: Result, address: nat)
      requires Valid() && size <= UINT32_MAX
      modifies this, source
      ensures Valid() && Shaped() && source.bytes == old(source.bytes)
      ensures result.InvalidParam? <==> size == 0
      ensures result.ArithmeticOverflow? <==> size > MAX_ALLOC_SIZE
      ensures result.SizeExceed? <==> 0 < size <= MAX_ALLOC_SIZE && GradeOf(size, minLog2) > maxLog2
      ensures result.Success? <==> 0 < size <= MAX_ALLOC_SIZE && old(CanServe(GradeOf(size, minLog2)))
      ensures result.Success? && old(|ListOf(GradeOf(size, minLog2))|) > 0 ==>
                old(ListOf(GradeOf(size, minLog2))) == [address] + ListOf(GradeOf(size, minLog2))
      ensures result.Success? ==> size <= Pow(GradeOf(size, minLog2))
      ensures result.Success? ==> lent == old(lent) + {Block(address, GradeOf(size, minLog2))} && address > 0
      ensures result.Success? ==> Block(address, GradeOf(size, minLog2)) !in old(lent)
      ensures !result.Success? ==> lent == old(lent) && lentBytes == old(lentBytes) && freeHead == old(freeHead)
    {
      hide *;
      ValidShaped();
      var log2;
      result, log2 := SizeToLog2(size);
      address := 0;
      if !result.Success? {
        Graded(size);
        return;
      }
      Serving(log2);
      result, address := AllocLog2(log2);
    }

    /** A pool has the grade of a size if and only if its largest grade reaches the size rounded up. */
    lemma Graded(size: nat)
      requires Shaped()
      ensures CeilLog2(Align8(size)) <= maxLog2 <==> GradeOf(size, minLog2) <= maxLog2
      ensures Valid() && GradeOf(size, minLog2) > maxLog2 ==> !CanServe(GradeOf(size, minLog2))
    {
      hide Holds, SourceValid;
    }

    /** `arnm_graded_block_pool_free`, told any size of the block's grade. */
    method Free(address: nat, size: nat) returns (result: Result)
      requires Valid() && size <= UINT32_MAX
      requires address != 0 && 0 < size <= MAX_ALLOC_SIZE && CeilLog2(Align8(size)) <= maxLog2 ==>
                 Block(address, GradeOf(size, minLog2)) in lent
      modifies this
      ensures Valid()
      ensures result.Success? && address != 0 ==> lent == old(lent) - {Block(address, GradeOf(size, minLog2))}
      ensures !result.Success? || address == 0 ==> lent == old(lent) && lentBytes == old(lentBytes)
      ensures result.Success? <==> address == 0 || (0 < size <= MAX_ALLOC_SIZE && CeilLog2(Align8(size)) <= maxLog2)
      ensures address != 0 ==> (result.InvalidParam? <==> size == 0) && (result.ArithmeticOverflow? <==> size > MAX_ALLOC_SIZE)
      ensures !result.Success? ==> result.InvalidParam? || result.ArithmeticOverflow? || result.SizeExceed?
    {
      hide Valid, Holds;
      if address == 0 { return Success; }
      var log2;
      result, log2 := SizeToLog2(size);
      if !result.Success? { return; }
      result := FreeLog2(address, log2, log2);
    }

    /** `arnm_graded_block_pool_realloc`: always a new block, the contents carried along. */
    method Realloc(buffer: nat, oldSize: nat, newSize: nat) returns (result: Result, out: nat)
      requires Valid() && oldSize <= UINT32_MAX && newSize <= UINT32_MAX
      requires buffer != 0 && oldSize > 0 ==>
                 Block(buffer, GradeOf(oldSize, minLog2)) in lent && oldSize <= MAX_ALLOC_SIZE
      modifies this, source
      ensures Valid()
      ensures result.Success? <==> 0 < newSize <= MAX_ALLOC_SIZE && old(CanServe(GradeOf(newSize, minLog2)))
      ensures result.InvalidParam? <==> newSize == 0
      ensures result.ArithmeticOverflow? <==> newSize > MAX_ALLOC_SIZE
      ensures result.SizeExceed? <==> 0 < newSize <= MAX_ALLOC_SIZE && GradeOf(newSize, minLog2) > maxLog2
      ensures !result.Success? ==> lent == old(lent) && source.bytes == old(source.bytes) && out == buffer
      ensures result.Success? ==> Block(out, GradeOf(newSize, minLog2)) !in old(lent)
      ensures result.Success? ==>
                lent == (if buffer != 0 && oldSize > 0 then old(lent) - {Block(buffer, GradeOf(oldSize, minLog2))}
                         else old(lent)) + {Block(out, GradeOf(newSize, minLog2))}
      ensures result.Success? && buffer != 0 ==>
                Carried(old(source.bytes), buffer, source.bytes, out, if oldSize < newSize then oldSize else newSize)
      ensures forall a: nat :: a < out || out + newSize <= a ==> source.bytes(a) == old(source.bytes)(a)
    {
      hide Valid, Holds;
      result, out := Alloc(newSize);
      if !result.Success? { return result, buffer; }
      if buffer != 0 && oldSize > 0 {
        CopyBytes(out, buffer, if oldSize < newSize then oldSize else newSize);
        LentGrade(Block(buffer, GradeOf(oldSize, minLog2)));
        result := Free(buffer, oldSize);
      }
    }

    /** A block that is lent is of a grade the pool has. */
    lemma LentGrade(b: Block)
      requires Valid() && b in lent
      ensures b.log2 <= maxLog2
    {
    }

    method CopyBytes(target: nat, from: nat, size: nat)
      requires Valid()
      modifies source`bytes
      ensures Valid()
      ensures source.bytes == Copied(old(source.bytes), target, from, size)
    {
      source.bytes := Copied(source.bytes, target, from, size);
    }

    /**
     * `arnm_graded_block_pool_reset`: `lent` and `cached` are empty, and so is what the chain has
     * reserved.
     */
    method Reset()
      requires Valid()
      modifies this, source
      ensures Valid() && lent == {} && cached == {} && lentBytes == 0 && cachedBytes == 0 && refusals == old(refusals)
      ensures source.live == map[] && |source.arenas| == |old(source.arenas)|
    {
      hide Holds;
      ValidShaped();
      GradesFit(source.live);
      source.Reset();
      Forget();
    }

    lemma GradesFit(grounds: map<nat, nat>)
      requires Holds(grounds)
      ensures Pow(maxLog2) <= arenaCapacity <= MAX_ALLOC_SIZE && arenaCapacity % 8 == 0
    {
    }

    /** Brings the pool's own fields to their values after `init`. */
    method Forget()
      requires Shaped() && Pow(maxLog2) <= arenaCapacity <= MAX_ALLOC_SIZE && arenaCapacity % 8 == 0
      modifies this
      ensures Holds(map[]) && lent == {} && cached == {} && lentBytes == 0 && cachedBytes == 0 && refusals == old(refusals)
    {
      hide Placed, Listed, Bytes, Conserved, Open, Pow, Rest;
      freeHead := EmptyLists(|freeHead|);
      current := Arena(0, 0, 0, 0, false);
      lentBytes, cachedBytes := 0, 0;
      lent, cached := {}, {};
      NothingCut(freeHead, current, arenaCapacity, minLog2, maxLog2);
      assert lent + cached == {};
    }
  }

  function EmptyLists(n: nat): (free: seq<seq<nat>>)
    ensures |free| == n && forall i :: 0 <= i < n ==> free[i] == []
  {
    seq(n, _ => [])
  }

  /** Bytes cut off the current arena are lent or cached from then on. */
  lemma CutConserved(arenas: nat, capacity: nat, lentBytes: nat, cachedBytes: nat, current: Arena, minLog2: nat,
                     lend: nat, cache: nat)
    requires current.lastIndex + lend + cache <= current.capacity
    requires Conserved(arenas, capacity, lentBytes, cachedBytes, current, minLog2)
    ensures Conserved(arenas, capacity, lentBytes + lend, cachedBytes + cache,
                      current.(lastIndex := current.lastIndex + lend + cache), minLog2)
  {
    hide Rest, Pow;
  }

  /** What a block changing hands adds to one counter it takes from the other. */
  lemma HandedOver(arenas: nat, capacity: nat, lentBytes: nat, cachedBytes: nat, current: Arena, minLog2: nat,
                   lend: nat, cache: nat)
    requires current.lastIndex <= current.capacity && lend + cache == lentBytes + cachedBytes
    requires Conserved(arenas, capacity, lentBytes, cachedBytes, current, minLog2)
    ensures Conserved(arenas, capacity, lend, cache, current, minLog2)
  {
    hide Rest, Pow;
  }

  /** A pool that has cut nothing. */
  lemma NothingCut(free: seq<seq<nat>>, current: Arena, capacity: nat, minLog2: nat, maxLog2: nat)
    requires current.capacity == 0 == current.lastIndex
    requires minLog2 <= maxLog2 && |free| == maxLog2 - minLog2 + 1 && forall i :: 0 <= i < |free| ==> free[i] == []
    ensures Placed({}, map[], current, capacity, minLog2) && Listed(free, {}, minLog2, maxLog2)
    ensures Bytes({}, minLog2) == 0 && Conserved(0, capacity, 0, 0, current, minLog2)
    ensures Open(current, map[], capacity, minLog2)
  {
    hide Pow, Rest;
    assert Closed(0, current) == 0;
  }

  /** The grade a size is served from. */
  function GradeOf(size: nat, minLog2: nat): nat { Grade(CeilLog2(Align8(size)), minLog2) }

  lemma Swapped(a: set<Block>, b: set<Block>)
    ensures a + b == b + a
  {
  }

  /** A block changes hands: same bytes, other label. */
  lemma Relabelled(to: set<Block>, from: set<Block>, b: Block, c: Block, grounds: map<nat, nat>, current: Arena,
                   capacity: nat, minLog2: nat)
    requires Placed(to + from, grounds, current, capacity, minLog2) && to !! from && b in from
    requires ArenasTaken(grounds, capacity)
    requires c.address == b.address && Size(c, minLog2) == Size(b, minLog2)
    ensures c !in to && to + {c} !! from - {b}
    ensures 0 < b.address && b.address % 8 == 0
    ensures Placed(to + {c} + (from - {b}), grounds, current, capacity, minLog2)
  {
    hide Size;
    assert Home(grounds, current, capacity, b, minLog2);
    forall d | d in to + {c} + (from - {b}) ensures Home(grounds, current, capacity, d, minLog2) {
      var e := if d == c then b else d;
      assert Home(grounds, current, capacity, e, minLog2);
      var g :| g in grounds && HomeAt(g, current, capacity, e, minLog2);
      assert HomeAt(g, current, capacity, d, minLog2);
    }
    forall d | d in to + (from - {b}) ensures d != c && Clear(c, d, minLog2) {
      assert Clear(b, d, minLog2);
    }
  }

  /** Leaving an arena: what stays in it is the remainder no grade takes. */
  lemma EndOfArena(grounds: map<nat, nat>, current: Arena, capacity: nat, lentBytes: nat, cachedBytes: nat,
                   minLog2: nat, block: nat)
    requires Open(current, grounds, capacity, minLog2) && current.Remaining() < Pow(minLog2)
    requires Conserved(|grounds|, capacity, lentBytes, cachedBytes, current, minLog2) && block !in grounds
    ensures Conserved(|grounds[block := capacity]|, capacity, lentBytes, cachedBytes,
                      Arena(block, 0, capacity, 0, false), minLog2)
    ensures Open(Arena(block, 0, capacity, 0, false), grounds[block := capacity], capacity, minLog2)
  {
    var m := Pow(minLog2);
    hide Pow;
    assert Rest(0, m) == 0;
    assert grounds[block := capacity].Keys == grounds.Keys + {block};
    assert |grounds[block := capacity]| == |grounds| + 1;
    if current.capacity > 0 {
      RestOfSum(current.lastIndex, current.Remaining(), m);
      assert Rest(capacity, m) == current.Remaining();
    }
    hide Rest, Open;
    OneMoreOf(|grounds|, capacity);
    OneMoreOf(|grounds| - 1, Rest(capacity, m));
  }

  lemma OneMoreOf(n: int, c: nat)
    ensures (n + 1) * c == n * c + c
  {
  }

  /** What `init` makes of `count`: a multiple of the largest grade that an arena can have. */
  function ArenaCapacity(maxLog2: nat, count: nat): nat {
    if Pow(maxLog2) * count > MAX_ALLOC_SIZE then MAX_ALLOC_SIZE else Pow(maxLog2) * count
  }

  lemma CapacitySound(minLog2: nat, maxLog2: nat, count: nat)
    requires 3 <= minLog2 <= maxLog2 <= 31 && 0 < count
    ensures Pow(maxLog2) <= ArenaCapacity(maxLog2, count) <= MAX_ALLOC_SIZE
    ensures ArenaCapacity(maxLog2, count) % 8 == 0 && Pow(minLog2) - 1 < ArenaCapacity(maxLog2, count)
  {
    hide Pow;
    PowMonotone(minLog2, maxLog2);
    PowMonotone(maxLog2, 31);
    Pow31();
    GradeAligned(maxLog2);
    EightTimes(Pow(maxLog2), count);
  }

  lemma EightTimes(a: nat, n: nat)
    requires a % 8 == 0
    ensures a * n % 8 == 0 && (n > 0 ==> a * n >= a)
  {
    if n > 0 {
      EightTimes(a, n - 1);
      assert a * n == a * (n - 1) + a;
      Eights(a * (n - 1), a);
    }
  }

  lemma Pow31()
    ensures Pow(31) == 0x8000_0000
  {
    assert Pow(10) == 1024;
    assert Pow(20) == 0x10_0000;
    assert Pow(30) == 0x4000_0000;
  }
}
