// The bucket vector, as a refinement of a sequence.
//
// `index` maps a bucket number to an array of `cap` slots, and `contents` is the sequence those
// slots spell up to `tail`. Each call that may ask the allocator takes the answers as parameters.
module BucketVector {
  import opened Results

  const UINT32_MAX: nat := 0xffff_ffff
  /** `ARNM_BVEC_MAX_INDEX_CAPACITY`, with pointers of eight bytes. */
  const MAX_INDEX_CAPACITY: nat := 8191
  const DEFAULT_GROW_STEP: nat := 8

  /** The index array's bytes are addressed with 16 bits, 7 of them spare. */
  lemma IndexLimit(slots: nat)
    ensures slots <= MAX_INDEX_CAPACITY <==> slots * 8 + 7 <= 0xffff
  {
  }

  /** Success, with or without the warning. */
  predicate Done(result: Result) { result.Success? || result.NotReclaimed? }

  /** The elements `n` buckets hold. */
  function Room(n: nat, cap: nat): nat { n * cap }

  /** Where slot `k` of bucket `b` comes in the sequence. */
  function Place(b: nat, k: nat, cap: nat): nat { Room(b, cap) + k }

  lemma RoomNext(n: nat, cap: nat)
    ensures Room(n + 1, cap) == Room(n, cap) + cap && Room(0, cap) == 0
  {
  }

  lemma {:induction false} RoomGrows(n: nat, m: nat, cap: nat)
    requires n < m
    ensures Room(n, cap) + cap <= Room(m, cap)
    decreases m
  {
    RoomNext(m - 1, cap);
    hide Room;
    if n < m - 1 { RoomGrows(n, m - 1, cap); }
  }

  lemma RoomBounded(n: nat, cap: nat)
    requires n <= MAX_INDEX_CAPACITY && cap <= 0x8000
    ensures Room(n, cap) <= Room(MAX_INDEX_CAPACITY, cap) <= UINT32_MAX
  {
    RoomSmall(cap);
    hide Room;
    if n < MAX_INDEX_CAPACITY { RoomGrows(n, MAX_INDEX_CAPACITY, cap); }
  }

  lemma RoomSmall(cap: nat)
    requires cap <= 0x8000
    ensures Room(MAX_INDEX_CAPACITY, cap) <= UINT32_MAX
  {
  }

  /** The slots of an earlier bucket come first. */
  lemma InOrder(b: nat, k: nat, c: nat, l: nat, cap: nat)
    requires k < cap && b < c
    ensures Place(b, k, cap) < Place(c, l, cap)
  {
    hide Room;
    RoomGrows(b, c, cap);
  }

  /** The shift of `arnm_bvec_get`. */
  function BucketOf(i: nat, cap: nat): nat
    requires cap > 0
  {
    i / cap
  }

  /** The mask of `arnm_bvec_get`. */
  function SlotIn(i: nat, cap: nat): nat
    requires cap > 0
  {
    i % cap
  }

  /** Shift and mask name the bucket and the slot of an element. */
  lemma SlotOf(i: nat, cap: nat)
    requires 0 < cap
    ensures Place(BucketOf(i, cap), SlotIn(i, cap), cap) == i && SlotIn(i, cap) < cap
  {
  }

  /** The whole buckets `count` elements take. */
  function Needed(count: nat, cap: nat): nat
    requires cap > 0
  {
    (count + cap - 1) / cap
  }

  /** The fewest that hold them. */
  lemma NeededIsLeast(count: nat, cap: nat, n: nat)
    requires 0 < cap
    ensures Needed(count, cap) <= n <==> count <= Room(n, cap)
  {
    var needed := Needed(count, cap);
    NeededHolds(count, cap);
    hide Room, Needed;
    if n < needed { RoomGrows(n, needed, cap); }
    if needed < n { RoomGrows(needed, n, cap); }
  }

  lemma NeededHolds(count: nat, cap: nat)
    requires 0 < cap
    ensures count <= Room(Needed(count, cap), cap) < count + cap
  {
  }

  /** `bucket_bytes` */
  function BucketBytes(elementSize: nat, cap: nat): nat { elementSize * cap }

  /** Comparing with the quotient is comparing the product. */
  lemma FitsShifted(elementSize: nat, cap: nat)
    requires cap > 0
    ensures elementSize <= UINT32_MAX / cap <==> BucketBytes(elementSize, cap) <= UINT32_MAX
  {
    var most := UINT32_MAX / cap;
    assert Room(most, cap) <= UINT32_MAX < Room(most, cap) + cap;
    if most < elementSize { RoomGrows(most, elementSize, cap); }
    if elementSize < most { RoomGrows(elementSize, most, cap); }
  }

  class Vector<T(0)> {
    const cap: nat
    const elementSize: nat
    const growStep: nat
    const newestFirst: bool
    var index: seq<array?<T>>
    var held: nat
    var tail: array?<T>
    var tailIndex: nat
    var tailUsed: nat
    var size: nat
    ghost var contents: seq<T>

    predicate Sized() {
      2 <= cap <= 0x8000 && 1 <= elementSize <= 0xffff && BucketBytes(elementSize, cap) <= UINT32_MAX && 1 <= growStep <= 0xff
    }

    /** The slots below `held` hold buckets, each its own; those above hold none. */
    ghost predicate Indexed()
      reads this
    {
      held <= |index| <= MAX_INDEX_CAPACITY
      && (forall b :: 0 <= b < held ==> index[b] != null && index[b].Length == cap)
      && (forall b, c :: 0 <= b < c < held ==> index[b] != index[c])
      && (forall b :: held <= b < |index| ==> index[b] == null)
    }

    /** Where the elements end. */
    ghost predicate Tailed()
      reads this
    {
      if tail == null then tailIndex == 0 && tailUsed == cap && size == 0
      else tailIndex < held <= |index| && tail == index[tailIndex] && 1 <= tailUsed <= cap
           && size == Room(tailIndex, cap) + tailUsed
    }

    /** Every slot in use holds its element of the sequence. */
    ghost predicate Stored()
      requires Indexed() && Tailed()
      reads this, index
    {
      |contents| == size
      && forall b, k :: 0 <= b < InUse() && 0 <= k < BucketSize(b) ==>
           Place(b, k, cap) < size && contents[Place(b, k, cap)] == index[b][k]
    }

    ghost predicate Valid()
      reads this, index
    {
      Sized() && Indexed() && Tailed() && Stored()
    }

    /** `arnm_bvec_bucket_count` */
    function InUse(): (n: nat)
      reads this
      ensures Tailed() ==> n <= held && (n == 0 <==> size == 0)
    {
      if tail != null then tailIndex + 1 else 0
    }

    /** `arnm_bvec_bucket_size` */
    function BucketSize(b: nat): nat
      reads this
    {
      if b == tailIndex then tailUsed else cap
    }

    /** `is_state_valid`, on a vector that was initialized. */
    predicate StateChecks()
      reads this
    {
      (|index| == 0 ==> held == 0 && tailIndex == 0 && tail == null && size == 0)
      && held <= |index|
      && (if tail != null then tailIndex < held else tailIndex == 0)
      && size <= Room(held, cap)
    }

    /** The check passes in every reachable state. */
    lemma Passes()
      requires Valid()
      ensures Sized() && cap > 0 && StateChecks() && held <= |index| <= MAX_INDEX_CAPACITY && size <= Room(InUse(), cap) <= UINT32_MAX
    {
      hide Stored, Place, Room, BucketBytes;
      if tail != null { RoomNext(tailIndex, cap); }
      RoomNext(0, cap);
      if InUse() < held { RoomGrows(InUse(), held, cap); }
      RoomBounded(InUse(), cap);
    }

    lemma Counted()
      requires Valid()
      ensures held <= |index| <= MAX_INDEX_CAPACITY
    {
    }

    /** An empty vector of these sizes. */
    constructor (log2: nat, growStep: nat, elementSize: nat, onArena: bool)
      requires 1 <= log2 <= 15 && growStep <= 0xff && 1 <= elementSize <= 0xffff
      requires BucketBytes(elementSize, Pow2(log2)) <= UINT32_MAX
      ensures Valid() && contents == [] && held == 0 && index == []
      ensures cap == Pow2(log2) && this.elementSize == elementSize && newestFirst == onArena
      ensures this.growStep == if growStep == 0 then 8 else growStep
    {
      Pow2Bounds(log2);
      cap, this.elementSize, newestFirst := Pow2(log2), elementSize, onArena;
      this.growStep := if growStep == 0 then DEFAULT_GROW_STEP else growStep;
      index, held, contents := [], 0, [];
      tail, tailIndex, tailUsed, size := null, 0, Pow2(log2), 0;
    }

    /** `arnm_bvec_init`: refused exactly where a bucket's slots or bytes leave their integer widths. */
    static method Init(log2: nat, growStep: nat, elementSize: nat, onArena: bool) returns (result: Result, v: Vector?<T>)
      requires growStep <= 0xff
      ensures result == if v == null then InvalidParam else Success
      ensures result.Success? <==>
                1 <= log2 <= 15 && 1 <= elementSize <= 0xffff && BucketBytes(elementSize, Pow2(log2)) <= UINT32_MAX
      ensures v != null ==> fresh(v) && v.Valid() && v.contents == [] && v.cap == Pow2(log2) && v.elementSize == elementSize
      ensures v != null ==> v.growStep == if growStep == 0 then 8 else growStep
    {
      if elementSize == 0 || log2 == 0 || log2 > 15 { return InvalidParam, null; }
      FitsShifted(elementSize, Pow2(log2));
      if elementSize > UINT32_MAX / Pow2(log2) || elementSize > 0xffff { return InvalidParam, null; }
      v := new Vector(log2, growStep, elementSize, onArena);
      result := Success;
    }

    /** What the index holds at `b` stays a bucket of the vector, whatever else is appended to it. */
    twostate predicate Kept(count: nat)
      reads this
    {
      count <= |old(index)| && count <= |index| && forall b :: 0 <= b < count ==> index[b] == old(index[b])
    }

    /** The index array is given `capacity` slots, the new ones empty. */
    method Widen(capacity: nat, answer: Result) returns (result: Result)
      requires Valid() && |index| <= capacity <= MAX_INDEX_CAPACITY
      modifies this`index
      ensures Valid() && result == answer && Kept(|old(index)|)
      ensures |index| == if Done(answer) then capacity else |old(index)|
    {
      hide Place;
      if Done(answer) { index := index + seq(capacity - |index|, _ => null); }
      result := answer;
    }

    /** A bucket from the allocator joins the others. */
    method AddBucket()
      requires Valid() && held < |index|
      modifies this`index, this`held
      ensures Valid() && held == old(held) + 1 && Kept(old(held)) && |index| == |old(index)|
      ensures fresh(index[old(held)])
    {
      hide Place;
      var bucket := new T[cap];
      index := index[held := bucket];
      held := held + 1;
    }

    /** The bytes of the whole buckets fit 32 bits. */
    predicate Countable(count: nat)
      requires Sized()
    {
      count <= (UINT32_MAX - (cap - 1)) / elementSize
    }

    /** Comparing with the quotient leaves room for the elements and the rounding up. */
    lemma CountableBytes(count: nat)
      requires Sized()
      ensures Countable(count) <==> BucketBytes(elementSize, count) + cap - 1 <= UINT32_MAX
    {
      var room := UINT32_MAX - (cap - 1);
      var most := room / elementSize;
      assert Room(most, elementSize) <= room < Room(most, elementSize) + elementSize;
      assert BucketBytes(elementSize, count) == Room(count, elementSize);
      hide Room, BucketBytes;
      if most < count { RoomGrows(most, count, elementSize); }
      if count < most { RoomGrows(count, most, elementSize); }
    }

    /** Buckets until `needed` are held, or the allocator has `granted` all it has. */
    method Fill(needed: nat, granted: nat) returns (filled: bool)
      requires Valid() && needed <= |index|
      modifies this`index, this`held
      ensures Valid() && held >= old(held) && Kept(old(held)) && (filled <==> needed - old(held) <= granted)
      ensures filled && old(held) <= needed ==> held == needed
      ensures !filled ==> held == old(held) + granted
      ensures forall b :: old(held) <= b < held ==> fresh(index[b])
      ensures |index| == |old(index)|
    {
      hide Place;
      var left: nat := granted;
      while held < needed
        invariant Valid() && old(held) <= held && (held == old(held) || held <= needed) && needed <= |index|
        invariant left + held == granted + old(held) && Kept(old(held)) && |index| == |old(index)|
        invariant forall b :: old(held) <= b < held ==> fresh(index[b])
        decreases needed - held
      {
        if left == 0 { return false; }
        AddBucket();
        left := left - 1;
      }
      filled := true;
    }

    /**
     * `arnm_bvec_reserve`: the allocator answers `indexAnswer` for the index array and hands
     * over `granted` buckets before it answers `refusal`.
     */
    method Reserve(count: nat, indexAnswer: Result, granted: nat, refusal: Result) returns (result: Result)
      requires Valid() && count <= UINT32_MAX && !refusal.Success?
      modifies this
      ensures Valid() && contents == old(contents) && held >= old(held) && Kept(old(held))
      ensures tail == old(tail) && tailIndex == old(tailIndex) && tailUsed == old(tailUsed)
      ensures forall b :: old(held) <= b < held ==> fresh(index[b])
      ensures count == 0 ==> result.InvalidParam?
      ensures count > 0 && (!Countable(count) || Needed(count, cap) > MAX_INDEX_CAPACITY) ==>
                result.ArithmeticOverflow? && index == old(index)
      ensures result.Success? ==> count <= Room(held, cap) && (held == old(held) || held == Needed(count, cap))
      ensures 0 < count <= Room(old(held), cap) && Countable(count) ==> result.Success?
      ensures result.Success? <==>
                (0 < count && Countable(count) && Needed(count, cap) <= MAX_INDEX_CAPACITY
                 && (Needed(count, cap) <= old(held)
                     || ((Needed(count, cap) <= |old(index)| || indexAnswer.Success? || indexAnswer.NotReclaimed?)
                         && Needed(count, cap) - old(held) <= granted)))
      ensures count > 0 && Countable(count) && Needed(count, cap) <= MAX_INDEX_CAPACITY && !result.Success? ==>
                if Needed(count, cap) > |old(index)| && !indexAnswer.Success? && !indexAnswer.NotReclaimed? then
                  result == indexAnswer && held == old(held)
                else
                  result == refusal && held == old(held) + granted
      ensures count > 0 && Countable(count) && Needed(count, cap) <= MAX_INDEX_CAPACITY ==>
                |index| == if Needed(count, cap) > |old(index)| && (indexAnswer.Success? || indexAnswer.NotReclaimed?) then
                             Needed(count, cap)
                           else |old(index)|
    {
      hide Valid, Sized, Tailed, Place, BucketBytes, Stored, Indexed, Needed, Room, Countable, StateChecks, InUse;
      Passes();
      if count == 0 { return InvalidParam; }
      if !StateChecks() { return InvalidState; }
      if !Countable(count) { return ArithmeticOverflow; }
      var needed := Needed(count, cap);
      NeededIsLeast(count, cap, held);
      if needed > MAX_INDEX_CAPACITY { return ArithmeticOverflow; }
      if needed <= held { return Success; }
      if needed > |index| {
        Counted();
        result := Widen(needed, indexAnswer);
        if !Done(result) { return; }
      }
      var filled := Fill(needed, granted);
      NeededIsLeast(count, cap, needed);
      result := if filled then Success else refusal;
    }

    /** Every bucket that is held, with room for the index where none is left. */
    method Provide(indexAnswer: Result, bucketAnswer: Result) returns (result: Result)
      requires Valid()
      modifies this`index, this`held
      ensures Valid() && held >= old(held) && Kept(old(held))
      ensures result.Success? ==> held == old(held) + 1 && fresh(index[old(held)])
      ensures !result.Success? ==> held == old(held)
      ensures result.Success? <==>
                bucketAnswer.Success?
                && (old(held) < |old(index)|
                    || (|old(index)| + growStep <= MAX_INDEX_CAPACITY
                        && (indexAnswer.Success? || indexAnswer.NotReclaimed?)))
      ensures !result.Success? ==>
                result == if old(held) == |old(index)| && |old(index)| + growStep > MAX_INDEX_CAPACITY then
                            ArithmeticOverflow
                          else if old(held) == |old(index)| && !(indexAnswer.Success? || indexAnswer.NotReclaimed?) then
                            indexAnswer
                          else bucketAnswer
      ensures |index| == |old(index)|
                + if old(held) == |old(index)| && |old(index)| + growStep <= MAX_INDEX_CAPACITY
                     && (indexAnswer.Success? || indexAnswer.NotReclaimed?) then growStep else 0
    {
      hide Place, Stored, Tailed;
      if held == |index| {
        if |index| + growStep > MAX_INDEX_CAPACITY { return ArithmeticOverflow; }
        result := Widen(|index| + growStep, indexAnswer);
        if !Done(result) { return; }
      }
      if !bucketAnswer.Success? { return bucketAnswer; }
      AddBucket();
      result := Success;
    }

    /** The bucket at `next` becomes the open one, and the count goes up by one whatever it was. */
    method Open(next: nat)
      requires Valid() && next == InUse() < held
      modifies this`tail, this`tailIndex, this`tailUsed, this`size, this`contents
      ensures Sized() && Indexed() && (Tailed() <==> old(tailUsed) == cap) && (Tailed() ==> Valid())
      ensures contents == old(contents) + [index[next][0]] && size == old(size) + 1
      ensures tail == index[next] && tailIndex == next && tailUsed == 1
      ensures Place(next, 0, cap) + old(tailUsed) == old(size) + cap
    {
      hide Room, Place, Stored;
      NextPlace();
      if tailUsed == cap {
        OpenFull(next);
      } else {
        tail, tailIndex, tailUsed, size := index[next], next, 1, size + 1;
        contents := contents + [index[next][0]];
      }
    }

    /** Where the next bucket begins: behind the open one, full or not. */
    lemma NextPlace()
      requires Valid()
      ensures Room(InUse(), cap) + tailUsed == size + cap && Place(InUse(), 0, cap) == Room(InUse(), cap)
    {
      hide Room, Stored;
      if tail != null { RoomNext(tailIndex, cap); }
      RoomNext(0, cap);
    }

    /** With the open bucket full, the sequence has one more element, in the first slot of the next one. */
    method OpenFull(next: nat)
      requires Valid() && tailUsed == cap && next == InUse() < held
      modifies this`tail, this`tailIndex, this`tailUsed, this`size, this`contents
      ensures Valid() && contents == old(contents) + [index[next][0]]
      ensures tail == index[next] && tailIndex == next && tailUsed == 1 && size == old(size) + 1
    {
      NextPlace();
      OpensAt(next);
      hide Room, Place;
      tail, tailIndex, tailUsed, size := index[next], next, 1, size + 1;
      contents := contents + [index[next][0]];
    }

    /** With every bucket in use full, the next bucket begins where the sequence ends. */
    lemma OpensAt(next: nat)
      requires Valid() && tailUsed == cap && next == InUse() < held
      ensures Place(next, 0, cap) == size
      ensures forall b, k :: 0 <= b < next && 0 <= k < cap ==> Place(b, k, cap) < size
    {
      hide Room;
      if tail != null { RoomNext(tailIndex, cap); }
      RoomNext(0, cap);
      forall b: nat, k: nat | b < next && k < cap ensures Place(b, k, cap) < size { InOrder(b, k, next, 0, cap); }
    }

    /**
     * `arnm_bvec_grow`, whoever calls it. With the open bucket full it appends; with slots left in
     * it, `Tailed` breaks and nothing else: the new element stands as many places past its index
     * as slots were left. A refusal changes no element.
     */
    method Grow(indexAnswer: Result, bucketAnswer: Result) returns (result: Result)
      requires Valid()
      modifies this
      ensures Sized() && Indexed() && held >= old(held) && Kept(old(held))
      ensures (Tailed() <==> !result.Success? || old(tailUsed) == cap) && (Tailed() ==> Valid())
      ensures result.Success? <==>
                (old(InUse()) < old(held)
                 || (bucketAnswer.Success?
                     && (old(held) < |old(index)|
                         || (|old(index)| + growStep <= MAX_INDEX_CAPACITY
                             && (indexAnswer.Success? || indexAnswer.NotReclaimed?)))))
      ensures !result.Success? ==>
                result == if old(held) == |old(index)| && |old(index)| + growStep > MAX_INDEX_CAPACITY then
                            ArithmeticOverflow
                          else if old(held) == |old(index)| && !(indexAnswer.Success? || indexAnswer.NotReclaimed?) then
                            indexAnswer
                          else bucketAnswer
      ensures result.Success? ==>
                size == old(size) + 1 && tailUsed == 1 && tail != null && tail.Length == cap && cap > 0
                && contents == old(contents) + [tail[0]]
      ensures result.Success? ==>
                tailIndex == old(InUse()) && Place(tailIndex, 0, cap) + old(tailUsed) == size - 1 + cap
                && (tailIndex < old(held) || fresh(tail))
      ensures !result.Success? ==>
                contents == old(contents) && tail == old(tail) && tailIndex == old(tailIndex)
                && tailUsed == old(tailUsed) && size == old(size) && held == old(held)
      ensures |index| == |old(index)|
                + if old(InUse()) == old(held) == |old(index)| && |old(index)| + growStep <= MAX_INDEX_CAPACITY
                     && (indexAnswer.Success? || indexAnswer.NotReclaimed?) then growStep else 0
    {
      Passes();
      if !StateChecks() { return InvalidState; }
      hide Place, Stored, StateChecks, Room, BucketBytes;
      var next := InUse();
      if next >= held {
        result := Provide(indexAnswer, bucketAnswer);
        if !result.Success? { return; }
      }
      Open(next);
      result := Success;
    }

    /** `arnm_bvec_emplace`: the slot after the last element, and the vector counts it. */
    method Emplace(indexAnswer: Result, bucketAnswer: Result) returns (result: Result)
      requires Valid()
      modifies this
      ensures Valid() && held >= old(held) && Kept(old(held))
      ensures result.Success? <==>
                old(tailUsed) < cap || old(InUse()) < old(held)
                || (bucketAnswer.Success?
                    && (old(held) < |old(index)|
                        || (|old(index)| + growStep <= MAX_INDEX_CAPACITY
                            && (indexAnswer.Success? || indexAnswer.NotReclaimed?))))
      ensures !result.Success? ==>
                result == if old(held) == |old(index)| && |old(index)| + growStep > MAX_INDEX_CAPACITY then
                            ArithmeticOverflow
                          else if old(held) == |old(index)| && !(indexAnswer.Success? || indexAnswer.NotReclaimed?) then
                            indexAnswer
                          else bucketAnswer
      ensures result.Success? ==> size == old(size) + 1 && tail != null && contents == old(contents) + [tail[tailUsed - 1]]
      ensures result.Success? ==> tailIndex < old(held) || fresh(tail)
      ensures !result.Success? ==> contents == old(contents) && tail == old(tail) && tailIndex == old(tailIndex)
                                   && tailUsed == old(tailUsed) && size == old(size) && held == old(held)
      ensures |index| == |old(index)|
                + if old(tailUsed) == cap && old(InUse()) == old(held) == |old(index)|
                     && |old(index)| + growStep <= MAX_INDEX_CAPACITY
                     && (indexAnswer.Success? || indexAnswer.NotReclaimed?) then growStep else 0
    {
      hide Room;
      if tail != null && tailUsed < cap {
        TailPlace();
        contents := contents + [tail[tailUsed]];
        tailUsed, size := tailUsed + 1, size + 1;
        return Success;
      }
      hide Place, Stored;
      result := Grow(indexAnswer, bucketAnswer);
    }

    /** The open bucket holds the end of the sequence, the buckets before it the rest. */
    lemma TailPlace()
      requires Valid() && tail != null
      ensures forall k :: 0 <= k < cap ==> Place(tailIndex, k, cap) == size - tailUsed + k
      ensures forall b, k :: 0 <= b < tailIndex && 0 <= k < cap ==> Place(b, k, cap) < size - tailUsed
    {
      hide Room;
      forall b: nat, k: nat | b < tailIndex && k < cap ensures Place(b, k, cap) < size - tailUsed {
        InOrder(b, k, tailIndex, 0, cap);
      }
    }

    /** Every held bucket. */
    ghost function Buckets(): set<object>
      reads this
    {
      set b | 0 <= b < |index| && index[b] != null :: index[b]
    }

    /** `arnm_bvec_push_ptr`: no other element is written, none moves. */
    method Push(value: T, indexAnswer: Result, bucketAnswer: Result) returns (result: Result)
      requires Valid()
      modifies this, Buckets()
      ensures Valid() && held >= old(held) && Kept(old(held))
      ensures result.Success? <==>
                old(tailUsed) < cap || old(InUse()) < old(held)
                || (bucketAnswer.Success?
                    && (old(held) < |old(index)|
                        || (|old(index)| + growStep <= MAX_INDEX_CAPACITY
                            && (indexAnswer.Success? || indexAnswer.NotReclaimed?))))
      ensures !result.Success? ==>
                result == if old(held) == |old(index)| && |old(index)| + growStep > MAX_INDEX_CAPACITY then
                            ArithmeticOverflow
                          else if old(held) == |old(index)| && !(indexAnswer.Success? || indexAnswer.NotReclaimed?) then
                            indexAnswer
                          else bucketAnswer
      ensures contents == if result.Success? then old(contents) + [value] else old(contents)
      ensures |index| == |old(index)|
                + if old(tailUsed) == cap && old(InUse()) == old(held) == |old(index)|
                     && |old(index)| + growStep <= MAX_INDEX_CAPACITY
                     && (indexAnswer.Success? || indexAnswer.NotReclaimed?) then growStep else 0
    {
      hide Place;
      result := Emplace(indexAnswer, bucketAnswer);
      if result.Success? { Write(value); }
    }

    /** The last element is given its value. */
    method Write(value: T)
      requires Valid() && tail != null
      modifies tail, this`contents
      ensures Valid() && contents == old(contents)[..size - 1] + [value]
    {
      TailPlace();
      hide Room, Place, BucketBytes;
      tail[tailUsed - 1] := value;
      contents := contents[size - 1 := value];
    }

    /** One slot of the open bucket is vacated, and it is not its first. */
    method DropSlot()
      requires Valid() && tail != null && tailUsed > 1
      modifies this`size, this`tailUsed, this`contents
      ensures Valid() && contents == old(contents)[..old(size) - 1]
    {
      TailPlace();
      hide Room, Place, BucketBytes;
      size, tailUsed, contents := size - 1, tailUsed - 1, contents[..size - 1];
    }

    /** The open bucket's only element goes. The bucket before it, if there is one, is the open one again, without room. */
    method CloseTail()
      requires Valid() && tail != null && tailUsed == 1
      modifies this`size, this`tailUsed, this`contents, this`tail, this`tailIndex
      ensures Valid() && contents == old(contents)[..old(size) - 1]
    {
      TailPlace();
      RoomNext(0, cap);
      if tailIndex > 0 { RoomNext(tailIndex - 1, cap); }
      hide Room, Place, BucketBytes;
      size, contents := size - 1, contents[..size - 1];
      if size > 0 {
        tailIndex := tailIndex - 1;
        tail := index[tailIndex];
      } else {
        tail := null;
        tailIndex := 0;
      }
      tailUsed := cap;
    }

    /** `arnm_bvec_pop`: the vacated bucket stays. */
    method Pop() returns (ok: bool)
      requires Valid()
      modifies this
      ensures Valid() && (ok <==> old(size) > 0)
      ensures contents == if ok then old(contents)[..old(size) - 1] else old(contents)
      ensures index == old(index) && held == old(held)
    {
      hide Room, Place, BucketBytes, Stored;
      if size == 0 { return false; }
      if tailUsed > 1 { DropSlot(); } else { CloseTail(); }
      ok := true;
    }

    /** `arnm_bvec_clear`: every bucket stays. */
    method Clear()
      requires Valid()
      modifies this
      ensures Valid() && contents == [] && index == old(index) && held == old(held)
    {
      tail, tailIndex, tailUsed, size, contents := null, 0, cap, 0, [];
    }

    /** An arena's unused buckets, newest first, until it keeps one. */
    method ReleaseDown(kept: nat -> bool)
      requires Valid()
      modifies this`index, this`held
      ensures Valid() && InUse() <= held <= old(held) && Kept(held) && |index| == |old(index)|
      ensures (held == InUse() || kept(held - 1)) && forall b :: held <= b < old(held) ==> !kept(b)
    {
      hide Place, Sized, Room;
      var used := InUse();
      var i: nat := held;
      while i > used
        invariant used <= i <= held == old(held) && |index| == |old(index)|
        invariant forall b :: 0 <= b < i ==> index[b] == old(index)[b]
        invariant forall b :: i <= b < |index| ==> index[b] == null
        invariant forall b :: i <= b < old(held) ==> !kept(b)
      {
        if kept(i - 1) { break; }
        index := index[i - 1 := null];
        i := i - 1;
      }
      held := i;
    }

    /** The host's unused buckets, oldest first: it keeps none. */
    method ReleaseUp()
      requires Valid()
      modifies this`index, this`held
      ensures Valid() && held == InUse() && held <= old(held) && Kept(held) && |index| == |old(index)|
    {
      hide Place, Sized, Room;
      var used := InUse();
      var k: nat := used;
      while k < held
        invariant used <= k <= held == old(held) && |index| == |old(index)|
        invariant forall b :: 0 <= b < used ==> index[b] == old(index)[b]
        invariant forall b :: used <= b < k ==> index[b] == null
        invariant forall b :: held <= b < |index| ==> index[b] == null
      {
        index := index[k := null];
        k := k + 1;
      }
      held := used;
    }

    /** The unused buckets go back in the order the allocator asks for. `kept(b)` is an arena's answer for bucket `b`. */
    method Release(kept: nat -> bool)
      requires Valid()
      modifies this`index, this`held
      ensures Valid() && InUse() <= held <= old(held) && Kept(held) && |index| == |old(index)|
      ensures newestFirst ==> (held == InUse() || kept(held - 1)) && forall b :: held <= b < old(held) ==> !kept(b)
      ensures !newestFirst ==> held == InUse()
    {
      hide Place, Stored, Room;
      if newestFirst { ReleaseDown(kept); } else { ReleaseUp(); }
    }

    /**
     * `arnm_bvec_shrink`: `contents` and every bucket in use are untouched. On the host nothing else
     * is held afterwards; on an arena the topmost bucket held is in use or was kept.
     */
    method Shrink(kept: nat -> bool, indexAnswer: Result) returns (result: Result)
      requires Valid()
      modifies this
      ensures Valid() && contents == old(contents) && InUse() == old(InUse()) <= held <= old(held) && Kept(held)
      ensures !newestFirst ==> held == InUse()
      ensures newestFirst ==>
                (held == InUse() || (held > 0 && kept(held - 1))) && forall b :: held <= b < old(held) ==> !kept(b)
      ensures result == if held == 0 || held == |old(index)| || indexAnswer.NotReclaimed? then Success else indexAnswer
      ensures !indexAnswer.Success? ==> |index| == |old(index)|
      ensures indexAnswer.Success? ==> |index| == held
    {
      if |index| == 0 { return Success; }
      Passes();
      if !StateChecks() { return InvalidState; }
      hide Place, StateChecks, Room;
      Release(kept);
      if held == 0 {
        if indexAnswer.Success? { index := []; }
        return Success;
      }
      if held == |index| { return Success; }
      if indexAnswer.Success? { index := index[..held]; }
      result := if Done(indexAnswer) then Success else indexAnswer;
    }

    /** `arnm_bvec_free`: what init left, whatever the allocator answers. */
    method Free()
      requires Valid()
      modifies this
      ensures Valid() && contents == [] && index == [] && held == 0
    {
      index, held := [], 0;
      tail, tailIndex, tailUsed, size, contents := null, 0, cap, 0, [];
    }

    /** `arnm_bvec_get`: bucket and slot by shift and mask. */
    method Get(i: nat) returns (value: T)
      requires Valid() && i < size
      ensures value == contents[i]
    {
      hide Place, BucketOf, SlotIn;
      SlotOf(i, cap);
      value := At(i, BucketOf(i, cap), SlotIn(i, cap));
    }

    method At(i: nat, b: nat, k: nat) returns (value: T)
      requires Valid() && i < size && i == Place(b, k, cap) && k < cap
      ensures value == contents[i]
    {
      Located(i, b, k);
      hide Place;
      value := index[b][k];
    }

    lemma Located(i: nat, b: nat, k: nat)
      requires Valid() && i < size && i == Place(b, k, cap) && k < cap
      ensures b < InUse() && k < BucketSize(b)
    {
      TailPlace();
      if tailIndex < b {
        InOrder(tailIndex, cap - 1, b, k, cap);
      }
    }

    /** Bucket `b` ends where the next begins. */
    lemma BucketEnds(b: nat)
      requires Valid() && b < InUse()
      ensures Place(b, BucketSize(b), cap) == if b + 1 == InUse() then size else Place(b + 1, 0, cap)
      ensures Place(b, BucketSize(b), cap) <= size && BucketSize(b) <= cap
      ensures forall k :: 0 <= k < BucketSize(b) ==> Place(b, k, cap) == Place(b, 0, cap) + k
    {
      TailPlace();
      hide Room;
      RoomNext(b, cap);
      RoomNext(0, cap);
      if b + 1 < tailIndex { InOrder(b + 1, 0, tailIndex, 0, cap); }
    }

    /** One bucket poured behind what was written. */
    method Pour(b: nat, target: array<T>, written: nat) returns (now: nat)
      requires Valid() && target !in Buckets() && size <= target.Length && b < InUse()
      requires written == Place(b, 0, cap) && target[..written] == contents[..written]
      modifies target
      ensures Valid() && now == Place(b, BucketSize(b), cap) <= size && target[..now] == contents[..now]
      ensures target[size..] == old(target[size..])
    {
      BucketEnds(b);
      hide Place;
      assert index[b] in Buckets();
      var k: nat := 0;
      while k < BucketSize(b)
        invariant k <= BucketSize(b) && target[..written + k] == contents[..written + k]
        invariant target[size..] == old(target[size..])
      {
        assert contents[Place(b, k, cap)] == index[b][k];
        target[written + k] := index[b][k];
        k := k + 1;
      }
      now := written + BucketSize(b);
    }

    /** `arnm_bvec_copy_to`: bucket by bucket. */
    method CopyTo(target: array<T>) returns (fits: bool)
      requires Valid() && target !in Buckets()
      modifies target
      ensures fits <==> size <= target.Length
      ensures fits ==> target[..size] == contents && target[size..] == old(target[size..])
      ensures !fits ==> target[..] == old(target[..])
    {
      if target.Length < size { return false; }
      var written: nat, bucket: nat := 0, 0;
      while bucket < InUse()
        invariant bucket <= InUse() && Valid()
        invariant written == (if bucket == InUse() then size else Place(bucket, 0, cap)) <= size
        invariant target[..written] == contents[..written]
        invariant target[size..] == old(target[size..])
      {
        BucketEnds(bucket);
        written := Pour(bucket, target, written);
        bucket := bucket + 1;
      }
      fits := true;
    }
  }

  function Pow2(n: nat): (p: nat)
    ensures p >= 1
  {
    if n == 0 then 1 else 2 * Pow2(n - 1)
  }

  lemma Pow2Of15()
    ensures Pow2(15) == 0x8000
  {
    assert Pow2(15) == 2 * Pow2(14) == 4 * Pow2(13) == 8 * Pow2(12) == 16 * Pow2(11) == 32 * Pow2(10);
    assert Pow2(10) == 2 * Pow2(9) == 4 * Pow2(8) == 8 * Pow2(7) == 16 * Pow2(6) == 32 * Pow2(5);
  }

  lemma {:induction false} Pow2Bounds(n: nat)
    requires 1 <= n <= 15
    ensures 2 <= Pow2(n) <= 0x8000
    decreases 15 - n
  {
    if n < 15 { Pow2Bounds(n + 1); } else { Pow2Of15(); }
  }
}
