// The fixed ring: a bounded queue in one block of slots that wraps at the end.
module FixedRing {
  import opened Results

  const TWO32: nat := 0x1_0000_0000
  const MAX_ALLOC_SIZE: nat := 0xffff_fff8

  /** The slot `index` places behind the front, going round. */
  function Wrapped(head: nat, index: nat, capacity: nat): nat {
    if head + index < capacity then head + index else head + index - capacity
  }

  /** `arnm_fixed_ring_get`: one addition in 32 bits, one comparison, one subtraction. */
  function Slot32(head: nat, index: nat, capacity: nat): (slot: nat)
    requires head < capacity < TWO32 && index < capacity
    ensures slot < capacity
  {
    var slot := (head + index) % TWO32;
    if slot >= capacity then slot - capacity else slot
  }

  /** The addition names the right slot if and only if it fits 32 bits. */
  lemma SlotExact(head: nat, index: nat, capacity: nat)
    requires head < capacity < TWO32 && index < capacity
    ensures Slot32(head, index, capacity) == Wrapped(head, index, capacity) <==> head + index < TWO32
    ensures capacity <= TWO32 / 2 ==> head + index < TWO32
  {
  }

  /** Init admits a ring where it does not: the largest block of single bytes. */
  lemma SlotOverflows()
    ensures Slot32(MAX_ALLOC_SIZE - 1, 9, MAX_ALLOC_SIZE) == 0 && Wrapped(MAX_ALLOC_SIZE - 1, 9, MAX_ALLOC_SIZE) == 8
  {
  }

  /** Where it does not fit, the slot is the one of an element further in front, and which one. */
  lemma SlotMissed(head: nat, index: nat, capacity: nat)
    requires head < capacity < TWO32 && index < capacity && head + index >= TWO32
    ensures TWO32 - capacity <= index
    ensures Slot32(head, index, capacity) == Wrapped(head, index - (TWO32 - capacity), capacity)
  {
  }

  lemma WrappedApart(head: nat, i: nat, j: nat, capacity: nat)
    requires head < capacity && i < capacity && j < capacity
    ensures Wrapped(head, i, capacity) < capacity
    ensures Wrapped(head, i, capacity) == Wrapped(head, j, capacity) <==> i == j
  {
  }

  /** The queue a block of slots holds. */
  function Queue<T>(slots: seq<T>, head: nat, size: nat): (q: seq<T>)
    requires head < |slots| && size <= |slots|
    ensures |q| == size
  {
    seq(size, i requires 0 <= i < size => slots[Wrapped(head, i, |slots|)])
  }

  function Product(a: nat, b: nat): nat { a * b }

  lemma {:induction false} ProductGrows(a: nat, c: nat, b: nat)
    requires a <= c
    ensures Product(a, b) + (c - a) * b == Product(c, b) && Product(a, b) <= Product(c, b)
    decreases c
  {
    if a < c { ProductGrows(a, c - 1, b); }
  }

  /** Comparing with the quotient is comparing the product. */
  lemma ByDivision(capacity: nat, elementSize: nat)
    requires elementSize > 0
    ensures capacity <= MAX_ALLOC_SIZE / elementSize <==> Product(capacity, elementSize) <= MAX_ALLOC_SIZE
    ensures Product(capacity, elementSize) <= MAX_ALLOC_SIZE ==> capacity <= MAX_ALLOC_SIZE
  {
    var most := MAX_ALLOC_SIZE / elementSize;
    assert Product(most, elementSize) <= MAX_ALLOC_SIZE < Product(most + 1, elementSize);
    hide Product;
    if capacity <= most { ProductGrows(capacity, most, elementSize); } else { ProductGrows(most + 1, capacity, elementSize); }
    Quotient(elementSize);
  }

  lemma Quotient(elementSize: nat)
    requires elementSize > 0
    ensures MAX_ALLOC_SIZE / elementSize <= MAX_ALLOC_SIZE
  {
  }

  class Ring<T(0)> {
    const slots: array<T>
    var head: nat
    var size: nat

    ghost predicate Valid()
      reads this
    {
      0 < slots.Length < TWO32 && head < slots.Length && size <= slots.Length
    }

    ghost function Contents(): seq<T>
      requires Valid()
      reads this, slots
    {
      Queue(slots[..], head, size)
    }

    /** `arnm_fixed_ring_init`, once the block is there. */
    constructor (capacity: nat)
      requires 0 < capacity <= MAX_ALLOC_SIZE
      ensures Valid() && Contents() == [] && slots.Length == capacity && fresh(slots)
    {
      slots := new T[capacity];
      head, size := 0, 0;
    }

    /** `arnm_fixed_ring_init`: the bytes of all slots fit one allocation, or none is asked for. */
    static method Init(capacity: nat, elementSize: nat, answer: Result) returns (result: Result, ring: Ring?<T>)
      requires capacity < TWO32
      ensures result == if capacity == 0 || elementSize == 0 || elementSize > 0xffff then InvalidParam
                        else if Product(capacity, elementSize) > MAX_ALLOC_SIZE then ArithmeticOverflow
                        else answer
      ensures ring != null <==> result.Success?
      ensures ring != null ==> fresh(ring) && ring.Valid() && ring.Contents() == [] && ring.slots.Length == capacity
    {
      if capacity == 0 || elementSize == 0 || elementSize > 0xffff { return InvalidParam, null; }
      ByDivision(capacity, elementSize);
      if capacity > MAX_ALLOC_SIZE / elementSize { return ArithmeticOverflow, null; }
      if !answer.Success? { return answer, null; }
      ring := new Ring(capacity);
      result := Success;
    }

    /**
     * `arnm_fixed_ring_push_ptr`: refused exactly while full. Where head and size add up in 32
     * bits the value is appended; where they do not, it replaces a live element and what is
     * appended is what the slot at the back held before.
     */
    method Push(value: T) returns (result: Result)
      requires Valid()
      modifies this`size, slots
      ensures Valid() && (result.Success? <==> old(size) < slots.Length) && (!result.Success? ==> result.ResourceExhausted?)
      ensures !result.Success? ==> Contents() == old(Contents())
      ensures result.Success? && head + old(size) < TWO32 ==> Contents() == old(Contents()) + [value]
      ensures result.Success? && head + old(size) >= TWO32 ==>
                TWO32 - slots.Length <= old(size)
                && Contents() == old(Contents())[old(size) - (TWO32 - slots.Length) := value]
                                 + [old(slots[Wrapped(head, size, slots.Length)])]
    {
      if size == slots.Length { return ResourceExhausted; }
      var slot := Slot32(head, size, slots.Length);
      ghost var place := if head + size < TWO32 then size else size - (TWO32 - slots.Length);
      if head + size < TWO32 {
        SlotExact(head, size, slots.Length);
      } else {
        SlotMissed(head, size, slots.Length);
      }
      hide Slot32;
      forall i: nat | i < size ensures Wrapped(head, i, slots.Length) == slot <==> i == place {
        WrappedApart(head, i, place, slots.Length);
      }
      WrappedApart(head, size, place, slots.Length);
      slots[slot] := value;
      size := size + 1;
      result := Success;
    }

    /** `arnm_fixed_ring_pop` */
    method Pop() returns (ok: bool)
      requires Valid()
      modifies this`head, this`size
      ensures Valid() && (ok <==> old(size) > 0)
      ensures Contents() == if ok then old(Contents())[1..] else old(Contents())
    {
      if size == 0 { return false; }
      head := head + 1;
      if head == slots.Length { head := 0; }
      size := size - 1;
      ok := true;
    }

    /** `arnm_fixed_ring_pop_copy`: the front is copied before it moves. */
    method PopCopy() returns (front: Option<T>)
      requires Valid()
      modifies this`head, this`size
      ensures Valid() && (front.Some? <==> old(size) > 0)
      ensures old(Contents()) == (if front.Some? then [front.value] else []) + Contents()
    {
      if size == 0 { return None; }
      front := Some(slots[Slot32(head, 0, slots.Length)]);
      ghost var was := Contents();
      var ok := Pop();
      assert was == [was[0]] + was[1..];
    }

    /** `arnm_fixed_ring_clear` */
    method Clear()
      requires Valid()
      modifies this`head, this`size
      ensures Valid() && Contents() == []
    {
      head, size := 0, 0;
    }

    /** `arnm_fixed_ring_get`: the element of the index, or where head and index leave 32 bits an earlier one. */
    method Get(index: nat) returns (value: T)
      requires Valid() && index < size
      ensures head + index < TWO32 ==> value == Contents()[index]
      ensures head + index >= TWO32 ==>
                TWO32 - slots.Length <= index && value == Contents()[index - (TWO32 - slots.Length)]
    {
      if head + index < TWO32 {
        SlotExact(head, index, slots.Length);
      } else {
        SlotMissed(head, index, slots.Length);
      }
      value := slots[Slot32(head, index, slots.Length)];
    }

    /** `arnm_fixed_ring_copy_to`: the queue as a sequence, or no write at all. */
    method CopyTo(target: array<T>) returns (fits: bool)
      requires Valid() && target != slots
      modifies target
      ensures fits <==> target.Length >= size
      ensures fits ==> target[..size] == Contents() && forall i :: size <= i < target.Length ==> target[i] == old(target[i])
    {
      if target.Length < size { return false; }
      var toEnd := slots.Length - head;
      var firstRun := if size < toEnd then size else toEnd;
      var i := 0;
      while i < firstRun
        invariant 0 <= i <= firstRun && forall j :: 0 <= j < i ==> target[j] == slots[head + j]
        invariant forall j :: size <= j < target.Length ==> target[j] == old(target[j])
      {
        target[i] := slots[head + i];
        i := i + 1;
      }
      while i < size
        invariant firstRun <= i <= size && forall j :: 0 <= j < firstRun ==> target[j] == slots[head + j]
        invariant forall j :: firstRun <= j < i ==> target[j] == slots[j - firstRun]
        invariant forall j :: size <= j < target.Length ==> target[j] == old(target[j])
      {
        target[i] := slots[i - firstRun];
        i := i + 1;
      }
      fits := true;
    }
  }
}
