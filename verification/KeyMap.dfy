// The key map: dense ids for distinct keys, found by linear probing in a table of (hash, id) slots
// beside the keys themselves. The hash is any function of the key.
module KeyMap {
  import opened Results

  const EMPTY_ID: nat := 0xffff_ffff
  const MIN_CAPACITY: nat := 8
  const MAX_CAPACITY: nat := 0x1000_0000
  const MAX_KEYS: nat := 0xc00_0000

  datatype Slot = Slot(hash: nat, id: nat) {
    predicate Free() { id == EMPTY_ID }
  }

  /** The most keys a table of this capacity may hold. */
  function LoadLimit(capacity: nat): nat { capacity - capacity / 4 }

  /** MIN_CAPACITY doubled any number of times. */
  predicate TableSize(capacity: nat) { capacity == MIN_CAPACITY || (capacity > MIN_CAPACITY && capacity % 2 == 0 && TableSize(capacity / 2)) }

  /** A table is filled to three quarters. */
  lemma ThreeQuarters(capacity: nat)
    requires TableSize(capacity)
    ensures 4 * LoadLimit(capacity) == 3 * capacity
  {
    FourDivides(capacity);
  }

  lemma {:induction false} FourDivides(capacity: nat)
    requires TableSize(capacity)
    ensures capacity % 4 == 0
  {
    if capacity > MIN_CAPACITY {
      FourDivides(capacity / 2);
      TwiceFours(capacity / 2);
    }
  }

  lemma TwiceFours(n: nat)
    requires n % 4 == 0
    ensures (n * 2) % 4 == 0
  {
    var k := n / 4;
    assert n * 2 == 4 * (2 * k);
  }

  /** The largest table is the last that fits one allocation at 8 bytes a slot, and MAX_KEYS what it may hold. */
  lemma Largest()
    ensures MAX_KEYS == LoadLimit(MAX_CAPACITY)
    ensures MAX_CAPACITY * 8 <= 0xffff_fff8 < MAX_CAPACITY * 2 * 8
  {
  }

  /** Where a key's walk begins. */
  function Home(hash: nat, capacity: nat): (h: nat)
    requires capacity > 0
    ensures h < capacity
  {
    hash % capacity
  }

  function Next(index: nat, capacity: nat): nat { if index + 1 == capacity then 0 else index + 1 }

  /** Is slot `x` passed by a walk from `home` that stands at `p`? The walk wraps at the end. */
  predicate Passed(home: nat, x: nat, p: nat) { if home <= p then home <= x < p else home <= x || x < p }

  /** Steps from one slot to another, wrapping at the end. */
  function Steps(from: nat, to: nat, capacity: nat): nat
    requires from <= capacity
  {
    if from <= to then to - from else capacity - from + to
  }

  /** Every slot a walk passed is taken. */
  ghost predicate RunTo(ts: seq<Slot>, home: nat, p: nat) {
    forall x :: 0 <= x < |ts| && Passed(home, x, p) ==> !ts[x].Free()
  }

  /** A slot names a key and carries its hash. */
  ghost predicate Names<K>(s: Slot, keys: seq<K>, hash: K -> nat) { s.id < |keys| && s.hash == hash(keys[s.id]) }

  /** No two slots name one key, and no free slot lies between a slot and its home, going round. */
  ghost predicate Table<K>(ts: seq<Slot>, keys: seq<K>, hash: K -> nat) {
    (forall p :: 0 <= p < |ts| && !ts[p].Free() ==> Names(ts[p], keys, hash) && RunTo(ts, Home(ts[p].hash, |ts|), p))
    && (forall p, q :: 0 <= p < q < |ts| && !ts[p].Free() ==> ts[p].id != ts[q].id)
  }

  /** The keys the slots name. */
  ghost function IdsIn(ts: seq<Slot>): set<nat> { set s | s in ts && !s.Free() :: s.id }

  ghost function Below(n: nat): set<nat> { set i: nat {:trigger i in Below(n)} | i < n }

  lemma {:induction false} BelowSize(n: nat)
    ensures |Below(n)| == n
  {
    if n == 0 {
      assert Below(0) == {};
    } else {
      BelowSize(n - 1);
      assert Below(n) == Below(n - 1) + {n - 1};
    }
  }

  lemma IdHeld(ts: seq<Slot>, id: nat)
    ensures id in IdsIn(ts) <==> exists p :: 0 <= p < |ts| && ts[p].id == id && !ts[p].Free()
  {
    if id in IdsIn(ts) {
      var s :| s in ts && !s.Free() && s.id == id;
      var p :| 0 <= p < |ts| && ts[p] == s;
    }
  }

  /** As many ids as taken slots, while no two slots name one key. */
  lemma {:induction false} TakenSlots(ts: seq<Slot>)
    requires forall p, q :: 0 <= p < q < |ts| && !ts[p].Free() ==> ts[p].id != ts[q].id
    requires forall p :: 0 <= p < |ts| ==> !ts[p].Free()
    ensures |IdsIn(ts)| == |ts|
  {
    if ts != [] {
      var n := |ts| - 1;
      TakenSlots(ts[..n]);
      assert ts == ts[..n] + [ts[n]];
      assert IdsIn(ts) == IdsIn(ts[..n]) + {ts[n].id};
      IdHeld(ts[..n], ts[n].id);
    }
  }

  lemma SubsetSize(a: set<nat>, b: set<nat>)
    requires a <= b
    ensures |a| <= |b|
  {
    assert b == a + (b - a);
  }

  /** A table within its load limit has a free slot. */
  lemma FreeSlot<K>(ts: seq<Slot>, keys: seq<K>, hash: K -> nat)
    requires Table(ts, keys, hash) && |keys| < |ts|
    ensures exists p :: 0 <= p < |ts| && ts[p].Free()
  {
    if forall p :: 0 <= p < |ts| ==> !ts[p].Free() {
      TakenSlots(ts);
      assert IdsIn(ts) <= Below(|keys|);
      SubsetSize(IdsIn(ts), Below(|keys|));
      BelowSize(|keys|);
    }
  }

  lemma LimitBelow(capacity: nat)
    requires capacity >= MIN_CAPACITY
    ensures 0 < LoadLimit(capacity) < capacity
  {
  }

  /** A free slot filled: the other runs stay, and the new slot ends its own. */
  lemma Filled<K>(ts: seq<Slot>, p: nat, s: Slot, keys: seq<K>, hash: K -> nat)
    requires Table(ts, keys, hash) && p < |ts| && ts[p].Free() && !s.Free() && Names(s, keys, hash)
    requires s.id !in IdsIn(ts) && RunTo(ts, Home(s.hash, |ts|), p)
    ensures Table(ts[p := s], keys, hash) && IdsIn(ts[p := s]) == IdsIn(ts) + {s.id}
  {
    hide Home;
    var r := ts[p := s];
    forall q | 0 <= q < |r| && !r[q].Free() ensures RunTo(r, Home(r[q].hash, |r|), q) {
      assert RunTo(ts, Home(r[q].hash, |r|), q);
    }
    forall a | 0 <= a < |ts| && a != p && !ts[a].Free() ensures ts[a].id != s.id { IdHeld(ts, ts[a].id); }
    forall id ensures id in IdsIn(r) <==> id in IdsIn(ts) || id == s.id {
      IdHeld(r, id); IdHeld(ts, id);
      if id in IdsIn(ts) {
        var q :| 0 <= q < |ts| && ts[q].id == id && !ts[q].Free();
        assert r[q] == ts[q];
      }
      assert r[p] == s;
    }
  }

  /** More keys change nothing about the slots there are. */
  lemma KeysGrow<K>(ts: seq<Slot>, keys: seq<K>, more: seq<K>, hash: K -> nat)
    requires Table(ts, keys, hash) && keys <= more
    ensures Table(ts, more, hash)
  {
    hide RunTo, Home;
  }

  /** Of two slots a walk passes one first. */
  lemma OneFirst(home: nat, p: nat, q: nat)
    ensures p == q || Passed(home, p, q) || Passed(home, q, p)
  {
  }

  /** A walk that ends at a free slot has passed the slot of every key with its home. */
  lemma WalkMeets<K>(ts: seq<Slot>, keys: seq<K>, hash: K -> nat, index: nat, id: nat)
    requires Table(ts, keys, hash) && index < |ts| && ts[index].Free() && id < |keys| && id in IdsIn(ts)
    ensures exists p :: 0 <= p < |ts| && ts[p].id == id && !ts[p].Free() && Passed(Home(hash(keys[id]), |ts|), p, index)
  {
    hide Home;
    IdHeld(ts, id);
    var p :| 0 <= p < |ts| && ts[p].id == id && !ts[p].Free();
    var home := Home(hash(keys[id]), |ts|);
    assert RunTo(ts, home, p);
    OneFirst(home, p, index);
  }

  /** A key whose walk ends at a free slot without meeting it is not in the map. */
  lemma NotInMap<K>(ts: seq<Slot>, keys: seq<K>, hash: K -> nat, key: K, index: nat)
    requires Table(ts, keys, hash) && IdsIn(ts) == Below(|keys|) && index < |ts| && ts[index].Free()
    requires forall x :: 0 <= x < |ts| && Passed(Home(hash(key), |ts|), x, index) && !ts[x].Free() && ts[x].id < |keys| ==> keys[ts[x].id] != key
    ensures key !in keys
  {
    hide Home;
    forall id | 0 <= id < |keys| ensures keys[id] != key {
      if keys[id] == key { WalkMeets(ts, keys, hash, index, id); }
    }
  }

  /** The end of the run of taken slots that starts at `home`. */
  method FindFree(slots: array<Slot>, home: nat) returns (index: nat)
    requires home < slots.Length && exists p :: 0 <= p < slots.Length && slots[p].Free()
    ensures index < slots.Length && slots[index].Free() && RunTo(slots[..], home, index)
  {
    ghost var free: nat :| free < slots.Length && slots[free].Free();
    index := home;
    while !slots[index].Free()
      invariant index < slots.Length && RunTo(slots[..], home, index)
      invariant Steps(index, free, slots.Length) <= Steps(home, free, slots.Length)
      decreases Steps(index, free, slots.Length)
    {
      OneStep(home, index, free, slots.Length);
      index := Next(index, slots.Length);
    }
  }

  /** One step of a walk that has not come round: it passes the slot it stood on, and nothing else. */
  lemma OneStep(home: nat, index: nat, free: nat, capacity: nat)
    requires home < capacity && index < capacity && free < capacity && index != free
    requires Steps(index, free, capacity) <= Steps(home, free, capacity)
    ensures var next := Next(index, capacity);
            next < capacity && Steps(next, free, capacity) < Steps(index, free, capacity)
            && forall x :: 0 <= x < capacity ==> (Passed(home, x, next) <==> Passed(home, x, index) || x == index)
  {
  }

  /** The least table size whose load limit reaches `count`. */
  method CapacityFor(count: nat) returns (capacity: nat)
    requires count <= MAX_KEYS
    ensures TableSize(capacity) && capacity <= MAX_CAPACITY && count <= LoadLimit(capacity)
    ensures capacity == MIN_CAPACITY || LoadLimit(capacity / 2) < count
  {
    capacity := MIN_CAPACITY;
    while LoadLimit(capacity) < count
      invariant TableSize(capacity) && capacity <= MAX_CAPACITY
      invariant capacity == MIN_CAPACITY || LoadLimit(capacity / 2) < count
      decreases MAX_CAPACITY - capacity
    {
      SizeDoubles(capacity);
      capacity := capacity * 2;
    }
  }

  /** Below the largest table, a power of two has room to double. */
  lemma {:induction false} SizeDoubles(capacity: nat)
    requires TableSize(capacity) && capacity < MAX_CAPACITY
    ensures TableSize(capacity * 2) && capacity * 2 <= MAX_CAPACITY
  {
    LargestTable();
    SizeSteps(capacity, MAX_CAPACITY);
  }

  lemma LargestTable()
    ensures TableSize(MAX_CAPACITY)
  {
    FiveDoubles(8);
    FiveDoubles(0x100);
    FiveDoubles(0x2000);
    FiveDoubles(0x4_0000);
    FiveDoubles(0x80_0000);
  }

  lemma OneDouble(capacity: nat)
    requires TableSize(capacity)
    ensures TableSize(capacity * 2)
  {
  }

  lemma FiveDoubles(capacity: nat)
    requires TableSize(capacity)
    ensures TableSize(capacity * 32)
  {
    hide TableSize;
    OneDouble(capacity);
    OneDouble(capacity * 2);
    OneDouble(capacity * 4);
    OneDouble(capacity * 8);
    OneDouble(capacity * 16);
  }

  lemma {:induction false} SizeSteps(a: nat, b: nat)
    requires TableSize(a) && TableSize(b) && a < b
    ensures a * 2 <= b
    decreases b
  {
    if a > MIN_CAPACITY { SizeSteps(a / 2, b / 2); }
  }

  lemma SizeLeast(capacity: nat)
    requires TableSize(capacity)
    ensures capacity >= MIN_CAPACITY
  {
  }

  lemma TableLeast(capacity: nat)
    requires capacity == 0 || TableSize(capacity)
    ensures capacity > 0 ==> capacity >= MIN_CAPACITY && LoadLimit(capacity) < capacity
    ensures capacity == 0 ==> LoadLimit(capacity) == 0
  {
  }

  lemma LimitGrows(a: nat, b: nat)
    requires a <= b
    ensures LoadLimit(a) <= LoadLimit(b)
  {
  }

  /** `CapacityFor` is a threshold: a table suffices exactly from that size on. */
  lemma CapacityLeast(count: nat, capacity: nat, size: nat)
    requires 0 < count <= LoadLimit(capacity) && TableSize(capacity) && (size == 0 || TableSize(size))
    requires capacity == MIN_CAPACITY || LoadLimit(capacity / 2) < count
    ensures count <= LoadLimit(size) <==> capacity <= size
  {
    if size < capacity {
      TableLeast(size);
      SizeLeast(capacity);
      if size > 0 {
        SizeSteps(size, capacity);
        SizeLeast(size);
        LimitGrows(size, capacity / 2);
      }
    } else {
      LimitGrows(capacity, size);
    }
  }

  lemma IdsNext(ts: seq<Slot>, i: nat)
    requires i < |ts|
    ensures IdsIn(ts[..i + 1]) == IdsIn(ts[..i]) + if ts[i].Free() then {} else {ts[i].id}
  {
    assert ts[..i + 1] == ts[..i] + [ts[i]];
  }

  /** No earlier slot names the key of this one. */
  lemma NotYet<K>(ts: seq<Slot>, i: nat, keys: seq<K>, hash: K -> nat)
    requires Table(ts, keys, hash) && i < |ts| && !ts[i].Free()
    ensures ts[i].id !in IdsIn(ts[..i])
  {
    IdHeld(ts[..i], ts[i].id);
  }

  lemma NewId(ts: seq<Slot>, count: nat)
    requires IdsIn(ts) == Below(count)
    ensures count !in IdsIn(ts) && Below(count) + {count} == Below(count + 1)
  {
  }

  /** The next key's slot filled: the map of one key more. */
  lemma Inserted<K>(ts: seq<Slot>, keys: seq<K>, hash: K -> nat, key: K, index: nat)
    requires Table(ts, keys, hash) && IdsIn(ts) == Below(|keys|) && |keys| < EMPTY_ID
    requires index < |ts| && ts[index].Free() && RunTo(ts, Home(hash(key), |ts|), index)
    ensures Table(ts[index := Slot(hash(key), |keys|)], keys + [key], hash)
    ensures IdsIn(ts[index := Slot(hash(key), |keys|)]) == Below(|keys| + 1)
  {
    hide Table, IdsIn, Below, RunTo, Home;
    KeysGrow(ts, keys, keys + [key], hash);
    NewId(ts, |keys|);
    Filled(ts, index, Slot(hash(key), |keys|), keys + [key], hash);
  }

  /** A table at its limit has room for one key more once it is twice as large. */
  lemma Room(capacity: nat, grown: nat)
    requires (capacity == 0 && grown == MIN_CAPACITY) || (capacity >= MIN_CAPACITY && TableSize(capacity) && grown == capacity * 2)
    ensures LoadLimit(capacity) < LoadLimit(grown) && TableSize(grown)
  {
  }

  lemma CountBounded(count: nat, capacity: nat)
    requires count <= LoadLimit(capacity) && capacity <= MAX_CAPACITY
    ensures count < EMPTY_ID
  {
  }

  class KeyMap<K(==)> {
    const hash: K -> nat
    var slots: array<Slot>
    var keys: seq<K>

    ghost predicate Valid()
      reads this, slots
    {
      (slots.Length == 0 || (TableSize(slots.Length) && slots.Length <= MAX_CAPACITY))
      && |keys| <= LoadLimit(slots.Length) && (forall i, j :: 0 <= i < j < |keys| ==> keys[i] != keys[j])
      && Table(slots[..], keys, hash) && IdsIn(slots[..]) == Below(|keys|)
    }

    /** `arnm_key_map_init`: empty, no table yet. */
    constructor (hash: K -> nat)
      ensures Valid() && keys == [] && fresh(slots) && this.hash == hash
    {
      this.hash := hash;
      slots := new Slot[0];
      keys := [];
    }

    /** `rebuild`: every key moved into a fresh table, or nothing happens. */
    method Rebuild(capacity: nat, granted: bool) returns (result: Result)
      requires Valid() && TableSize(capacity) && capacity <= MAX_CAPACITY && |keys| <= LoadLimit(capacity)
      modifies this`slots
      ensures Valid() && (result == if granted then Success else OutOfMemory)
      ensures if granted then fresh(slots) && slots.Length == capacity else slots == old(slots)
    {
      hide RunTo, Home, Below, Passed;
      if !granted { return OutOfMemory; }
      SizeLeast(capacity);
      LimitBelow(capacity);
      var old_ := slots[..];
      var table := new Slot[capacity](_ => Slot(0, EMPTY_ID));
      var i := 0;
      while i < slots.Length
        invariant 0 <= i <= |old_| == slots.Length && slots[..] == old_
        invariant Table(table[..], keys, hash) && IdsIn(table[..]) == IdsIn(old_[..i])
      {
        IdsNext(old_, i);
        if !slots[i].Free() {
          assert Names(old_[i], keys, hash);
          FreeSlot(table[..], keys, hash);
          var index := FindFree(table, Home(slots[i].hash, capacity));
          NotYet(old_, i, keys, hash);
          Filled(table[..], index, old_[i], keys, hash);
          ghost var was := table[..];
          table[index] := slots[i];
          assert table[..] == was[index := old_[i]];
        }
        i := i + 1;
      }
      assert old_[..i] == old_;
      slots := table;
      result := Success;
    }

    /** `arnm_key_map_clear`: every slot free, every key forgotten, the table kept. */
    method Clear()
      requires Valid()
      modifies this`keys, slots
      ensures Valid() && keys == []
    {
      var i := 0;
      while i < slots.Length
        invariant 0 <= i <= slots.Length && forall j :: 0 <= j < i ==> slots[j].Free()
      {
        slots[i] := Slot(EMPTY_ID, EMPTY_ID);
        i := i + 1;
      }
      keys := [];
      assert Below(0) == {};
    }

    /** `arnm_key_map_reserve`: room for that many keys; every key and id stays. */
    method Reserve(count: nat, keysReserved: Result, granted: bool) returns (result: Result)
      requires Valid()
      modifies this`slots
      ensures Valid() && (slots == old(slots) || fresh(slots))
      ensures count == 0 ==> result.InvalidParam?
      ensures count > MAX_KEYS ==> result.ArithmeticOverflow?
      ensures result.Success? <==>
                0 < count <= MAX_KEYS && keysReserved.Success? && (count <= LoadLimit(old(slots.Length)) || granted)
      ensures if result.Success? then count <= LoadLimit(slots.Length) else slots == old(slots)
      ensures slots != old(slots) ==> slots.Length == 8 || LoadLimit(slots.Length / 2) < count
      ensures count > 0 && count <= LoadLimit(old(slots.Length)) ==> slots == old(slots)
    {
      if count == 0 { return InvalidParam; }
      if count > MAX_KEYS { return ArithmeticOverflow; }
      if !keysReserved.Success? { return keysReserved; }
      var capacity := CapacityFor(count);
      CapacityLeast(count, capacity, slots.Length);
      if capacity <= slots.Length {
        LimitGrows(capacity, slots.Length);
        return Success;
      }
      LimitGrows(slots.Length, capacity);
      result := Rebuild(capacity, granted);
    }

    /**
     * `arnm_key_map_probe`: a slot whose id names `key`, or a free slot that ends `key`'s run and
     * proves it absent.
     */
    method Probe(key: K) returns (index: nat)
      requires Valid() && slots.Length > 0
      ensures index < slots.Length
      ensures if slots[index].Free() then key !in keys && RunTo(slots[..], Home(hash(key), slots.Length), index)
              else slots[index].id < |keys| && keys[slots[index].id] == key
    {
      ghost var ts, home := slots[..], Home(hash(key), slots.Length);
      TableLeast(slots.Length);
      FreeSlot(ts, keys, hash);
      ghost var free: nat :| free < slots.Length && slots[free].Free();
      index := Home(hash(key), slots.Length);
      while !slots[index].Free()
        invariant index < slots.Length && RunTo(ts, home, index)
        invariant forall x :: 0 <= x < |ts| && Passed(home, x, index) && !ts[x].Free() && ts[x].id < |keys| ==> keys[ts[x].id] != key
        invariant Steps(index, free, slots.Length) <= Steps(home, free, slots.Length)
        decreases Steps(index, free, slots.Length)
      {
        assert Names(ts[index], keys, hash);
        if slots[index].hash == hash(key) && keys[slots[index].id] == key { return; }
        OneStep(home, index, free, slots.Length);
        index := Next(index, slots.Length);
      }
      NotInMap(ts, keys, hash, key, index);
    }

    /** `arnm_key_map_find`: true if and only if the key was inserted, with the id it was given. */
    method Find(key: K) returns (found: bool, id: nat)
      requires Valid()
      ensures found <==> key in keys
      ensures found ==> id < |keys| && keys[id] == key
    {
      if slots.Length == 0 { return false, 0; }
      var index := Probe(key);
      id := slots[index].id;
      found := id != EMPTY_ID;
    }

    /**
     * `insert_absent`: `keys` grows by `key` or stays, and which of the two happens is determined by
     * the load, the capacity and the two answers.
     */
    method InsertAbsent(key: K, slot: nat, granted: bool, bucket: Result) returns (result: Result, id: nat)
      requires Valid() && key !in keys
      requires |keys| < LoadLimit(slots.Length) && slot < slots.Length && slots[slot].Free() ==>
                 RunTo(slots[..], Home(hash(key), slots.Length), slot)
      modifies this, slots
      ensures Valid() && (slots == old(slots) || fresh(slots))
      ensures keys == if result.Success? then old(keys) + [key] else old(keys)
      ensures result.Success? ==> id == |old(keys)|
      ensures var fits := old(|keys| < LoadLimit(slots.Length));
              var misplaced := fits && old(slot >= slots.Length || !slots[slot].Free());
              if misplaced then result.InvalidParam?
              else result.Success? <==> (fits || (old(slots.Length) < MAX_CAPACITY && granted)) && bucket.Success?
      ensures slots.Length == if old(|keys| < LoadLimit(slots.Length)) || old(slots.Length) >= MAX_CAPACITY || !granted then
                                old(slots.Length)
                              else if old(slots.Length) == 0 then 8 else 2 * old(slots.Length)
      ensures old(|keys| >= LoadLimit(slots.Length) && slots.Length >= MAX_CAPACITY) ==> result.ArithmeticOverflow?
    {
      hide Table, IdsIn, Below, RunTo, Home, TableSize, LoadLimit;
      id := 0;
      var index := slot;
      var count := |keys|;
      TableLeast(slots.Length);
      if slots.Length > 0 && count < LoadLimit(slots.Length) && (slot >= slots.Length || !slots[slot].Free()) {
        return InvalidParam, 0;
      }
      if count >= LoadLimit(slots.Length) {
        if slots.Length >= MAX_CAPACITY { return ArithmeticOverflow, 0; }
        var capacity := if slots.Length > 0 then slots.Length * 2 else MIN_CAPACITY;
        if slots.Length > 0 { SizeDoubles(slots.Length); }
        Room(slots.Length, capacity);
        LimitGrows(slots.Length, capacity);
        result := Rebuild(capacity, granted);
        if !result.Success? { return; }
        TableLeast(slots.Length);
        FreeSlot(slots[..], keys, hash);
        index := FindFree(slots, Home(hash(key), slots.Length));
      }
      if !bucket.Success? { return bucket, 0; }
      CountBounded(count, slots.Length);
      ghost var ts := slots[..];
      Inserted(ts, keys, hash, key, index);
      keys := keys + [key];
      slots[index] := Slot(hash(key), count);
      assert slots[..] == ts[index := Slot(hash(key), count)];
      return Success, count;
    }

    /** `arnm_key_map_get_or_insert`: the id of a known key, or the next one for a new key. */
    method GetOrInsert(key: K, granted: bool, bucket: Result) returns (result: Result, id: nat, inserted: bool)
      requires Valid()
      modifies this, slots
      ensures Valid() && (slots == old(slots) || fresh(slots))
      ensures key in old(keys) ==> result.Success? && !inserted && keys == old(keys) && slots == old(slots)
      ensures key !in old(keys) ==> keys == if result.Success? then old(keys) + [key] else old(keys)
      ensures key !in old(keys) ==> (result.Success? <==> inserted)
      ensures result.Success? ==> id < |keys| && keys[id] == key
      ensures key !in old(keys) ==>
                (result.Success? <==>
                 (old(|keys| < LoadLimit(slots.Length)) || (old(slots.Length) < MAX_CAPACITY && granted)) && bucket.Success?)
      ensures key !in old(keys) ==>
                slots.Length == if old(|keys| < LoadLimit(slots.Length)) || old(slots.Length) >= MAX_CAPACITY || !granted then
                                  old(slots.Length)
                                else if old(slots.Length) == 0 then 8 else 2 * old(slots.Length)
    {
      inserted := false;
      var index := 0;
      TableLeast(slots.Length);
      if slots.Length > 0 {
        index := Probe(key);
        if !slots[index].Free() {
          return Success, slots[index].id, false;
        }
      }
      result, id := InsertAbsent(key, index, granted, bucket);
      inserted := result.Success?;
    }
  }
}
