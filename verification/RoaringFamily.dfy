// Many sets over one pool.
//
// A `Family` owns the pool's lent blocks between its sets: no block twice, none left over. Every
// call on a member keeps it so, and a run of calls does to the sets exactly what the same run of
// set operations does to mathematical sets.
module RoaringFamily {
  import opened Results
  import opened BlockPool
  import opened Containers
  import opened Views
  import opened Ranges
  import opened RoaringSet
  import opened RoaringOps

  // ---------- blocks shared out ----------

  ghost function Union(owned: seq<set<Block>>): set<Block> {
    if owned == [] then {} else Union(owned[..|owned| - 1]) + owned[|owned| - 1]
  }

  ghost function TotalBytes(owned: seq<set<Block>>, minLog2: nat): nat {
    if owned == [] then 0 else TotalBytes(owned[..|owned| - 1], minLog2) + Bytes(owned[|owned| - 1], minLog2)
  }

  ghost predicate Apart(owned: seq<set<Block>>) { forall i, j :: 0 <= i < j < |owned| ==> owned[i] !! owned[j] }

  ghost predicate Partition(owned: seq<set<Block>>, lent: set<Block>) { Apart(owned) && Union(owned) == lent }

  lemma {:induction false} InUnion(owned: seq<set<Block>>, b: Block)
    ensures b in Union(owned) <==> exists i :: 0 <= i < |owned| && b in owned[i]
  {
    if owned != [] {
      var before := owned[..|owned| - 1];
      InUnion(before, b);
      assert forall i :: 0 <= i < |before| ==> before[i] == owned[i];
      if b in Union(before) {
        var i :| 0 <= i < |before| && b in before[i];
        assert b in owned[i];
      }
      if i :| 0 <= i < |owned| && b in owned[i] {
        assert i < |before| ==> b in before[i];
      }
    }
  }

  /** The bytes lent are the sum over the sets. */
  lemma {:induction false} PartitionBytes(owned: seq<set<Block>>, minLog2: nat)
    requires Apart(owned)
    ensures Bytes(Union(owned), minLog2) == TotalBytes(owned, minLog2)
  {
    if owned != [] {
      var before, last := owned[..|owned| - 1], owned[|owned| - 1];
      PartitionBytes(before, minLog2);
      forall b | b in Union(before) ensures b !in last {
        InUnion(before, b);
        var i :| 0 <= i < |before| && b in before[i];
        assert owned[i] !! owned[|owned| - 1];
      }
      BytesJoined(Union(before), last, minLog2);
    }
  }

  /** One share changes and nobody else's does. */
  lemma ShareChanged(owned: seq<set<Block>>, i: nat, now: set<Block>, lent: set<Block>, lentNow: set<Block>)
    requires Partition(owned, lent) && i < |owned| && now <= lentNow && lentNow - now == lent - owned[i]
    ensures Partition(owned[i := now], lentNow)
  {
    var after := owned[i := now];
    forall b ensures b in Union(after) <==> b in lentNow {
      InUnion(after, b);
      InUnion(owned, b);
      if b in lentNow {
        if b in now {
          assert b in after[i];
        } else {
          assert b in lentNow - now;
          var j :| 0 <= j < |owned| && b in owned[j];
          assert b in after[j];
        }
      }
      if j :| 0 <= j < |after| && b in after[j] {
        if j != i { Elsewhere(owned, i, j, b, lent); }
      }
    }
    forall j, k | 0 <= j < k < |after| ensures after[j] !! after[k] {
      assert owned[j] !! owned[k];
      forall b | b in owned[k] && j == i ensures b !in now { Elsewhere(owned, i, k, b, lent); }
      forall b | b in owned[j] && k == i ensures b !in now { Elsewhere(owned, i, j, b, lent); }
    }
  }

  lemma Elsewhere(owned: seq<set<Block>>, i: nat, j: nat, b: Block, lent: set<Block>)
    requires Partition(owned, lent) && i < |owned| && j < |owned| && i != j && b in owned[j]
    ensures b in lent - owned[i]
  {
    InUnion(owned, b);
    assert i < j ==> owned[i] !! owned[j];
    assert j < i ==> owned[j] !! owned[i];
  }

  // ---------- the family ----------

  ghost function Owned(sets: seq<RoaringBitmap>): (r: seq<set<Block>>)
    reads sets
    ensures |r| == |sets|
  {
    seq(|sets|, i requires 0 <= i < |sets| reads sets => sets[i].Blocks())
  }

  ghost function Models(sets: seq<RoaringBitmap>): (r: seq<set<nat>>)
    reads sets
    ensures |r| == |sets|
  {
    seq(|sets|, i requires 0 <= i < |sets| reads sets => sets[i].Model())
  }

  predicate Distinct(sets: seq<RoaringBitmap>) { forall i, j :: 0 <= i < j < |sets| ==> sets[i] != sets[j] }

  ghost predicate AllValid(sets: seq<RoaringBitmap>)
    reads sets
  {
    forall i :: 0 <= i < |sets| ==> sets[i].Valid()
  }

  ghost predicate Family(sets: seq<RoaringBitmap>, pool: Pool)
    reads sets, pool, pool.source
  {
    Distinct(sets) && AllValid(sets) && pool.Valid() && Partition(Owned(sets), pool.lent)
  }

  /** The pool's counter is the sum of what the sets own. */
  lemma LentBytes(sets: seq<RoaringBitmap>, pool: Pool)
    requires Family(sets, pool)
    ensures pool.lentBytes == TotalBytes(Owned(sets), pool.minLog2)
  {
    hide RoaringBitmap.Valid;
    pool.LentCounted();
    hide Pool.Valid, Owned;
    PartitionBytes(Owned(sets), pool.minLog2);
  }

  /** A member is ready for any call. */
  lemma MemberReady(sets: seq<RoaringBitmap>, pool: Pool, i: nat)
    requires Family(sets, pool) && i < |sets|
    ensures sets[i].Valid() && sets[i].Ready(pool)
  {
    hide Pool.Valid;
    assert sets[i].Valid();
    forall b | b in sets[i].Blocks() ensures b in pool.lent {
      assert b in Owned(sets)[i];
      InUnion(Owned(sets), b);
    }
  }

  ghost predicate Fit(s: RoaringBitmap, pool: Pool)
    reads s, pool, pool.source
  {
    s.Valid() && s.Ready(pool)
  }

  /** The members other than `i` own and hold this. */
  ghost predicate Rest(sets: seq<RoaringBitmap>, i: nat, owned: seq<set<Block>>, models: seq<set<nat>>)
    requires |owned| == |models| == |sets|
    reads sets
  {
    forall j :: 0 <= j < |sets| && j != i ==>
      sets[j].Valid() && sets[j].Blocks() == owned[j] && sets[j].Model() == models[j]
  }

  /** What a call on one member has to leave behind for the family to go on. */
  lemma FamilyKept(sets: seq<RoaringBitmap>, pool: Pool, i: nat, owned: seq<set<Block>>, models: seq<set<nat>>, lent: set<Block>)
    requires Distinct(sets) && |owned| == |models| == |sets| && i < |sets| && Partition(owned, lent)
    requires Rest(sets, i, owned, models)
    requires Fit(sets[i], pool) && sets[i].Others(pool) == lent - owned[i]
    ensures Family(sets, pool)
    ensures Models(sets) == models[i := sets[i].Model()] && Owned(sets) == owned[i := sets[i].Blocks()]
  {
    hide Pool.Valid, RoaringBitmap.Valid, RoaringBitmap.Model;
    assert AllValid(sets);
    assert Owned(sets) == owned[i := sets[i].Blocks()];
    assert sets[i].Blocks() <= pool.lent;
    hide Partition;
    ShareChanged(owned, i, sets[i].Blocks(), lent, pool.lent);
  }

  // ---------- calls and runs ----------

  datatype Call =
    | Add(set_: nat, value: nat)
    | Release(set_: nat)
    | Meet(set_: nat, a: nat, b: nat, min: nat, max: nat)
    | Join(set_: nat, a: nat, b: nat, min: nat, max: nat)
    | Less(set_: nat, a: nat, b: nat, min: nat, max: nat)
    | Cut(set_: nat, a: nat, min: nat, max: nat)

  predicate Sane(c: Call, n: nat) {
    c.set_ < n
    && match c
       case Add(_, value) => value <= UINT32_MAX
       case Release(_) => true
       case Meet(_, a, b, min, max) => a < n && b < n && min <= UINT32_MAX && max <= UINT32_MAX
       case Join(_, a, b, min, max) => a < n && b < n && min <= UINT32_MAX && max <= UINT32_MAX
       case Less(_, a, b, min, max) => a < n && b < n && min <= UINT32_MAX && max <= UINT32_MAX
       case Cut(_, a, min, max) => a < n && min <= UINT32_MAX && max <= UINT32_MAX
  }

  /** The set a call asks for, from the sets there are. */
  ghost function Asked(models: seq<set<nat>>, c: Call): set<nat>
    requires Sane(c, |models|)
  {
    match c
    case Add(s, value) => models[s] + {value}
    case Release(_) => {}
    case Meet(_, a, b, min, max) => Clip(models[a] * models[b], min, max)
    case Join(_, a, b, min, max) => Clip(models[a] + models[b], min, max)
    case Less(_, a, b, min, max) => Clip(models[a] - models[b], min, max)
    case Cut(_, a, min, max) => Clip(models[a], min, max)
  }

  /** What a call does to mathematical sets, given its answer: all of it, or nothing. */
  ghost function Applied(models: seq<set<nat>>, c: Call, result: Result): (r: seq<set<nat>>)
    requires Sane(c, |models|)
    ensures |r| == |models|
  {
    if result.Success? then models[c.set_ := Asked(models, c)] else models
  }

  /** What a call needs of the mathematical sets to be carried out, were memory no question. */
  ghost predicate Accepts(models: seq<set<nat>>, c: Call)
    requires Sane(c, |models|)
  {
    match c
    case Add(s, value) => (forall v :: v in models[s] ==> v <= value) && (value in models[s] || |models[s]| < UINT32_MAX)
    case Release(_) => true
    case Meet(s, a, b, _, _) => s != a && s != b && models[s] == {} && |Asked(models, c)| <= UINT32_MAX
    case Join(s, a, b, _, _) => s != a && s != b && models[s] == {} && |Asked(models, c)| <= UINT32_MAX
    case Less(s, a, b, _, _) => s != a && s != b && models[s] == {} && |Asked(models, c)| <= UINT32_MAX
    case Cut(s, a, _, _) => s != a && models[s] == {} && |Asked(models, c)| <= UINT32_MAX
  }

  /** An output passes the checks if and only if its set is empty. */
  lemma EmptyModel(s: RoaringBitmap)
    requires s.Valid()
    ensures s.directory == 0 && s.cardinality == 0 <==> s.Model() == {}
  {
    EmptySet(s.View());
    if s.cardinality == 0 { EmptyContent(s.View()); }
  }

  /** The order `Add` asks for, in terms of the set. */
  lemma AddAccepted(s: RoaringBitmap, value: nat)
    requires s.Valid()
    ensures (s.cardinality > 0 ==> value == s.maximum || (value > s.maximum && s.cardinality < UINT32_MAX)) <==>
              (forall v :: v in s.Model() ==> v <= value) && (value in s.Model() || |s.Model()| < UINT32_MAX)
  {
    hide Content, Shape;
    if s.cardinality > 0 { assert s.maximum in s.Model(); }
  }

  /** What an outcome says of the member it was for. */
  lemma Ended(out: RoaringBitmap, pool: Pool, result: Result, g: Goal)
    requires Outcome(out, pool, result, g)
    ensures out.Valid() && out.Ready(pool) && out.Others(pool) == g.others
    ensures out.Model() == if result.Success? then g.target else {}
  {
    EmptyContent(EMPTY);
    hide RoaringBitmap.Valid, Pool.Valid, Content;
  }

  method DoMeet(sets: seq<RoaringBitmap>, pool: Pool, ghost c: Call, k: nat, a: nat, b: nat, min: nat, max: nat)
    returns (result: Result)
    requires Family(sets, pool) && c == Meet(k, a, b, min, max) && Sane(c, |sets|)
    modifies sets, pool, pool.source
    ensures Family(sets, pool) && Models(sets) == Applied(old(Models(sets)), c, result)
    ensures result.Success? <==> Accepts(old(Models(sets)), c) && pool.refusals == old(pool.refusals)
  {
    hide Pool.Valid, RoaringBitmap.Valid, RoaringBitmap.Stored, Partition, Clip, Content;
    ghost var owned, models, lent := Owned(sets), Models(sets), pool.lent;
    MemberReady(sets, pool, k);
    MemberReady(sets, pool, a);
    MemberReady(sets, pool, b);
    EmptyModel(sets[k]);
    ghost var refused := Refused(sets[k], sets[a], sets[b]);
    ghost var g := Goal(Clip(sets[a].Model() * sets[b].Model(), min, max), sets[k].Others(pool), pool.refusals);
    result := RoaringOps.And(sets[k], sets[a], sets[b], min, max, pool);
    if !refused { Ended(sets[k], pool, result, g); }
    FamilyKept(sets, pool, k, owned, models, lent);
  }

  method DoJoin(sets: seq<RoaringBitmap>, pool: Pool, ghost c: Call, k: nat, a: nat, b: nat, min: nat, max: nat)
    returns (result: Result)
    requires Family(sets, pool) && c == Join(k, a, b, min, max) && Sane(c, |sets|)
    modifies sets, pool, pool.source
    ensures Family(sets, pool) && Models(sets) == Applied(old(Models(sets)), c, result)
    ensures result.Success? <==> Accepts(old(Models(sets)), c) && pool.refusals == old(pool.refusals)
  {
    hide Pool.Valid, RoaringBitmap.Valid, RoaringBitmap.Stored, Partition, Clip, Content;
    ghost var owned, models, lent := Owned(sets), Models(sets), pool.lent;
    MemberReady(sets, pool, k);
    MemberReady(sets, pool, a);
    MemberReady(sets, pool, b);
    EmptyModel(sets[k]);
    ghost var refused := Refused(sets[k], sets[a], sets[b]);
    ghost var g := Goal(Clip(sets[a].Model() + sets[b].Model(), min, max), sets[k].Others(pool), pool.refusals);
    result := RoaringOps.Or(sets[k], sets[a], sets[b], min, max, pool);
    if !refused { Ended(sets[k], pool, result, g); }
    FamilyKept(sets, pool, k, owned, models, lent);
  }

  method DoLess(sets: seq<RoaringBitmap>, pool: Pool, ghost c: Call, k: nat, a: nat, b: nat, min: nat, max: nat)
    returns (result: Result)
    requires Family(sets, pool) && c == Less(k, a, b, min, max) && Sane(c, |sets|)
    modifies sets, pool, pool.source
    ensures Family(sets, pool) && Models(sets) == Applied(old(Models(sets)), c, result)
    ensures result.Success? <==> Accepts(old(Models(sets)), c) && pool.refusals == old(pool.refusals)
  {
    hide Pool.Valid, RoaringBitmap.Valid, RoaringBitmap.Stored, Partition, Clip, Content;
    ghost var owned, models, lent := Owned(sets), Models(sets), pool.lent;
    MemberReady(sets, pool, k);
    MemberReady(sets, pool, a);
    MemberReady(sets, pool, b);
    EmptyModel(sets[k]);
    ghost var refused := Refused(sets[k], sets[a], sets[b]);
    ghost var g := Goal(Clip(sets[a].Model() - sets[b].Model(), min, max), sets[k].Others(pool), pool.refusals);
    result := RoaringOps.AndNot(sets[k], sets[a], sets[b], min, max, pool);
    if !refused { Ended(sets[k], pool, result, g); }
    FamilyKept(sets, pool, k, owned, models, lent);
  }

  method DoCut(sets: seq<RoaringBitmap>, pool: Pool, ghost c: Call, k: nat, a: nat, min: nat, max: nat) returns (result: Result)
    requires Family(sets, pool) && c == Cut(k, a, min, max) && Sane(c, |sets|)
    modifies sets, pool, pool.source
    ensures Family(sets, pool) && Models(sets) == Applied(old(Models(sets)), c, result)
    ensures result.Success? <==> Accepts(old(Models(sets)), c) && pool.refusals == old(pool.refusals)
  {
    hide Pool.Valid, RoaringBitmap.Valid, RoaringBitmap.Stored, Partition, Clip, Content;
    ghost var owned, models, lent := Owned(sets), Models(sets), pool.lent;
    MemberReady(sets, pool, k);
    MemberReady(sets, pool, a);
    EmptyModel(sets[k]);
    ghost var refused := Refused(sets[k], sets[a], sets[a]);
    ghost var g := Goal(Clip(sets[a].Model(), min, max), sets[k].Others(pool), pool.refusals);
    result := RoaringOps.CopyRange(sets[k], sets[a], min, max, pool);
    if !refused { Ended(sets[k], pool, result, g); }
    FamilyKept(sets, pool, k, owned, models, lent);
  }

  method DoAdd(sets: seq<RoaringBitmap>, pool: Pool, ghost c: Call, k: nat, value: nat) returns (result: Result)
    requires Family(sets, pool) && c == Add(k, value) && Sane(c, |sets|)
    modifies sets, pool, pool.source
    ensures Family(sets, pool) && Models(sets) == Applied(old(Models(sets)), c, result)
    ensures result.Success? <==> Accepts(old(Models(sets)), c) && pool.refusals == old(pool.refusals)
  {
    hide Pool.Valid, RoaringBitmap.Valid, Partition, Content;
    ghost var owned, models, lent := Owned(sets), Models(sets), pool.lent;
    MemberReady(sets, pool, k);
    AddAccepted(sets[k], value);
    result := sets[k].Add(value, pool);
    FamilyKept(sets, pool, k, owned, models, lent);
  }

  /** One call on a family: it stays one, and its sets follow the mathematics. */
  method Do(sets: seq<RoaringBitmap>, pool: Pool, c: Call) returns (result: Result)
    requires Family(sets, pool) && Sane(c, |sets|)
    modifies sets, pool, pool.source
    ensures Family(sets, pool) && Models(sets) == Applied(old(Models(sets)), c, result)
    ensures result.Success? <==> Accepts(old(Models(sets)), c) && pool.refusals == old(pool.refusals)
  {
    hide Family, Clip;
    match c {
      case Add(k, value) => result := DoAdd(sets, pool, c, k, value);
      case Release(k) =>
        ReleaseOne(sets, pool, k);
        result := Success;
      case Meet(k, a, b, min, max) => result := DoMeet(sets, pool, c, k, a, b, min, max);
      case Join(k, a, b, min, max) => result := DoJoin(sets, pool, c, k, a, b, min, max);
      case Less(k, a, b, min, max) => result := DoLess(sets, pool, c, k, a, b, min, max);
      case Cut(k, a, min, max) => result := DoCut(sets, pool, c, k, a, min, max);
    }
  }

  /** The sets after a run of calls with these answers. */
  ghost function Replayed(models: seq<set<nat>>, calls: seq<Call>, results: seq<Result>): (r: seq<set<nat>>)
    requires |results| == |calls| && forall c :: c in calls ==> Sane(c, |models|)
    ensures |r| == |models|
  {
    if calls == [] then models
    else
      var n := |calls| - 1;
      Applied(Replayed(models, calls[..n], results[..n]), calls[n], results[n])
  }

  /** Every answer of a run is the one the mathematical sets call for. */
  ghost predicate Exact(models: seq<set<nat>>, calls: seq<Call>, results: seq<Result>)
    requires |results| == |calls| && forall c :: c in calls ==> Sane(c, |models|)
  {
    calls != [] ==>
      var n := |calls| - 1;
      Exact(models, calls[..n], results[..n])
      && (results[n].Success? <==> Accepts(Replayed(models, calls[..n], results[..n]), calls[n]))
  }

  /** Where every answer is exact, the calls alone decide what the sets become. */
  lemma {:induction false} RunDetermined(models: seq<set<nat>>, calls: seq<Call>, once: seq<Result>, again: seq<Result>)
    requires |once| == |again| == |calls| && forall c :: c in calls ==> Sane(c, |models|)
    requires Exact(models, calls, once) && Exact(models, calls, again)
    ensures Replayed(models, calls, once) == Replayed(models, calls, again)
  {
    hide Accepts, Asked;
    if calls != [] {
      var n := |calls| - 1;
      RunDetermined(models, calls[..n], once[..n], again[..n]);
    }
  }

  lemma NoneRefused(sets: seq<RoaringBitmap>, pool: Pool)
    requires Family(sets, pool)
    ensures pool.Generous() ==> pool.refusals == 0
  {
    hide Pool.Valid, Pool.Generous;
    if pool.Generous() { pool.NeverRefused(); }
  }

  /**
   * Any run of calls on any sets over one pool: afterwards each set is what the run makes of the
   * mathematical sets, and the bytes lent are the bytes the sets own, whatever was refused. Over a
   * pool that never runs short every answer is exact.
   */
  method Run(sets: seq<RoaringBitmap>, pool: Pool, calls: seq<Call>) returns (results: seq<Result>)
    requires Family(sets, pool) && forall c :: c in calls ==> Sane(c, |sets|)
    modifies sets, pool, pool.source
    ensures Family(sets, pool) && |results| == |calls|
    ensures Models(sets) == Replayed(old(Models(sets)), calls, results)
    ensures pool.Generous() ==> Exact(old(Models(sets)), calls, results)
    ensures pool.lentBytes == TotalBytes(Owned(sets), pool.minLog2)
  {
    hide Family, Sane, Asked, Applied, Accepts, Pool.Generous;
    results := [];
    var i: nat := 0;
    while i < |calls|
      invariant i <= |calls| && |results| == i && Family(sets, pool)
      invariant Models(sets) == Replayed(old(Models(sets)), calls[..i], results)
      invariant pool.Generous() ==> Exact(old(Models(sets)), calls[..i], results)
    {
      NoneRefused(sets, pool);
      var result := Do(sets, pool, calls[i]);
      NoneRefused(sets, pool);
      assert calls[..i + 1][..i] == calls[..i] && (results + [result])[..i] == results;
      results := results + [result];
      i := i + 1;
    }
    assert calls[..i] == calls;
    LentBytes(sets, pool);
  }

  /** Once every set is freed the pool has lent nothing. */
  method ReleaseAll(sets: seq<RoaringBitmap>, pool: Pool)
    requires Family(sets, pool)
    modifies sets, pool, pool.source
    ensures Family(sets, pool) && pool.lent == {} && pool.lentBytes == 0
  {
    hide Family;
    var i: nat := 0;
    while i < |sets|
      invariant i <= |sets| && Family(sets, pool) && forall j :: 0 <= j < i ==> Owned(sets)[j] == {}
    {
      ReleaseOne(sets, pool, i);
      i := i + 1;
    }
    LentBytes(sets, pool);
    NothingOwned(Owned(sets), pool.minLog2);
    FamilyOwns(sets, pool);
  }

  method ReleaseOne(sets: seq<RoaringBitmap>, pool: Pool, i: nat)
    requires Family(sets, pool) && i < |sets|
    modifies sets, pool, pool.source
    ensures Family(sets, pool) && Owned(sets) == old(Owned(sets))[i := {}] && Models(sets) == old(Models(sets))[i := {}]
    ensures pool.refusals == old(pool.refusals)
  {
    hide Pool.Valid, RoaringBitmap.Valid, Partition;
    ghost var owned, models, lent := Owned(sets), Models(sets), pool.lent;
    MemberReady(sets, pool, i);
    sets[i].Free(pool);
    FamilyKept(sets, pool, i, owned, models, lent);
  }

  lemma FamilyOwns(sets: seq<RoaringBitmap>, pool: Pool)
    requires Family(sets, pool)
    ensures pool.lent == Union(Owned(sets))
  {
    hide Pool.Valid, RoaringBitmap.Valid;
  }

  lemma {:induction false} NothingOwned(owned: seq<set<Block>>, minLog2: nat)
    requires forall i :: 0 <= i < |owned| ==> owned[i] == {}
    ensures Union(owned) == {} && TotalBytes(owned, minLog2) == 0
  {
    if owned != [] { NothingOwned(owned[..|owned| - 1], minLog2); }
  }
}
