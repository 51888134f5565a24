// The sets of a query walked key by key, together: which keys can hold a match, and what each set
// has of them.
module QueryWalk {
  import opened Results
  import opened Order
  import opened WordBuffer
  import opened Containers
  import opened Views
  import opened Sources
  import opened Ranges
  import opened KeyBits
  import opened QueryKeys
  import opened SparseUnion

  /**
   * A query's three lists and its range; `Wanted` gives their meaning, and None stands for a missing
   * set.
   */
  datatype Query = Query(
    all: seq<Option<View>>,
    any: seq<Option<View>>,
    none: seq<Option<View>>,
    min: nat,
    max: nat
  )

  ghost predicate InEvery(sets: seq<Option<View>>, v: nat) {
    forall s :: 0 <= s < |sets| ==> sets[s].Some? && v in Content(sets[s].value)
  }

  ghost predicate Wanted(q: Query, v: nat) {
    q.min <= v <= q.max && InEvery(q.all, v) && (q.any != [] ==> InSome(q.any, v)) && !InSome(q.none, v)
    && (q.all != [] || q.any != [])
  }

  /** What a query asks for. A query that names neither `all` nor `any` matches nothing. */
  ghost function Matches(q: Query): set<nat> { set v: nat | v <= UINT32_MAX && Wanted(q, v) }

  ghost predicate QueryOk(q: Query) {
    AllViews(q.all) && AllViews(q.any) && AllViews(q.none) && q.min <= q.max <= UINT32_MAX
  }

  // ---------- one source of the walk ----------

  ghost predicate SourceOf(s: Source, set_: Option<View>, q: Query, descending: bool) {
    s.view == set_ && s.minKey == KeyOf(q.min) && s.maxKey == KeyOf(q.max) && s.descending == descending && s.wide
  }

  /** A key that is no key of a set: the set has none of its values. */
  lemma KeyAbsent(view: View, key: nat, x: nat)
    requires x < LOWS && ValueOf(key, x) in Content(view)
    ensures key in KeySeq(view)
  {
    SplitValue(key, x);
    var v := ValueOf(key, x);
    if view.Sparse() {
      var i :| 0 <= i < |view.values| && view.values[i] == v;
      assert KeySeq(view)[i] == key;
    } else {
      var i :| 0 <= i < |view.containers| && InContainer(view.containers[i], v);
      assert KeySeq(view)[i] == key;
    }
  }

  /** A source that stands beyond a key, or at its end: the set has nothing of that key. */
  lemma NothingOfKey(s: Source, set_: Option<View>, q: Query, descending: bool, key: nat)
    requires SourceOf(s, set_, q, descending) && set_.Some? && KeyOf(q.min) <= key <= KeyOf(q.max)
    requires key < LOWS && Ahead(s, Rank(key, descending))
    requires s.current.Some? ==> Rank(key, descending) < Rank(s.current.value.key, descending)
    ensures forall x: nat :: x < LOWS ==> ValueOf(key, x) !in Content(set_.value)
  {
    hide Represents, Shape, KeySeq, Content;
    if s.current.Some? { CurrentIsFirst(s); }
    assert key !in KeysLeft(s);
    assert key !in KeysIn(s.view, s.minKey, s.maxKey);
    forall x: nat | x < LOWS ensures ValueOf(key, x) in Content(set_.value) ==> key in KeySeq(set_.value) {
      if ValueOf(key, x) in Content(set_.value) { KeyAbsent(set_.value, key, x); }
    }
  }

  /** What a source stands on is what its set has of the key. */
  lemma StandsOn(s: Source, set_: Option<View>, q: Query, descending: bool)
    requires SourceOf(s, set_, q, descending) && Live(s) && s.current.Some?
    ensures set_.Some? && Sound(s.current.value) && KeyOf(q.min) <= s.current.value.key <= KeyOf(q.max)
    ensures s.current.value.key < LOWS && Represents(set_.value, s.current.value, true)
    ensures forall x: nat :: x < LOWS ==> (Has(s.current.value, x) <==> ValueOf(s.current.value.key, x) in Content(set_.value))
  {
    hide Has, In, KeySeq, RunOf, Shape;
    var c := s.current.value;
    forall x: nat | x < LOWS ensures ValueOf(c.key, x) <= UINT32_MAX { assert c.key < LOWS; }
  }

  /**
   * `source_seek`: advanced to the place of `key` or beyond, with nothing of the set between there
   * and where it stops.
   */
  method Seek(s: Source, key: nat, ghost set_: Option<View>, ghost q: Query, descending: bool, ghost from: nat) returns (t: Source)
    requires SourceOf(s, set_, q, descending) && Ahead(s, from) && key < LOWS && from <= Rank(key, descending)
    ensures SourceOf(t, set_, q, descending) && Ahead(t, Rank(key, descending))
    ensures t.current.Some? ==> Rank(key, descending) <= Rank(t.current.value.key, descending)
  {
    hide Live, KeysLeft, KeysIn;
    t := s;
    ghost var at: nat := from;
    while t.current.Some? && Before(t.current.value.key, key, descending)
      invariant SourceOf(t, set_, q, descending) && Ahead(t, at) && at <= Rank(key, descending)
      decreases Remaining(t)
    {
      ghost var was := t;
      CurrentIsFirst(t);
      t := Advance(t);
      KeyInRange(was);
      AheadAfter(was, t, at, Rank(key, descending));
      OneLeftLess(was, t);
      at := Rank(key, descending);
    }
    if t.current.Some? { KeyInRange(t); }
    AheadLater(t, at, Rank(key, descending));
  }

  ghost function Remaining(s: Source): nat { if Live(s) then |KeysLeft(s)| else 0 }

  lemma OneLeftLess(s: Source, t: Source)
    requires Live(s) && Live(t) && s.current.Some? && s.current.value.key in KeysLeft(s)
    requires KeysLeft(t) == KeysLeft(s) - {s.current.value.key}
    ensures Remaining(t) < Remaining(s)
  {
    hide Represents, KeySeq, Shape;
    assert KeysLeft(s) == KeysLeft(t) + {s.current.value.key};
  }

  lemma KeyInRange(s: Source)
    requires Live(s) && s.current.Some?
    ensures s.current.value.key < LOWS && s.minKey <= s.current.value.key <= s.maxKey
  {
  }

  lemma AheadLater(s: Source, from: nat, to: nat)
    requires Ahead(s, from) && from <= to
    ensures Ahead(s, to)
  {
    hide Live, KeysLeft, KeysIn;
  }

  // ---------- the sources of one list ----------

  ghost predicate Listed(sources: seq<Source>, sets: seq<Option<View>>, q: Query, descending: bool, from: nat) {
    |sources| == |sets|
    && forall i :: 0 <= i < |sets| ==> SourceOf(sources[i], sets[i], q, descending) && Ahead(sources[i], from)
  }

  ghost predicate Beyond(sources: seq<Source>, descending: bool, from: nat) {
    forall i :: 0 <= i < |sources| && sources[i].current.Some? ==> from <= Rank(sources[i].current.value.key, descending)
  }

  /** `query_walk_begin`, for one list. */
  method BeginList(sets: seq<Option<View>>, q: Query, descending: bool) returns (sources: seq<Source>)
    requires AllViews(sets) && q.min <= q.max <= UINT32_MAX
    ensures Listed(sources, sets, q, descending, 0) && Beyond(sources, descending, 0)
  {
    hide Live, KeysLeft, KeysIn, SoundView, Ahead;
    sources := [];
    var i := 0;
    while i < |sets|
      invariant 0 <= i <= |sets| && |sources| == i
      invariant forall j :: 0 <= j < i ==> SourceOf(sources[j], sets[j], q, descending) && Ahead(sources[j], 0)
    {
      if sets[i].Some? { ListShape(sets, i); }
      var s := Begin(sets[i], q.min, q.max, descending, true);
      FreshAhead(s);
      sources := sources + [s];
      i := i + 1;
    }
  }

  lemma ListShape(sets: seq<Option<View>>, i: nat)
    requires AllViews(sets) && i < |sets| && sets[i].Some?
    ensures Shape(sets[i].value)
  {
    assert SoundView(sets[i].value);
  }

  /** Sources that stand on `key` leave it, so that all are ahead of the place behind it. */
  method AdvancePast(from: seq<Source>, key: nat, ghost sets: seq<Option<View>>, ghost q: Query, descending: bool)
    returns (sources: seq<Source>)
    requires key < LOWS && Listed(from, sets, q, descending, Rank(key, descending) + 1) && Beyond(from, descending, Rank(key, descending))
    ensures Listed(sources, sets, q, descending, Rank(key, descending) + 1)
    ensures Beyond(sources, descending, Rank(key, descending) + 1)
  {
    hide Live, KeysLeft, KeysIn, Ahead, Rank;
    ghost var r := Rank(key, descending);
    sources := from;
    var i := 0;
    while i < |sources|
      invariant 0 <= i <= |sources| == |sets| && Listed(sources, sets, q, descending, r + 1)
      invariant Beyond(sources, descending, r) && Beyond(sources[..i], descending, r + 1)
    {
      var s := sources[i];
      assert SourceOf(s, sets[i], q, descending) && Ahead(s, r + 1);
      var t := s;
      if s.current.Some? && s.current.value.key == key {
        AheadIsLive(s, r + 1);
        t := Advance(s);
        PassedKey(s, t, key);
      } else {
        NotOnKey(s, key, r + 1);
      }
      sources := sources[i := t];
      assert sources[..i + 1] == sources[..i] + [t];
      i := i + 1;
    }
    assert sources[..i] == sources;
  }

  lemma AheadIsLive(s: Source, from: nat)
    requires Ahead(s, from)
    ensures Live(s)
  {
  }

  lemma NotOnKey(s: Source, key: nat, from: nat)
    requires Ahead(s, from) && key < LOWS && (s.current.Some? ==> s.current.value.key != key)
    requires s.current.Some? ==> Rank(key, s.descending) <= Rank(s.current.value.key, s.descending)
    ensures s.current.Some? ==> Rank(key, s.descending) + 1 <= Rank(s.current.value.key, s.descending)
  {
    hide Represents, KeySeq, Shape, RunOf;
    if s.current.Some? { KeyInRange(s); }
  }

  lemma PassedKey(s: Source, t: Source, key: nat)
    requires Ahead(s, Rank(key, s.descending) + 1) && s.current.Some? && s.current.value.key == key && Live(t)
    requires t == s.(position := t.position, next := t.next, current := t.current)
    requires KeysLeft(t) == KeysLeft(s) - {key}
    ensures Ahead(t, Rank(key, s.descending) + 1)
    ensures t.current.Some? ==> Rank(key, s.descending) + 1 <= Rank(t.current.value.key, s.descending)
  {
    hide Represents, KeySeq, Shape, RunOf;
    CurrentIsFirst(s);
    KeyInRange(s);
    if t.current.Some? {
      CurrentIsFirst(t);
      KeyInRange(t);
    }
  }

  // ---------- aligning the sources of `all` ----------

  ghost function SetClip(set_: Option<View>, q: Query): set<nat> {
    if set_.None? then {} else Clip(Content(set_.value), q.min, q.max)
  }

  /** The matches are in every one of the sets. */
  ghost predicate InLists(m: set<nat>, sets: seq<Option<View>>, q: Query) {
    forall i :: 0 <= i < |sets| ==> m <= SetClip(sets[i], q)
  }

  lemma NoneLeftOf(m: set<nat>, s: Source, set_: Option<View>, q: Query, descending: bool, from: nat, to: nat)
    requires SourceOf(s, set_, q, descending) && Ahead(s, from) && m <= SetClip(set_, q)
    requires s.current.Some? ==> to <= Rank(s.current.value.key, descending)
    ensures NoneRanked(m, from, to, descending)
  {
    hide Content, Ahead, Clip;
    if set_.Some? { Gap(s, from, q.min, q.max, to); }
  }

  lemma NoneJoins(m: set<nat>, from: nat, mid: nat, to: nat, descending: bool)
    requires NoneRanked(m, from, mid, descending) && NoneRanked(m, mid, to, descending)
    ensures NoneRanked(m, from, to, descending)
  {
  }

  /** Every source of the list pulled up to a key: it stands on it, or the key moves on. */
  method PullList(from: seq<Source>, start: nat, ghost sets: seq<Option<View>>, ghost q: Query, descending: bool,
                  ghost m: set<nat>, ghost first: nat)
    returns (found: bool, aligned: bool, key: nat, sources: seq<Source>)
    requires Listed(from, sets, q, descending, Rank(start, descending)) && InLists(m, sets, q) && start < LOWS
    requires KeyOf(q.min) <= start <= KeyOf(q.max)
    requires NoneRanked(m, first, Rank(start, descending), descending) && first <= Rank(start, descending)
    ensures !found ==> NoneRanked(m, first, LOWS, descending)
    ensures found ==> key < LOWS && Rank(start, descending) <= Rank(key, descending) && KeyOf(q.min) <= key <= KeyOf(q.max)
    ensures found ==> Listed(sources, sets, q, descending, Rank(key, descending))
    ensures found ==> NoneRanked(m, first, Rank(key, descending), descending)
    ensures found && !aligned ==> Rank(start, descending) < Rank(key, descending)
    ensures found && aligned ==> key == start && OnKey(sources, key)
  {
    hide Live, KeysLeft, KeysIn, Ahead, Rank, NoneRanked, SourceOf, SetClip;
    sources, key, found, aligned := from, start, true, true;
    var i := 0;
    while i < |sources|
      invariant 0 <= i <= |sources| == |sets| && key < LOWS && KeyOf(q.min) <= key <= KeyOf(q.max)
      invariant Listed(sources, sets, q, descending, Rank(key, descending))
      invariant NoneRanked(m, first, Rank(key, descending), descending)
      invariant Rank(start, descending) <= Rank(key, descending) && (aligned ==> key == start && OnKey(sources[..i], key))
      invariant !aligned ==> Rank(start, descending) < Rank(key, descending)
    {
      var t := Seek(sources[i], key, sets[i], q, descending, Rank(key, descending));
      if t.current.None? {
        NoneLeftOf(m, t, sets[i], q, descending, Rank(key, descending), LOWS);
        NoneJoins(m, first, Rank(key, descending), LOWS, descending);
        found := false;
        return;
      }
      sources := sources[i := t];
      SourceStands(t, sets[i], q, descending, Rank(key, descending));
      if t.current.value.key != key {
        var next := t.current.value.key;
        NoneLeftOf(m, t, sets[i], q, descending, Rank(key, descending), Rank(next, descending));
        NoneJoins(m, first, Rank(key, descending), Rank(next, descending), descending);
        RankDiffers(key, next, descending);
        ListLater(sources, sets, q, descending, Rank(key, descending), Rank(next, descending));
        key, aligned := next, false;
      }
      assert sources[..i + 1] == sources[..i] + [t];
      i := i + 1;
    }
    assert sources[..i] == sources;
  }

  ghost predicate OnKey(sources: seq<Source>, key: nat) {
    forall i :: 0 <= i < |sources| ==> sources[i].current.Some? && sources[i].current.value.key == key
  }

  lemma SourceStands(s: Source, set_: Option<View>, q: Query, descending: bool, from: nat)
    requires SourceOf(s, set_, q, descending) && Ahead(s, from) && s.current.Some?
    ensures s.current.value.key < LOWS && KeyOf(q.min) <= s.current.value.key <= KeyOf(q.max)
  {
    KeyInRange(s);
  }

  lemma RankDiffers(key: nat, other: nat, descending: bool)
    requires key < LOWS && other < LOWS && key != other
    ensures Rank(key, descending) != Rank(other, descending)
  {
  }

  lemma ListLater(sources: seq<Source>, sets: seq<Option<View>>, q: Query, descending: bool, from: nat, to: nat)
    requires Listed(sources, sets, q, descending, from) && from <= to
    ensures Listed(sources, sets, q, descending, to)
  {
    hide SourceOf, Ahead;
    forall i | 0 <= i < |sets| ensures Ahead(sources[i], to) { AheadLater(sources[i], from, to); }
  }

  /** Finds the first place where `OnKey` holds for all sources, or shows that no match is left. */
  method Align(from: seq<Source>, ghost sets: seq<Option<View>>, ghost q: Query, descending: bool,
               ghost m: set<nat>, ghost first: nat)
    returns (found: bool, key: nat, sources: seq<Source>)
    requires |from| > 0 && Listed(from, sets, q, descending, first) && Beyond(from, descending, first) && InLists(m, sets, q)
    ensures !found ==> NoneRanked(m, first, LOWS, descending)
    ensures found ==> key < LOWS && first <= Rank(key, descending) && KeyOf(q.min) <= key <= KeyOf(q.max)
    ensures found ==> NoneRanked(m, first, Rank(key, descending), descending)
    ensures found ==> Listed(sources, sets, q, descending, Rank(key, descending)) && OnKey(sources, key)
  {
    hide Live, KeysLeft, KeysIn, Ahead, Rank, NoneRanked, SourceOf, SetClip, OnKey;
    sources, key, found := from, 0, true;
    if sources[0].current.None? {
      NoneLeftOf(m, sources[0], sets[0], q, descending, first, LOWS);
      found := false;
      return;
    }
    key := sources[0].current.value.key;
    SourceStands(sources[0], sets[0], q, descending, first);
    NoneLeftOf(m, sources[0], sets[0], q, descending, first, Rank(key, descending));
    ListLater(sources, sets, q, descending, first, Rank(key, descending));
    var aligned := false;
    while !aligned
      invariant key < LOWS && KeyOf(q.min) <= key <= KeyOf(q.max) && first <= Rank(key, descending)
      invariant Listed(sources, sets, q, descending, Rank(key, descending))
      invariant NoneRanked(m, first, Rank(key, descending), descending)
      invariant aligned ==> OnKey(sources, key)
      decreases !aligned, LOWS - Rank(key, descending)
    {
      found, aligned, key, sources := PullList(sources, key, sets, q, descending, m, first);
      if !found { return; }
      RankBelow(key, descending);
    }
  }

  lemma RankBelow(key: nat, descending: bool)
    requires key < LOWS
    ensures Rank(key, descending) < LOWS
  {
  }

  // ---------- the next key some set of `any` has ----------

  /** The key nearest in walking order among the sources. */
  method NearestKey(sources: seq<Source>, ghost sets: seq<Option<View>>, ghost q: Query, descending: bool, ghost first: nat)
    returns (found: bool, key: nat)
    requires Listed(sources, sets, q, descending, first) && Beyond(sources, descending, first)
    ensures !found ==> forall i :: 0 <= i < |sources| ==> sources[i].current.None?
    ensures found ==> key < LOWS && KeyOf(q.min) <= key <= KeyOf(q.max) && first <= Rank(key, descending)
    ensures found ==> Beyond(sources, descending, Rank(key, descending))
    ensures found ==> exists i :: 0 <= i < |sources| && sources[i].current.Some? && sources[i].current.value.key == key
  {
    hide SourceOf, Ahead;
    found, key := false, 0;
    var i := 0;
    while i < |sources|
      invariant 0 <= i <= |sources| && (!found ==> forall j :: 0 <= j < i ==> sources[j].current.None?)
      invariant found ==> key < LOWS && KeyOf(q.min) <= key <= KeyOf(q.max) && first <= Rank(key, descending)
      invariant found ==> forall j :: 0 <= j < i && sources[j].current.Some? ==>
                            Rank(key, descending) <= Rank(sources[j].current.value.key, descending)
      invariant found ==> exists j :: 0 <= j < i && sources[j].current.Some? && sources[j].current.value.key == key
    {
      var c := sources[i].current;
      if c.Some? {
        SourceStands(sources[i], sets[i], q, descending, first);
        if !found || Before(c.value.key, key, descending) {
          key, found := c.value.key, true;
        }
      }
      i := i + 1;
    }
  }

  lemma NoneLeftOfAny(m: set<nat>, sources: seq<Source>, sets: seq<Option<View>>, q: Query, descending: bool, from: nat, to: nat)
    requires Listed(sources, sets, q, descending, from) && (forall v :: v in m ==> InSome(sets, v) && q.min <= v <= q.max)
    requires Beyond(sources, descending, to)
    ensures NoneRanked(m, from, to, descending)
  {
    hide SourceOf, Ahead, Content;
    forall v | v in m && from <= Rank(KeyOf(v), descending) ensures to <= Rank(KeyOf(v), descending) {
      var i :| 0 <= i < |sets| && sets[i].Some? && v in Content(sets[i].value);
      NoneLeftOf({v}, sources[i], sets[i], q, descending, from, to);
    }
  }

  lemma NoSourceBeyond(sources: seq<Source>, descending: bool, to: nat)
    requires forall i :: 0 <= i < |sources| ==> sources[i].current.None?
    ensures Beyond(sources, descending, to)
  {
  }

  // ---------- what a part can reach ----------

  /**
   * `part_reach`: an interval around the container's values, read off its ends and the set's
   * maximum.
   */
  method PartReach(view: View, c: Container) returns (bottom: nat, top: nat)
    requires SoundView(view) && Represents(view, c, true) && c.key < LOWS
    ensures top < LOWS && forall x: nat :: Has(c, x) ==> bottom <= x <= top
  {
    hide SoundView, Represents, BitsBetween;
    assert Sound(c) by { RepresentsSound(view, c); }
    match c.data
    case Lows(lows) =>
      bottom, top := lows[0], lows[|lows| - 1];
      assert top in lows;
    case Wide(values) =>
      bottom, top := LowOf(values[0]), LowOf(values[|values| - 1]);
      WideReach(c);
    case Bits(_) =>
      bottom := 0;
      top := LOWS - 1;
      if |view.containers| > 0 && c == view.containers[|view.containers| - 1] {
        top := LowOf(view.maximum);
        LastReach(view, c);
      }
  }

  lemma RepresentsSound(view: View, c: Container)
    requires Represents(view, c, true)
    ensures Sound(c)
  {
  }

  lemma WideReach(c: Container)
    requires Sound(c) && c.data.Wide?
    ensures |c.data.values| > 0 && LowOf(c.data.values[|c.data.values| - 1]) < LOWS
    ensures forall x: nat :: Has(c, x) ==> LowOf(c.data.values[0]) <= x <= LowOf(c.data.values[|c.data.values| - 1])
  {
    LowsSorted(c);
    var q := LowsOf(c);
    forall x: nat | Has(c, x) ensures q[0] <= x <= q[|q| - 1] {
      assert x in q;
    }
  }

  /** A set's maximum is in its last container. */
  lemma LastReach(view: View, c: Container)
    requires SoundView(view) && |view.containers| > 0 && c == view.containers[|view.containers| - 1] && c.key < LOWS
    ensures LowOf(view.maximum) < LOWS
    ensures forall x: nat :: x < LOWS && Has(c, x) ==> x <= LowOf(view.maximum)
  {
    hide Has, Sound, KindByCount;
    JoinValue(view.maximum);
    forall x: nat | x < LOWS && Has(c, x) ensures x <= LowOf(view.maximum) {
      var v := ValueOf(c.key, x);
      SplitValue(c.key, x);
      assert InContainer(c, v);
      assert v in Content(view);
      var i :| 0 <= i < |view.containers| && InContainer(view.containers[i], view.maximum);
      ValueOrder(KeyOf(view.maximum), LowOf(view.maximum), c.key, x);
    }
  }

  // ---------- the parts of a key ----------

  lemma InAnyAppended(parts: seq<Container>, c: Container, x: nat)
    ensures InAny(parts + [c], x) <==> InAny(parts, x) || Has(c, x)
    ensures InAll(parts + [c], x) <==> InAll(parts, x) && Has(c, x)
  {
    assert (parts + [c])[..|parts|] == parts;
    assert (parts + [c])[..|parts| + 1] == parts + [c];
    InAnyNext(parts + [c], |parts|, x);
  }

  lemma InSomeAt(sets: seq<Option<View>>, i: nat, v: nat)
    requires i < |sets|
    ensures InSome(sets[..i + 1], v) <==> InSome(sets[..i], v) || (sets[i].Some? && v in Content(sets[i].value))
    ensures InEvery(sets[..i + 1], v) <==> InEvery(sets[..i], v) && sets[i].Some? && v in Content(sets[i].value)
  {
    hide Content;
    assert sets[..i + 1][i] == sets[i];
    assert forall j :: 0 <= j < i ==> sets[..i + 1][j] == sets[..i][j];
  }

  /** What the parts hold together is what the sets have of the key. */
  ghost predicate SomeParts(parts: seq<Container>, sets: seq<Option<View>>, key: nat) {
    OfKey(parts, key) && forall x: nat :: x < LOWS ==> (InAny(parts, x) <==> InSome(sets, ValueOf(key, x)))
  }

  ghost predicate EveryPart(parts: seq<Container>, sets: seq<Option<View>>, key: nat) {
    OfKey(parts, key) && forall x: nat :: x < LOWS ==> (InAll(parts, x) <==> InEvery(sets, ValueOf(key, x)))
  }

  lemma SomePartsNext(parts: seq<Container>, sets: seq<Option<View>>, i: nat, key: nat, c: Container)
    requires i < |sets| && SomeParts(parts, sets[..i], key) && Sound(c) && c.key == key && sets[i].Some?
    requires forall x: nat :: x < LOWS ==> (Has(c, x) <==> ValueOf(key, x) in Content(sets[i].value))
    ensures SomeParts(parts + [c], sets[..i + 1], key)
  {
    hide Content, Has, InAny, InSome, Sound;
    forall x: nat | x < LOWS ensures InAny(parts + [c], x) <==> InSome(sets[..i + 1], ValueOf(key, x)) {
      InAnyAppended(parts, c, x);
      InSomeAt(sets, i, ValueOf(key, x));
    }
  }

  lemma SomePartsSame(parts: seq<Container>, sets: seq<Option<View>>, i: nat, key: nat)
    requires i < |sets| && SomeParts(parts, sets[..i], key)
    requires sets[i].Some? ==> forall x: nat :: x < LOWS ==> ValueOf(key, x) !in Content(sets[i].value)
    ensures SomeParts(parts, sets[..i + 1], key)
  {
    hide Content, Has, InAny, InSome, Sound;
    forall x: nat | x < LOWS ensures InAny(parts, x) <==> InSome(sets[..i + 1], ValueOf(key, x)) {
      InSomeAt(sets, i, ValueOf(key, x));
    }
  }

  /** [bottom, top] contains the union of the parts. */
  ghost predicate ReachedBy(parts: seq<Container>, bottom: nat, top: nat) {
    forall x: nat :: InAny(parts, x) ==> bottom <= x <= top
  }

  lemma ReachWidens(parts: seq<Container>, c: Container, bottom: nat, top: nat, low: nat, high: nat)
    requires ReachedBy(parts, bottom, top) && forall x: nat :: Has(c, x) ==> low <= x <= high
    ensures ReachedBy(parts + [c], Min(bottom, low), Max(top, high))
  {
    hide Has, InAny;
    forall x: nat | InAny(parts + [c], x) ensures Min(bottom, low) <= x <= Max(top, high) { InAnyAppended(parts, c, x); }
  }

  lemma NoParts(sets: seq<Option<View>>, key: nat)
    ensures SomeParts([], sets[..0], key) && ReachedBy([], LOWS - 1, 0) && EveryPart([], sets[..0], key)
    ensures sets[..|sets|] == sets
  {
  }

  /** The parts the sets of a list have of a key; and, for a page, how far they reach. */
  method Gather(from: seq<Source>, key: nat, narrow: bool, sets: seq<Option<View>>, ghost q: Query, descending: bool, ghost first: nat)
    returns (parts: seq<Container>, sources: seq<Source>, bottom: nat, top: nat)
    requires Listed(from, sets, q, descending, first) && AllViews(sets) && key < LOWS
    requires first <= Rank(key, descending) && KeyOf(q.min) <= key <= KeyOf(q.max)
    ensures Listed(sources, sets, q, descending, Rank(key, descending)) && Beyond(sources, descending, Rank(key, descending))
    ensures SomeParts(parts, sets, key) && top < LOWS && (narrow ==> ReachedBy(parts, bottom, top))
  {
    hide Live, KeysLeft, KeysIn, Ahead, Rank, SourceOf, SomeParts, ReachedBy, SoundView, Represents, Content, InAny, Has, Sound;
    ghost var r := Rank(key, descending);
    ListLater(from, sets, q, descending, first, r);
    parts, sources, bottom, top := [], from, LOWS - 1, 0;
    NoParts(sets, key);
    var i := 0;
    while i < |sources|
      invariant 0 <= i <= |sources| == |sets| && Listed(sources, sets, q, descending, r)
      invariant Beyond(sources[..i], descending, r) && SomeParts(parts, sets[..i], key)
      invariant top < LOWS && (narrow ==> ReachedBy(parts, bottom, top))
    {
      var t := Seek(sources[i], key, sets[i], q, descending, r);
      sources := sources[i := t];
      assert sources[..i + 1] == sources[..i] + [t];
      AheadIsLive(t, r);
      if t.current.Some? && t.current.value.key == key {
        var c := t.current.value;
        StandsOn(t, sets[i], q, descending);
        SomePartsNext(parts, sets, i, key, c);
        if narrow {
          var low, high := PartReach(sets[i].value, c);
          ReachWidens(parts, c, bottom, top, low, high);
          bottom, top := Min(bottom, low), Max(top, high);
        }
        parts := parts + [c];
      } else {
        NotThere(t, sets[i], q, descending, key);
        SomePartsSame(parts, sets, i, key);
      }
      i := i + 1;
    }
    assert sources[..i] == sources;
  }

  lemma NotThere(s: Source, set_: Option<View>, q: Query, descending: bool, key: nat)
    requires SourceOf(s, set_, q, descending) && key < LOWS && Ahead(s, Rank(key, descending))
    requires KeyOf(q.min) <= key <= KeyOf(q.max)
    requires s.current.Some? ==> Rank(key, descending) <= Rank(s.current.value.key, descending) && s.current.value.key != key
    ensures set_.Some? ==> forall x: nat :: x < LOWS ==> ValueOf(key, x) !in Content(set_.value)
  {
    hide Content;
    AheadIsLive(s, Rank(key, descending));
    if s.current.Some? {
      KeyInRange(s);
      RankDiffers(key, s.current.value.key, descending);
    }
    if set_.Some? { NothingOfKey(s, set_, q, descending, key); }
  }

  /** [bottom, top] contains the intersection of the parts. */
  ghost predicate HeldBy(parts: seq<Container>, bottom: nat, top: nat) {
    forall x: nat :: x < LOWS && InAll(parts, x) ==> bottom <= x <= top
  }

  lemma ReachNarrows(parts: seq<Container>, c: Container, bottom: nat, top: nat, low: nat, high: nat)
    requires HeldBy(parts, bottom, top) && forall x: nat :: Has(c, x) ==> low <= x <= high
    ensures HeldBy(parts + [c], Max(bottom, low), Min(top, high))
  {
    hide Has, InAll;
    forall x: nat | x < LOWS && InAll(parts + [c], x) ensures Max(bottom, low) <= x <= Min(top, high) { InAnyAppended(parts, c, x); }
  }

  lemma EveryPartNext(parts: seq<Container>, sets: seq<Option<View>>, i: nat, key: nat, c: Container)
    requires i < |sets| && EveryPart(parts, sets[..i], key) && Sound(c) && c.key == key && sets[i].Some?
    requires forall x: nat :: x < LOWS ==> (Has(c, x) <==> ValueOf(key, x) in Content(sets[i].value))
    ensures EveryPart(parts + [c], sets[..i + 1], key)
  {
    hide Content, Has, InAll, InEvery, Sound;
    forall x: nat | x < LOWS ensures InAll(parts + [c], x) <==> InEvery(sets[..i + 1], ValueOf(key, x)) {
      InAnyAppended(parts, c, x);
      InSomeAt(sets, i, ValueOf(key, x));
    }
  }

  lemma AllHeld(parts: seq<Container>)
    ensures HeldBy(parts, 0, LOWS - 1)
  {
  }

  method GatherAll(sources: seq<Source>, key: nat, narrow: bool, sets: seq<Option<View>>, ghost q: Query,
      descending: bool, ghost first: nat)
    returns (parts: seq<Container>, bottom: nat, top: nat)
    requires Listed(sources, sets, q, descending, first) && AllViews(sets) && OnKey(sources, key)
    ensures EveryPart(parts, sets, key) && |parts| == |sets| && top < LOWS
    ensures HeldBy(parts, bottom, top)
  {
    hide Live, KeysLeft, KeysIn, Ahead, SourceOf, EveryPart, HeldBy, SoundView, Represents, Content, InAll, Has, Sound;
    parts, bottom, top := [], 0, LOWS - 1;
    NoParts(sets, key);
    AllHeld(parts);
    var i := 0;
    while i < |sources|
      invariant 0 <= i <= |sources| == |sets| && |parts| == i
      invariant EveryPart(parts, sets[..i], key) && top < LOWS && HeldBy(parts, bottom, top)
      invariant !narrow ==> bottom == 0 && top == LOWS - 1
    {
      var c := sources[i].current.value;
      AheadIsLive(sources[i], first);
      StandsOn(sources[i], sets[i], q, descending);
      EveryPartNext(parts, sets, i, key, c);
      if narrow {
        var low, high := PartReach(sets[i].value, c);
        ReachNarrows(parts, c, bottom, top, low, high);
        bottom, top := Max(bottom, low), Min(top, high);
      } else {
        AllHeld(parts + [c]);
      }
      parts := parts + [c];
      i := i + 1;
    }
  }

  // ---------- the walk ----------

  datatype Walk = Walk(all: seq<Source>, any: seq<Source>, none: seq<Source>, haveKey: bool, key: nat)

  /** Where the walk stands: every key before place `from` is done. */
  ghost predicate WalkOk(w: Walk, q: Query, descending: bool, from: nat) {
    Listed(w.all, q.all, q, descending, from) && Listed(w.any, q.any, q, descending, from)
    && Listed(w.none, q.none, q, descending, from)
    && (if w.haveKey then
          w.key < LOWS && from == Rank(w.key, descending) + 1
          && Beyond(w.all, descending, Rank(w.key, descending)) && Beyond(w.any, descending, Rank(w.key, descending))
        else Beyond(w.all, descending, from) && Beyond(w.any, descending, from))
  }

  /** `query_walk_begin` */
  method BeginWalk(q: Query, descending: bool) returns (w: Walk)
    requires QueryOk(q)
    ensures WalkOk(w, q, descending, 0)
  {
    hide Listed, Beyond, AllViews;
    var all := BeginList(q.all, q, descending);
    var any := BeginList(q.any, q, descending);
    var none := BeginList(q.none, q, descending);
    w := Walk(all, any, none, false, 0);
  }

  /** Leaves the key handed out last, if there is one; until then its views had to stay valid. */
  method MoveOn(w: Walk, ghost q: Query, descending: bool, ghost from: nat) returns (t: Walk)
    requires WalkOk(w, q, descending, from)
    ensures WalkOk(t, q, descending, from) && !t.haveKey
  {
    hide Listed, Beyond, Rank;
    t := w;
    if w.haveKey {
      var all := AdvancePast(w.all, w.key, q.all, q, descending);
      var any := AdvancePast(w.any, w.key, q.any, q, descending);
      t := w.(all := all, any := any, haveKey := false);
    }
  }

  lemma MatchesInAll(q: Query)
    ensures InLists(Matches(q), q.all, q) && (q.all == [] && q.any == [] ==> Matches(q) == {})
    ensures q.any != [] ==> forall v :: v in Matches(q) ==> InSome(q.any, v) && q.min <= v <= q.max
  {
    hide Content;
    forall i, v | 0 <= i < |q.all| && v in Matches(q) ensures v in SetClip(q.all[i], q) {
      assert InEvery(q.all, v);
    }
  }

  /**
   * A place with no match before it, where every `all` source stands or some `any` source does; or
   * no match is left.
   */
  method NextCandidate(w: Walk, q: Query, descending: bool, ghost from: nat) returns (found: bool, key: nat, all: seq<Source>)
    requires WalkOk(w, q, descending, from) && !w.haveKey
    ensures !found ==> NoneRanked(Matches(q), from, LOWS, descending)
    ensures found ==> key < LOWS && KeyOf(q.min) <= key <= KeyOf(q.max) && from <= Rank(key, descending)
    ensures found ==> NoneRanked(Matches(q), from, Rank(key, descending), descending)
    ensures found ==> Listed(all, q.all, q, descending, Rank(key, descending)) && OnKey(all, key)
    ensures found ==> q.all != [] || q.any != []
  {
    hide Rank, Matches, NoneRanked, SourceOf, Ahead, Live;
    all := w.all;
    MatchesInAll(q);
    if |w.all| > 0 {
      found, key, all := Align(w.all, q.all, q, descending, Matches(q), from);
      return;
    }
    if |w.any| == 0 {
      found, key := false, 0;
      NothingRanked(from, descending);
      return;
    }
    found, key := NearestKey(w.any, q.any, q, descending, from);
    if found {
      NoneLeftOfAny(Matches(q), w.any, q.any, q, descending, from, Rank(key, descending));
    } else {
      NoSourceBeyond(w.any, descending, LOWS);
      NoneLeftOfAny(Matches(q), w.any, q.any, q, descending, from, LOWS);
    }
  }

  lemma NothingRanked(from: nat, descending: bool)
    ensures NoneRanked({}, from, LOWS, descending)
  {
  }

  /** The parts of a key and its bounds say exactly which of its values match. */
  lemma MatchesAt(q: Query, k: QueryKey)
    requires EveryPart(k.all, q.all, k.key) && SomeParts(k.any, q.any, k.key) && SomeParts(k.none, q.none, k.key)
    requires k.key < LOWS && KeyOf(q.min) <= k.key <= KeyOf(q.max) && q.min <= q.max <= UINT32_MAX
    requires k.low == LowBound(k.key, q.min) && k.high == HighBound(k.key, q.max)
    requires (q.all != [] || q.any != []) && (q.any != [] <==> k.any != [])
    ensures MatchLows(k) == At(Matches(q), k.key)
  {
    hide InAll, InAny, InSome, InEvery, KeyOf, LowOf;
    BoundsInKey(k.key, q.min, q.max);
    forall x: nat ensures x in MatchLows(k) <==> x in At(Matches(q), k.key) {
      if x < LOWS { Bounds(k.key, q.min, q.max, x); }
    }
  }

  /** A key none of the named sets of `any` has holds no match. */
  lemma NoAnyPart(q: Query, parts: seq<Container>, key: nat)
    requires SomeParts(parts, q.any, key) && parts == [] && q.any != []
    ensures At(Matches(q), key) == {}
  {
    hide InSome, InEvery;
    forall x: nat | x < LOWS ensures ValueOf(key, x) !in Matches(q) { assert !InAny(parts, x); }
  }

  /** Bounds that leave out no match leave the matches as they are. */
  lemma NarrowedKey(k: QueryKey, low: nat, high: nat)
    requires k.low <= low && high <= k.high && forall x :: x in MatchLows(k) ==> low <= x <= high
    ensures MatchLows(k.(low := low, high := high)) == MatchLows(k)
    ensures low > high ==> MatchLows(k) == {}
  {
    hide MatchesLow;
    var n := k.(low := low, high := high);
    assert forall x :: MatchesLow(n, x) <==> MatchesLow(k, x) by {
      forall x ensures MatchesLow(n, x) <==> MatchesLow(k, x) { SameMatches(k, n, x); }
    }
  }

  lemma SameMatches(k: QueryKey, n: QueryKey, x: nat)
    requires n == k.(low := n.low, high := n.high)
    ensures MatchesLow(n, x) <==> MatchesLow(k, x)
  {
  }

  /** No match lies outside the reach of the parts. */
  lemma ReachHolds(k: QueryKey, bottom: nat, top: nat, anyBottom: nat, anyTop: nat)
    requires HeldBy(k.all, bottom, top) && k.high < LOWS
    requires k.any != [] ==> ReachedBy(k.any, anyBottom, anyTop)
    ensures forall x :: x in MatchLows(k) ==> bottom <= x <= top && (k.any != [] ==> anyBottom <= x <= anyTop)
  {
    hide InAll, InAny;
  }

  /** Turns a candidate into a `QueryKey` with exactly its matches, or shows that it has none. */
  method GatherKey(w: Walk, all: seq<Source>, key: nat, narrow: bool, q: Query, descending: bool, ghost from: nat)
    returns (t: Walk, usable: bool, k: QueryKey)
    requires QueryOk(q) && WalkOk(w, q, descending, from) && !w.haveKey && (q.all != [] || q.any != [])
    requires key < LOWS && KeyOf(q.min) <= key <= KeyOf(q.max) && from <= Rank(key, descending)
    requires Listed(all, q.all, q, descending, Rank(key, descending)) && OnKey(all, key)
    ensures WalkOk(t, q, descending, Rank(key, descending) + 1)
    ensures usable ==> KeyOk(k) && k.key == key && MatchLows(k) == At(Matches(q), key)
    ensures !usable ==> At(Matches(q), key) == {}
  {
    hide Listed, Beyond, Rank, OnKey, AllViews, EveryPart, SomeParts, HeldBy, ReachedBy, At, Matches, MatchLows, KeyOf, LowBound, HighBound;
    var allParts, bottom, top := GatherAll(all, key, narrow, q.all, q, descending, Rank(key, descending));
    var anyParts, anySources, anyBottom, anyTop := Gather(w.any, key, narrow, q.any, q, descending, from);
    var noneParts, noneSources, lowest, highest := Gather(w.none, key, false, q.none, q, descending, from);
    t := Walk(all, anySources, noneSources, true, key);
    Gathered(t, q, descending, key);
    PartsKept(allParts, anyParts, noneParts, q, key);
    var low, high := LowBound(key, q.min), HighBound(key, q.max);
    k := QueryKey(allParts, anyParts, noneParts, key, low, high);
    if |q.any| > 0 && |anyParts| == 0 {
      NoAnyPart(q, anyParts, key);
      return t, false, k;
    }
    BoundsInKey(key, q.min, q.max);
    MatchesAt(q, k);
    usable := true;
    if narrow {
      ReachHolds(k, bottom, top, anyBottom, anyTop);
      if |q.any| > 0 {
        bottom, top := Max(bottom, anyBottom), Min(top, anyTop);
      }
      low, high := Max(low, bottom), Min(high, top);
      MatchesBounded(k);
      NarrowedKey(k, low, high);
      k := k.(low := low, high := high);
      usable := low <= high;
    }
  }

  lemma MatchesBounded(k: QueryKey)
    ensures forall x :: x in MatchLows(k) ==> k.low <= x <= k.high
  {
  }

  lemma Gathered(t: Walk, q: Query, descending: bool, key: nat)
    requires key < LOWS && t.haveKey && t.key == key && OnKey(t.all, key)
    requires Listed(t.all, q.all, q, descending, Rank(key, descending))
    requires Listed(t.any, q.any, q, descending, Rank(key, descending)) && Beyond(t.any, descending, Rank(key, descending))
    requires Listed(t.none, q.none, q, descending, Rank(key, descending))
    ensures WalkOk(t, q, descending, Rank(key, descending) + 1)
  {
    hide Listed, Rank;
    ListLater(t.all, q.all, q, descending, Rank(key, descending), Rank(key, descending) + 1);
    ListLater(t.any, q.any, q, descending, Rank(key, descending), Rank(key, descending) + 1);
    ListLater(t.none, q.none, q, descending, Rank(key, descending), Rank(key, descending) + 1);
  }

  lemma PartsKept(all: seq<Container>, any: seq<Container>, none: seq<Container>, q: Query, key: nat)
    requires EveryPart(all, q.all, key) && SomeParts(any, q.any, key) && SomeParts(none, q.none, key)
    ensures OfKey(all, key) && OfKey(any, key) && OfKey(none, key) && (q.any == [] ==> any == [])
  {
    hide InAny, InSome;
    NothingHeld(any, key);
    NoneOfNoSets(q.any);
  }

  lemma NoneOfNoSets(sets: seq<Option<View>>)
    ensures sets == [] ==> forall v :: !InSome(sets, v)
  {
  }

  /** Parts that hold nothing together are no parts. */
  lemma NothingHeld(parts: seq<Container>, key: nat)
    requires OfKey(parts, key)
    ensures parts == [] <==> forall x: nat :: x < LOWS ==> !InAny(parts, x)
  {
    hide Has;
    if parts != [] {
      SomethingHeld(parts[0]);
      var x: nat :| x < LOWS && Has(parts[0], x);
      assert InAny(parts, x);
    }
  }

  lemma SomethingHeld(c: Container)
    requires Sound(c)
    ensures exists x: nat :: x < LOWS && Has(c, x)
  {
    WholeKey(c);
    var x :| x in Part(c, 0, LOWS - 1);
  }

  /**
   * `query_walk_next`: from place `from` on, the next key with its matches exact in `k`, and none on
   * the keys before it. `narrow` changes the bounds of `k`, never its matches.
   */
  method NextKey(w: Walk, narrow: bool, q: Query, descending: bool, ghost from: nat)
    returns (t: Walk, found: bool, k: QueryKey, ghost after: nat)
    requires QueryOk(q) && WalkOk(w, q, descending, from)
    ensures !found ==> NoneRanked(Matches(q), from, LOWS, descending)
    ensures found ==> KeyOk(k) && k.key < LOWS && from <= Rank(k.key, descending) && after == Rank(k.key, descending) + 1
    ensures found ==> NoneRanked(Matches(q), from, Rank(k.key, descending), descending)
    ensures found ==> MatchLows(k) == At(Matches(q), k.key) && WalkOk(t, q, descending, after)
  {
    hide QueryOk, WalkOk, Matches, MatchLows, KeyOk, Listed, OnKey, At, Rank, NoneRanked, KeyOf;
    t, after := w, from;
    NoneYet(Matches(q), from, descending);
    MatchesAreValues(q);
    while true
      invariant WalkOk(t, q, descending, after) && from <= after && NoneRanked(Matches(q), from, after, descending)
      decreases LOWS - after
    {
      t := MoveOn(t, q, descending, after);
      var some, key, all := NextCandidate(t, q, descending, after);
      if !some {
        NoneJoins(Matches(q), from, after, LOWS, descending);
        k := QueryKey([], [], [], 0, 0, 0);
        return t, false, k, after;
      }
      NoneJoins(Matches(q), from, after, Rank(key, descending), descending);
      RankBelow(key, descending);
      t, found, k := GatherKey(t, all, key, narrow, q, descending, after);
      after := Rank(key, descending) + 1;
      if found { return; }
      NoneAtKey(Matches(q), from, key, descending);
    }
  }

  lemma MatchesAreValues(q: Query)
    ensures Values(Matches(q))
  {
  }

  lemma NoneYet(m: set<nat>, from: nat, descending: bool)
    ensures NoneRanked(m, from, from, descending)
  {
  }

  lemma NoneAtKey(m: set<nat>, from: nat, key: nat, descending: bool)
    requires key < LOWS && NoneRanked(m, from, Rank(key, descending), descending) && At(m, key) == {} && Values(m)
    ensures NoneRanked(m, from, Rank(key, descending) + 1, descending)
  {
    forall v | v in m ensures KeyOf(v) != key && KeyOf(v) < LOWS {
      JoinValue(v);
      assert v <= UINT32_MAX;
      assert LowOf(v) !in At(m, key);
    }
  }
}
