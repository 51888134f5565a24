// A range of values cut into keys: what a range leaves of one key, and a set of values as what it
// has up to a key.
module Ranges {
  import opened Results
  import opened Order
  import opened WordBuffer
  import opened Containers
  import opened Views
  import opened Sources

  /** The values of `s` inside [min, max]. */
  ghost function Clip(s: set<nat>, min: nat, max: nat): set<nat> { set v | v in s && min <= v <= max }

  /** The two results of `arnm_roaring_container_bounds`; `Bounds` says what they are for. */
  function LowBound(key: nat, min: nat): nat { if key == KeyOf(min) then LowOf(min) else 0 }

  function HighBound(key: nat, max: nat): nat { if key == KeyOf(max) then LowOf(max) else LOWS - 1 }

  /** The two bounds name exactly the low parts whose values lie in the range. */
  lemma Bounds(key: nat, min: nat, max: nat, x: nat)
    requires KeyOf(min) <= key <= KeyOf(max) && x < LOWS
    ensures min <= ValueOf(key, x) <= max <==> LowBound(key, min) <= x <= HighBound(key, max)
  {
    JoinValue(min); JoinValue(max);
    ValueOrder(key, x, KeyOf(min), LowOf(min));
    ValueOrder(KeyOf(max), LowOf(max), key, x);
  }

  lemma BoundsInKey(key: nat, min: nat, max: nat)
    requires min <= max && KeyOf(min) <= key <= KeyOf(max)
    ensures LowBound(key, min) <= HighBound(key, max) < LOWS
  {
  }

  // ---------- a set of values by key ----------

  /** The low parts of the values a set has of a key. */
  ghost function At(s: set<nat>, key: nat): set<nat> { set x: nat | x < LOWS && ValueOf(key, x) in s }

  /** The place of a key in walking order. */
  function Rank(key: nat, descending: bool): nat { if !descending then key else if key < LOWS then LOWS - 1 - key else 0 }

  /** The values whose key comes before place `limit`. */
  ghost function RankedUpTo(s: set<nat>, limit: nat, descending: bool): set<nat> {
    set v | v in s && Rank(KeyOf(v), descending) < limit
  }

  ghost predicate NoneRanked(s: set<nat>, from: nat, to: nat, descending: bool) {
    forall v :: v in s && from <= Rank(KeyOf(v), descending) ==> to <= Rank(KeyOf(v), descending)
  }

  /** The same for a walk that goes up. */
  ghost function UpTo(s: set<nat>, limit: nat): set<nat> { RankedUpTo(s, limit, false) }

  ghost predicate NoneBetween(s: set<nat>, from: nat, to: nat) { NoneRanked(s, from, to, false) }

  ghost predicate Values(s: set<nat>) { forall v :: v in s ==> v <= UINT32_MAX }

  /** A key more: its values join, all of them after what was there. */
  lemma RankJoins(s: set<nat>, from: nat, key: nat, descending: bool)
    requires Values(s) && key < LOWS && NoneRanked(s, from, Rank(key, descending), descending) && from <= Rank(key, descending)
    ensures RankedUpTo(s, Rank(key, descending) + 1, descending) == RankedUpTo(s, from, descending) + Lift(key, At(s, key))
    ensures forall v, w :: v in RankedUpTo(s, from, descending) && w in Lift(key, At(s, key)) ==> Before(v, w, descending)
  {
    forall v | v in s ensures KeyOf(v) < LOWS { assert v <= UINT32_MAX; }
    forall v ensures v in RankedUpTo(s, Rank(key, descending) + 1, descending)
                 <==> v in RankedUpTo(s, from, descending) || v in Lift(key, At(s, key)) {
      JoinValue(v);
    }
    hide At, KeyOf, LowOf, ValueOf;
    forall v, w | v in RankedUpTo(s, from, descending) && w in Lift(key, At(s, key)) ensures Before(v, w, descending) {
      JoinValue(v); JoinValue(w);
      ValueOrder(KeyOf(v), LowOf(v), KeyOf(w), LowOf(w));
      ValueOrder(KeyOf(w), LowOf(w), KeyOf(v), LowOf(v));
    }
  }

  lemma KeyJoins(s: set<nat>, from: nat, key: nat)
    requires Values(s) && NoneBetween(s, from, key) && from <= key < LOWS
    ensures UpTo(s, key + 1) == UpTo(s, from) + Lift(key, At(s, key))
    ensures UpTo(s, from) !! Lift(key, At(s, key))
  {
    RankJoins(s, from, key, false);
  }

  lemma NoKeyJoins(s: set<nat>, from: nat, to: nat)
    requires NoneBetween(s, from, to) && from <= to
    ensures UpTo(s, to) == UpTo(s, from)
  {
  }

  lemma AllUpTo(s: set<nat>)
    requires Values(s)
    ensures UpTo(s, LOWS) == s && UpTo(s, 0) == {}
  {
  }

  lemma UpToSize(s: set<nat>, limit: nat)
    ensures |UpTo(s, limit)| <= |s|
  {
    SubsetSize(UpTo(s, limit), s);
  }

  lemma AtCombines(s: set<nat>, t: set<nat>, key: nat)
    ensures At(s * t, key) == At(s, key) * At(t, key)
    ensures At(s + t, key) == At(s, key) + At(t, key)
    ensures At(s - t, key) == At(s, key) - At(t, key)
  {
  }

  lemma ClipCombines(s: set<nat>, t: set<nat>, min: nat, max: nat)
    ensures Clip(s * t, min, max) == Clip(s, min, max) * Clip(t, min, max)
    ensures Clip(s + t, min, max) == Clip(s, min, max) + Clip(t, min, max)
    ensures Clip(s - t, min, max) == Clip(s, min, max) - Clip(t, min, max)
  {
  }

  // ---------- the parts of a set, one for each key ----------

  /** What a container has inside the bounds is what the range leaves of the set there. */
  lemma KeyPart(view: View, c: Container, wide: bool, min: nat, max: nat)
    requires Represents(view, c, wide) && min <= max <= UINT32_MAX && KeyOf(min) <= c.key <= KeyOf(max)
    ensures At(Clip(Content(view), min, max), c.key) == Part(c, LowBound(c.key, min), HighBound(c.key, max))
  {
    hide In, Has;
    BoundsInKey(c.key, min, max);
    var s := Clip(Content(view), min, max);
    forall x: nat ensures x in At(s, c.key) <==> x in Part(c, LowBound(c.key, min), HighBound(c.key, max)) {
      if x < LOWS { Bounds(c.key, min, max, x); }
    }
  }

  /** The key of every value in range is among `KeysIn`. */
  lemma KeyVisited(view: View, v: nat, min: nat, max: nat)
    requires v in Clip(Content(view), min, max)
    ensures KeyOf(v) in KeysIn(Some(view), KeyOf(min), KeyOf(max))
  {
    var keys := KeySeq(view);
    KeyMonotone(min, v);
    KeyMonotone(v, max);
    if view.Sparse() {
      var i :| 0 <= i < |view.values| && view.values[i] == v;
      assert keys[i] == KeyOf(v);
    } else {
      var i :| 0 <= i < |view.containers| && InContainer(view.containers[i], v);
      assert keys[i] == KeyOf(v);
    }
  }

  lemma KeyMonotone(v: nat, w: nat)
    requires v <= w
    ensures KeyOf(v) <= KeyOf(w)
  {
  }

  /** A source that has still to visit every key of its range from place `from` on. */
  ghost predicate Ahead(s: Source, from: nat) {
    Live(s) && forall k :: k in KeysIn(s.view, s.minKey, s.maxKey) && from <= Rank(k, s.descending) ==> k in KeysLeft(s)
  }

  lemma FreshAhead(s: Source)
    requires Live(s) && KeysLeft(s) == KeysIn(s.view, s.minKey, s.maxKey)
    ensures Ahead(s, 0)
  {
  }

  /** No value of the set lies between place `from` and the key the source stands on, or beyond its end. */
  lemma Gap(s: Source, from: nat, min: nat, max: nat, to: nat)
    requires Ahead(s, from) && s.view.Some?
    requires s.minKey == KeyOf(min) && s.maxKey == KeyOf(max)
    requires s.current.Some? ==> to <= Rank(s.current.value.key, s.descending)
    ensures NoneRanked(Clip(Content(s.view.value), min, max), from, to, s.descending)
  {
    hide Represents, Shape, KeySeq;
    if s.current.Some? { CurrentIsFirst(s); }
    forall v | v in Clip(Content(s.view.value), min, max) && from <= Rank(KeyOf(v), s.descending)
      ensures to <= Rank(KeyOf(v), s.descending)
    {
      KeyVisited(s.view.value, v, min, max);
      assert KeyOf(v) in KeysLeft(s);
    }
  }

  lemma NothingThere(s: set<nat>, from: nat, key: nat)
    requires from <= key && NoneBetween(s, from, key + 1)
    ensures At(s, key) == {} && NoneBetween(s, from, key)
  {
    forall x: nat | x < LOWS ensures ValueOf(key, x) !in s { SplitValue(key, x); }
  }

  /** Advancing a source moves the place it is ahead of. */
  lemma AheadAfter(s: Source, t: Source, from: nat, to: nat)
    requires Ahead(s, from) && s.current.Some? && Live(t) && from <= to
    requires t.view == s.view && t.minKey == s.minKey && t.maxKey == s.maxKey && t.descending == s.descending
    requires KeysLeft(t) == KeysLeft(s) - {s.current.value.key} && Rank(s.current.value.key, s.descending) < to
    ensures Ahead(t, to)
  {
  }

  /** Membership in a directory, decided by the container a search stopped at. */
  lemma Looked(view: View, c: nat, value: nat)
    requires Shape(view) && !view.Sparse() && c <= |view.containers| && value <= UINT32_MAX
    requires forall i :: 0 <= i < c ==> view.containers[i].key < KeyOf(value)
    requires c < |view.containers| ==> KeyOf(value) <= view.containers[c].key
    ensures value in Content(view)
       <==> c < |view.containers| && view.containers[c].key == KeyOf(value) && Has(view.containers[c], LowOf(value))
  {
    hide Has, Sound, KindByCount;
    if value in Content(view) {
      var i :| 0 <= i < |view.containers| && InContainer(view.containers[i], value);
      assert i == c;
    } else if c < |view.containers| {
      assert !InContainer(view.containers[c], value);
    }
  }
}
