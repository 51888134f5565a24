// Sources: iterators over the keys of a set.
//
// `KeysLeft` is the ghost account of what a source has still to visit, and `current` a container
// with exactly the set's values of the nearest of those keys, synthesised where the set is sparse.
module Sources {
  import opened Results
  import opened Order
  import opened WordBuffer
  import opened Containers
  import opened Views

  datatype Source = Source(
    view: Option<View>,
    minKey: nat,
    maxKey: nat,
    descending: bool,
    position: nat,
    next: nat,
    wide: bool,
    current: Option<Container>
  )

  /** The key of every container, or of every value of a sparse set. */
  ghost function KeySeq(view: View): seq<nat> {
    if view.Sparse() then seq(|view.values|, i requires 0 <= i < |view.values| => KeyOf(view.values[i]))
    else seq(|view.containers|, i requires 0 <= i < |view.containers| => view.containers[i].key)
  }

  ghost predicate NonDecreasing(q: seq<nat>) { forall i, j :: 0 <= i < j < |q| ==> q[i] <= q[j] }

  lemma KeySeqSorted(view: View)
    requires Shape(view)
    ensures NonDecreasing(KeySeq(view))
  {
    if view.Sparse() {
      forall i, j | 0 <= i < j < |view.values| ensures KeyOf(view.values[i]) <= KeyOf(view.values[j]) {
        JoinValue(view.values[i]); JoinValue(view.values[j]);
        ValueOrder(KeyOf(view.values[j]), LowOf(view.values[j]), KeyOf(view.values[i]), LowOf(view.values[i]));
      }
    }
  }

  /** What the walk has ahead of it. */
  ghost function Pending(s: Source): seq<nat>
    requires s.view.Some? ==> s.position <= |KeySeq(s.view.value)|
  {
    if s.view.None? then [] else
      var keys := KeySeq(s.view.value);
      if s.descending then keys[..s.position] else keys[s.position..]
  }

  /** The keys of the range the walk has still to visit. */
  ghost function KeysLeft(s: Source): set<nat>
    requires s.view.Some? ==> s.position <= |KeySeq(s.view.value)|
  {
    set k | k in Pending(s) && s.minKey <= k <= s.maxKey
  }

  /** The keys of a set inside a range. */
  ghost function KeysIn(view: Option<View>, minKey: nat, maxKey: nat): set<nat> {
    if view.None? then {} else set k | k in KeySeq(view.value) && minKey <= k <= maxKey
  }

  /**
   * `position` is a cut of the key sequence: no key on both sides, and none outside the range on the
   * side already visited.
   */
  ghost predicate Placed(s: Source) {
    s.minKey <= s.maxKey < LOWS
    && (s.view.Some? ==>
          var keys := KeySeq(s.view.value);
          Shape(s.view.value) && s.position <= |keys|
          && (0 < s.position < |keys| ==> keys[s.position - 1] < keys[s.position])
          && (forall i :: 0 <= i < |keys| ==>
                if s.descending then i < s.position ==> keys[i] <= s.maxKey
                else s.position <= i ==> s.minKey <= keys[i]))
  }

  /** The container holds exactly the values of its key. */
  ghost predicate Represents(view: View, c: Container, wide: bool) {
    Sound(c) && (forall x: nat :: x < LOWS ==> (Has(c, x) <==> In(view, ValueOf(c.key, x))))
    && (if view.Sparse() then (if wide then c.data.Wide? else c.data.Lows? && c.cardinality <= SPARSE_MAX)
        else c in view.containers && KindByCount(c))
  }

  /** Entries [from, to) of the keys are the ones of `key`. */
  ghost predicate RunOf(keys: seq<nat>, from: nat, to: nat, key: nat) {
    from < to <= |keys| && forall i :: 0 <= i < |keys| ==> (keys[i] == key <==> from <= i < to)
  }

  /** A loaded source: its current container is the first of what is left, or nothing is. */
  ghost predicate Live(s: Source) {
    Placed(s)
    && (s.current.None? ==> KeysLeft(s) == {})
    && (s.current.Some? ==>
          s.view.Some? && Represents(s.view.value, s.current.value, s.wide)
          && s.minKey <= s.current.value.key <= s.maxKey
          && var keys := KeySeq(s.view.value);
             if s.descending then RunOf(keys, After(s), s.position, s.current.value.key)
             else RunOf(keys, s.position, After(s), s.current.value.key))
  }

  /** Where the walk stands after the current key. */
  function After(s: Source): nat
    requires s.current.Some? && s.view.Some?
  {
    if s.view.value.Sparse() then s.next
    else if s.descending then (if s.position > 0 then s.position - 1 else 0)
    else s.position + 1
  }

  /** The current key is the first of the rest. */
  lemma CurrentIsFirst(s: Source)
    requires Live(s) && s.current.Some?
    ensures s.current.value.key in KeysLeft(s)
    ensures forall k :: k in KeysLeft(s) && k != s.current.value.key ==> Before(s.current.value.key, k, s.descending)
  {
    var keys, key := KeySeq(s.view.value), s.current.value.key;
    KeySeqSorted(s.view.value);
    var at := if s.descending then s.position - 1 else s.position;
    assert keys[at] == key;
    assert if s.descending then keys[..s.position][at] == key else keys[s.position..][0] == key;
  }

  /** The entries of one key between those below it and those above it. */
  lemma RunSplits(keys: seq<nat>, from: nat, to: nat, key: nat)
    requires NonDecreasing(keys) && RunOf(keys, from, to, key)
    ensures Elements(keys[to..]) == Elements(keys[from..]) - {key}
    ensures Elements(keys[..from]) == Elements(keys[..to]) - {key}
    ensures (0 < from ==> keys[from - 1] < key) && (to < |keys| ==> key < keys[to])
  {
    hide RunOf, NonDecreasing, Elements;
    OneKey(keys, from, to, key);
    var run := keys[from..to];
    assert keys[from..] == run + keys[to..] && keys[..to] == keys[..from] + run;
    ElementsJoin(run, keys[to..]);
    ElementsJoin(keys[..from], run);
  }

  /** The entries of a run are its key, and the entries beside it are not. */
  lemma OneKey(keys: seq<nat>, from: nat, to: nat, key: nat)
    requires NonDecreasing(keys) && RunOf(keys, from, to, key)
    ensures from < to <= |keys| && Elements(keys[from..to]) == {key}
    ensures key !in Elements(keys[..from]) && key !in Elements(keys[to..])
    ensures (0 < from ==> keys[from - 1] < key) && (to < |keys| ==> key < keys[to])
  {
    assert keys[from] == key && keys[from..to][0] == key;
    assert forall i :: 0 <= i < from ==> keys[i] != key;
    assert forall i :: to <= i < |keys| ==> keys[i] != key;
  }

  /** What the walk has left to read once it has passed the current key. */
  lemma PendingAfter(s: Source, t: Source)
    requires Live(s) && s.current.Some? && t == s.(position := After(s), current := t.current, next := t.next)
    ensures Placed(t) && Elements(Pending(t)) == Elements(Pending(s)) - {s.current.value.key}
  {
    hide Represents, KeySeq, Shape;
    var keys, key := KeySeq(s.view.value), s.current.value.key;
    assert NonDecreasing(keys) by { KeySeqSorted(s.view.value); }
    if s.descending {
      RunSplits(keys, After(s), s.position, key);
    } else {
      RunSplits(keys, s.position, After(s), key);
    }
  }

  lemma InRange(a: seq<nat>, b: seq<nat>, key: nat, low: nat, high: nat)
    requires Elements(b) == Elements(a) - {key}
    ensures (set k | k in b && low <= k <= high) == (set k | k in a && low <= k <= high) - {key}
  {
    assert forall k :: k in b <==> k in Elements(b);
    assert forall k :: k in a <==> k in Elements(a);
  }

  /** What is left once the walk has passed the current key. */
  lemma RestAfter(s: Source, t: Source)
    requires Live(s) && s.current.Some? && t == s.(position := After(s), current := t.current, next := t.next)
    ensures Placed(t) && KeysLeft(t) == KeysLeft(s) - {s.current.value.key}
  {
    PendingAfter(s, t);
    hide Represents, KeySeq, Shape, Pending, Elements;
    InRange(Pending(s), Pending(t), s.current.value.key, s.minKey, s.maxKey);
  }

  // ---------- what is handed out ----------

  /** A container of the directory holds what the set has of its key. */
  lemma DirectoryRepresents(view: View, i: nat, wide: bool)
    requires Shape(view) && !view.Sparse() && i < |view.containers|
    ensures Represents(view, view.containers[i], wide)
    ensures RunOf(KeySeq(view), i, i + 1, view.containers[i].key)
  {
    var c := view.containers[i];
    forall x: nat | x < LOWS ensures Has(c, x) <==> In(view, ValueOf(c.key, x)) {
      SplitValue(c.key, x);
      assert InContainer(c, ValueOf(c.key, x)) <==> Has(c, x);
      if In(view, ValueOf(c.key, x)) {
        var j :| 0 <= j < |view.containers| && InContainer(view.containers[j], ValueOf(c.key, x));
        assert i == j;
      }
    }
  }

  /** The container a sparse set's entries make up. */
  function ViewOf(values: seq<nat>, key: nat, wide: bool): Container {
    if wide then Container(key, |values|, Wide(values), 0, 0)
    else Container(key, |values|, Lows(seq(|values|, i requires 0 <= i < |values| => LowOf(values[i]))), 0, 0)
  }

  /** The entries of a run are the values of its key, and all of them. */
  lemma RunHasKey(view: View, begin: nat, end: nat, key: nat)
    requires Shape(view) && view.Sparse() && RunOf(KeySeq(view), begin, end, key)
    ensures forall v :: v in view.values[begin..end] ==> v in view.values && KeyOf(v) == key
    ensures forall x: nat :: x < LOWS && ValueOf(key, x) in view.values ==> ValueOf(key, x) in view.values[begin..end]
  {
    var values := view.values[begin..end];
    forall v | v in values ensures KeyOf(v) == key {
      var i :| 0 <= i < |values| && values[i] == v;
      assert KeySeq(view)[begin + i] == key;
    }
    forall x: nat | x < LOWS && ValueOf(key, x) in view.values ensures ValueOf(key, x) in values {
      SplitValue(key, x);
      var i :| 0 <= i < |view.values| && view.values[i] == ValueOf(key, x);
      assert KeySeq(view)[i] == key;
      assert values[i - begin] == ValueOf(key, x);
    }
  }

  lemma SparseRepresents(view: View, begin: nat, end: nat, key: nat, wide: bool)
    requires Shape(view) && view.Sparse() && RunOf(KeySeq(view), begin, end, key)
    ensures Represents(view, ViewOf(view.values[begin..end], key, wide), wide)
    ensures ViewOf(view.values[begin..end], key, wide).key == key
  {
    var values := view.values[begin..end];
    var held := Container(key, |values|, Wide(values), 0, 0);
    RunHasKey(view, begin, end, key);
    assert KeySeq(view)[begin] == key;
    assert view.values[begin] in view.values;
    assert Sound(held);
    hide RunOf, KeySeq;
    LowsSorted(held);
    if !wide {
      assert LowsOf(held) == ViewOf(values, key, wide).data.lows;
    }
  }

  /** The run of a key among sorted values. */
  lemma ValueRun(view: View, begin: nat, end: nat, key: nat)
    requires Shape(view) && view.Sparse() && begin < end <= |view.values|
    requires forall i :: 0 <= i < begin ==> view.values[i] < ValueOf(key, 0)
    requires forall i :: begin <= i < end ==> ValueOf(key, 0) <= view.values[i] <= ValueOf(key, LOWS - 1)
    requires forall i :: end <= i < |view.values| ==> ValueOf(key, LOWS - 1) < view.values[i]
    ensures RunOf(KeySeq(view), begin, end, key)
  {
    forall i | 0 <= i < |view.values| ensures KeyOf(view.values[i]) == key <==> begin <= i < end {
      KeyBetween(view.values[i], key);
    }
  }

  lemma KeyBetween(value: nat, key: nat)
    ensures KeyOf(value) < key <==> value < ValueOf(key, 0)
    ensures key < KeyOf(value) <==> ValueOf(key, LOWS - 1) < value
  {
    JoinValue(value);
    ValueOrder(KeyOf(value), LowOf(value), key, 0);
    ValueOrder(key, LOWS - 1, KeyOf(value), LowOf(value));
  }

  lemma KeysBetween(values: seq<nat>, key: nat)
    ensures forall i :: 0 <= i < |values| ==> (KeyOf(values[i]) < key <==> values[i] < ValueOf(key, 0))
    ensures forall i :: 0 <= i < |values| ==> (key < KeyOf(values[i]) <==> ValueOf(key, LOWS - 1) < values[i])
  {
    forall i | 0 <= i < |values|
      ensures (KeyOf(values[i]) < key <==> values[i] < ValueOf(key, 0))
              && (key < KeyOf(values[i]) <==> ValueOf(key, LOWS - 1) < values[i])
    {
      KeyBetween(values[i], key);
    }
  }

  // ---------- the walk ----------

  /** The cut of a directory in front of `key`. */
  method FirstContainer(cs: seq<Container>, key: nat) returns (low: nat)
    requires KeysAscending(cs)
    ensures low <= |cs|
    ensures forall i :: 0 <= i < low ==> cs[i].key < key
    ensures forall i :: low <= i < |cs| ==> key <= cs[i].key
  {
    if cs == [] || key <= cs[0].key { return 0; }
    low := 0;
    var top := |cs|;
    while low < top
      invariant low <= top <= |cs|
      invariant forall i :: 0 <= i < low ==> cs[i].key < key
      invariant forall i :: top <= i < |cs| ==> key <= cs[i].key
    {
      var middle := (low + top) / 2;
      if cs[middle].key < key { low := middle + 1; } else { top := middle; }
    }
  }

  /** The cut of a directory behind `key`. */
  method ContainerAfter(cs: seq<Container>, key: nat) returns (low: nat)
    requires KeysAscending(cs)
    ensures low <= |cs|
    ensures forall i :: 0 <= i < low ==> cs[i].key <= key
    ensures forall i :: low <= i < |cs| ==> key < cs[i].key
  {
    if cs == [] || key >= cs[|cs| - 1].key { return |cs|; }
    low := 0;
    var top := |cs|;
    while low < top
      invariant low <= top <= |cs|
      invariant forall i :: 0 <= i < low ==> cs[i].key <= key
      invariant forall i :: top <= i < |cs| ==> key < cs[i].key
    {
      var middle := (low + top) / 2;
      if cs[middle].key <= key { low := middle + 1; } else { top := middle; }
    }
  }

  /** `arnm_roaring_source_load`: what the source stands on. */
  method Load(s: Source) returns (t: Source)
    requires Placed(s)
    ensures Live(t) && t == s.(current := t.current, next := t.next)
  {
    if s.view.None? { return s.(current := None); }
    if |s.view.value.containers| > 0 { t := LoadContainer(s); } else { t := LoadSparse(s); }
  }

  /** The half of it for a set with containers. */
  method LoadContainer(s: Source) returns (t: Source)
    requires Placed(s) && s.view.Some? && |s.view.value.containers| > 0
    ensures Live(t) && t == s.(current := t.current)
  {
    hide Represents, RunOf, Sound, KindByCount, Ascending;
    var view := s.view.value;
    t := s.(current := None);
    if s.descending {
      if s.position > 0 && view.containers[s.position - 1].key >= s.minKey {
        t := s.(current := Some(view.containers[s.position - 1]));
        DirectoryRepresents(view, s.position - 1, s.wide);
      } else {
        NothingPending(t);
      }
    } else if s.position < |view.containers| && view.containers[s.position].key <= s.maxKey {
      t := s.(current := Some(view.containers[s.position]));
      DirectoryRepresents(view, s.position, s.wide);
    } else {
      NothingPending(t);
    }
  }

  /** The half of it for a sparse set. */
  method LoadSparse(s: Source) returns (t: Source)
    requires Placed(s) && s.view.Some? && |s.view.value.containers| == 0
    ensures Live(t) && t == s.(current := t.current, next := t.next)
  {
    hide *;
    if s.descending { t := LoadSparseDown(s); } else { t := LoadSparseUp(s); }
  }

  method LoadSparseUp(s: Source) returns (t: Source)
    requires Placed(s) && s.view.Some? && |s.view.value.containers| == 0 && !s.descending
    ensures Live(t) && t == s.(current := t.current, next := t.next)
  {
    hide Represents, RunOf, KeyOf, ValueOf, ViewOf;
    var view, values := s.view.value, s.view.value.values;
    t := s.(current := None);
    if s.position >= |values| || KeyOf(values[s.position]) > s.maxKey {
      NothingPending(t);
      return;
    }
    var key := KeyOf(values[s.position]);
    var width := UpperBound(values[s.position..], ValueOf(key, LOWS - 1));
    RunUp(view, s.position, width, key);
    SparseRepresents(view, s.position, s.position + width, key, s.wide);
    t := s.(current := Some(ViewOf(values[s.position..s.position + width], key, s.wide)), next := s.position + width);
  }

  method LoadSparseDown(s: Source) returns (t: Source)
    requires Placed(s) && s.view.Some? && |s.view.value.containers| == 0 && s.descending
    ensures Live(t) && t == s.(current := t.current, next := t.next)
  {
    hide Represents, RunOf, KeyOf, ValueOf, ViewOf;
    var view, values := s.view.value, s.view.value.values;
    t := s.(current := None);
    if s.position == 0 || KeyOf(values[s.position - 1]) < s.minKey {
      NothingPending(t);
      return;
    }
    var key := KeyOf(values[s.position - 1]);
    var begin := LowerBound(values[..s.position], ValueOf(key, 0));
    RunDown(view, begin, s.position, key);
    SparseRepresents(view, begin, s.position, key, s.wide);
    t := s.(current := Some(ViewOf(values[begin..s.position], key, s.wide)), next := begin);
  }

  /** A nearest pending key outside the range means that `KeysLeft` is empty. */
  lemma NothingPending(s: Source)
    requires Placed(s) && s.view.Some? && s.current.None?
    requires var keys := KeySeq(s.view.value);
             if s.descending then s.position == 0 || keys[s.position - 1] < s.minKey
             else s.position == |keys| || s.maxKey < keys[s.position]
    ensures Live(s)
  {
    hide Shape, KeySeq, Represents, RunOf;
    var keys := KeySeq(s.view.value);
    assert NonDecreasing(keys) by { KeySeqSorted(s.view.value); }
    forall k | k in Pending(s) ensures !(s.minKey <= k <= s.maxKey) {
      var i :| 0 <= i < |keys| && keys[i] == k && (if s.descending then i < s.position else s.position <= i);
    }
  }

  lemma RunUp(view: View, position: nat, width: nat, key: nat)
    requires Shape(view) && view.Sparse() && position < |view.values| && position + width <= |view.values|
    requires key == KeyOf(view.values[position])
    requires 0 < position ==> KeyOf(view.values[position - 1]) < key
    requires var later := view.values[position..];
             (forall i :: 0 <= i < width ==> later[i] <= ValueOf(key, LOWS - 1))
             && (forall i :: width <= i < |later| ==> ValueOf(key, LOWS - 1) < later[i])
    ensures width > 0 && RunOf(KeySeq(view), position, position + width, key)
  {
    KeyBetween(view.values[position], key);
    if position > 0 { KeyBetween(view.values[position - 1], key); }
    var later := view.values[position..];
    forall i | position <= i < |view.values| ensures view.values[i] == later[i - position] {}
    ValueRun(view, position, position + width, key);
  }

  lemma RunDown(view: View, begin: nat, position: nat, key: nat)
    requires Shape(view) && view.Sparse() && 0 < position <= |view.values| && begin <= position
    requires key == KeyOf(view.values[position - 1])
    requires position < |view.values| ==> key < KeyOf(view.values[position])
    requires var former := view.values[..position];
             (forall i :: 0 <= i < begin ==> former[i] < ValueOf(key, 0))
             && (forall i :: begin <= i < |former| ==> ValueOf(key, 0) <= former[i])
    ensures begin < position && RunOf(KeySeq(view), begin, position, key)
  {
    KeyBetween(view.values[position - 1], key);
    if position < |view.values| { KeyBetween(view.values[position], key); }
    var former := view.values[..position];
    forall i | 0 <= i < position ensures view.values[i] == former[i] {}
    ValueRun(view, begin, position, key);
  }

  /** `arnm_roaring_source_begin` */
  method Begin(view: Option<View>, min: nat, max: nat, descending: bool, wide: bool) returns (s: Source)
    requires min <= max <= UINT32_MAX && (view.Some? ==> Shape(view.value))
    ensures Live(s) && KeysLeft(s) == KeysIn(view, KeyOf(min), KeyOf(max))
    ensures s.view == view && s.minKey == KeyOf(min) && s.maxKey == KeyOf(max) && s.descending == descending && s.wide == wide
  {
    s := Source(view, KeyOf(min), KeyOf(max), descending, 0, 0, wide, None);
    if view.Some? {
      var v := view.value;
      var position;
      if |v.containers| > 0 {
        if descending { position := ContainerAfter(v.containers, s.maxKey); }
        else { position := FirstContainer(v.containers, s.minKey); }
      } else {
        if descending { position := UpperBound(v.values, ValueOf(s.maxKey, LOWS - 1)); }
        else { position := LowerBound(v.values, ValueOf(s.minKey, 0)); }
        KeysBetween(v.values, s.minKey);
        KeysBetween(v.values, s.maxKey);
      }
      s := s.(position := position);
      Started(s, min, max);
    }
    s := Load(s);
  }

  lemma Started(s: Source, min: nat, max: nat)
    requires min <= max <= UINT32_MAX && s.minKey == KeyOf(min) && s.maxKey == KeyOf(max)
    requires s.view.Some? && Shape(s.view.value) && s.position <= |KeySeq(s.view.value)|
    requires var keys := KeySeq(s.view.value);
             forall i :: 0 <= i < |keys| ==>
               if s.descending then (i < s.position <==> keys[i] <= s.maxKey) else (i < s.position <==> keys[i] < s.minKey)
    ensures Placed(s) && KeysLeft(s) == KeysIn(s.view, s.minKey, s.maxKey)
  {
    var keys := KeySeq(s.view.value);
    assert s.minKey <= s.maxKey < LOWS;
    hide KeySeq, KeyOf;
    forall k ensures k in Pending(s) && s.minKey <= k <= s.maxKey <==> k in keys && s.minKey <= k <= s.maxKey {
      if k in keys && s.minKey <= k <= s.maxKey {
        var i :| 0 <= i < |keys| && keys[i] == k;
        assert if s.descending then keys[..s.position][i] == k else keys[s.position..][i - s.position] == k;
      }
    }
  }

  /** `arnm_roaring_source_advance` */
  method Advance(s: Source) returns (t: Source)
    requires Live(s)
    ensures Live(t) && t == s.(position := t.position, next := t.next, current := t.current)
    ensures KeysLeft(t) == if s.current.None? then KeysLeft(s) else KeysLeft(s) - {s.current.value.key}
  {
    if s.current.None? { return s; }
    t := s.(position := After(s));
    RestAfter(s, t);
    t := Load(t);
  }
}
