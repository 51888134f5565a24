// Containers: one key and a set of low parts.
//
// The set is given as a sorted sequence (`Lows`), as set bits (`Bits`), or as sorted values of that
// key in a sparse set's own array (`Wide`), which only queries meet.
module Containers {
  import opened Order
  import opened WordBuffer

  const ARRAY_MAX: nat := 4096
  /** Any limit a merge of two sparse sets stays within one array for. */
  type SparseLimit = n: nat | 0 < n && 2 * n <= 4096 witness 1
  const SPARSE_MAX: SparseLimit
  const UINT32_MAX: nat := 0xffff_ffff

  function KeyOf(value: nat): nat { value / 65536 }

  function LowOf(value: nat): nat { value % 65536 }

  function ValueOf(key: nat, low: nat): nat { key * 65536 + low }

  lemma SplitValue(key: nat, low: nat)
    requires low < LOWS
    ensures KeyOf(ValueOf(key, low)) == key && LowOf(ValueOf(key, low)) == low
  {
  }

  lemma JoinValue(value: nat)
    ensures ValueOf(KeyOf(value), LowOf(value)) == value && LowOf(value) < LOWS
  {
  }

  /** Values are ordered by key, and by low part within a key. */
  lemma ValueOrder(k: nat, x: nat, l: nat, y: nat)
    requires x < LOWS && y < LOWS
    ensures ValueOf(k, x) < ValueOf(l, y) <==> k < l || (k == l && x < y)
  {
  }

  datatype Data = Lows(lows: seq<nat>) | Bits(words: seq<bv64>) | Wide(values: seq<nat>)

  datatype Container = Container(key: nat, cardinality: nat, data: Data, address: nat, log2: nat)

  /** Is low part `x` in the container? */
  ghost predicate Has(c: Container, x: nat) {
    match c.data
    case Lows(lows) => x in lows
    case Bits(words) => |words| == WORDS && x < LOWS && HasBit(words, x)
    case Wide(values) => x < LOWS && ValueOf(c.key, x) in values
  }

  /** The low parts of the container inside [low, high]. */
  ghost function Part(c: Container, low: nat, high: nat): set<nat> {
    set x: nat | low <= x <= high && Has(c, x)
  }

  /** What a container promises: its content is well formed and its count exact. */
  ghost predicate Sound(c: Container) {
    c.key < LOWS && 0 < c.cardinality
    && (match c.data
        case Lows(lows) => Ascending(lows) && (forall x :: x in lows ==> x < LOWS) && |lows| == c.cardinality
        case Bits(words) => |words| == WORDS && c.cardinality == |BitsBetween(words, 0, LOWS)|
        case Wide(values) => Ascending(values) && (forall v :: v in values ==> KeyOf(v) == c.key) && |values| == c.cardinality)
  }

  // ---------- searching ----------

  /** First index whose value is at or above `value`. */
  method LowerBound(values: seq<nat>, value: nat) returns (low: nat)
    requires Ascending(values)
    ensures low <= |values|
    ensures forall i :: 0 <= i < low ==> values[i] < value
    ensures forall i :: low <= i < |values| ==> value <= values[i]
  {
    if values == [] || value <= values[0] { return 0; }
    low := 0;
    var high := |values|;
    while low < high
      invariant low <= high <= |values|
      invariant forall i :: 0 <= i < low ==> values[i] < value
      invariant forall i :: high <= i < |values| ==> value <= values[i]
    {
      var middle := (low + high) / 2;
      if values[middle] < value { low := middle + 1; } else { high := middle; }
    }
  }

  /** First index whose value is above `value`. */
  method UpperBound(values: seq<nat>, value: nat) returns (low: nat)
    requires Ascending(values)
    ensures low <= |values|
    ensures forall i :: 0 <= i < low ==> values[i] <= value
    ensures forall i :: low <= i < |values| ==> value < values[i]
  {
    if values == [] || value >= values[|values| - 1] { return |values|; }
    low := 0;
    var high := |values|;
    while low < high
      invariant low <= high <= |values|
      invariant forall i :: 0 <= i < low ==> values[i] <= value
      invariant forall i :: high <= i < |values| ==> value < values[i]
    {
      var middle := (low + high) / 2;
      if values[middle] <= value { low := middle + 1; } else { high := middle; }
    }
  }

  /** A stretch of a sorted sequence is the part of its elements between two bounds. */
  lemma StretchIs(values: seq<nat>, begin: nat, end: nat, low: nat, high: nat, s: set<nat>)
    requires Ascending(values) && begin <= |values| && end <= |values|
    requires forall i :: 0 <= i < begin ==> values[i] < low
    requires forall i :: begin <= i < |values| ==> low <= values[i]
    requires forall i :: 0 <= i < end ==> values[i] <= high
    requires forall i :: end <= i < |values| ==> high < values[i]
    requires low <= high + 1
    requires forall x :: x in s <==> x in values && low <= x <= high
    ensures begin <= end && Elements(values[begin..end]) == s && |s| == end - begin
  {
    assert end < |values| ==> high < values[end];
    assert begin <= end;
    var part := values[begin..end];
    assert Ascending(part);
    forall x ensures x in part <==> x in s {
      if x in s {
        var i :| 0 <= i < |values| && values[i] == x;
        assert begin <= i < end;
        assert part[i - begin] == x;
      }
    }
    AscendingSize(part);
  }

  // ---------- arrays and wide views: a sorted sequence of low parts ----------

  /** The low parts of a container that is not a bitmap, in order. */
  function LowsOf(c: Container): (q: seq<nat>)
    requires !c.data.Bits?
  {
    match c.data
    case Lows(lows) => lows
    case Wide(values) => seq(|values|, i requires 0 <= i < |values| => LowOf(values[i]))
  }

  /** A wide view read as low parts is sorted as well, and holds what the container holds. */
  lemma LowsSorted(c: Container)
    requires Sound(c) && !c.data.Bits?
    ensures Ascending(LowsOf(c)) && |LowsOf(c)| == c.cardinality
    ensures forall x :: x in LowsOf(c) <==> Has(c, x)
    ensures forall x :: x in LowsOf(c) ==> x < LOWS
  {
    if c.data.Wide? {
      var values, q := c.data.values, LowsOf(c);
      forall i, j | 0 <= i < j < |q| ensures q[i] < q[j] {
        JoinValue(values[i]); JoinValue(values[j]);
        ValueOrder(c.key, q[i], c.key, q[j]);
      }
      forall x ensures x in q <==> Has(c, x) {
        if x in q {
          var i :| 0 <= i < |q| && q[i] == x;
          JoinValue(values[i]);
        }
        if Has(c, x) {
          var i :| 0 <= i < |values| && values[i] == ValueOf(c.key, x);
          SplitValue(c.key, x);
          assert q[i] == x;
        }
      }
    }
  }

  /** Index span of an array or a wide view inside [low, high]. */
  method SliceOf(c: Container, low: nat, high: nat) returns (begin: nat, end: nat)
    requires Sound(c) && !c.data.Bits? && low <= high < LOWS
    ensures begin <= end <= |LowsOf(c)|
    ensures Elements(LowsOf(c)[begin..end]) == Part(c, low, high) && |Part(c, low, high)| == end - begin
  {
    ghost var q := LowsOf(c);
    LowsSorted(c);
    if c.data.Wide? {
      begin := 0;
      if low > 0 { begin := LowerBound(c.data.values, ValueOf(c.key, low)); }
      end := c.cardinality;
      if high < LOWS - 1 { end := UpperBound(c.data.values, ValueOf(c.key, high)); }
      forall i | 0 <= i < |q| ensures (i < begin <==> q[i] < low) && (i < end <==> q[i] <= high) {
        JoinValue(c.data.values[i]);
        ValueOrder(c.key, q[i], c.key, low); ValueOrder(c.key, high, c.key, q[i]);
      }
    } else {
      begin := 0;
      if low > 0 { begin := LowerBound(c.data.lows, low); }
      end := c.cardinality;
      if high < LOWS - 1 { end := UpperBound(c.data.lows, high); }
      forall i | 0 <= i < |q| ensures (i < begin <==> q[i] < low) && (i < end <==> q[i] <= high) {
        assert q[i] in q;
      }
    }
    assert forall x :: x in Part(c, low, high) <==> x in q && low <= x <= high;
    StretchIs(q, begin, end, low, high, Part(c, low, high));
  }

  /**
   * `arnm_roaring_container_range_cardinality`: the size of `Part`; for the full range that is
   * `cardinality`, without a search.
   */
  method RangeCardinality(c: Container, low: nat, high: nat) returns (count: nat)
    requires Sound(c) && low <= high < LOWS
    ensures count == |Part(c, low, high)|
  {
    if low == 0 && high == LOWS - 1 {
      WholeKey(c);
      return c.cardinality;
    }
    if c.data.Bits? {
      count := WordsCardinality(c.data.words, low, high);
      assert BitsBetween(c.data.words, low, high + 1) == Part(c, low, high);
      return;
    }
    var begin, end := SliceOf(c, low, high);
    count := end - begin;
  }

  lemma WholeKey(c: Container)
    requires Sound(c)
    ensures |Part(c, 0, LOWS - 1)| == c.cardinality
  {
    if c.data.Bits? {
      assert BitsBetween(c.data.words, 0, LOWS) == Part(c, 0, LOWS - 1);
    } else {
      LowsSorted(c);
      assert Elements(LowsOf(c)) == Part(c, 0, LOWS - 1);
      AscendingSize(LowsOf(c));
    }
  }
}
