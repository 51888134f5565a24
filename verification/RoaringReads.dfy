// Reading one set: `Content(view)` is the set, and each method answers about it.
module RoaringReads {
  import opened Word64
  import opened Order
  import opened WordBuffer
  import opened Containers
  import opened Views
  import opened Sources
  import opened Ranges
  import Kernels
  import QueryKeys
  import opened Merging
  import opened KeyBits
  import opened Cursors
  import opened RoaringQuery

  // ---------- a directory as its containers, one after the other ----------

  ghost predicate InDirectory(cs: seq<Container>, v: nat) { exists i :: 0 <= i < |cs| && InContainer(cs[i], v) }

  ghost function Directory(cs: seq<Container>): set<nat> { set v: nat | v <= UINT32_MAX && InDirectory(cs, v) }

  ghost predicate Ordered(cs: seq<Container>) { KeysAscending(cs) && forall i :: 0 <= i < |cs| ==> Sound(cs[i]) }

  lemma DirectoryContent(view: View)
    requires SoundView(view) && !view.Sparse()
    ensures Ordered(view.containers) && Content(view) == Directory(view.containers)
  {
    hide InContainer;
    assert AllSound(view.containers);
  }

  /** The whole of a container, low parts and values. */
  ghost function LowsHeld(c: Container): set<nat> { Part(c, 0, LOWS - 1) }

  lemma HeldValues(c: Container)
    requires Sound(c)
    ensures Lifted(c) == Lift(c.key, LowsHeld(c)) && |LowsHeld(c)| == c.cardinality == |Lifted(c)|
  {
    WholeKey(c);
    LiftSize(c.key, LowsHeld(c));
    forall v: nat ensures v in Lifted(c) <==> v in Lift(c.key, LowsHeld(c)) { JoinValue(v); }
  }

  lemma DirectoryNext(cs: seq<Container>, i: nat)
    requires Ordered(cs) && i < |cs|
    ensures Directory(cs[..i + 1]) == Directory(cs[..i]) + Lifted(cs[i])
    ensures Directory(cs[i..]) == Lifted(cs[i]) + Directory(cs[i + 1..])
    ensures Kernels.AllBefore(Directory(cs[..i]), Lifted(cs[i])) && Kernels.AllBefore(Lifted(cs[i]), Directory(cs[i + 1..]))
  {
    hide Sound, Has;
    DirectorySplits(cs[..i], cs[i]);
    assert cs[..i + 1] == cs[..i] + [cs[i]];
    DirectoryBegins(cs[i], cs[i + 1..]);
    assert cs[i..] == [cs[i]] + cs[i + 1..];
    forall v, w | v in Directory(cs[..i]) && w in Lifted(cs[i]) ensures v < w {
      var j :| 0 <= j < i && InContainer(cs[..i][j], v);
      assert cs[j].key < cs[i].key;
      KeyFirst(v, w);
    }
    var later := Directory(cs[i + 1..]);
    forall v, w | v in Lifted(cs[i]) && w in later ensures v < w {
      var j :| 0 <= j < |cs| - i - 1 && InContainer(cs[i + 1..][j], w);
      assert cs[i + 1..][j] == cs[i + 1 + j] && cs[i].key < cs[i + 1 + j].key;
      KeyFirst(v, w);
    }
  }

  lemma KeyFirst(v: nat, w: nat)
    requires KeyOf(v) < KeyOf(w)
    ensures v < w
  {
  }

  lemma DirectorySplits(cs: seq<Container>, c: Container)
    ensures Directory(cs + [c]) == Directory(cs) + Lifted(c)
  {
    hide InContainer;
    var grown := cs + [c];
    forall v: nat ensures InDirectory(grown, v) <==> InDirectory(cs, v) || InContainer(c, v) {
      assert grown[|cs|] == c;
      if InDirectory(cs, v) {
        var i :| 0 <= i < |cs| && InContainer(cs[i], v);
        assert InContainer(grown[i], v);
      }
    }
  }

  lemma DirectoryBegins(c: Container, cs: seq<Container>)
    ensures Directory([c] + cs) == Lifted(c) + Directory(cs)
  {
    hide InContainer;
    var grown := [c] + cs;
    forall v: nat ensures InDirectory(grown, v) <==> InContainer(c, v) || InDirectory(cs, v) {
      assert grown[0] == c;
      if InDirectory(cs, v) {
        var i :| 0 <= i < |cs| && InContainer(cs[i], v);
        assert grown[i + 1] == cs[i];
        assert InContainer(grown[i + 1], v);
      }
    }
  }

  lemma NoDirectory(cs: seq<Container>)
    ensures Directory(cs[..0]) == {} && Directory(cs[|cs|..]) == {} && cs[..|cs|] == cs && cs[0..] == cs
  {
  }

  /** The listing of a container's values in a direction. */
  ghost function HeldListing(c: Container, descending: bool): seq<nat> { Raised(c.key, Listing(LowsHeld(c), descending)) }

  lemma HeldListed(c: Container, descending: bool)
    requires Sound(c)
    ensures HeldListing(c, descending) == Listing(Lifted(c), descending) && |HeldListing(c, descending)| == c.cardinality
  {
    hide Has, Sound, Listing;
    HeldValues(c);
    assert c.key < LOWS by { SoundKey(c); }
    RaisedListing(c.key, LowsHeld(c), descending);
  }

  lemma SoundKey(c: Container)
    requires Sound(c)
    ensures c.key < LOWS
  {
  }

  /** What precedes a container, the container, what follows it: in either direction, one after the other. */
  lemma ListingNext(cs: seq<Container>, i: nat)
    requires Ordered(cs) && i < |cs|
    ensures Listing(Directory(cs[..i + 1]), false) == Listing(Directory(cs[..i]), false) + HeldListing(cs[i], false)
    ensures Listing(Directory(cs[i..]), true) == Listing(Directory(cs[i + 1..]), true) + HeldListing(cs[i], true)
    ensures |Directory(cs[..i + 1])| == |Directory(cs[..i])| + cs[i].cardinality
    ensures |Directory(cs[i..])| == |Directory(cs[i + 1..])| + cs[i].cardinality
  {
    hide Directory, Sound, Lifted, Listing, InOrder, Elements, HeldListing;
    DirectoryNext(cs, i);
    HeldListed(cs[i], false);
    HeldListed(cs[i], true);
    ListingConcat(Directory(cs[..i]), Lifted(cs[i]), false);
    ListingConcat(Directory(cs[i + 1..]), Lifted(cs[i]), true);
    assert Directory(cs[i + 1..]) + Lifted(cs[i]) == Lifted(cs[i]) + Directory(cs[i + 1..]);
  }

  /** The directory cut at a container: the sizes add up. */
  lemma {:induction false} SizesAdd(cs: seq<Container>, i: nat)
    requires Ordered(cs) && i <= |cs|
    ensures |Directory(cs[..i])| + |Directory(cs[i..])| == |Directory(cs)|
    decreases |cs| - i
  {
    hide Directory, Sound, Listing, HeldListing;
    NoDirectory(cs);
    if i < |cs| {
      ListingNext(cs, i);
      SizesAdd(cs, i + 1);
    }
  }

  /** The listing up to a container begins the listing of all. */
  lemma {:induction false} ListingBegins(cs: seq<Container>, i: nat)
    requires Ordered(cs) && i <= |cs|
    ensures Listing(Directory(cs[..i]), false) <= Listing(Directory(cs), false)
    decreases |cs| - i
  {
    hide Directory, Sound, Listing, HeldListing;
    NoDirectory(cs);
    if i < |cs| {
      ListingNext(cs, i);
      ListingBegins(cs, i + 1);
    }
  }

  // ---------- single values ----------

  /** `arnm_roaring_contains` */
  method Contains(view: View, value: nat) returns (has: bool)
    requires SoundView(view) && value <= UINT32_MAX
    ensures has <==> value in Content(view)
  {
    hide Content, Has, BitsBetween, Bit;
    if view.Sparse() {
      SparseContent(view);
      var position := LowerBound(view.values, value);
      Kernels.Found(view.values, position, value);
      return position < |view.values| && view.values[position] == value;
    }
    var index := FirstContainer(view.containers, KeyOf(value));
    Looked(view, index, value);
    if index == |view.containers| || view.containers[index].key != KeyOf(value) { return false; }
    assert Sound(view.containers[index]);
    has := QueryKeys.ProbeHas(view.containers[index], LowOf(value));
  }

  /** `arnm_roaring_range_cardinality`: how many values lie in [min, max]. */
  method RangeCount(view: View, min: nat, max: nat) returns (total: nat)
    requires SoundView(view) && min <= UINT32_MAX && max <= UINT32_MAX
    ensures total == |Clip(Content(view), min, max)|
  {
    hide Content, Has, Sound, KindByCount;
    if min > max {
      assert Clip(Content(view), min, max) == {};
      return 0;
    }
    if view.Sparse() {
      var begin := LowerBound(view.values, min);
      var end := UpperBound(view.values, max);
      SparseContent(view);
      StretchIs(view.values, begin, end, min, max, Clip(Content(view), min, max));
      return end - begin;
    }
    var cs := view.containers;
    DirectoryContent(view);
    hide SoundView;
    total := 0;
    var i := FirstContainer(cs, KeyOf(min));
    BeforeRange(cs, i, min, max);
    while i < |cs| && cs[i].key <= KeyOf(max)
      invariant i <= |cs| && total == |Clip(Directory(cs[..i]), min, max)|
      invariant forall j :: i <= j < |cs| ==> KeyOf(min) <= cs[j].key
    {
      var low, high := LowBound(cs[i].key, min), HighBound(cs[i].key, max);
      BoundsInKey(cs[i].key, min, max);
      var count := Containers.RangeCardinality(cs[i], low, high);
      RangeNext(cs, i, min, max);
      total := total + count;
      i := i + 1;
    }
    AfterRange(cs, i, min, max);
  }

  lemma BeforeRange(cs: seq<Container>, i: nat, min: nat, max: nat)
    requires i <= |cs| && forall j :: 0 <= j < i ==> cs[j].key < KeyOf(min)
    ensures Clip(Directory(cs[..i]), min, max) == {}
  {
    hide Has;
    forall v | v in Directory(cs[..i]) ensures v < min {
      var j :| 0 <= j < i && InContainer(cs[..i][j], v);
      KeyFirst(v, min);
    }
  }

  lemma AfterRange(cs: seq<Container>, i: nat, min: nat, max: nat)
    requires Ordered(cs) && i <= |cs| && (i < |cs| ==> KeyOf(max) < cs[i].key)
    ensures Clip(Directory(cs), min, max) == Clip(Directory(cs[..i]), min, max)
  {
    hide Has, Sound;
    forall v | v in Directory(cs) && v <= max ensures v in Directory(cs[..i]) {
      var j :| 0 <= j < |cs| && InContainer(cs[j], v);
      KeyMonotone(v, max);
      assert j < i && cs[..i][j] == cs[j];
    }
    forall v | v in Directory(cs[..i]) ensures v in Directory(cs) {
      var j :| 0 <= j < i && InContainer(cs[..i][j], v);
      assert InContainer(cs[j], v);
    }
  }

  lemma RangeNext(cs: seq<Container>, i: nat, min: nat, max: nat)
    requires Ordered(cs) && i < |cs| && min <= max <= UINT32_MAX && KeyOf(min) <= cs[i].key <= KeyOf(max)
    ensures |Clip(Directory(cs[..i + 1]), min, max)|
         == |Clip(Directory(cs[..i]), min, max)| + |Part(cs[i], LowBound(cs[i].key, min), HighBound(cs[i].key, max))|
  {
    hide Directory, Has, Sound, Lifted;
    var c := cs[i];
    DirectoryNext(cs, i);
    var part := Part(c, LowBound(c.key, min), HighBound(c.key, max));
    SoundKey(c);
    BoundsInKey(c.key, min, max);
    LiftSize(c.key, part);
    HeldClipped(c, min, max);
    DisjointSize(Clip(Directory(cs[..i]), min, max), Lift(c.key, part), Clip(Directory(cs[..i + 1]), min, max));
  }

  lemma HeldClipped(c: Container, min: nat, max: nat)
    requires Sound(c) && min <= max <= UINT32_MAX && KeyOf(min) <= c.key <= KeyOf(max)
    ensures Clip(Lifted(c), min, max) == Lift(c.key, Part(c, LowBound(c.key, min), HighBound(c.key, max)))
  {
    hide Has, Sound;
    BoundsInKey(c.key, min, max);
    forall v: nat ensures v in Clip(Lifted(c), min, max)
                      <==> v in Lift(c.key, Part(c, LowBound(c.key, min), HighBound(c.key, max))) {
      JoinValue(v);
      if KeyOf(v) == c.key { Bounds(c.key, min, max, LowOf(v)); }
    }
  }

  // ---------- ranks ----------

  /**
   * `arnm_roaring_words_select`: entry `rank` of the listing of the buffer's bits, split into word
   * and bit.
   */
  method WordsSelect(words: seq<bv64>, rank: nat) returns (w: nat, bit: nat)
    requires |words| == WORDS && rank < |BitsBetween(words, 0, LOWS)|
    ensures w < WORDS && bit < 64 && Bit(words[w], bit)
    ensures 64 * w + bit == Listing(BitsBetween(words, 0, LOWS), false)[rank]
  {
    hide Bit, BitsBetween, AtWord, Elements, InOrder, BitSet, Listing, FromStep, Masked;
    ghost var q := Listing(BitsBetween(words, 0, LOWS), false);
    ghost var n: nat := 0;
    var left := rank;
    w := 0;
    assert q[0..] == q;
    WholeWords(words);
    var word, bits := words[0], 0;
    while true
      invariant w < WORDS && n <= |q| && n + left == rank && rank < |q|
      invariant Elements(q[n..]) == FromStep(words, 0, LOWS - 1, w, false)
      decreases WORDS - w
    {
      word := words[w];
      bits := PopCount(word);
      WholeWord(words, w);
      StandsAtWord(q, n, word, w, FromStep(words, 0, LOWS - 1, w + 1, false), false);
      if left < bits { break; }
      WordPassed(q, n, word, w, FromStep(words, 0, LOWS - 1, w + 1, false), false);
      left, n := left - bits, n + bits;
      LastWordPassed(words, q, n, w, rank);
      w := w + 1;
    }
    ghost var later := FromStep(words, 0, LOWS - 1, w + 1, false);
    ghost var m;
    word, m := SkipBits(word, left, false, q, n, w, later);
    bit := SelectedBit(words[w], word, w, q, m, later);
  }

  lemma WholeWords(words: seq<bv64>)
    requires |words| == WORDS
    ensures FromStep(words, 0, LOWS - 1, 0, false) == BitsBetween(words, 0, LOWS)
    ensures FromStep(words, 0, LOWS - 1, WORDS, false) == {}
  {
    hide BitsBetween;
    FirstStep(words, 0, LOWS - 1, false);
  }

  lemma WholeWord(words: seq<bv64>, w: nat)
    requires |words| == WORDS && w < WORDS
    ensures FromStep(words, 0, LOWS - 1, w, false) == WordLows(words[w], w) + FromStep(words, 0, LOWS - 1, w + 1, false)
    ensures Later(w, FromStep(words, 0, LOWS - 1, w + 1, false), false)
  {
    hide BitsBetween, Bit, FromStep, Later, WordLows;
    StepSplits(words, words[w], 0, LOWS - 1, w, false);
  }

  lemma LastWordPassed(words: seq<bv64>, q: seq<nat>, n: nat, w: nat, rank: nat)
    requires |words| == WORDS && w < WORDS && n <= rank < |q| && Elements(q[n..]) == FromStep(words, 0, LOWS - 1, w + 1, false)
    ensures w + 1 < WORDS
  {
    hide FromStep, Elements;
    WholeWords(words);
    NoElements(q[n..]);
  }

  /** The lowest bit left of a word is a bit of the word. */
  method SelectedBit(whole: bv64, word: bv64, w: nat, ghost q: seq<nat>, ghost m: nat, ghost later: set<nat>) returns (bit: nat)
    requires AtWord(q, m, word, w, later, false) && m < |q| && word != 0
    requires forall k: nat | k < 64 :: Bit(word, k) ==> Bit(whole, k)
    ensures bit < 64 && Bit(whole, bit) && q[m] == 64 * w + bit
  {
    hide Bit, AtWord;
    bit := Ctz(word);
    var rest := DropLowest(word, bit);
    BitTaken(q, m, word, rest, w, bit, later, false);
  }

  /** `arnm_roaring_minimum` */
  method Minimum(view: View) returns (found: bool, value: nat)
    requires SoundView(view)
    ensures found <==> Content(view) != {}
    ensures found ==> FirstOf(value, Content(view), false)
  {
    hide Content, Has, BitsBetween, Bit;
    if view.cardinality == 0 { return false, 0; }
    if view.Sparse() {
      SparseContent(view);
      return true, view.values[0];
    }
    var cs := view.containers;
    DirectoryContent(view);
    hide SoundView;
    assert Sound(cs[0]) && KindByCount(cs[0]) && KeysAscending(cs);
    FirstOfDirectory(cs);
    match cs[0].data
    case Lows(lows) =>
      FirstLow(cs[0], lows[0]);
      return true, ValueOf(cs[0].key, lows[0]);
    case Bits(words) =>
      var low := FirstBit(words);
      FirstLow(cs[0], low);
      return true, ValueOf(cs[0].key, low);
  }

  /** The first bit of words that have one. */
  method FirstBit(words: seq<bv64>) returns (low: nat)
    requires |words| == WORDS && BitsBetween(words, 0, LOWS) != {}
    ensures FirstOf(low, BitsBetween(words, 0, LOWS), false)
  {
    hide Bit, BitsBetween, FromStep, WordLows, Later;
    WholeWords(words);
    var w := 0;
    while words[w] == 0
      invariant 0 <= w < WORDS && FromStep(words, 0, LOWS - 1, w, false) == BitsBetween(words, 0, LOWS)
      decreases WORDS - w
    {
      WholeWord(words, w);
      WordLowsOfZero(words[w], w);
      w := w + 1;
    }
    WholeWord(words, w);
    var k := Ctz(words[w]);
    NearBitFirst(words[w], w, k, FromStep(words, 0, LOWS - 1, w + 1, false), false);
    low := 64 * w + k;
  }

  lemma FirstOfDirectory(cs: seq<Container>)
    requires Ordered(cs) && |cs| > 0
    ensures LowsHeld(cs[0]) != {} && Directory(cs) != {}
    ensures forall v :: FirstOf(v, Lifted(cs[0]), false) ==> FirstOf(v, Directory(cs), false)
  {
    hide Has, Sound, Directory, Lifted;
    NoDirectory(cs);
    DirectoryNext(cs, 0);
    HeldValues(cs[0]);
    assert cs[0].cardinality > 0 by { SoundCount(cs[0]); }
  }

  lemma SoundCount(c: Container)
    requires Sound(c)
    ensures c.cardinality > 0
  {
  }

  lemma FirstLow(c: Container, low: nat)
    requires Sound(c)
    requires match c.data
             case Lows(lows) => low == lows[0]
             case Bits(words) => FirstOf(low, BitsBetween(words, 0, LOWS), false)
             case Wide(_) => false
    ensures FirstOf(ValueOf(c.key, low), Lifted(c), false)
  {
    HoldsFirst(c, low);
    hide Has, Sound;
    SplitValue(c.key, low);
    SoundKey(c);
    forall v | v in Lifted(c) && v != ValueOf(c.key, low) ensures ValueOf(c.key, low) < v { JoinValue(v); }
  }

  lemma HoldsFirst(c: Container, low: nat)
    requires Sound(c)
    requires match c.data
             case Lows(lows) => low == lows[0]
             case Bits(words) => FirstOf(low, BitsBetween(words, 0, LOWS), false)
             case Wide(_) => false
    ensures low < LOWS && Has(c, low) && forall x: nat :: Has(c, x) ==> low <= x
  {
    match c.data
    case Lows(lows) => assert lows[0] in lows;
    case Bits(words) => assert forall x: nat :: Has(c, x) ==> x in BitsBetween(words, 0, LOWS);
  }

  /** `arnm_roaring_select`: the value of a rank, counted from 0, while there is one. */
  method Select(view: View, rank: nat) returns (found: bool, value: nat)
    requires SoundView(view)
    ensures found <==> rank < |Content(view)|
    ensures found ==> value == Listing(Content(view), false)[rank]
  {
    hide Content, Has, BitsBetween, Listing, Directory, HeldListing, Elements, InOrder, Bit;
    if rank >= view.cardinality { return false, 0; }
    if view.Sparse() {
      SparseContent(view);
      SparseListing(view, false);
      return true, view.values[rank];
    }
    var cs := view.containers;
    DirectoryContent(view);
    var size := view.cardinality;
    hide SoundView;
    NoDirectory(cs);
    var i: nat, left: nat := 0, rank;
    while i < |cs| && left >= cs[i].cardinality
      invariant 0 <= i <= |cs| && |Directory(cs[..i])| + left == rank && rank < |Directory(cs)|
    {
      ListingNext(cs, i);
      left := left - cs[i].cardinality;
      i := i + 1;
    }
    if i == |cs| {
      SizesAdd(cs, i);
      assert false;
    }
    found := true;
    value := SelectIn(cs[i], left);
    ListingNext(cs, i);
    ListingBegins(cs, i + 1);
    HeldListed(cs[i], false);
    EntryOf(Listing(Directory(cs[..i]), false), HeldListing(cs[i], false), Listing(Directory(cs), false), left);
  }

  lemma EntryOf(p: seq<nat>, q: seq<nat>, whole: seq<nat>, k: nat)
    requires p + q <= whole && k < |q|
    ensures whole[|p| + k] == q[k]
  {
    assert (p + q)[|p| + k] == q[k];
  }

  lemma SparseListing(view: View, descending: bool)
    requires SoundView(view) && view.Sparse()
    ensures Listing(Content(view), descending) == if descending then Reversed(view.values) else view.values
  {
    SparseContent(view);
    SortedListing(view.values, descending);
  }

  /** The value of a rank inside one container. */
  method SelectIn(c: Container, rank: nat) returns (value: nat)
    requires Sound(c) && !c.data.Wide? && rank < c.cardinality
    ensures rank < |HeldListing(c, false)| && value == HeldListing(c, false)[rank]
  {
    hide Has, BitsBetween, Listing, Elements, InOrder;
    HeldListed(c, false);
    match c.data
    case Lows(lows) =>
      value := ValueOf(c.key, lows[rank]);
      LowsListing(c, false);
    case Bits(words) =>
      BitsHeld(c);
      var w, bit := WordsSelect(words, rank);
      value := ValueOf(c.key, 64 * w + bit);
  }

  lemma LowsListing(c: Container, descending: bool)
    requires Sound(c) && c.data.Lows?
    ensures Elements(c.data.lows) == LowsHeld(c)
    ensures Listing(LowsHeld(c), descending) == if descending then Reversed(c.data.lows) else c.data.lows
  {
    hide Listing;
    assert Elements(c.data.lows) == LowsHeld(c);
    SortedListing(c.data.lows, descending);
  }

  lemma BitsHeld(c: Container)
    requires Sound(c) && c.data.Bits?
    ensures |c.data.words| == WORDS && LowsHeld(c) == BitsBetween(c.data.words, 0, LOWS)
    ensures c.cardinality == |BitsBetween(c.data.words, 0, LOWS)|
  {
    assert LowsHeld(c) == BitsBetween(c.data.words, 0, LOWS);
  }

  /** Up to its element at `rank` an ascending sequence holds what is not above that element. */
  lemma FrontIsClip(q: seq<nat>, rank: nat)
    requires Ascending(q) && rank < |q|
    ensures Elements(q[..rank + 1]) == Clip(Elements(q), 0, q[rank])
  {
    var front := q[..rank + 1];
    forall v | v in q && v <= q[rank] ensures v in front {
      var i :| 0 <= i < |q| && q[i] == v;
      assert i <= rank && front[i] == v;
    }
    assert forall v :: v in front ==> v in q && v <= q[rank];
  }

  /** Counting up to a value inverts selecting it: rank r is the (r + 1)-th of the values up to it. */
  lemma RankInvertsSelect(view: View, rank: nat)
    requires SoundView(view) && rank < |Content(view)|
    ensures var v := Listing(Content(view), false)[rank];
            v in Content(view) && |Clip(Content(view), 0, v)| == rank + 1
  {
    hide Content;
    var q := Listing(Content(view), false);
    assert q[rank] in Elements(q);
    FrontIsClip(q, rank);
    AscendingSize(q[..rank + 1]);
  }

  // ---------- pages of one set ----------

  /** Where a rank stands in the listing of a direction. */
  function Place(rank: nat, count: nat, descending: bool): nat
    requires rank < count
  {
    if descending then count - 1 - rank else rank
  }

  /** From an entry on, a listing holds what does not come before that entry. */
  lemma TailIs(q: seq<nat>, n: nat, descending: bool)
    requires InOrder(q, descending) && n < |q|
    ensures forall y :: y in Elements(q[n..]) <==> y in Elements(q) && !Before(y, q[n], descending)
  {
    forall y ensures y in Elements(q[n..]) <==> y in Elements(q) && !Before(y, q[n], descending) {
      if y in q {
        var i :| 0 <= i < |q| && q[i] == y;
        if i >= n { assert q[n..][i - n] == y; }
      }
      if y in q[n..] {
        var i :| 0 <= i < |q| - n && q[n..][i] == y;
        assert q[n + i] == y;
      }
    }
  }

  lemma PlaceInListing(s: set<nat>, rank: nat, descending: bool)
    requires rank < |s|
    ensures Listing(s, descending)[Place(rank, |s|, descending)] == Listing(s, false)[rank]
  {
    hide Listing, Elements, InOrder, Before;
    var q := Listing(s, false);
    AscendingListing(s);
    SortedListing(q, descending);
  }

  lemma AscendingListing(s: set<nat>)
    ensures Ascending(Listing(s, false)) && Elements(Listing(s, false)) == s
  {
  }

  /** The word a selected bit stands in, cut at that bit, then the words after it. */
  lemma CutAtBit(words: seq<bv64>, word: bv64, w: nat, bit: nat, rank: nat, step: nat, descending: bool)
    requires |words| == WORDS && w < WORDS && bit < 64 && step < WORDS && w == WordAt(0, LOWS - 1, step, descending)
    requires rank < |BitsBetween(words, 0, LOWS)| && 64 * w + bit == Listing(BitsBetween(words, 0, LOWS), false)[rank]
    requires forall k: nat | k < 64 :: Bit(word, k) <==> Bit(words[w], k) && !Before(k, bit, descending)
    ensures var s := BitsBetween(words, 0, LOWS);
            AtWord(Listing(s, descending), Place(rank, |s|, descending), word, w,
                   FromStep(words, 0, LOWS - 1, step + 1, descending), descending)
  {
    hide Bit, BitsBetween, FromStep, Elements;
    var s := BitsBetween(words, 0, LOWS);
    var q, n := Listing(s, descending), Place(rank, |s|, descending);
    var later := FromStep(words, 0, LOWS - 1, step + 1, descending);
    PlaceInListing(s, rank, descending);
    TailIs(q, n, descending);
    FirstStep(words, 0, LOWS - 1, descending);
    StepsCover(words, step, w, descending);
    forall y: nat ensures y in Elements(q[n..]) <==> y in WordLows(word, w) || y in later {
      CutElement(words, word, w, bit, y, descending);
    }
  }

  lemma CutElement(words: seq<bv64>, word: bv64, w: nat, bit: nat, y: nat, descending: bool)
    requires |words| == WORDS && w < WORDS && bit < 64
    requires forall k: nat | k < 64 :: Bit(word, k) <==> Bit(words[w], k) && !Before(k, bit, descending)
    ensures y in WordLows(word, w) <==> y in WordLows(words[w], w) && !Before(y, 64 * w + bit, descending)
    ensures y in WordLows(words[w], w) ==> 64 * w <= y < 64 * (w + 1)
  {
    hide Bit;
  }

  /** The bits of a buffer in the word of a step, and those after it. */
  lemma StepsCover(words: seq<bv64>, step: nat, w: nat, descending: bool)
    requires |words| == WORDS && step < WORDS && w == WordAt(0, LOWS - 1, step, descending)
    ensures var s, later := BitsBetween(words, 0, LOWS), FromStep(words, 0, LOWS - 1, step + 1, descending);
            Later(w, later, descending)
            && (forall y: nat :: y in WordLows(words[w], w) <==> y in s && 64 * w <= y < 64 * (w + 1))
            && (forall y: nat :: y in later <==> y in s && if descending then y < 64 * w else 64 * (w + 1) <= y)
  {
    hide HasBit, WordLows;
    WordLowsOf(words, w);
  }

  /** A bitmap read bit by bit from a rank on, until it ends or there is no more room. */
  method ReadBitmap(c: Container, rank: nat, room: nat, descending: bool) returns (out: seq<nat>)
    requires Sound(c) && c.data.Bits? && rank < c.cardinality
    ensures out == Window(HeldListing(c, descending), Place(rank, c.cardinality, descending), room)
  {
    hide Bit, BitsBetween, FromStep, Elements, InOrder, Listing, AtWord, Read, Masked, Place, Sound;
    BitsHeld(c);
    var words := c.data.words;
    ghost var skipped: nat := Place(rank, c.cardinality, descending);
    ghost var q := Listing(LowsHeld(c), descending);
    var w, bit := WordsSelect(words, rank);
    var word;
    if descending { word := KeepUpTo(words[w], bit); } else { word := KeepFrom(words[w], bit); }
    var step: nat := if descending then WORDS - 1 - w else w;
    CutAtBit(words, word, w, bit, rank, step, descending);
    ghost var n: nat := skipped;
    AtWordBounds(q, n, word, w, FromStep(words, 0, LOWS - 1, step + 1, descending), descending);
    NothingRead(Raised(c.key, q), n, room);
    out := [];
    while true
      invariant step < WORDS && w == (if descending then WORDS - 1 - step else step) && n <= |q|
      invariant AtWord(q, n, word, w, FromStep(words, 0, LOWS - 1, step + 1, descending), descending)
      invariant Read(out, 0, Raised(c.key, q), n, skipped, room)
      decreases WORDS - step
    {
      out, n := WriteBits(word, w, c.key, out, room, descending, q, n, skipped, FromStep(words, 0, LOWS - 1, step + 1, descending));
      if |out| >= room || step + 1 == WORDS { break; }
      step := step + 1;
      w := if descending then w - 1 else w + 1;
      word := words[w];
      NextWord(words, q, n, w, step, descending);
    }
    if |out| < room {
      FirstStep(words, 0, LOWS - 1, descending);
      NothingLeft(q, n);
    }
    ReadDone(out, 0, Raised(c.key, q), n, skipped, room);
  }

  lemma NothingRead(q: seq<nat>, n: nat, size: nat)
    requires n <= |q|
    ensures Read([], 0, q, n, n, size)
  {
  }

  lemma NextWord(words: seq<bv64>, q: seq<nat>, n: nat, w: nat, step: nat, descending: bool)
    requires |words| == WORDS && step < WORDS && w == WordAt(0, LOWS - 1, step, descending)
    requires InOrder(q, descending) && n <= |q| && Elements(q[n..]) == FromStep(words, 0, LOWS - 1, step, descending)
    ensures AtWord(q, n, words[w], w, FromStep(words, 0, LOWS - 1, step + 1, descending), descending)
  {
    hide Bit, BitsBetween, FromStep, Elements, InOrder, Later, WordLows;
    StepSplits(words, words[w], 0, LOWS - 1, step, descending);
    StandsAtWord(q, n, words[w], w, FromStep(words, 0, LOWS - 1, step + 1, descending), descending);
  }

  /** A container read from a rank on. */
  method ReadContainer(c: Container, rank: nat, room: nat, descending: bool) returns (out: seq<nat>)
    requires Sound(c) && !c.data.Wide? && rank < c.cardinality
    ensures out == Window(HeldListing(c, descending), Place(rank, c.cardinality, descending), room)
  {
    hide Elements, Listing, BitsBetween;
    match c.data
    case Lows(lows) =>
      var taken, left := TakeSlice(lows, 0, c.cardinality, Place(rank, c.cardinality, descending), room, descending);
      assert lows[0..c.cardinality] == lows;
      LowsListing(c, descending);
      RaisedWindow(c.key, Listing(LowsHeld(c), descending), Place(rank, c.cardinality, descending), room);
      out := Raised(c.key, taken);
    case Bits(_) =>
      out := ReadBitmap(c, rank, room, descending);
  }

  /** One container more, of a page whose skip ends in it or before it. */
  lemma PageContinues(before: seq<nat>, piece: seq<nat>, out: seq<nat>, skip: nat, size: nat, at: nat)
    requires out == Window(before, skip, size) && |out| <= size && at == SkipAfter(skip, |before|)
    ensures out + Window(piece, at, size - |out|) == Window(before + piece, skip, size)
  {
    WindowConcat(before, piece, skip, size);
  }

  /** `page_ascending`: from the container and rank the page starts at, upwards. */
  method PageUp(cs: seq<Container>, start: nat, from: nat, size: nat, ghost skip: nat) returns (out: seq<nat>)
    requires Ordered(cs) && AllSound(cs) && start < |cs| && from < cs[start].cardinality
    requires skip == |Directory(cs[..start])| + from
    ensures out == Window(Listing(Directory(cs), false), skip, size)
  {
    hide Directory, Sound, Listing, HeldListing, Elements, InOrder, Window, KindByCount;
    out := [];
    var index, rank := start, from;
    StartsEmpty(Listing(Directory(cs[..start]), false), skip, size);
    while index < |cs| && |out| < size
      invariant start <= index <= |cs| && out == Window(Listing(Directory(cs[..index]), false), skip, size)
      invariant index < |cs| ==> rank < cs[index].cardinality && rank == SkipAfter(skip, |Directory(cs[..index])|)
      invariant index > start ==> skip <= |Directory(cs[..index])|
    {
      PlainContainer(cs, index);
      ListingNext(cs, index);
      PageContinues(Listing(Directory(cs[..index]), false), HeldListing(cs[index], false), out, skip, size, rank);
      var piece := ReadContainer(cs[index], rank, size - |out|, false);
      out := out + piece;
      index := index + 1;
      rank := 0;
      if index < |cs| { PlainContainer(cs, index); }
    }
    NoDirectory(cs);
    if index < |cs| {
      ListingBegins(cs, index);
      FullPage(Listing(Directory(cs[..index]), false), Listing(Directory(cs), false), out, skip, size);
    }
  }

  lemma StartsEmpty(q: seq<nat>, skip: nat, size: nat)
    requires |q| <= skip
    ensures Window(q, skip, size) == []
  {
  }

  lemma PlainContainer(cs: seq<Container>, i: nat)
    requires AllSound(cs) && i < |cs|
    ensures Sound(cs[i]) && !cs[i].data.Wide? && cs[i].cardinality > 0
  {
    assert Sound(cs[i]) && KindByCount(cs[i]);
  }

  lemma FullPage(p: seq<nat>, whole: seq<nat>, out: seq<nat>, skip: nat, size: nat)
    requires p <= whole && out == Window(p, skip, size) && |out| >= size
    ensures out == Window(whole, skip, size)
  {
    PrefixFull(p, whole[|p|..], skip, size);
    assert p + whole[|p|..] == whole;
  }

  /** The listing downwards from a container on begins the listing of all. */
  lemma {:induction false} ListingBeginsDown(cs: seq<Container>, i: nat)
    requires Ordered(cs) && i <= |cs|
    ensures Listing(Directory(cs[i..]), true) <= Listing(Directory(cs), true)
    decreases i
  {
    hide Directory, Sound, Listing, HeldListing;
    NoDirectory(cs);
    if i > 0 {
      ListingNext(cs, i - 1);
      ListingBeginsDown(cs, i - 1);
    }
  }

  /** `page_descending`: the same downwards. */
  method PageDown(cs: seq<Container>, start: nat, from: nat, size: nat, ghost skip: nat) returns (out: seq<nat>)
    requires Ordered(cs) && AllSound(cs) && start < |cs| && from < cs[start].cardinality
    requires skip == |Directory(cs[start + 1..])| + (cs[start].cardinality - 1 - from)
    ensures out == Window(Listing(Directory(cs), true), skip, size)
  {
    hide Directory, Sound, Listing, HeldListing, Elements, InOrder, Window, KindByCount;
    out := [];
    var index: nat, rank: nat := start, from;
    StartsEmpty(Listing(Directory(cs[start + 1..]), true), skip, size);
    while true
      invariant index <= start && out == Window(Listing(Directory(cs[index + 1..]), true), skip, size)
      invariant rank < cs[index].cardinality
      invariant cs[index].cardinality - 1 - rank == SkipAfter(skip, |Directory(cs[index + 1..])|)
      invariant index < start ==> skip <= |Directory(cs[index + 1..])|
      decreases index
    {
      PlainContainer(cs, index);
      ListingNext(cs, index);
      PageContinues(Listing(Directory(cs[index + 1..]), true), HeldListing(cs[index], true), out, skip, size,
                    cs[index].cardinality - 1 - rank);
      var piece := ReadContainer(cs[index], rank, size - |out|, true);
      out := out + piece;
      if |out| >= size || index == 0 { break; }
      index := index - 1;
      PlainContainer(cs, index);
      rank := cs[index].cardinality - 1;
    }
    NoDirectory(cs);
    if index > 0 {
      ListingBeginsDown(cs, index);
      FullPage(Listing(Directory(cs[index..]), true), Listing(Directory(cs), true), out, skip, size);
    }
  }

  /** `arnm_roaring_page`: entries skip .. skip + size of the set in either direction. */
  method Page(view: View, skip: nat, size: nat, descending: bool) returns (out: seq<nat>)
    requires SoundView(view)
    ensures out == Window(Listing(Content(view), descending), skip, size)
  {
    hide Content, Has, BitsBetween, Listing, Directory, HeldListing, Elements, InOrder, Window;
    if size == 0 || skip >= view.cardinality {
      NothingToRead(Listing(Content(view), descending), skip, size);
      return [];
    }
    var rank := if descending then view.cardinality - 1 - skip else skip;
    if view.Sparse() {
      SparseContent(view);
      var left;
      out, left := TakeSlice(view.values, 0, |view.values|, skip, size, descending);
      assert view.values[0..|view.values|] == view.values;
      return;
    }
    var cs, count := view.containers, view.cardinality;
    DirectoryContent(view);
    SoundDirectory(view);
    hide SoundView;
    NoDirectory(cs);
    var index: nat := 0;
    while rank >= cs[index].cardinality
      invariant index < |cs| && 0 <= rank
      invariant |Directory(cs[..index])| + rank == (if descending then count - 1 - skip else skip)
      decreases |cs| - index
    {
      ListingNext(cs, index);
      SizesAdd(cs, index + 1);
      if index + 1 == |cs| { assert false; }
      rank := rank - cs[index].cardinality;
      index := index + 1;
    }
    if descending {
      ListingNext(cs, index);
      SizesAdd(cs, index);
      out := PageDown(cs, index, rank, size, skip);
    } else {
      out := PageUp(cs, index, rank, size, skip);
    }
  }

  lemma SoundDirectory(view: View)
    requires SoundView(view) && !view.Sparse()
    ensures AllSound(view.containers) && view.cardinality == |Directory(view.containers)|
  {
    hide Content;
    DirectoryContent(view);
  }

  lemma NothingToRead(q: seq<nat>, skip: nat, size: nat)
    requires size == 0 || skip >= |q|
    ensures Window(q, skip, size) == []
  {
  }
}
