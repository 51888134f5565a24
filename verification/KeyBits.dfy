// Buffers of bits for one key: parts combined into them, and windows read out of them.
module KeyBits {
  import opened Word64
  import opened Order
  import opened WordBuffer
  import opened Containers
  import opened Kernels
  import opened Merging

  // ---------- what the parts of a key hold together ----------

  ghost predicate InAny(parts: seq<Container>, x: nat) { exists p :: 0 <= p < |parts| && Has(parts[p], x) }

  ghost predicate InAll(parts: seq<Container>, x: nat) { forall p :: 0 <= p < |parts| ==> Has(parts[p], x) }

  /** `{x in [low, high] | InAny(parts, x)}`. */
  ghost function UnionLows(parts: seq<Container>, low: nat, high: nat): set<nat> {
    set x: nat | low <= x <= high && InAny(parts, x)
  }

  /** Parts of one key. */
  ghost predicate OfKey(parts: seq<Container>, key: nat) {
    forall p :: 0 <= p < |parts| ==> Sound(parts[p]) && parts[p].key == key
  }

  lemma InAnyNext(parts: seq<Container>, i: nat, x: nat)
    requires i < |parts|
    ensures InAny(parts[..i + 1], x) <==> InAny(parts[..i], x) || Has(parts[i], x)
    ensures InAll(parts[..i + 1], x) <==> InAll(parts[..i], x) && Has(parts[i], x)
  {
    hide Has;
    var before, after := parts[..i], parts[..i + 1];
    assert after[i] == parts[i];
    if InAny(before, x) {
      var p :| 0 <= p < |before| && Has(before[p], x);
      assert Has(after[p], x);
    }
    if InAll(after, x) {
      assert forall p :: 0 <= p < |before| ==> Has(after[p], x);
    }
  }

  lemma InWhole(parts: seq<Container>)
    ensures parts[..|parts|] == parts && forall x :: !InAny(parts[..0], x) && InAll(parts[..0], x)
  {
  }

  // ---------- bits ----------

  /** The bits of [low, high] that are set in the buffer. */
  ghost predicate Spells(words: seq<bv64>, low: nat, high: nat, s: set<nat>)
    requires |words| == WORDS && high < LOWS
  {
    forall x: nat :: low <= x <= high ==> (HasBit(words, x) <==> x in s)
  }

  lemma SpellsBetween(words: seq<bv64>, low: nat, high: nat, s: set<nat>)
    requires |words| == WORDS && high < LOWS && Spells(words, low, high, s) && forall x :: x in s ==> low <= x <= high
    ensures BitsBetween(words, low, high + 1) == s
  {
  }

  /** `words[w] |= x[w]`, or one of the other two combinations, over the words of a range. */
  method CombineInto(words: array<bv64>, x: seq<bv64>, op: WordOp, low: nat, high: nat)
    requires words.Length == |x| == WORDS && low <= high < LOWS
    modifies words
    ensures forall v: nat :: low <= v <= high ==>
              (HasBit(words[..], v) <==> Combined(op, old(HasBit(words[..], v)), HasBit(x, v)))
  {
    hide Bit, Combined;
    ghost var was := words[..];
    var first, last := low / 64, high / 64;
    var w := first;
    while w <= last
      invariant first <= w <= last + 1
      invariant forall v: nat, k: nat | first <= v < w && k < 64 ::
                  Bit(words[v], k) <==> Combined(op, Bit(was[v], k), Bit(x[v], k))
      invariant forall v :: w <= v < WORDS ==> words[v] == was[v]
    {
      var word := CombineWord(op, words[w], x[w]);
      words[w] := word;
      w := w + 1;
    }
    forall v: nat | low <= v <= high
      ensures HasBit(words[..], v) <==> Combined(op, HasBit(was, v), HasBit(x, v))
    {
      assert first <= v / 64 <= last;
    }
  }

  lemma PartInRange(c: Container, low: nat, high: nat, q: seq<nat>, x: nat)
    requires Elements(q) == Part(c, low, high) && low <= x <= high
    ensures x in q <==> Has(c, x)
  {
    assert x in q <==> x in Elements(q);
  }

  lemma SliceInRange(c: Container, begin: nat, end: nat)
    requires Sound(c) && !c.data.Bits? && begin <= end <= |LowsOf(c)|
    ensures forall x :: x in LowsOf(c)[begin..end] ==> x < LOWS
  {
    LowsSorted(c);
    assert forall x :: x in LowsOf(c)[begin..end] ==> x in LowsOf(c);
  }

  /** `bits_of_part`: sets the bits of a part inside [low, high]. */
  method BitsOfPart(words: array<bv64>, c: Container, low: nat, high: nat)
    requires words.Length == WORDS && Sound(c) && low <= high < LOWS
    modifies words
    ensures forall x: nat :: low <= x <= high ==> (HasBit(words[..], x) <==> old(HasBit(words[..], x)) || Has(c, x))
  {
    hide HasBit, Sound, Part, Elements, LowsOf;
    if c.data.Bits? {
      BitmapHas(c);
      CombineInto(words, c.data.words, WordOp.Or, low, high);
      return;
    }
    var begin, end := SliceOf(c, low, high);
    var lows := LowsOf(c)[begin..end];
    SliceInRange(c, begin, end);
    forall x: nat | low <= x <= high ensures x in lows <==> Has(c, x) { PartInRange(c, low, high, lows, x); }
    SetLows(words, lows);
  }

  lemma BitmapHas(c: Container)
    requires Sound(c) && c.data.Bits?
    ensures |c.data.words| == WORDS && forall x: nat :: x < LOWS ==> (Has(c, x) <==> HasBit(c.data.words, x))
  {
  }

  /** `bits_without_part`: clears them. */
  method BitsWithoutPart(words: array<bv64>, c: Container, low: nat, high: nat)
    requires words.Length == WORDS && Sound(c) && low <= high < LOWS
    modifies words
    ensures forall x: nat :: low <= x <= high ==> (HasBit(words[..], x) <==> old(HasBit(words[..], x)) && !Has(c, x))
  {
    hide HasBit, Sound, Part, Elements, LowsOf;
    if c.data.Bits? {
      BitmapHas(c);
      CombineInto(words, c.data.words, WordOp.AndNot, low, high);
      return;
    }
    var begin, end := SliceOf(c, low, high);
    var lows := LowsOf(c)[begin..end];
    SliceInRange(c, begin, end);
    forall x: nat | low <= x <= high ensures x in lows <==> Has(c, x) { PartInRange(c, low, high, lows, x); }
    ClearLows(words, lows);
  }

  /** The bits of any of the parts set in the buffer, zero before. */
  method UnionInto(words: array<bv64>, parts: seq<Container>, ghost key: nat, low: nat, high: nat)
    requires words.Length == WORDS && OfKey(parts, key) && low <= high < LOWS
    modifies words
    ensures forall x: nat :: low <= x <= high ==> (HasBit(words[..], x) <==> InAny(parts, x))
  {
    hide HasBit, Has, InAny, InAll, Sound;
    WindowCovers(low, high);
    Zero(words, low / 64, high / 64);
    InWhole(parts);
    var p := 0;
    while p < |parts|
      invariant 0 <= p <= |parts|
      invariant forall x: nat :: low <= x <= high ==> (HasBit(words[..], x) <==> InAny(parts[..p], x))
    {
      BitsOfPart(words, parts[p], low, high);
      forall x: nat | low <= x <= high ensures InAny(parts[..p + 1], x) <==> InAny(parts[..p], x) || Has(parts[p], x) {
        InAnyNext(parts, p, x);
      }
      p := p + 1;
    }
  }

  /** A buffer whose bits of the range are known, counted with its edges masked. */
  method Count(words: array<bv64>, low: nat, high: nat, ghost s: set<nat>) returns (count: nat)
    requires words.Length == WORDS && low <= high < LOWS
    requires Spells(words[..], low, high, s) && forall x :: x in s ==> low <= x <= high
    modifies words
    ensures count == |s| && BitsBetween(words[..], low, high + 1) == s
  {
    hide HasBit, BitsBetween;
    WindowCovers(low, high);
    SpellsBetween(words[..], low, high, s);
    count := ClipAndCount(words, low, high);
    SpellsBetween(words[..], low, high, s);
  }

  /** `key_union_words`: a fresh buffer that spells `UnionLows`, and its size. */
  method UnionWords(parts: seq<Container>, ghost key: nat, low: nat, high: nat) returns (words: array<bv64>, count: nat)
    requires OfKey(parts, key) && low <= high < LOWS
    ensures fresh(words) && words.Length == WORDS
    ensures BitsBetween(words[..], low, high + 1) == UnionLows(parts, low, high) && count == |UnionLows(parts, low, high)|
  {
    hide HasBit, InAny, BitsBetween;
    words := new bv64[WORDS];
    UnionInto(words, parts, key, low, high);
    count := Count(words, low, high, UnionLows(parts, low, high));
  }

  // ---------- bits read in one direction ----------

  function Raised(key: nat, lows: seq<nat>): (q: seq<nat>)
    ensures |q| == |lows| && forall i :: 0 <= i < |q| ==> q[i] == ValueOf(key, lows[i])
  {
    seq(|lows|, i requires 0 <= i < |lows| => ValueOf(key, lows[i]))
  }

  /** The bit of a word the walk reads next. */
  method NearBit(word: bv64, descending: bool) returns (k: nat)
    requires word != 0
    ensures k < 64 && Bit(word, k) && forall j: nat | j < 64 && Before(j, k, descending) :: !Bit(word, j)
  {
    hide Bit;
    if descending { k := Top(word); } else { k := Ctz(word); }
  }

  /** The rest of the words comes after this one. */
  ghost predicate Later(w: nat, later: set<nat>, descending: bool) {
    forall x :: x in later ==> if descending then x < 64 * w else 64 * (w + 1) <= x
  }

  /** What the walk has left: a word, then what comes later. It is at entry `n` of the listing. */
  ghost predicate AtWord(q: seq<nat>, n: nat, word: bv64, w: nat, later: set<nat>, descending: bool) {
    InOrder(q, descending) && n <= |q| && Elements(q[n..]) == WordLows(word, w) + later && Later(w, later, descending)
  }

  /** Once the near bit is read the walk has the rest of the word left. */
  lemma BitTaken(q: seq<nat>, n: nat, word: bv64, rest: bv64, w: nat, k: nat, later: set<nat>, descending: bool)
    requires AtWord(q, n, word, w, later, descending)
    requires k < 64 && Bit(word, k) && forall j: nat | j < 64 && Before(j, k, descending) :: !Bit(word, j)
    requires forall j: nat | j < 64 :: Bit(rest, j) <==> Bit(word, j) && j != k
    ensures n < |q| && q[n] == 64 * w + k && AtWord(q, n + 1, rest, w, later, descending)
  {
    hide Bit;
    var x := 64 * w + k;
    assert InWord(word, w, x);
    assert x in Elements(q[n..]);
    forall y | y in q[n..] && y != x ensures Before(x, y, descending) {
      assert y in Elements(q[n..]);
      if y !in later {
        assert InWord(word, w, y);
        assert !Before(y - 64 * w, k, descending);
      }
    }
    NextOfListing(q, n, x, descending);
    WordLowsWithout(word, rest, w, k);
  }

  /** As many entries as the word has bits, passed over at once. */
  lemma WordPassed(q: seq<nat>, n: nat, word: bv64, w: nat, later: set<nat>, descending: bool)
    requires AtWord(q, n, word, w, later, descending)
    ensures n + |BitSet(word)| <= |q| && Elements(q[n + |BitSet(word)|..]) == later
  {
    WordLowsSize(word, w);
    hide Bit, WordLows, Elements, InOrder, BitSet;
    forall x, y | x in WordLows(word, w) && y in later ensures Before(x, y, descending) { WordBounded(word, w, x); }
    FirstPartPassed(q, n, WordLows(word, w), later, descending);
  }

  lemma WordBounded(word: bv64, w: nat, x: nat)
    requires x in WordLows(word, w)
    ensures 64 * w <= x < 64 * (w + 1)
  {
  }

  /** Drops `skip` set bits, nearest first: the listing goes on `skip` entries further on. */
  method SkipBits(bits: bv64, skip: nat, descending: bool, ghost q: seq<nat>, ghost n: nat, ghost w: nat, ghost later: set<nat>)
    returns (word: bv64, ghost m: nat)
    requires AtWord(q, n, bits, w, later, descending) && skip < |BitSet(bits)|
    ensures m == n + skip && AtWord(q, m, word, w, later, descending)
    ensures word != 0 && forall k: nat | k < 64 :: Bit(word, k) ==> Bit(bits, k)
  {
    hide Bit, AtWord, BitSet;
    word, m := bits, n;
    var left: nat := skip;
    while left > 0
      invariant m == n + skip - left && left <= skip && AtWord(q, m, word, w, later, descending)
      invariant left < |BitSet(word)| && forall k: nat | k < 64 :: Bit(word, k) ==> Bit(bits, k)
      decreases left
    {
      BitsLeft(word);
      var k := NearBit(word, descending);
      var rest;
      if descending { rest := ClearBit(word, k); } else { rest := DropLowest(word, k); }
      BitTaken(q, m, word, rest, w, k, later, descending);
      OneBitLess(word, rest, k);
      word, m, left := rest, m + 1, left - 1;
    }
    BitsLeft(word);
  }

  lemma BitsLeft(word: bv64)
    ensures word == 0 ==> BitSet(word) == {}
  {
    BitSetOfZero();
  }

  lemma OneBitLess(word: bv64, rest: bv64, k: nat)
    requires k < 64 && Bit(word, k) && forall j: nat | j < 64 :: Bit(rest, j) <==> Bit(word, j) && j != k
    ensures |BitSet(rest)| == |BitSet(word)| - 1
  {
    hide Bit;
    assert BitSet(word) == BitSet(rest) + {k};
  }

  /** The bits of one word written out, until the word is empty or the page is full. */
  method WriteBits(bits: bv64, w: nat, key: nat, had: seq<nat>, size: nat, descending: bool,
                   ghost q: seq<nat>, ghost n: nat, ghost skipped: nat, ghost later: set<nat>)
    returns (out: seq<nat>, ghost m: nat)
    requires AtWord(q, n, bits, w, later, descending) && Read(had, 0, Raised(key, q), n, skipped, size)
    ensures Read(out, 0, Raised(key, q), m, skipped, size) && n <= m <= |q|
    ensures |out| >= size || Elements(q[m..]) == later
  {
    hide Bit, AtWord, Read;
    out, m := had, n;
    var word := bits;
    AtWordBounds(q, m, word, w, later, descending);
    while word != 0 && |out| < size
      invariant AtWord(q, m, word, w, later, descending) && Read(out, 0, Raised(key, q), m, skipped, size)
      invariant n <= m <= |q|
      decreases |q| - m
    {
      var k := NearBit(word, descending);
      var rest := ClearBit(word, k);
      BitTaken(q, m, word, rest, w, k, later, descending);
      AtWordBounds(q, m + 1, rest, w, later, descending);
      ReadOne(out, 0, Raised(key, q), m, skipped, size);
      out, m := out + [ValueOf(key, 64 * w + k)], m + 1;
      word := rest;
    }
    AtWordBounds(q, m, word, w, later, descending);
  }

  lemma AtWordBounds(q: seq<nat>, n: nat, word: bv64, w: nat, later: set<nat>, descending: bool)
    requires AtWord(q, n, word, w, later, descending)
    ensures n <= |q| && (word == 0 ==> Elements(q[n..]) == later)
  {
    WordLowsOfZero(word, w);
  }

  // ---------- the words of a range, one after the other ----------

  function Max(a: nat, b: nat): nat { if a < b then b else a }

  /** Where a word begins in walking order, and where it ends. */
  function NearEdge(w: nat, descending: bool): nat { if descending then 64 * (w + 1) else 64 * w }

  function FarEdge(w: nat, descending: bool): nat { if descending then 64 * w else 64 * (w + 1) }

  /** What a walk over the words of [low, high] has left from an edge on. */
  ghost function RestOf(words: seq<bv64>, low: nat, high: nat, edge: nat, descending: bool): set<nat>
    requires |words| == WORDS && high < LOWS
  {
    if descending then BitsBetween(words, low, Min(high + 1, edge)) else BitsBetween(words, Max(low, edge), high + 1)
  }

  /** A word of the range, the bits outside masked. */
  ghost predicate Masked(words: seq<bv64>, w: nat, word: bv64, low: nat, high: nat)
    requires |words| == WORDS && w < WORDS
  {
    forall k: nat | k < 64 ::
      Bit(word, k) <==>
      (Bit(words[w], k) && (w == low / 64 ==> low % 64 <= k) && (w == high / 64 ==> k <= high % 64))
  }

  method EdgeWord(words: seq<bv64>, w: nat, low: nat, high: nat) returns (word: bv64)
    requires |words| == WORDS && low <= high < LOWS && low / 64 <= w <= high / 64
    ensures Masked(words, w, word, low, high)
  {
    hide Bit;
    word := words[w];
    if w == low / 64 { word := KeepFrom(word, low % 64); }
    if w == high / 64 { word := KeepUpTo(word, high % 64); }
  }

  lemma MaskedLows(words: seq<bv64>, w: nat, word: bv64, low: nat, high: nat)
    requires |words| == WORDS && low <= high < LOWS && low / 64 <= w <= high / 64 && Masked(words, w, word, low, high)
    ensures WordLows(word, w) == BitsBetween(words, Max(low, 64 * w), Min(high + 1, 64 * (w + 1)))
  {
    hide Bit;
    forall x: nat ensures x in WordLows(word, w) <==> x in BitsBetween(words, Max(low, 64 * w), Min(high + 1, 64 * (w + 1))) {
      if 64 * w <= x < 64 * (w + 1) { PlaceOf(w, x - 64 * w); }
    }
  }

  /** The rest of a range splits at a word boundary. */
  lemma WordOfRest(words: seq<bv64>, w: nat, word: bv64, low: nat, high: nat, descending: bool)
    requires |words| == WORDS && low <= high < LOWS && low / 64 <= w <= high / 64 && Masked(words, w, word, low, high)
    ensures RestOf(words, low, high, NearEdge(w, descending), descending)
         == WordLows(word, w) + RestOf(words, low, high, FarEdge(w, descending), descending)
    ensures Later(w, RestOf(words, low, high, FarEdge(w, descending), descending), descending)
  {
    hide Bit, BitsBetween, WordLows, Masked;
    MaskedLows(words, w, word, low, high);
    WindowCovers(low, high);
    assert 64 * w <= high && low < 64 * (w + 1) <= LOWS;
    RangeCut(words, low, high + 1, 64 * w, 64 * (w + 1));
  }

  /** A range cut at two edges inside it. */
  lemma RangeCut(words: seq<bv64>, low: nat, top: nat, e: nat, f: nat)
    requires |words| == WORDS && top <= LOWS && e < f <= LOWS && low < f && e < top
    ensures BitsBetween(words, Max(low, e), top)
         == BitsBetween(words, Max(low, e), Min(top, f)) + BitsBetween(words, Max(low, f), top)
    ensures BitsBetween(words, low, Min(top, f))
         == BitsBetween(words, Max(low, e), Min(top, f)) + BitsBetween(words, low, Min(top, e))
    ensures forall x :: x in BitsBetween(words, Max(low, f), top) ==> f <= x
    ensures forall x :: x in BitsBetween(words, low, Min(top, e)) ==> x < e
  {
    hide HasBit;
  }

  lemma RestWhole(words: seq<bv64>, low: nat, high: nat, descending: bool)
    requires |words| == WORDS && low <= high < LOWS
    ensures var start, end := if descending then high / 64 else low / 64, if descending then low / 64 else high / 64;
            RestOf(words, low, high, NearEdge(start, descending), descending) == BitsBetween(words, low, high + 1)
            && RestOf(words, low, high, FarEdge(end, descending), descending) == {}
  {
    WindowCovers(low, high);
  }

  /** The listing a page over the bits of a range reads. */
  ghost function BitListing(words: seq<bv64>, low: nat, high: nat, descending: bool): seq<nat>
    requires |words| == WORDS && high < LOWS
  {
    Listing(BitsBetween(words, low, high + 1), descending)
  }

  function WordAt(low: nat, high: nat, step: nat, descending: bool): nat
    requires step <= high / 64 - low / 64
  {
    if descending then high / 64 - step else low / 64 + step
  }

  /** What is left before the step: nothing, past the last word. */
  ghost function FromStep(words: seq<bv64>, low: nat, high: nat, step: nat, descending: bool): set<nat>
    requires |words| == WORDS && low <= high < LOWS
  {
    if step > high / 64 - low / 64 then {}
    else RestOf(words, low, high, NearEdge(WordAt(low, high, step, descending), descending), descending)
  }

  lemma FirstStep(words: seq<bv64>, low: nat, high: nat, descending: bool)
    requires |words| == WORDS && low <= high < LOWS
    ensures FromStep(words, low, high, 0, descending) == BitsBetween(words, low, high + 1)
    ensures FromStep(words, low, high, high / 64 - low / 64 + 1, descending) == {}
  {
    hide BitsBetween;
    RestWhole(words, low, high, descending);
  }

  /** The word of a step, then the following steps. */
  lemma StepSplits(words: seq<bv64>, word: bv64, low: nat, high: nat, step: nat, descending: bool)
    requires |words| == WORDS && low <= high < LOWS && step <= high / 64 - low / 64
    requires Masked(words, WordAt(low, high, step, descending), word, low, high)
    ensures var w, later := WordAt(low, high, step, descending), FromStep(words, low, high, step + 1, descending);
            FromStep(words, low, high, step, descending) == WordLows(word, w) + later && Later(w, later, descending)
  {
    hide BitsBetween, Masked, WordLows, RestOf, Later;
    WordOfRest(words, WordAt(low, high, step, descending), word, low, high, descending);
    RestWhole(words, low, high, descending);
  }

  /**
   * `words_emit`: the window of the listing of the buffer's bits in [low, high], and the skip left
   * behind it.
   */
  method WordsEmit(words: seq<bv64>, low: nat, high: nat, key: nat, skip: nat, size: nat, descending: bool)
    returns (out: seq<nat>, left: nat)
    requires |words| == WORDS && low <= high < LOWS
    ensures out == Window(Raised(key, BitListing(words, low, high, descending)), skip, size)
    ensures size > 0 ==> left == SkipAfter(skip, |BitsBetween(words, low, high + 1)|)
  {
    hide Bit, AtWord, Read, FromStep, Masked, BitsBetween, BitSet, Later, Elements, InOrder;
    var first, last := low / 64, high / 64;
    ghost var q := BitListing(words, low, high, descending);
    ghost var n: nat := 0;
    out, left := [], skip;
    FirstStep(words, low, high, descending);
    ReadNone(Raised(key, q), skip, size);
    assert q[0..] == q;
    var step := 0;
    while step <= last - first && |out| < size
      invariant 0 <= step <= last - first + 1 && n <= |q|
      invariant Read(out, left, Raised(key, q), n, skip, size)
      invariant |out| < size ==> Elements(q[n..]) == FromStep(words, low, high, step, descending)
    {
      var w := if descending then last - step else first + step;
      var word := EdgeWord(words, w, low, high);
      var bits := PopCount(word);
      ghost var later := FromStep(words, low, high, step + 1, descending);
      StepSplits(words, word, low, high, step, descending);
      StandsAtWord(q, n, word, w, later, descending);
      if left >= bits {
        WordPassed(q, n, word, w, later, descending);
        ReadPast(out, left, Raised(key, q), n, bits, skip, size);
        left, n := left - bits, n + bits;
      } else {
        out, n := EmitWord(word, w, key, out, left, size, descending, q, n, skip, later);
        left := 0;
      }
      step := step + 1;
    }
    if |out| < size { NothingLeft(q, n); }
    ReadDone(out, left, Raised(key, q), n, skip, size);
  }

  /** The word the skip ends in, or one after it. */
  method EmitWord(bits: bv64, w: nat, key: nat, had: seq<nat>, skip: nat, size: nat, descending: bool,
                  ghost q: seq<nat>, ghost n: nat, ghost skipped: nat, ghost later: set<nat>)
    returns (out: seq<nat>, ghost m: nat)
    requires AtWord(q, n, bits, w, later, descending) && Read(had, skip, Raised(key, q), n, skipped, size)
    requires skip < |BitSet(bits)|
    ensures Read(out, 0, Raised(key, q), m, skipped, size) && n <= m <= |q|
    ensures |out| >= size || Elements(q[m..]) == later
  {
    hide Bit, AtWord, Read, BitSet;
    var word;
    word, m := SkipBits(bits, skip, descending, q, n, w, later);
    AtWordBounds(q, m, word, w, later, descending);
    ReadPast(had, skip, Raised(key, q), n, skip, skipped, size);
    out, m := WriteBits(word, w, key, had, size, descending, q, m, skipped, later);
  }

  lemma StandsAtWord(q: seq<nat>, n: nat, word: bv64, w: nat, later: set<nat>, descending: bool)
    requires InOrder(q, descending) && n <= |q| && Elements(q[n..]) == WordLows(word, w) + later && Later(w, later, descending)
    ensures AtWord(q, n, word, w, later, descending)
  {
  }
}
