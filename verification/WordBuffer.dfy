// Sequences of 1024 words read as sets of low parts: bit k of word w stands for 64 * w + k.
module WordBuffer {
  import opened Word64
  import opened Order

  const WORDS: nat := 1024
  const LOWS: nat := 65536

  /** Is the bit of low part `x` set? */
  ghost predicate HasBit(ws: seq<bv64>, x: nat)
    requires |ws| == WORDS && x < LOWS
  {
    Bit(ws[x / 64], x % 64)
  }

  /** The low parts in [from, to) whose bit is set. */
  ghost function BitsBetween(ws: seq<bv64>, from: nat, to: nat): set<nat>
    requires |ws| == WORDS && to <= LOWS
  {
    set x: nat | from <= x < to && HasBit(ws, x)
  }

  // ---------- counting ----------

  lemma DisjointSize(a: set<nat>, b: set<nat>, u: set<nat>)
    requires u == a + b && a * b == {}
    ensures |u| == |a| + |b|
  {
  }

  /** Moving every element by the same distance keeps their number. */
  lemma {:induction false} ShiftedSize(s: set<nat>, shift: nat, t: set<nat>)
    requires forall x :: x in t <==> x >= shift && x - shift in s
    ensures |t| == |s|
    decreases |s|
  {
    if s == {} {
      assert t == {};
    } else {
      var x :| x in s;
      assert x + shift in t;
      ShiftedSize(s - {x}, shift, t - {x + shift});
    }
  }

  /** Low part 64 * w + k is bit k of word w, and every low part is one of those. */
  lemma PlaceOf(w: nat, k: nat)
    requires k < 64
    ensures (64 * w + k) / 64 == w && (64 * w + k) % 64 == k
  {
  }

  /** The population count of a word is the size of the stretch of the buffer it spells. */
  lemma WordSpells(ws: seq<bv64>, word: bv64, w: nat, from: nat, to: nat)
    requires |ws| == WORDS && w < WORDS && 64 * w <= from <= to <= 64 * (w + 1)
    requires forall k: nat | k < 64 :: Bit(word, k) <==> Bit(ws[w], k) && from <= 64 * w + k < to
    ensures |BitSet(word)| == |BitsBetween(ws, from, to)|
  {
    hide Bit;
    var s := BitsBetween(ws, from, to);
    forall x ensures x in s <==> x >= 64 * w && x - 64 * w in BitSet(word) {
      if 64 * w <= x < 64 * (w + 1) {
        PlaceOf(w, x - 64 * w);
      }
    }
    ShiftedSize(BitSet(word), 64 * w, s);
  }

  /** A stretch of low parts that ends where another begins. */
  lemma BitsSplit(ws: seq<bv64>, a: nat, b: nat, c: nat)
    requires |ws| == WORDS && a <= b <= c <= LOWS
    ensures BitsBetween(ws, a, c) == BitsBetween(ws, a, b) + BitsBetween(ws, b, c)
    ensures |BitsBetween(ws, a, c)| == |BitsBetween(ws, a, b)| + |BitsBetween(ws, b, c)|
  {
    DisjointSize(BitsBetween(ws, a, b), BitsBetween(ws, b, c), BitsBetween(ws, a, c));
  }

  /** `arnm_popcountll`. */
  method PopCount(w: bv64) returns (n: nat)
    ensures n == |BitSet(w)| && n <= 64
  {
    n := 0;
    var word := w;
    while word != 0
      invariant BitSet(word) <= BitSet(w)
      invariant n + |BitSet(word)| == |BitSet(w)|
      decreases |BitSet(word)|
    {
      var k := Ctz(word);
      var rest := DropLowest(word, k);
      assert BitSet(rest) == BitSet(word) - {k};
      word := rest;
      n := n + 1;
    }
    BitSetOfZero();
    BitSetSize(w);
  }

  lemma BitSetOfZero()
    ensures BitSet(0) == {}
  {
    forall k: nat | k < 64 ensures !Bit(0, k) { BitZero(k); }
  }

  lemma BitSetSize(w: bv64)
    ensures |BitSet(w)| <= 64
  {
    Interval(64);
    SubsetSize(BitSet(w), Below(64));
  }

  ghost function Below(n: nat): set<nat> { set k: nat {:trigger k in Below(n)} | k < n }

  lemma {:induction false} Interval(n: nat)
    ensures |Below(n)| == n
  {
    if n == 0 {
      assert Below(0) == {};
    } else {
      Interval(n - 1);
      assert Below(n) == Below(n - 1) + {n - 1};
    }
  }

  lemma {:induction false} SubsetSize(a: set<nat>, b: set<nat>)
    requires a <= b
    ensures |a| <= |b|
  {
    DisjointSize(a, b - a, b);
  }

  // ---------- one word as a stretch of low parts ----------

  /** The low parts a word spells where word `w` of a buffer stands. */
  ghost function WordLows(word: bv64, w: nat): set<nat> {
    set x: nat | x < 64 * w + 64 && InWord(word, w, x)
  }

  ghost predicate InWord(word: bv64, w: nat, x: nat) { 64 * w <= x < 64 * w + 64 && Bit(word, x - 64 * w) }

  lemma WordLowsOf(ws: seq<bv64>, w: nat)
    requires |ws| == WORDS && w < WORDS
    ensures WordLows(ws[w], w) == BitsBetween(ws, 64 * w, 64 * (w + 1))
  {
    hide Bit;
    forall x: nat | 64 * w <= x < 64 * (w + 1) ensures Bit(ws[w], x - 64 * w) <==> HasBit(ws, x) {
      PlaceOf(w, x - 64 * w);
    }
  }

  lemma WordLowsSize(word: bv64, w: nat)
    ensures |WordLows(word, w)| == |BitSet(word)|
  {
    hide Bit;
    ShiftedSize(BitSet(word), 64 * w, WordLows(word, w));
  }

  lemma WordLowsWithout(word: bv64, rest: bv64, w: nat, k: nat)
    requires k < 64 && forall j: nat | j < 64 :: Bit(rest, j) <==> Bit(word, j) && j != k
    ensures WordLows(rest, w) == WordLows(word, w) - {64 * w + k}
  {
  }

  lemma WordLowsOfZero(word: bv64, w: nat)
    ensures word == 0 <==> WordLows(word, w) == {}
  {
    if word == 0 {
      forall k: nat | k < 64 ensures !Bit(word, k) { BitZero(k); }
    } else if WordLows(word, w) == {} {
      forall k: nat | k < 64 ensures !Bit(word, k) { assert 64 * w + k !in WordLows(word, w); }
      NoBitIsZero(word);
    }
  }

  // ---------- reading a range ----------

  /** `arnm_roaring_words_cardinality`: the size of `BitsBetween(words, low, high + 1)`. */
  method WordsCardinality(words: seq<bv64>, low: nat, high: nat) returns (count: nat)
    requires |words| == WORDS && low <= high < LOWS
    ensures count == |BitsBetween(words, low, high + 1)|
  {
    hide Bit, HasBit, BitsBetween, BitSet;
    var first, last := low / 64, high / 64;
    var edge := KeepFrom(words[first], low % 64);
    if first == last {
      edge := KeepUpTo(edge, high % 64);
      count := PopCount(edge);
      WordSpells(words, edge, first, low, high + 1);
      return;
    }
    count := PopCount(edge);
    WordSpells(words, edge, first, low, 64 * (first + 1));
    var w := first + 1;
    while w < last
      invariant first < w <= last
      invariant count == |BitsBetween(words, low, 64 * w)|
    {
      var bits := PopCount(words[w]);
      WordSpells(words, words[w], w, 64 * w, 64 * (w + 1));
      BitsSplit(words, low, 64 * w, 64 * (w + 1));
      count := count + bits;
      w := w + 1;
    }
    edge := KeepUpTo(words[last], high % 64);
    var bits := PopCount(edge);
    WordSpells(words, edge, last, 64 * last, high + 1);
    BitsSplit(words, low, 64 * last, high + 1);
    count := count + bits;
  }

  lemma NoBits(ws: seq<bv64>, a: nat)
    requires |ws| == WORDS && a <= LOWS
    ensures BitsBetween(ws, a, a) == {}
  {
  }

  lemma SameBits(v: seq<bv64>, a: nat, b: nat, w: seq<bv64>, c: nat, d: nat)
    requires |v| == |w| == WORDS && a <= c && d <= b <= LOWS
    requires forall x: nat :: a <= x < b ==> (HasBit(v, x) <==> c <= x < d && HasBit(w, x))
    ensures BitsBetween(v, a, b) == BitsBetween(w, c, d)
  {
  }

  lemma Clipped(was: seq<bv64>, kept: seq<bv64>, low: nat, high: nat, x: nat)
    requires |was| == |kept| == WORDS && low <= high < LOWS
    requires 64 * (low / 64) <= x < 64 * (high / 64 + 1)
    requires forall w: nat, k: nat | low / 64 <= w <= high / 64 && k < 64 ::
               Bit(kept[w], k) <==>
               (Bit(was[w], k) && (w == low / 64 ==> low % 64 <= k) && (w == high / 64 ==> k <= high % 64))
    ensures HasBit(kept, x) <==> low <= x <= high && HasBit(was, x)
  {
    hide Bit;
    PlaceOf(x / 64, x % 64);
  }

  /** The set bits of words [first, last]. */
  method CountWords(words: array<bv64>, first: nat, last: nat) returns (count: nat)
    requires words.Length == WORDS && first <= last < WORDS
    ensures count == |BitsBetween(words[..], 64 * first, 64 * (last + 1))|
  {
    hide Bit, HasBit, BitsBetween, BitSet;
    ghost var kept := words[..];
    count := 0;
    NoBits(kept, 64 * first);
    var w := first;
    while w <= last
      invariant first <= w <= last + 1
      invariant count == |BitsBetween(kept, 64 * first, 64 * w)|
    {
      var bits := PopCount(words[w]);
      WordSpells(kept, kept[w], w, 64 * w, 64 * (w + 1));
      BitsSplit(kept, 64 * first, 64 * w, 64 * (w + 1));
      count := count + bits;
      w := w + 1;
    }
  }

  /**
   * `arnm_roaring_clip_and_count`: in the words the range touches only its own bits survive; their
   * number is returned.
   */
  method ClipAndCount(words: array<bv64>, low: nat, high: nat) returns (count: nat)
    requires words.Length == WORDS && low <= high < LOWS
    modifies words
    ensures forall x: nat :: 64 * (low / 64) <= x < 64 * (high / 64 + 1) ==>
              (HasBit(words[..], x) <==> low <= x <= high && old(HasBit(words[..], x)))
    ensures count == |BitsBetween(old(words[..]), low, high + 1)|
    ensures BitsBetween(words[..], 64 * (low / 64), 64 * (high / 64 + 1))
         == BitsBetween(old(words[..]), low, high + 1)
  {
    hide Bit, HasBit, BitsBetween, BitSet;
    var first, last := low / 64, high / 64;
    ghost var was := words[..];
    var edge := KeepFrom(words[first], low % 64);
    words[first] := edge;
    edge := KeepUpTo(words[last], high % 64);
    words[last] := edge;
    ghost var kept := words[..];
    forall x: nat | 64 * first <= x < 64 * (last + 1)
      ensures HasBit(kept, x) <==> low <= x <= high && HasBit(was, x)
    {
      Clipped(was, kept, low, high, x);
    }
    assert BitsBetween(kept, 64 * first, 64 * (last + 1)) == BitsBetween(was, low, high + 1) by {
      SameBits(kept, 64 * first, 64 * (last + 1), was, low, high + 1);
    }
    count := CountWords(words, first, last);
  }

  // ---------- reading the bits out ----------

  /** A word's lowest bit is the next low part of an ascending walk. */
  lemma LowestIsNext(q: seq<nat>, n: nat, word: bv64, w: nat, k: nat, later: set<nat>)
    requires InOrder(q, false) && n <= |q| && Elements(q[n..]) == WordLows(word, w) + later
    requires forall x :: x in later ==> 64 * (w + 1) <= x
    requires k < 64 && Bit(word, k) && forall j: nat | j < k :: !Bit(word, j)
    ensures n < |q| && q[n] == 64 * w + k
    ensures Elements(q[n + 1..]) == Elements(q[n..]) - {64 * w + k}
  {
    hide Bit;
    var x := 64 * w + k;
    assert InWord(word, w, x);
    assert x in Elements(q[n..]);
    forall y | y in q[n..] && y != x ensures Before(x, y, false) {
      assert y in Elements(q[n..]);
      if y !in later {
        assert InWord(word, w, y);
        assert y - 64 * w >= k;
      }
    }
    NextOfListing(q, n, x, false);
  }

  /** Once it is read, the walk has the rest of the word left, and what comes later. */
  lemma LowestTaken(q: seq<nat>, n: nat, word: bv64, rest: bv64, w: nat, k: nat, later: set<nat>)
    requires InOrder(q, false) && n <= |q| && Elements(q[n..]) == WordLows(word, w) + later
    requires forall x :: x in later ==> 64 * (w + 1) <= x
    requires k < 64 && Bit(word, k) && forall j: nat | j < k :: !Bit(word, j)
    requires forall j: nat | j < 64 :: Bit(rest, j) <==> Bit(word, j) && j != k
    ensures n < |q| && q[..n] + [64 * w + k] == q[..n + 1]
    ensures Elements(q[n + 1..]) == WordLows(rest, w) + later
  {
    hide Bit, WordLows, Elements, InOrder;
    LowestIsNext(q, n, word, w, k, later);
    WordLowsWithout(word, rest, w, k);
    assert 64 * w + k !in later;
  }

  /** The bits of one word, lowest first, appended to what was read before. */
  method ReadWord(bits: bv64, w: nat, read: seq<nat>, ghost q: seq<nat>, ghost later: set<nat>) returns (lows: seq<nat>)
    requires InOrder(q, false) && |read| <= |q| && read == q[..|read|]
    requires Elements(q[|read|..]) == WordLows(bits, w) + later
    requires forall x :: x in later ==> 64 * (w + 1) <= x
    ensures |lows| <= |q| && lows == q[..|lows|] && Elements(q[|lows|..]) == later
  {
    hide Bit, WordLows, Elements, InOrder;
    lows := read;
    var word := bits;
    while word != 0
      invariant |lows| <= |q| && lows == q[..|lows|]
      invariant Elements(q[|lows|..]) == WordLows(word, w) + later
      decreases |q| - |lows|
    {
      var k := Ctz(word);
      var rest := DropLowest(word, k);
      LowestTaken(q, |lows|, word, rest, w, k, later);
      lows := lows + [64 * w + k];
      word := rest;
    }
    WordLowsOfZero(word, w);
  }

  /** The bits of words [first, last], in order. */
  method ReadBits(words: array<bv64>, first: nat, last: nat) returns (lows: seq<nat>)
    requires words.Length == WORDS && first <= last < WORDS
    ensures lows == Listing(BitsBetween(words[..], 64 * first, 64 * (last + 1)), false)
  {
    hide Bit, HasBit, WordLows, BitsBetween, Elements, InOrder;
    ghost var ws, to := words[..], 64 * (last + 1);
    ghost var q := Listing(BitsBetween(ws, 64 * first, to), false);
    lows := [];
    var w := first;
    while w <= last
      invariant first <= w <= last + 1
      invariant |lows| <= |q| && lows == q[..|lows|]
      invariant Elements(q[|lows|..]) == BitsBetween(ws, 64 * w, to)
    {
      BitsSplit(ws, 64 * w, 64 * (w + 1), to);
      WordLowsOf(ws, w);
      BitsBounded(ws, 64 * (w + 1), to);
      lows := ReadWord(words[w], w, lows, q, BitsBetween(ws, 64 * (w + 1), to));
      w := w + 1;
    }
    NoBits(ws, to);
    NothingLeft(q, |lows|);
  }

  lemma BitsBounded(ws: seq<bv64>, from: nat, to: nat)
    requires |ws| == WORDS && to <= LOWS
    ensures forall x :: x in BitsBetween(ws, from, to) ==> from <= x < to
  {
  }

  /** Words [first, last] on a ground of zeros. */
  function OnZeros(ws: seq<bv64>, first: nat, last: nat): (r: seq<bv64>)
    requires |ws| == WORDS
    ensures |r| == WORDS
  {
    seq(WORDS, i requires 0 <= i < WORDS => if first <= i <= last then ws[i] else 0)
  }

  lemma OnZerosBits(ws: seq<bv64>, first: nat, last: nat)
    requires |ws| == WORDS && first <= last < WORDS
    ensures BitsBetween(OnZeros(ws, first, last), 0, LOWS) == BitsBetween(ws, 64 * first, 64 * (last + 1))
  {
    var r := OnZeros(ws, first, last);
    forall x: nat | x < LOWS ensures HasBit(r, x) <==> 64 * first <= x < 64 * (last + 1) && HasBit(ws, x) {
      if !(first <= x / 64 <= last) { BitZero(x % 64); }
    }
    hide HasBit;
    assert BitsBetween(r, 0, LOWS) == BitsBetween(ws, 64 * first, 64 * (last + 1));
  }

  ghost predicate IsTop(s: set<nat>, top: nat) { top in s && forall x :: x in s ==> x <= top }

  /** The largest low part of words [first, last]. */
  method TopOf(words: array<bv64>, first: nat, last: nat) returns (top: nat)
    requires words.Length == WORDS && first <= last < WORDS
    requires BitsBetween(words[..], 64 * first, 64 * (last + 1)) != {}
    ensures IsTop(BitsBetween(words[..], 64 * first, 64 * (last + 1)), top)
  {
    hide Bit, HasBit, WordLows, BitsBetween;
    ghost var ws := words[..];
    ghost var s := BitsBetween(ws, 64 * first, 64 * (last + 1));
    var w := last;
    while words[w] == 0
      invariant first <= w <= last
      invariant BitsBetween(ws, 64 * first, 64 * (w + 1)) == s
      decreases w
    {
      BitsSplit(ws, 64 * first, 64 * w, 64 * (w + 1));
      WordLowsOf(ws, w);
      WordLowsOfZero(ws[w], w);
      NoBits(ws, 64 * first);
      w := w - 1;
    }
    var k := Top(words[w]);
    top := 64 * w + k;
    BitsSplit(ws, 64 * first, 64 * w, 64 * (w + 1));
    WordLowsOf(ws, w);
    BitsBounded(ws, 64 * first, 64 * w);
    TopOfWord(ws[w], w, k);
  }

  lemma TopOfWord(word: bv64, w: nat, k: nat)
    requires k < 64 && Bit(word, k) && forall j: nat | k < j < 64 :: !Bit(word, j)
    ensures 64 * w + k in WordLows(word, w) && forall x :: x in WordLows(word, w) ==> x <= 64 * w + k
  {
    hide Bit;
    assert InWord(word, w, 64 * w + k);
    forall x | x in WordLows(word, w) ensures x <= 64 * w + k {
      assert InWord(word, w, x);
    }
  }

  // ---------- writing bits ----------

  /** `memset(words + first, 0, ...)` */
  method Zero(words: array<bv64>, first: nat, last: nat)
    requires words.Length == WORDS && first <= last < WORDS
    modifies words
    ensures forall x: nat :: 64 * first <= x < 64 * (last + 1) ==> !HasBit(words[..], x)
  {
    var w := first;
    while w <= last
      invariant first <= w <= last + 1
      invariant forall v :: first <= v < w ==> words[v] == 0
    {
      words[w] := 0;
      w := w + 1;
    }
    forall x: nat | 64 * first <= x < 64 * (last + 1) ensures !HasBit(words[..], x) {
      BitZero(x % 64);
    }
  }

  /** One word changed at one place: the bits of the others stay. */
  lemma BitChanged(was: seq<bv64>, word: bv64, low: nat, on: bool, x: nat)
    requires |was| == WORDS && low < LOWS && x < LOWS
    requires forall k: nat | k < 64 :: Bit(word, k) <==> if k == low % 64 then on else Bit(was[low / 64], k)
    ensures HasBit(was[low / 64 := word], x) <==> if x == low then on else HasBit(was, x)
  {
    hide Bit;
    assert x == 64 * (x / 64) + x % 64 && low == 64 * (low / 64) + low % 64;
  }

  /** `low` joins the set a buffer spells. */
  method SetLow(words: array<bv64>, low: nat)
    requires words.Length == WORDS && low < LOWS
    modifies words
    ensures forall x: nat :: x < LOWS ==> (HasBit(words[..], x) <==> x == low || old(HasBit(words[..], x)))
  {
    hide HasBit, Bit;
    ghost var was := words[..];
    var word := SetBit(words[low / 64], low % 64);
    words[low / 64] := word;
    assert words[..] == was[low / 64 := word];
    forall x: nat | x < LOWS ensures HasBit(words[..], x) <==> x == low || HasBit(was, x) {
      BitChanged(was, word, low, true, x);
    }
  }

  /** `low` leaves it. */
  method ClearLow(words: array<bv64>, low: nat)
    requires words.Length == WORDS && low < LOWS
    modifies words
    ensures forall x: nat :: x < LOWS ==> (HasBit(words[..], x) <==> x != low && old(HasBit(words[..], x)))
  {
    hide HasBit, Bit;
    ghost var was := words[..];
    var word := ClearBit(words[low / 64], low % 64);
    words[low / 64] := word;
    assert words[..] == was[low / 64 := word];
    forall x: nat | x < LOWS ensures HasBit(words[..], x) <==> x != low && HasBit(was, x) {
      BitChanged(was, word, low, false, x);
    }
  }

  /** Sets the bits of the low parts, one by one. */
  method SetLows(words: array<bv64>, lows: seq<nat>)
    requires words.Length == WORDS && forall x :: x in lows ==> x < LOWS
    modifies words
    ensures forall x: nat :: x < LOWS ==> (HasBit(words[..], x) <==> x in lows || old(HasBit(words[..], x)))
  {
    hide HasBit;
    var i := 0;
    while i < |lows|
      invariant 0 <= i <= |lows|
      invariant forall x: nat :: x < LOWS ==> (HasBit(words[..], x) <==> x in lows[..i] || old(HasBit(words[..], x)))
    {
      assert lows[..i + 1] == lows[..i] + [lows[i]] && lows[i] in lows;
      SetLow(words, lows[i]);
      i := i + 1;
    }
    assert lows[..i] == lows;
  }

  /** Clears the bits of the low parts, one by one. */
  method ClearLows(words: array<bv64>, lows: seq<nat>)
    requires words.Length == WORDS && forall x :: x in lows ==> x < LOWS
    modifies words
    ensures forall x: nat :: x < LOWS ==> (HasBit(words[..], x) <==> x !in lows && old(HasBit(words[..], x)))
  {
    hide HasBit;
    var i := 0;
    while i < |lows|
      invariant 0 <= i <= |lows|
      invariant forall x: nat :: x < LOWS ==> (HasBit(words[..], x) <==> x !in lows[..i] && old(HasBit(words[..], x)))
    {
      assert lows[..i + 1] == lows[..i] + [lows[i]] && lows[i] in lows;
      ClearLow(words, lows[i]);
      i := i + 1;
    }
    assert lows[..i] == lows;
  }
}
