// A page read out of one key several sets share: one cursor per container, or a slice, or bits.
module Cursors {
  import opened Word64
  import opened Order
  import opened WordBuffer
  import opened Containers
  import opened Kernels
  import opened Merging
  import opened KeyBits
  import opened KeyUnion

  // ---------- a slice read from either end ----------

  ghost function Reversed(q: seq<nat>): (r: seq<nat>)
    ensures |r| == |q|
  {
    seq(|q|, i requires 0 <= i < |q| => q[|q| - 1 - i])
  }

  /** A sorted sequence is its own listing, read from the end for the other direction. */
  lemma SortedListing(q: seq<nat>, descending: bool)
    requires Ascending(q)
    ensures Listing(Elements(q), descending) == if descending then Reversed(q) else q
  {
    if descending {
      var r := Reversed(q);
      forall x ensures x in Elements(r) <==> x in Elements(q) {
        if x in q {
          var i :| 0 <= i < |q| && q[i] == x;
          assert r[|q| - 1 - i] == x;
        }
      }
      ListingIs(r, Elements(q), true);
    } else {
      ListingIs(q, Elements(q), false);
    }
  }

  lemma SliceEntries(values: seq<nat>, begin: nat, end: nat, descending: bool)
    requires Ascending(values) && begin <= end <= |values|
    ensures |Listing(Elements(values[begin..end]), descending)| == end - begin
  {
    SortedListing(values[begin..end], descending);
  }

  lemma SliceEntry(values: seq<nat>, begin: nat, end: nat, k: nat, descending: bool)
    requires Ascending(values) && begin <= end <= |values| && k < end - begin
    requires |Listing(Elements(values[begin..end]), descending)| == end - begin
    ensures Listing(Elements(values[begin..end]), descending)[k] == values[if descending then end - 1 - k else begin + k]
  {
    hide Elements, Listing;
    SortedListing(values[begin..end], descending);
  }

  /** Entries written one by one from the skip on are the window. */
  lemma FilledWindow(q: seq<nat>, skip: nat, size: nat, out: seq<nat>)
    requires |out| == Min(size, |q| - Min(skip, |q|)) && forall k :: 0 <= k < |out| ==> out[k] == q[skip + k]
    ensures out == Window(q, skip, size)
  {
  }

  /** The window of a sorted slice's listing, and the skip it leaves for what follows. */
  method TakeSlice(values: seq<nat>, begin: nat, end: nat, skip: nat, size: nat, descending: bool)
    returns (out: seq<nat>, left: nat)
    requires Ascending(values) && begin <= end <= |values|
    ensures out == Window(Listing(Elements(values[begin..end]), descending), skip, size)
    ensures left == SkipAfter(skip, end - begin)
  {
    hide Elements, Listing, Ascending, Window;
    ghost var q := Listing(Elements(values[begin..end]), descending);
    SliceEntries(values, begin, end, descending);
    var available := end - begin;
    if skip >= available {
      FilledWindow(q, skip, size, []);
      return [], skip - available;
    }
    var take := if available - skip < size then available - skip else size;
    out := [];
    var i := 0;
    while i < take
      invariant 0 <= i <= take && |out| == i && forall k :: 0 <= k < i ==> out[k] == q[skip + k]
    {
      SliceEntry(values, begin, end, skip + i, descending);
      out := out + [values[if descending then end - 1 - skip - i else begin + skip + i]];
      i := i + 1;
    }
    left := 0;
    FilledWindow(q, skip, size, out);
  }

  lemma RaisedWindow(key: nat, q: seq<nat>, skip: nat, size: nat)
    ensures Raised(key, Window(q, skip, size)) == Window(Raised(key, q), skip, size)
  {
  }

  // ---------- cursors ----------

  /** A reader of one container: `Todo` is what it has left, and `value` the first of it. */
  datatype Cursor = Cursor(
    part: Container,
    index: nat,
    stop: nat,
    wordIndex: nat,
    word: bv64,
    value: nat,
    live: bool
  )

  /** The slice an array's cursor has left. */
  ghost function SliceLeft(c: Cursor, descending: bool): Span
    requires !c.part.data.Bits?
  {
    if descending then Span(LowsOf(c.part), c.stop, c.index) else Span(LowsOf(c.part), c.index, c.stop)
  }

  /** The bits a bitmap's cursor has left. */
  ghost function BitsLeft(c: Cursor, low: nat, high: nat, descending: bool): set<nat>
    requires c.part.data.Bits? && |c.part.data.words| == WORDS && high < LOWS
  {
    WordLows(c.word, c.wordIndex) + RestOf(c.part.data.words, low, high, FarEdge(c.wordIndex, descending), descending)
  }

  /** What a cursor has still to read. */
  ghost function Todo(c: Cursor, low: nat, high: nat, descending: bool): set<nat> {
    if !c.live then {}
    else if !c.part.data.Bits? then SpanSet(SliceLeft(c, descending))
    else if |c.part.data.words| == WORDS && high < LOWS then BitsLeft(c, low, high, descending)
    else {}
  }

  /** A live cursor stands on the first value it has left. */
  ghost predicate OnValue(c: Cursor, low: nat, high: nat, descending: bool) {
    Sound(c.part) && low <= high < LOWS
    && (c.live ==>
          FirstOf(c.value, Todo(c, low, high, descending), descending)
          && (if c.part.data.Bits? then
                low / 64 <= c.wordIndex <= high / 64 && c.wordIndex == c.value / 64
                && Later(c.wordIndex, RestOf(c.part.data.words, low, high, FarEdge(c.wordIndex, descending), descending), descending)
              else
                Open(SliceLeft(c, descending)) && c.value == Head(SliceLeft(c, descending), descending)))
  }

  /** The near bit of the word is the first of what a bitmap has left. */
  lemma NearBitFirst(word: bv64, w: nat, k: nat, later: set<nat>, descending: bool)
    requires k < 64 && Bit(word, k) && forall j: nat | j < 64 && Before(j, k, descending) :: !Bit(word, j)
    requires Later(w, later, descending)
    ensures FirstOf(64 * w + k, WordLows(word, w) + later, descending) && (64 * w + k) / 64 == w
  {
    hide Bit;
    assert InWord(word, w, 64 * w + k);
    forall y | y in WordLows(word, w) && y != 64 * w + k ensures Before(64 * w + k, y, descending) {
      assert InWord(word, w, y);
      assert !Before(y - 64 * w, k, descending);
    }
  }

  /**
   * `cursor_seek_word`: `Todo` stays, and the cursor is dead if and only if it is empty; otherwise
   * `word` is not zero.
   */
  method SeekWord(c: Cursor, low: nat, high: nat, descending: bool) returns (t: Cursor)
    requires Sound(c.part) && c.part.data.Bits? && c.live && low <= high < LOWS && low / 64 <= c.wordIndex <= high / 64
    requires Later(c.wordIndex, RestOf(c.part.data.words, low, high, FarEdge(c.wordIndex, descending), descending), descending)
    ensures OnValue(t, low, high, descending) && t.part == c.part
    ensures Todo(t, low, high, descending) == BitsLeft(c, low, high, descending)
  {
    hide Bit, BitsBetween, RestOf, WordLows, Later, Masked, NearEdge, FarEdge, FirstOf;
    var words := c.part.data.words;
    var first, last := low / 64, high / 64;
    t := c;
    while true
      invariant t.part == c.part && t.live && first <= t.wordIndex <= last
      invariant BitsLeft(t, low, high, descending) == BitsLeft(c, low, high, descending)
      invariant Later(t.wordIndex, RestOf(words, low, high, FarEdge(t.wordIndex, descending), descending), descending)
      decreases if descending then t.wordIndex - first else last - t.wordIndex
    {
      ghost var later := RestOf(words, low, high, FarEdge(t.wordIndex, descending), descending);
      if t.word != 0 {
        var k := NearBit(t.word, descending);
        NearBitFirst(t.word, t.wordIndex, k, later, descending);
        t := t.(value := 64 * t.wordIndex + k);
        return;
      }
      WordLowsOfZero(t.word, t.wordIndex);
      if t.wordIndex == (if descending then first else last) {
        RestWhole(words, low, high, descending);
        t := t.(live := false);
        return;
      }
      var w := if descending then t.wordIndex - 1 else t.wordIndex + 1;
      assert FarEdge(t.wordIndex, descending) == NearEdge(w, descending) by { EdgesMeet(t.wordIndex, w, descending); }
      var word := EdgeWord(words, w, low, high);
      WordOfRest(words, w, word, low, high, descending);
      t := t.(wordIndex := w, word := word);
    }
  }

  lemma EdgesMeet(w: nat, next: nat, descending: bool)
    requires if descending then w == next + 1 else next == w + 1
    ensures FarEdge(w, descending) == NearEdge(next, descending)
  {
  }

  /** `cursor_begin`: on the first value the part has inside the range, if any. */
  method BeginCursor(part: Container, low: nat, high: nat, descending: bool) returns (c: Cursor)
    requires Sound(part) && low <= high < LOWS
    ensures OnValue(c, low, high, descending) && Todo(c, low, high, descending) == Part(part, low, high)
  {
    hide Bit, BitsBetween, RestOf, WordLows, Later, Masked, FirstOf, LowsOf, Elements, Ascending, Part, NearEdge, FarEdge;
    if part.data.Bits? {
      var w := if descending then high / 64 else low / 64;
      var word := EdgeWord(part.data.words, w, low, high);
      WindowCovers(low, high);
      WordOfRest(part.data.words, w, word, low, high, descending);
      RestWhole(part.data.words, low, high, descending);
      c := Cursor(part, 0, 0, w, word, 0, true);
      c := SeekWord(c, low, high, descending);
      BitmapRange(part, low, high);
      return;
    }
    var begin, end := SliceOf(part, low, high);
    SliceSpan(part, begin, end, low, high);
    c := Cursor(part, if descending then end else begin, if descending then begin else end, 0, 0, 0, false);
    if begin != end {
      var at := if descending then end - 1 else begin;
      c := c.(live := true, value := LowsOf(part)[at]);
      HeadMoves(SliceLeft(c, descending), descending);
    } else {
      ReadOut(SliceLeft(c, descending));
    }
  }

  lemma BitmapRange(part: Container, low: nat, high: nat)
    requires Sound(part) && part.data.Bits? && low <= high < LOWS
    ensures Part(part, low, high) == BitsBetween(part.data.words, low, high + 1)
  {
  }

  /** `cursor_next` */
  method NextCursor(c: Cursor, low: nat, high: nat, descending: bool) returns (t: Cursor)
    requires OnValue(c, low, high, descending) && c.live
    ensures OnValue(t, low, high, descending)
    ensures Todo(t, low, high, descending) == Todo(c, low, high, descending) - {c.value}
  {
    hide Bit, BitsBetween, RestOf, WordLows, Masked, LowsOf, Elements, Ascending, NearEdge, FarEdge, Sound, SpanSet;
    if c.part.data.Bits? {
      BitmapWords(c.part);
      ghost var later := RestOf(c.part.data.words, low, high, FarEdge(c.wordIndex, descending), descending);
      var rest := ClearBit(c.word, c.value % 64);
      ValueCleared(c.word, rest, c.wordIndex, c.value, later, descending);
      hide FirstOf, Later;
      t := SeekWord(c.(word := rest), low, high, descending);
      return;
    }
    HeadMoves(SliceLeft(c, descending), descending);
    t := c.(index := if descending then c.index - 1 else c.index + 1);
    assert SliceLeft(t, descending) == Moved(SliceLeft(c, descending), descending);
    if t.index == t.stop {
      ReadOut(SliceLeft(t, descending));
      t := t.(live := false);
    } else {
      var at := if descending then t.index - 1 else t.index;
      t := t.(value := LowsOf(t.part)[at]);
      HeadMoves(SliceLeft(t, descending), descending);
    }
  }

  lemma BitmapWords(part: Container)
    requires Sound(part) && part.data.Bits?
    ensures |part.data.words| == WORDS
  {
  }

  lemma ValueCleared(word: bv64, rest: bv64, w: nat, value: nat, later: set<nat>, descending: bool)
    requires value / 64 == w && FirstOf(value, WordLows(word, w) + later, descending) && Later(w, later, descending)
    requires forall j: nat | j < 64 :: Bit(rest, j) <==> Bit(word, j) && j != value % 64
    ensures WordLows(rest, w) + later == WordLows(word, w) + later - {value}
  {
    hide Bit;
    assert value == 64 * w + value % 64;
    assert value !in later;
    WordLowsWithout(word, rest, w, value % 64);
  }

  // ---------- several cursors merged ----------

  ghost predicate AllLive(cursors: seq<Cursor>, low: nat, high: nat, descending: bool) {
    forall i :: 0 <= i < |cursors| ==> cursors[i].live && OnValue(cursors[i], low, high, descending)
  }

  ghost function Todos(cursors: seq<Cursor>, low: nat, high: nat, descending: bool): (r: seq<set<nat>>)
    ensures |r| == |cursors|
  {
    seq(|cursors|, i requires 0 <= i < |cursors| => Todo(cursors[i], low, high, descending))
  }

  function CursorValues(cursors: seq<Cursor>): (h: seq<nat>)
    ensures |h| == |cursors| && forall i :: 0 <= i < |h| ==> h[i] == cursors[i].value
  {
    seq(|cursors|, i requires 0 <= i < |cursors| => cursors[i].value)
  }

  /** A cursor on every part that has something inside the range. */
  method BeginCursors(parts: seq<Container>, ghost key: nat, low: nat, high: nat, descending: bool) returns (cursors: seq<Cursor>)
    requires OfKey(parts, key) && low <= high < LOWS
    ensures AllLive(cursors, low, high, descending)
    ensures All(Todos(cursors, low, high, descending)) == UnionLows(parts, low, high)
  {
    hide OnValue, Todo, All, InAny, Sound, Has;
    cursors := [];
    NoParts([]);
    var p := 0;
    InWhole(parts);
    assert UnionLows(parts[..0], low, high) == {};
    while p < |parts|
      invariant 0 <= p <= |parts| && AllLive(cursors, low, high, descending)
      invariant All(Todos(cursors, low, high, descending)) == UnionLows(parts[..p], low, high)
    {
      var c := BeginCursor(parts[p], low, high, descending);
      UnionNext(parts, p, low, high);
      if c.live {
        AllAppended(Todos(cursors, low, high, descending), Todo(c, low, high, descending));
        assert Todos(cursors + [c], low, high, descending) == Todos(cursors, low, high, descending) + [Todo(c, low, high, descending)];
        cursors := cursors + [c];
      } else {
        DeadCursor(c, low, high, descending);
      }
      p := p + 1;
    }
  }

  lemma DeadCursor(c: Cursor, low: nat, high: nat, descending: bool)
    requires !c.live
    ensures Todo(c, low, high, descending) == {}
  {
  }

  lemma UnionNext(parts: seq<Container>, p: nat, low: nat, high: nat)
    requires p < |parts|
    ensures UnionLows(parts[..p + 1], low, high) == UnionLows(parts[..p], low, high) + Part(parts[p], low, high)
  {
    hide Has, InAny;
    forall x { InAnyNext(parts, p, x); }
  }

  lemma LiveFirst(c: Cursor, low: nat, high: nat, descending: bool)
    requires c.live && OnValue(c, low, high, descending)
    ensures FirstOf(c.value, Todo(c, low, high, descending), descending)
  {
  }

  /** The value the merge reads next. */
  method PickCursor(cursors: seq<Cursor>, low: nat, high: nat, descending: bool) returns (pick: nat)
    requires AllLive(cursors, low, high, descending) && |cursors| > 0
    ensures FirstOf(pick, All(Todos(cursors, low, high, descending)), descending)
  {
    hide OnValue, Todo, All, FirstOf, Before;
    pick := Nearest(CursorValues(cursors), descending);
    forall i | 0 <= i < |cursors|
      ensures FirstOf(CursorValues(cursors)[i], Todos(cursors, low, high, descending)[i], descending)
    {
      LiveFirst(cursors[i], low, high, descending);
    }
    PickFirst(Todos(cursors, low, high, descending), CursorValues(cursors), pick, descending);
  }

  lemma CursorReplaced(cursors: seq<Cursor>, i: nat, t: Cursor, low: nat, high: nat, descending: bool)
    requires i < |cursors| && cursors[i].value in Todo(cursors[i], low, high, descending)
    requires Todo(t, low, high, descending) == Todo(cursors[i], low, high, descending) - {cursors[i].value}
    ensures All(Todos(cursors[i := t], low, high, descending)) + {cursors[i].value} == All(Todos(cursors, low, high, descending))
  {
    hide Todo;
    var sets := Todos(cursors, low, high, descending);
    AllMoved(sets, i, cursors[i].value);
    assert Todos(cursors[i := t], low, high, descending) == sets[i := Todo(t, low, high, descending)];
  }

  lemma CursorDropped(cursors: seq<Cursor>, i: nat, low: nat, high: nat, descending: bool)
    requires i < |cursors| && Todo(cursors[i], low, high, descending) == {}
    ensures All(Todos(SwapRemoved(cursors, i), low, high, descending)) == All(Todos(cursors, low, high, descending))
  {
    hide Todo;
    var sets := Todos(cursors, low, high, descending);
    AllSwapRemoved(sets, i);
    assert Todos(SwapRemoved(cursors, i), low, high, descending) == SwapRemoved(sets, i);
  }

  /** The picked value leaves the union of the `Todo` sets, and no cursor with an empty one remains. */
  method StepCursors(cursors: seq<Cursor>, pick: nat, low: nat, high: nat, descending: bool) returns (r: seq<Cursor>)
    requires AllLive(cursors, low, high, descending)
    requires FirstOf(pick, All(Todos(cursors, low, high, descending)), descending)
    ensures AllLive(r, low, high, descending) && |r| <= |cursors|
    ensures All(Todos(r, low, high, descending)) == All(Todos(cursors, low, high, descending)) - {pick}
  {
    hide OnValue, Todo, All, Before;
    ghost var was := All(Todos(cursors, low, high, descending));
    r := cursors;
    var i := 0;
    while i < |r|
      invariant 0 <= i <= |r| <= |cursors| && AllLive(r, low, high, descending)
      invariant All(Todos(r, low, high, descending)) + {pick} == was
      invariant forall j :: 0 <= j < i ==> pick !in Todo(r[j], low, high, descending)
      decreases |r| - i
    {
      LiveFirst(r[i], low, high, descending);
      PartWithin(Todos(r, low, high, descending), i);
      PickOnlyFirst(Todos(r, low, high, descending), i, r[i].value, pick, descending);
      if r[i].value == pick {
        var t := NextCursor(r[i], low, high, descending);
        CursorReplaced(r, i, t, low, high, descending);
        if !t.live {
          DeadCursor(t, low, high, descending);
          CursorDropped(r[i := t], i, low, high, descending);
          assert SwapRemoved(r[i := t], i) == SwapRemoved(r, i);
          r := SwapRemoved(r, i);
          continue;
        }
        r := r[i := t];
      }
      i := i + 1;
    }
    AllWithout(Todos(r, low, high, descending), was, pick);
  }

  lemma PickIsNext(q: seq<nat>, n: nat, s: set<nat>, pick: nat, descending: bool)
    requires InOrder(q, descending) && n <= |q| && Elements(q[n..]) == s && FirstOf(pick, s, descending)
    ensures n < |q| && q[n] == pick && Elements(q[n + 1..]) == s - {pick}
  {
    assert forall y :: y in q[n..] <==> y in Elements(q[n..]);
    NextOfListing(q, n, pick, descending);
  }

  /** `merged_cursors_emit`: the window of the union, read off a live cursor for each part. */
  method MergedCursorsEmit(parts: seq<Container>, key: nat, low: nat, high: nat, skip: nat, size: nat, descending: bool)
    returns (out: seq<nat>, left: nat)
    requires OfKey(parts, key) && low <= high < LOWS
    ensures out == Window(Raised(key, Listing(UnionLows(parts, low, high), descending)), skip, size)
    ensures size > 0 ==> left == SkipAfter(skip, |UnionLows(parts, low, high)|)
  {
    hide OnValue, Todo, All, InAny, FirstOf, Elements, InOrder, Read, Todos, UnionLows;
    ghost var q := Listing(UnionLows(parts, low, high), descending);
    ghost var n: nat := 0;
    var cursors := BeginCursors(parts, key, low, high, descending);
    out, left := [], skip;
    ReadNone(Raised(key, q), skip, size);
    assert q[0..] == q;
    while |out| < size && |cursors| > 1
      invariant n <= |q| && Read(out, left, Raised(key, q), n, skip, size)
      invariant AllLive(cursors, low, high, descending)
      invariant Elements(q[n..]) == All(Todos(cursors, low, high, descending))
      decreases |q| - n
    {
      var pick := PickCursor(cursors, low, high, descending);
      PickIsNext(q, n, All(Todos(cursors, low, high, descending)), pick, descending);
      ReadOne(out, left, Raised(key, q), n, skip, size);
      if left > 0 { left := left - 1; } else { out := out + [ValueOf(key, pick)]; }
      cursors := StepCursors(cursors, pick, low, high, descending);
      n := n + 1;
    }
    if |cursors| == 1 {
      OneTodo(cursors, low, high, descending);
      out, left, n := DrainCursor(cursors[0], key, out, left, size, low, high, descending, q, n, skip);
    } else if |out| < size {
      NoParts(Todos(cursors, low, high, descending));
    }
    if |out| < size { NothingLeft(q, n); }
    ReadDone(out, left, Raised(key, q), n, skip, size);
  }

  lemma OneTodo(cursors: seq<Cursor>, low: nat, high: nat, descending: bool)
    requires |cursors| == 1
    ensures All(Todos(cursors, low, high, descending)) == Todo(cursors[0], low, high, descending)
  {
    OnePart(Todos(cursors, low, high, descending));
  }

  /** The rest of the window once the union is what a single cursor has left. */
  method DrainCursor(from: Cursor, key: nat, had: seq<nat>, skip: nat, size: nat, low: nat, high: nat, descending: bool,
                     ghost q: seq<nat>, ghost m: nat, ghost skipped: nat)
    returns (out: seq<nat>, left: nat, ghost n: nat)
    requires from.live && OnValue(from, low, high, descending) && InOrder(q, descending)
    requires m <= |q| && Elements(q[m..]) == Todo(from, low, high, descending)
    requires Read(had, skip, Raised(key, q), m, skipped, size)
    ensures n <= |q| && Read(out, left, Raised(key, q), n, skipped, size)
    ensures |out| < size ==> Elements(q[n..]) == {}
  {
    hide OnValue, Todo, FirstOf, Elements, InOrder, Read;
    var c := from;
    out, left, n := had, skip, m;
    while |out| < size && c.live
      invariant n <= |q| && Read(out, left, Raised(key, q), n, skipped, size)
      invariant OnValue(c, low, high, descending) && Elements(q[n..]) == Todo(c, low, high, descending)
      decreases |q| - n
    {
      LiveFirst(c, low, high, descending);
      PickIsNext(q, n, Todo(c, low, high, descending), c.value, descending);
      ReadOne(out, left, Raised(key, q), n, skipped, size);
      if left > 0 { left := left - 1; } else { out := out + [ValueOf(key, c.value)]; }
      c := NextCursor(c, low, high, descending);
      n := n + 1;
    }
    if !c.live { DeadCursor(c, low, high, descending); }
  }

  /**
   * `key_union_emit`: a page of the values any of the parts has, in walking order, whichever way
   * is taken.
   */
  method KeyUnionEmit(parts: seq<Container>, key: nat, low: nat, high: nat, skip: nat, size: nat, descending: bool)
    returns (out: seq<nat>, left: nat)
    requires OfKey(parts, key) && low <= high < LOWS
    ensures out == Window(Raised(key, Listing(UnionLows(parts, low, high), descending)), skip, size)
    ensures size > 0 ==> left == SkipAfter(skip, |UnionLows(parts, low, high)|)
  {
    hide BitsBetween, Elements, InAny, Has, LowsOf;
    if |parts| == 1 && !parts[0].data.Bits? {
      var begin, end := SliceOf(parts[0], low, high);
      LowsSorted(parts[0]);
      OneUnion(parts, low, high);
      var lows;
      lows, left := TakeSlice(LowsOf(parts[0]), begin, end, skip, size, descending);
      out := Raised(key, lows);
      RaisedWindow(key, Listing(UnionLows(parts, low, high), descending), skip, size);
      return;
    }
    if |parts| == 1 {
      OneUnion(parts, low, high);
      BitmapRange(parts[0], low, high);
      out, left := WordsEmit(parts[0].data.words, low, high, key, skip, size, descending);
      return;
    }
    if (skip + size) * |parts| <= UNION_MERGE_UP_TO {
      out, left := MergedCursorsEmit(parts, key, low, high, skip, size, descending);
      return;
    }
    var words, count := UnionWords(parts, key, low, high);
    out, left := WordsEmit(words[..], low, high, key, skip, size, descending);
  }
}
