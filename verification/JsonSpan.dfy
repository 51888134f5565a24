// The allocator hooks given to the JSON library, and the release of a document's memory at once.
//
// `headers` is what the hooks recorded per block. `run` is a ghost account of the arena from the
// document's first block up to the tail: every piece with its charge and whether the document or
// somebody else took it. Others may take, resize and free blocks between any two calls.
module JsonSpan {
  import opened Results
  import opened Memory

  const HEADER: nat := 8
  const MAX_PAYLOAD: nat := MAX_ALLOC_SIZE - HEADER

  /** A stretch the arena charged for one reservation. */
  datatype Piece = Piece(address: nat, charged: nat, own: bool)

  ghost function Total(run: seq<Piece>): nat {
    if run == [] then 0 else Total(run[..|run| - 1]) + run[|run| - 1].charged
  }

  ghost function OwnTotal(run: seq<Piece>): nat {
    if run == [] then 0
    else OwnTotal(run[..|run| - 1]) + if run[|run| - 1].own then run[|run| - 1].charged else 0
  }

  /** Where the next piece begins. */
  ghost function End(run: seq<Piece>): nat
    requires run != []
  {
    run[|run| - 1].address + run[|run| - 1].charged
  }

  /** The pieces lie one behind the other, the first of them the run's own. */
  ghost predicate Stretch(run: seq<Piece>) {
    (run != [] ==> run[0].own)
    && (forall k :: 0 <= k < |run| ==> run[k].charged > 0)
    && forall k :: 0 < k < |run| ==> run[k].address == End(run[..k])
  }

  /** A piece of the run starts here. */
  ghost predicate IsPiece(run: seq<Piece>, a: nat) { exists k :: 0 <= k < |run| && run[k].address == a }

  /** What is reserved, the pieces of the run set aside. */
  ghost function Without(run: seq<Piece>, live: map<nat, nat>): map<nat, nat> {
    map a | a in live && !IsPiece(run, a) :: live[a]
  }

  ghost predicate AllOwn(run: seq<Piece>) { forall k :: 0 <= k < |run| ==> run[k].own }

  /** A stretch is as long as its pieces are together. */
  lemma {:induction false} StretchEnds(run: seq<Piece>)
    requires Stretch(run) && run != []
    ensures End(run) == run[0].address + Total(run)
  {
    var before := run[..|run| - 1];
    if before != [] {
      Shortened(run);
      StretchEnds(before);
    }
  }

  /** Every byte of a stretch lies in one of its pieces. */
  lemma {:induction false} PieceAt(run: seq<Piece>, a: nat) returns (k: nat)
    requires Stretch(run) && run != [] && run[0].address <= a < End(run)
    ensures k < |run| && run[k].address <= a < run[k].address + run[k].charged
  {
    var last: nat := run[|run| - 1].address;
    if last <= a {
      k := |run| - 1;
    } else {
      Shortened(run);
      k := PieceAt(run[..|run| - 1], a);
    }
  }

  lemma {:induction false} PiecesBefore(run: seq<Piece>)
    requires Stretch(run) && run != []
    ensures forall k :: 0 <= k < |run| ==> run[0].address <= run[k].address < End(run)
  {
    var before := run[..|run| - 1];
    if before != [] {
      Shortened(run);
      PiecesBefore(before);
    }
  }

  lemma Shortened(run: seq<Piece>)
    requires Stretch(run) && run != []
    ensures var before := run[..|run| - 1]; Stretch(before) && (before != [] ==> End(before) == run[|run| - 1].address)
  {
    var before := run[..|run| - 1];
    assert forall k :: 0 < k < |before| ==> before[..k] == run[..k];
    if before != [] { assert run[|run| - 1].address == End(run[..|run| - 1]); }
  }

  /** What others hold in between is what the sum falls short by: nothing, exactly if all pieces are the run's own. */
  lemma {:induction false} ForeignFallsShort(run: seq<Piece>)
    requires forall k :: 0 <= k < |run| ==> run[k].charged > 0
    ensures OwnTotal(run) <= Total(run)
    ensures OwnTotal(run) == Total(run) <==> AllOwn(run)
  {
    if run != [] {
      var before := run[..|run| - 1];
      ForeignFallsShort(before);
      assert AllOwn(run) <==> AllOwn(before) && run[|run| - 1].own;
    }
  }

  /** The size in a header is charged as the reservation is. */
  ghost predicate HeadersMatch(headers: map<nat, nat>, live: map<nat, nat>) {
    forall b :: b in headers ==>
      b in live && HEADER < headers[b] <= MAX_ALLOC_SIZE && Align8(live[b]) == Align8(headers[b])
  }

  /** The run covers the arena from its first block to its tail. */
  ghost predicate RunCovers(run: seq<Piece>, spanSize: nat, tail: nat, live: map<nat, nat>, headers: map<nat, nat>) {
    Stretch(run) && spanSize == OwnTotal(run) && (run != [] ==> End(run) == tail)
    && (forall k :: 0 <= k < |run| ==> run[k].address in live && Align8(live[run[k].address]) == run[k].charged)
    && (forall k :: 0 <= k < |run| && run[k].address in headers ==> run[k].own)
  }

  /** The books of a context: the headers match, and where the run counts it covers the arena. */
  ghost predicate Balanced(counts: bool, run: seq<Piece>, spanSize: nat, arenas: seq<Arena>, live: map<nat, nat>,
      headers: map<nat, nat>) {
    HeadersMatch(headers, live) && spanSize <= UINT32_MAX
    && (counts ==> |arenas| == 1 && RunCovers(run, spanSize, arenas[0].Tail(), live, headers))
  }

  /** A block cut off at the tail is the next piece. */
  lemma RunGrown(run: seq<Piece>, spanSize: nat, tail: nat, live: map<nat, nat>, headers: map<nat, nat>, size: nat,
                 own: bool)
    requires RunCovers(run, spanSize, tail, live, headers) && HeadersMatch(headers, live)
    requires tail !in live && 0 < size <= MAX_ALLOC_SIZE && (run == [] ==> own)
    ensures RunCovers(run + [Piece(tail, Align8(size), own)], if own then spanSize + Align8(size) else spanSize,
                      tail + Align8(size), live[tail := size], if own then headers[tail := size] else headers)
  {
    hide Align8, Stretch, OwnTotal, End;
    StretchGrown(run, Piece(tail, Align8(size), own));
  }

  lemma StretchGrown(run: seq<Piece>, piece: Piece)
    requires Stretch(run) && piece.charged > 0 && if run == [] then piece.own else piece.address == End(run)
    ensures Stretch(run + [piece]) && End(run + [piece]) == piece.address + piece.charged
    ensures OwnTotal(run + [piece]) == OwnTotal(run) + if piece.own then piece.charged else 0
  {
    var more := run + [piece];
    assert more[..|run|] == run;
    forall k | 0 < k < |more| ensures more[k].address == End(more[..k]) {
      assert more[..k] == run[..k];
    }
  }

  /** The last piece taken back. */
  lemma RunCut(run: seq<Piece>, spanSize: nat, tail: nat, live: map<nat, nat>, headers: map<nat, nat>)
    requires RunCovers(run, spanSize, tail, live, headers) && run != []
    ensures var last := run[|run| - 1];
            (if last.own then last.charged else 0) <= spanSize
            && RunCovers(run[..|run| - 1], spanSize - (if last.own then last.charged else 0), last.address,
                         live - {last.address}, headers - {last.address})
            && last.address in live && Align8(live[last.address]) == last.charged
  {
    Shortened(run);
    if |run| > 1 { PiecesBefore(run[..|run| - 1]); }
  }

  /** An empty run covers nothing, wherever the arena ends. */
  lemma EmptyCovers(spanSize: nat, tail: nat, live: map<nat, nat>, headers: map<nat, nat>, tailNow: nat,
                    liveNow: map<nat, nat>, headersNow: map<nat, nat>)
    requires RunCovers([], spanSize, tail, live, headers)
    ensures spanSize == 0 && RunCovers([], 0, tailNow, liveNow, headersNow)
  {
  }

  /** A block that ends at the tail is the last piece, or lies before the run, which is then empty. */
  lemma LastPiece(run: seq<Piece>, spanSize: nat, tail: nat, live: map<nat, nat>, headers: map<nat, nat>,
                  arenas: seq<Arena>, at: nat)
    requires RunCovers(run, spanSize, tail, live, headers) && run != []
    requires Blocks(arenas, live) && at in live && at + Align8(live[at]) == tail
    ensures run[|run| - 1].address == at
  {
    var last: nat := run[|run| - 1].address;
    var n, m := Align8(live[at]), Align8(live[last]);
    assert last + m == tail && n > 0 && m > 0;
    assert at < last ==> at + n <= last;
    assert last < at ==> last + m <= at;
  }

  /** The run after a block of somebody else joined the arena. */
  function Joined(run: seq<Piece>, at: nat, size: nat): seq<Piece> {
    if run == [] then [] else run + [Piece(at, Align8(size), false)]
  }

  /** The run after a block at the tail of the arena left it. */
  function Parted(run: seq<Piece>): seq<Piece> {
    if run == [] then [] else run[..|run| - 1]
  }

  /** The run after a block of somebody else at the tail was resized. */
  function Replaced(run: seq<Piece>, at: nat, size: nat): seq<Piece> {
    if run == [] then [] else Parted(run) + [Piece(at, Align8(size), false)]
  }

  /** A block of somebody else at the tail joins the run, if there is one. */
  lemma JoinedBy(run: seq<Piece>, spanSize: nat, tail: nat, live: map<nat, nat>, headers: map<nat, nat>, size: nat)
    requires RunCovers(run, spanSize, tail, live, headers) && HeadersMatch(headers, live)
    requires tail !in live && 0 < size <= MAX_ALLOC_SIZE
    ensures RunCovers(Joined(run, tail, size), spanSize, tail + Align8(size), live[tail := size], headers)
  {
    hide Align8;
    if run == [] {
      EmptyCovers(spanSize, tail, live, headers, tail + Align8(size), live[tail := size], headers);
    } else {
      RunGrown(run, spanSize, tail, live, headers, size, false);
    }
  }

  /** A run of one piece is its own. */
  lemma BeginsOwn(run: seq<Piece>, spanSize: nat, tail: nat, live: map<nat, nat>, headers: map<nat, nat>)
    requires RunCovers(run, spanSize, tail, live, headers) && run != []
    ensures Parted(run) == [] ==> run[|run| - 1].own
  {
  }

  /** A tail block of somebody else has another size. */
  lemma Resized(run: seq<Piece>, spanSize: nat, tail: nat, live: map<nat, nat>, headers: map<nat, nat>,
                arenas: seq<Arena>, block: nat, size: nat)
    requires RunCovers(run, spanSize, tail, live, headers) && HeadersMatch(headers, live) && Blocks(arenas, live)
    requires block in live && block + Align8(live[block]) == tail && block !in headers && 0 < size <= MAX_ALLOC_SIZE
    requires forall k :: 0 <= k < |run| && run[k].own ==> run[k].address != block
    ensures RunCovers(Replaced(run, block, size), spanSize, block + Align8(size), (live - {block})[block := size],
            headers)
  {
    hide Align8, Blocks, RunCovers;
    TailTaken(run, spanSize, tail, live, headers, arenas, block);
    NotListed(headers, block);
    var cut := Parted(run);
    if run != [] { BeginsOwn(run, spanSize, tail, live, headers); }
    JoinedBy(cut, spanSize, block, live - {block}, headers, size);
  }

  lemma Disposed(run: seq<Piece>, spanSize: nat, tail: nat, live: map<nat, nat>, headers: map<nat, nat>, block: nat)
    requires RunCovers(run, spanSize, tail, live, headers)
    ensures RunCovers(run, spanSize, tail, live, headers - {block})
  {
  }

  /** A tail block goes back: the last piece of the run, or one from before a run that is empty. */
  lemma TailTaken(run: seq<Piece>, spanSize: nat, tail: nat, live: map<nat, nat>, headers: map<nat, nat>,
                  arenas: seq<Arena>, block: nat)
    requires RunCovers(run, spanSize, tail, live, headers) && Blocks(arenas, live)
    requires block in live && block + Align8(live[block]) == tail
    ensures if run == [] then
              spanSize == 0 && RunCovers([], 0, block, live - {block}, headers - {block})
            else
              run[|run| - 1].address == block && run[|run| - 1].charged == Align8(live[block])
              && (block in headers ==> run[|run| - 1].own)
              && (run[|run| - 1].own ==> Align8(live[block]) <= spanSize)
              && RunCovers(run[..|run| - 1], if run[|run| - 1].own then spanSize - Align8(live[block]) else spanSize,
                           block, live - {block}, headers - {block})
  {
    if run == [] {
      EmptyCovers(spanSize, tail, live, headers, block, live - {block}, headers - {block});
    } else {
      LastPiece(run, spanSize, tail, live, headers, arenas, block);
      RunCut(run, spanSize, tail, live, headers);
    }
  }

  /** What is reserved from the first block of the run on is a piece of it. */
  lemma OnlyPieces(run: seq<Piece>, spanSize: nat, tail: nat, live: map<nat, nat>, headers: map<nat, nat>,
                   arenas: seq<Arena>, a: nat)
    requires RunCovers(run, spanSize, tail, live, headers) && run != []
    requires Blocks(arenas, live) && a in live && run[0].address <= a < tail
    ensures IsPiece(run, a)
  {
    var k := PieceAt(run, a);
    var at: nat := run[k].address;
    var n := Align8(live[at]);
    assert at < a ==> at + n <= a;
  }

  /** A counted run is one reserved stretch; it ends at the tail if and only if all of it is the run's own. */
  lemma RunWhole(run: seq<Piece>, spanSize: nat, tail: nat, live: map<nat, nat>, headers: map<nat, nat>,
                 arenas: seq<Arena>)
    requires RunCovers(run, spanSize, tail, live, headers) && spanSize > 0
    requires Grounds(arenas) && Blocks(arenas, live) && |arenas| == 1 && arenas[0].Tail() == tail
    ensures run != [] && run[0].address in live && spanSize <= MAX_ALLOC_SIZE
    ensures run[0].address + Align8(spanSize) == tail <==> AllOwn(run)
  {
    hide Align8, HeadersMatch;
    StretchEnds(run);
    PiecesBefore(run);
    ForeignFallsShort(run);
    TailFits(arenas);
    FirstInside(arenas, live, run[0].address);
    hide *;
    OwnInEights(run, live);
    EightsStay(spanSize);
  }

  lemma TailFits(arenas: seq<Arena>)
    requires Grounds(arenas) && |arenas| == 1
    ensures arenas[0].Tail() <= arenas[0].base + MAX_ALLOC_SIZE
  {
    assert arenas[0].Sound();
  }

  lemma FirstInside(arenas: seq<Arena>, live: map<nat, nat>, a: nat)
    requires Blocks(arenas, live) && |arenas| == 1 && a in live
    ensures arenas[0].base <= a
  {
    var j :| 0 <= j < |arenas| && InUsed(arenas[j], a, live[a]);
  }

  lemma EightsStay(n: nat)
    requires n % 8 == 0 && n <= MAX_ALLOC_SIZE
    ensures Align8(n) == n
  {
  }

  lemma {:induction false} OwnInEights(run: seq<Piece>, live: map<nat, nat>)
    requires forall k :: 0 <= k < |run| ==> run[k].address in live && Align8(live[run[k].address]) == run[k].charged
    ensures OwnTotal(run) % 8 == 0
  {
    if run != [] { OwnInEights(run[..|run| - 1], live); }
  }

  /** Of what is reserved, the pieces and nothing else start in the stretch. */
  lemma OnlyRunFreed(run: seq<Piece>, spanSize: nat, tail: nat, live: map<nat, nat>, headers: map<nat, nat>,
                     arenas: seq<Arena>)
    requires RunCovers(run, spanSize, tail, live, headers) && run != []
    requires Grounds(arenas) && Blocks(arenas, live) && |arenas| == 1 && arenas[0].Tail() == tail
    ensures forall a :: a in live ==> (a < run[0].address <==> !IsPiece(run, a))
  {
    PiecesBefore(run);
    forall a | a in live && run[0].address <= a ensures IsPiece(run, a) {
      var j :| 0 <= j < |arenas| && InUsed(arenas[j], a, live[a]);
      OnlyPieces(run, spanSize, tail, live, headers, arenas, a);
    }
  }

  lemma OwnBalanced(counts: bool, run: seq<Piece>, spanSize: nat, arenas: seq<Arena>, live: map<nat, nat>,
                    headers: map<nat, nat>, now: seq<Arena>, at: nat, size: nat)
    requires Balanced(counts, run, spanSize, arenas, live, headers) && at !in live && HEADER < size <= MAX_ALLOC_SIZE
    requires counts ==> |now| == 1 && at == arenas[0].Tail() && now[0].Tail() == at + Align8(size)
    ensures var more := spanSize + Align8(size);
            if more > UINT32_MAX then Balanced(false, run, spanSize, now, live[at := size], headers[at := size])
            else Balanced(counts, run + [Piece(at, Align8(size), true)], more, now, live[at := size],
                headers[at := size])
  {
    if counts { RunGrown(run, spanSize, at, live, headers, size, true); }
  }

  lemma JoinBalanced(counts: bool, run: seq<Piece>, spanSize: nat, arenas: seq<Arena>, live: map<nat, nat>,
                     headers: map<nat, nat>, now: seq<Arena>, at: nat, size: nat)
    requires Balanced(counts, run, spanSize, arenas, live, headers) && at !in live && 0 < size <= MAX_ALLOC_SIZE
    requires counts ==> |now| == 1 && at == arenas[0].Tail() && now[0].Tail() == at + Align8(size)
    ensures Balanced(counts, Joined(run, at, size), spanSize, now, live[at := size], headers)
  {
    if counts { JoinedBy(run, spanSize, at, live, headers, size); }
  }

  lemma HeadersKept(headers: map<nat, nat>, live: map<nat, nat>, at: nat, to: nat, size: nat)
    requires HeadersMatch(headers, live) && at !in headers && (to == at || to !in live)
    ensures HeadersMatch(headers, (live - {at})[to := size]) && HeadersMatch(headers, live - {at})
  {
    hide Align8;
  }

  lemma ResizeBalanced(counts: bool, run: seq<Piece>, spanSize: nat, arenas: seq<Arena>, live: map<nat, nat>,
                       headers: map<nat, nat>, now: seq<Arena>, at: nat, to: nat, size: nat)
    requires Balanced(counts, run, spanSize, arenas, live, headers) && Blocks(arenas, live)
    requires at in live && at !in headers && 0 < size <= MAX_ALLOC_SIZE && (to == at || (to !in live && !counts))
    requires forall k :: 0 <= k < |run| && run[k].own ==> run[k].address != at
    requires counts ==> |now| == 1 && at + Align8(live[at]) == arenas[0].Tail() && now[0].Tail() == at + Align8(size)
    ensures Balanced(counts, Replaced(run, to, size), spanSize, now, (live - {at})[to := size], headers)
  {
    HeadersKept(headers, live, at, to, size);
    hide Align8, Blocks, RunCovers, HeadersMatch, Replaced;
    if counts { Resized(run, spanSize, arenas[0].Tail(), live, headers, arenas, at, size); }
  }

  lemma HeaderOf(counts: bool, run: seq<Piece>, spanSize: nat, arenas: seq<Arena>, live: map<nat, nat>,
                 headers: map<nat, nat>, block: nat)
    requires Balanced(counts, run, spanSize, arenas, live, headers) && block in headers
    ensures block in live && HEADER < headers[block] <= MAX_ALLOC_SIZE && Align8(live[block]) == Align8(headers[block])
  {
  }

  lemma DisposeBalanced(counts: bool, run: seq<Piece>, spanSize: nat, arenas: seq<Arena>, live: map<nat, nat>,
                        headers: map<nat, nat>, block: nat)
    requires Balanced(counts, run, spanSize, arenas, live, headers)
    ensures Balanced(counts, run, spanSize, arenas, live, headers - {block})
  {
    if counts { Disposed(run, spanSize, arenas[0].Tail(), live, headers, block); }
  }

  /** A block of the run, at the tail, goes back. */
  lemma TakenBalanced(counts: bool, run: seq<Piece>, spanSize: nat, arenas: seq<Arena>, live: map<nat, nat>,
                      headers: map<nat, nat>, now: seq<Arena>, at: nat)
    requires Balanced(counts, run, spanSize, arenas, live, headers) && Blocks(arenas, live) && at in headers
    requires counts ==> |now| == 1 && at + Align8(headers[at]) == arenas[0].Tail() && now[0].Tail() == at
    ensures var charged := Align8(headers[at]);
            Balanced(counts, Parted(run), if charged > spanSize then 0 else spanSize - charged, now, live - {at},
                headers - {at})
  {
    HeaderOf(counts, run, spanSize, arenas, live, headers, at);
    assert HeadersMatch(headers - {at}, live - {at});
    hide Align8, Blocks, RunCovers;
    if counts { TailTaken(run, spanSize, arenas[0].Tail(), live, headers, arenas, at); }
  }

  /** A block of somebody else, at the tail, goes back. */
  lemma LeftBalanced(counts: bool, run: seq<Piece>, spanSize: nat, arenas: seq<Arena>, live: map<nat, nat>,
                     headers: map<nat, nat>, now: seq<Arena>, at: nat)
    requires Balanced(counts, run, spanSize, arenas, live, headers) && Blocks(arenas, live) && at in live
             && at !in headers
    requires forall k :: 0 <= k < |run| && run[k].own ==> run[k].address != at
    requires counts ==> |now| == 1 && at + Align8(live[at]) == arenas[0].Tail() && now[0].Tail() == at
    ensures Balanced(counts, Parted(run), spanSize, now, live - {at}, headers)
  {
    assert HeadersMatch(headers, live - {at});
    NotListed(headers, at);
    hide Align8, Blocks, RunCovers;
    if counts { TailTaken(run, spanSize, arenas[0].Tail(), live, headers, arenas, at); }
  }

  /** The allocator did not touch what is reserved. */
  lemma SameBalanced(counts: bool, run: seq<Piece>, spanSize: nat, arenas: seq<Arena>, live: map<nat, nat>,
                     headers: map<nat, nat>, now: seq<Arena>)
    requires Balanced(counts, run, spanSize, arenas, live, headers)
    requires counts ==> |now| == 1 && now[0].Tail() == arenas[0].Tail()
    ensures Balanced(counts, run, spanSize, now, live, headers)
  {
  }

  /** A block of the library resized: the header follows the reservation, the run no longer counts. */
  lemma HeaderFollows(counts: bool, run: seq<Piece>, spanSize: nat, arenas: seq<Arena>, live: map<nat, nat>,
                      headers: map<nat, nat>, now: seq<Arena>, liveNow: map<nat, nat>, block: nat, to: nat, size: nat)
    requires Balanced(counts, run, spanSize, arenas, live, headers) && block in headers
             && HEADER < size <= MAX_ALLOC_SIZE
    requires to == block || to !in live
    requires if headers[block] == size && to == block then liveNow == live
             else liveNow == (live - {block})[to := size] || (to != block && liveNow == live[to := size])
    ensures Balanced(false, run, spanSize, now, liveNow, (headers - {block})[to := size])
  {
  }

  /** The run no longer counts. */
  lemma GivenUp(counts: bool, run: seq<Piece>, spanSize: nat, arenas: seq<Arena>, live: map<nat, nat>,
                headers: map<nat, nat>, now: seq<Arena>)
    requires Balanced(counts, run, spanSize, arenas, live, headers)
    ensures Balanced(false, run, spanSize, now, live, headers)
  {
  }

  /** What the arena answers to the first address and the sum of a counted run. */
  lemma RunAnswer(run: seq<Piece>, spanSize: nat, arenas: seq<Arena>, live: map<nat, nat>, headers: map<nat, nat>)
    requires Balanced(true, run, spanSize, arenas, live, headers) && spanSize > 0 && Grounds(arenas)
             && Blocks(arenas, live)
    ensures run != [] && run[0].address in live && spanSize <= MAX_ALLOC_SIZE
    ensures run[0].address + Align8(spanSize) == arenas[0].Tail() <==> AllOwn(run)
    ensures (map a | a in live && a < run[0].address :: live[a]) == Without(run, live)
  {
    hide Align8, AllOwn, HeadersMatch;
    RunWhole(run, spanSize, arenas[0].Tail(), live, headers, arenas);
    OnlyRunFreed(run, spanSize, arenas[0].Tail(), live, headers, arenas);
  }

  /** What lies before a released run is as it was. */
  lemma BeforeBalanced(counts: bool, run: seq<Piece>, spanSize: nat, arenas: seq<Arena>, live: map<nat, nat>,
                       headers: map<nat, nat>, now: seq<Arena>, start: nat)
    requires Balanced(counts, run, spanSize, arenas, live, headers) && |now| == 1
    ensures Balanced(true, [], 0, now, map a | a in live && a < start :: live[a],
            map a | a in headers && a < start :: headers[a])
  {
  }

  /** The payload, as far as the old and the new block reach. */
  ghost predicate PayloadCarried(was: nat -> Byte, pointer: nat, now: nat -> Byte, out: nat, reserved: nat, size: nat) {
    HEADER <= reserved && Carried(was, pointer, now, out, if reserved - HEADER < size then reserved - HEADER else size)
  }

  lemma PayloadFollows(was: nat -> Byte, block: nat, now: nat -> Byte, to: nat, reserved: nat, size: nat)
    requires HEADER <= reserved
             && Carried(was, block, now, to, if reserved < size + HEADER then reserved else size + HEADER)
    ensures PayloadCarried(was, block + HEADER, now, to + HEADER, reserved, size)
  {
  }

  class Context {
    const allocator: Handle
    var keptBytes: bool
    var spanBroken: bool
    var spanSize: nat
    /** `total_size` in the header of each block the library holds. */
    var headers: map<nat, nat>
    ghost var run: seq<Piece>

    /** The run counts only where there is one arena to count in. */
    ghost predicate Counts()
      reads this
    {
      !allocator.multi && !spanBroken
    }

    ghost predicate Valid()
      reads this, allocator
    {
      allocator.Valid() && Balanced(Counts(), run, spanSize, allocator.arenas, allocator.live, headers)
    }

    /** `json_alc_context_init` */
    constructor (allocator: Handle)
      requires allocator.Valid()
      ensures Valid() && this.allocator == allocator && headers == map[] && run == [] && !spanBroken && !keptBytes
    {
      this.allocator := allocator;
      keptBytes, spanBroken, spanSize := false, false, 0;
      headers, run := map[], [];
    }

    /** `json_alc_span_reset`: what the arena holds so far is no longer accounted for. */
    method Reset()
      requires Valid()
      modifies this`spanSize, this`spanBroken, this`run
      ensures Valid() && spanSize == 0 && !spanBroken && run == []
    {
      spanSize, spanBroken, run := 0, false, [];
    }

    /** `json_block_alloc` */
    method BlockAlloc(size: nat) returns (pointer: nat)
      requires Valid()
      modifies this, allocator
      ensures Valid()
      ensures pointer == 0 <==> size == 0 || size > MAX_ALLOC_SIZE - 8 || !old(allocator.CanServe(size + HEADER))
      ensures pointer != 0 && old(allocator.Fits(size + HEADER)) ==> pointer == old(allocator.FitsAt(size + HEADER)) + HEADER
      ensures pointer == 0 ==>
                headers == old(headers) && run == old(run) && spanSize == old(spanSize)
                && spanBroken == old(spanBroken) && allocator.live == old(allocator.live)
      ensures pointer != 0 ==>
                pointer >= HEADER && pointer - HEADER !in old(allocator.live)
                && headers == old(headers)[pointer - HEADER := size + HEADER]
                && allocator.live == old(allocator.live)[pointer - HEADER := size + HEADER]
      ensures pointer != 0 ==>
                var sum := old(spanSize) + Align8(size + HEADER);
                spanBroken == (old(spanBroken) || sum > UINT32_MAX)
                && spanSize == if sum > UINT32_MAX then old(spanSize) else sum
      ensures pointer != 0 && !spanBroken ==>
                run == old(run) + [Piece(pointer - HEADER, Align8(size + HEADER), true)]
      ensures keptBytes == old(keptBytes)
    {
      hide Balanced, Align8, Handle.Valid, Handle.Fits, Handle.FitsAt, Handle.CanServe, Handle.AsksHost,
          Handle.Opened, Handle.Refusal;
      if size == 0 || size > MAX_PAYLOAD { return 0; }
      var result, block := allocator.Alloc(size + HEADER);
      if !result.Success? {
        SameBalanced(Counts(), run, spanSize, old(allocator.arenas), allocator.live, headers, allocator.arenas);
        return 0;
      }
      OwnBalanced(Counts(), run, spanSize, old(allocator.arenas), old(allocator.live), headers, allocator.arenas, block,
          size + HEADER);
      headers := headers[block := size + HEADER];
      var charged := Align8(size + HEADER);
      if charged > UINT32_MAX - spanSize {
        spanBroken := true;
      } else {
        spanSize := spanSize + charged;
        run := run + [Piece(block, charged, true)];
      }
      pointer := block + HEADER;
    }

    /** A block of somebody else, taken from the same arena. */
    method ForeignAlloc(size: nat) returns (result: Result, buffer: nat)
      requires Valid() && size <= UINT32_MAX
      modifies this`run, allocator
      ensures Valid()
      ensures result.Success? <==> old(allocator.CanServe(size))
      ensures run == if result.Success? then Joined(old(run), buffer, size) else old(run)
    {
      hide Balanced, Align8, Handle.Valid, Handle.Fits, Handle.FitsAt, Handle.CanServe, Handle.AsksHost,
          Handle.Opened, Handle.Refusal, Joined;
      result, buffer := allocator.Alloc(size);
      if result.Success? {
        JoinBalanced(Counts(), run, spanSize, old(allocator.arenas), old(allocator.live), headers, allocator.arenas,
            buffer, size);
        run := Joined(run, buffer, size);
      } else {
        SameBalanced(Counts(), run, spanSize, old(allocator.arenas), allocator.live, headers, allocator.arenas);
      }
    }

    /** `json_block_dispose`: what the arena keeps stays in the run. */
    method BlockDispose(pointer: nat)
      requires Valid() && (pointer == 0 || (pointer >= HEADER && pointer - HEADER in headers))
      modifies this, allocator
      ensures Valid() && spanBroken == old(spanBroken)
      ensures pointer == 0 ==> headers == old(headers) && run == old(run) && allocator.live == old(allocator.live)
      ensures pointer != 0 ==> headers == old(headers) - {pointer - HEADER}
      ensures pointer == 0 ==> spanSize == old(spanSize) && keptBytes == old(keptBytes)
      ensures pointer != 0 ==>
                if old(Last(pointer - HEADER)) then
                  var charged := Align8(old(headers)[pointer - HEADER]);
                  allocator.live == old(allocator.live) - {pointer - HEADER} && keptBytes == old(keptBytes)
                  && run == Parted(old(run)) && spanSize == if charged > old(spanSize) then 0 else old(spanSize) - charged
                else
                  allocator.live == old(allocator.live) && keptBytes && run == old(run) && spanSize == old(spanSize)
    {
      hide Align8, Balanced, Handle.Valid, Last, Parted;
      if pointer != 0 { Dispose(pointer - HEADER); }
    }

    /** The block is the last thing in its arena. */
    ghost predicate Last(block: nat)
      reads allocator
    {
      block in allocator.live && allocator.AtTail(block)
    }

    /** A block with a header is reserved. */
    lemma Reserves(block: nat)
      requires Valid() && block in headers
      ensures block in allocator.live && allocator.Reserved(block, headers[block]) && !allocator.Foreign(block)
    {
      hide RunCovers, Handle.Valid, Handle.Foreign, Align8;
      allocator.NotForeign(block);
    }

    /** What stretches is at the tail. */
    lemma StretchAtTail(block: nat, total: nat)
      requires block in allocator.live
      ensures allocator.CanStretch(block, total) ==> allocator.AtTail(block)
    {
    }

    method Dispose(block: nat)
      requires Valid() && block in headers
      modifies this, allocator
      ensures Valid() && spanBroken == old(spanBroken) && headers == old(headers) - {block}
      ensures if old(Last(block)) then
                var charged := Align8(old(headers)[block]);
                allocator.live == old(allocator.live) - {block} && keptBytes == old(keptBytes)
                && run == Parted(old(run)) && spanSize == if charged > old(spanSize) then 0 else old(spanSize) - charged
              else
                allocator.live == old(allocator.live) && keptBytes && run == old(run) && spanSize == old(spanSize)
    {
      hide Balanced, Align8, Handle.Valid, Handle.AtTail, Handle.Foreign, HeadersMatch, RunCovers, Parted, Blocks,
          Grounds;
      allocator.Holding();
      Reserves(block);
      HeaderOf(Counts(), run, spanSize, allocator.arenas, allocator.live, headers, block);
      var reserved := headers[block];
      var result := allocator.Free(block, reserved);
      headers := headers - {block};
      if result.NotReclaimed? {
        keptBytes := true;
        DisposeBalanced(Counts(), run, spanSize, allocator.arenas, allocator.live, old(headers), block);
        return;
      }
      TakenBalanced(Counts(), run, spanSize, old(allocator.arenas), old(allocator.live), old(headers), allocator.arenas,
          block);
      var charged := Align8(reserved);
      spanSize := if charged > spanSize then 0 else spanSize - charged;
      run := Parted(run);
    }

    /** A block of somebody else that the arena reserves. */
    ghost predicate ForeignBlock(buffer: nat, size: nat)
      reads this, allocator
    {
      allocator.Reserved(buffer, size) && buffer !in headers
      && forall k :: 0 <= k < |run| && run[k].own ==> run[k].address != buffer
    }

    /** Somebody else gives a block back. */
    method ForeignFree(buffer: nat, size: nat) returns (result: Result)
      requires Valid() && size <= UINT32_MAX && ForeignBlock(buffer, size)
      modifies this`run, allocator
      ensures Valid()
      ensures result == if old(allocator.AtTail(buffer)) then Success else NotReclaimed
      ensures !result.Success? ==> run == old(run) && allocator.live == old(allocator.live)
      ensures result.Success? ==> run == Parted(old(run)) && allocator.live == old(allocator.live) - {buffer}
    {
      hide Balanced, Align8, Handle.Valid, Handle.AtTail, Handle.Foreign, HeadersMatch, RunCovers, Parted;
      allocator.Holding();
      allocator.NotForeign(buffer);
      result := allocator.Free(buffer, size);
      if result.Success? {
        LeftBalanced(Counts(), run, spanSize, old(allocator.arenas), old(allocator.live), headers, allocator.arenas,
            buffer);
        run := Parted(run);
      } else {
        SameBalanced(Counts(), run, spanSize, old(allocator.arenas), allocator.live, headers, allocator.arenas);
      }
    }

    /** A tail block always stretches to no more than it has. */
    lemma Shorter(buffer: nat, size: nat)
      requires Valid() && buffer in allocator.live
      ensures allocator.AtTail(buffer) && Align8(size) <= Align8(allocator.live[buffer]) ==> allocator.CanStretch(buffer, size)
    {
      hide Align8, Blocks, Balanced, Tiled;
      if allocator.AtTail(buffer) {
        var i :| 0 <= i < |allocator.arenas| && allocator.arenas[i].Holds(buffer)
                 && buffer + Align8(allocator.live[buffer]) == allocator.arenas[i].Tail();
        allocator.TailOf(i, buffer, size);
      }
    }

    /** Somebody else resizes a block: in place at the tail, to another place, or not at all. */
    method ForeignRealloc(buffer: nat, oldSize: nat, newSize: nat) returns (result: Result, out: nat)
      requires Valid() && oldSize <= UINT32_MAX && 0 < newSize <= UINT32_MAX && ForeignBlock(buffer, oldSize)
      modifies this`run, allocator
      ensures Valid()
      ensures oldSize == newSize || old(allocator.CanStretch(buffer, newSize)) ==>
                (newSize <= MAX_ALLOC_SIZE ==> result.Success? && out == buffer)
      ensures oldSize != newSize && newSize <= MAX_ALLOC_SIZE && !old(allocator.CanStretch(buffer, newSize)) ==>
                if Align8(newSize) <= Align8(oldSize) then result.NotReclaimed? && out == buffer
                else if old(allocator.AtTail(buffer)) then result.Success? <==> allocator.multi && old(allocator.CanServe(newSize))
                else result.NotReclaimed? <==> old(allocator.CanServe(newSize))
      ensures run == if result.Success? && oldSize != newSize then Replaced(old(run), out, newSize)
                     else if result.NotReclaimed? && out != buffer then Joined(old(run), out, newSize)
                     else old(run)
    {
      hide Balanced, Align8, Joined, Replaced, Blocks, Carried, Grounds, Handle.Valid, Handle.Fits, Handle.FitsAt,
          Handle.CanServe, Handle.AsksHost, Handle.Opened, Handle.Refusal, Handle.AtTail, Handle.CanStretch,
          Handle.TakesNew, SameGround;
      allocator.Holding();
      Shorter(buffer, newSize);
      result, out := allocator.Realloc(buffer, oldSize, newSize);
      if result.Success? && oldSize != newSize {
        ResizeBalanced(Counts(), run, spanSize, old(allocator.arenas), old(allocator.live), headers, allocator.arenas,
            buffer, out, newSize);
        run := Replaced(run, out, newSize);
      } else if result.NotReclaimed? && out != buffer {
        JoinBalanced(Counts(), run, spanSize, old(allocator.arenas), old(allocator.live), headers, allocator.arenas,
            out, newSize);
        run := Joined(run, out, newSize);
      } else {
        SameBalanced(Counts(), run, spanSize, old(allocator.arenas), allocator.live, headers, allocator.arenas);
      }
    }

    /**
     * `json_block_realloc`: the header says what the arena reserves, the payload arrives, and the
     * run is given up.
     */
    method BlockRealloc(pointer: nat, size: nat) returns (out: nat)
      requires Valid() && (pointer == 0 || (pointer >= HEADER && pointer - HEADER in headers))
      modifies this, allocator
      ensures Valid()
      ensures out == 0 ==> headers == old(headers) && allocator.live == old(allocator.live)
      ensures pointer != 0 && (size == 0 || size > MAX_ALLOC_SIZE - 8) ==> out == 0 && spanBroken == old(spanBroken)
      ensures pointer != 0 && 0 < size <= MAX_ALLOC_SIZE - 8 ==>
                spanBroken && (out != 0 <==> old(CanResize(pointer - HEADER, size + HEADER)))
                && (out != 0 ==> (out == pointer <==> old(Stays(pointer - HEADER, size + HEADER))))
      ensures pointer == 0 ==> (out == 0 <==> size == 0 || size > MAX_ALLOC_SIZE - 8 || !old(allocator.CanServe(size + HEADER)))
      ensures pointer != 0 && out != 0 ==> out >= HEADER && out - HEADER in headers
      ensures pointer != 0 && out != 0 ==>
                headers == (old(headers) - {pointer - HEADER})[out - HEADER := headers[out - HEADER]]
      ensures pointer != 0 && out != 0 ==>
                headers[out - HEADER] == if old(KeepsAll(pointer - HEADER, size + HEADER)) then old(headers[pointer - HEADER])
                                         else size + HEADER
      ensures pointer != 0 && out != 0 && old(KeepsAll(pointer - HEADER, size + HEADER)) ==> allocator.live == old(allocator.live)
      ensures pointer != 0 && out != 0 ==>
                PayloadCarried(old(allocator.bytes), pointer, allocator.bytes, out, old(headers[pointer - HEADER]),
                    size)
    {
      hide Balanced, Align8, Handle.Valid, Handle.AtTail, Handle.Foreign, HeadersMatch, RunCovers, Carried,
          PayloadCarried, Blocks, Grounds;
      if pointer == 0 {
        out := BlockAlloc(size);
        return;
      }
      if size == 0 || size > MAX_PAYLOAD { return 0; }
      var block: nat := pointer - HEADER;
      ghost var reserved := headers[block];
      var done, moved := Resize(block, size + HEADER);
      if !done { return 0; }
      PayloadFollows(old(allocator.bytes), block, allocator.bytes, moved, reserved, size);
      out := moved + HEADER;
    }

    /** No move: nothing to do, room at the tail, or buried and large enough. */
    ghost predicate Stays(block: nat, total: nat)
      reads this, allocator
    {
      block in headers && block in allocator.live
      && (headers[block] == total || allocator.CanStretch(block, total) || KeepsAll(block, total))
    }

    /** A buried block gives nothing back, so its header stays too. */
    ghost predicate KeepsAll(block: nat, total: nat)
      reads this, allocator
    {
      block in headers && block in allocator.live
      && headers[block] != total && !allocator.AtTail(block) && Align8(total) <= Align8(headers[block])
    }

    /** The block stays, or a chain or a buried block finds room elsewhere. */
    ghost predicate CanResize(block: nat, total: nat)
      reads this, allocator
    {
      Stays(block, total) || ((Last(block) ==> allocator.multi) && allocator.Valid() && allocator.CanServe(total))
    }

    method Resize(block: nat, total: nat) returns (done: bool, to: nat)
      requires Valid() && block in headers && HEADER < total <= MAX_ALLOC_SIZE
      modifies this, allocator
      ensures Valid() && spanBroken && HEADER <= old(headers[block])
      ensures done <==> old(CanResize(block, total))
      ensures done ==> (to == block <==> old(Stays(block, total)))
      ensures !done ==> headers == old(headers) && allocator.live == old(allocator.live)
      ensures done ==> to in headers && headers == (old(headers) - {block})[to := headers[to]]
      ensures done ==> headers[to] == if old(KeepsAll(block, total)) then old(headers[block]) else total
      ensures done && old(KeepsAll(block, total)) ==> allocator.live == old(allocator.live)
      ensures done ==> Carried(old(allocator.bytes), block, allocator.bytes, to,
              if old(headers[block]) < total then old(headers[block]) else total)
    {
      hide Balanced, Align8, Handle.Valid, Handle.Foreign, HeadersMatch, RunCovers, Carried, Blocks, Grounds, Handle.Fits,
          Handle.FitsAt, Handle.CanServe, Handle.AsksHost, Handle.Opened, Handle.Refusal, Handle.AtTail,
          Handle.CanStretch, Handle.TakesNew, SameGround;
      allocator.Holding();
      Reserves(block);
      StretchAtTail(block, total);
      HeaderOf(Counts(), run, spanSize, allocator.arenas, allocator.live, headers, block);
      ghost var counted := Counts();
      spanBroken := true;
      var result, moved := allocator.Realloc(block, headers[block], total);
      if result.Success? || (result.NotReclaimed? && moved != block) {
        HeaderFollows(counted, run, spanSize, old(allocator.arenas), old(allocator.live), headers, allocator.arenas,
            allocator.live, block, moved, total);
        headers := (headers - {block})[moved := total];
      } else {
        GivenUp(counted, run, spanSize, old(allocator.arenas), allocator.live, headers, allocator.arenas);
      }
      done, to := result.Success? || result.NotReclaimed?, moved;
    }

    /**
     * `json_alc_release_span`: the whole run goes back, if and only if it counts in one arena,
     * something is in it, and nothing of anybody else stands in it. Only the run's own blocks go.
     */
    method ReleaseSpan(first: nat) returns (released: bool)
      requires Valid() && (Counts() && run != [] ==> first == run[0].address + HEADER)
      modifies this, allocator
      ensures Valid()
      ensures released <==> !allocator.multi && !old(spanBroken) && old(spanSize) > 0 && AllOwn(old(run))
      ensures released ==> allocator.live == Without(old(run), old(allocator.live))
      ensures released ==> run == [] && spanSize == 0 && allocator.arenas[0].Tail() == old(run)[0].address
      ensures !released ==>
                run == old(run) && headers == old(headers) && spanSize == old(spanSize)
                && spanBroken == old(spanBroken) && allocator.live == old(allocator.live)
    {
      if first == 0 || spanSize == 0 || spanBroken { return false; }
      if allocator.multi { return false; }
      hide Balanced, Align8, Handle.Valid, AllOwn, Without, Blocks, Grounds, HeadersMatch, RunCovers;
      released := GiveBack(first - HEADER);
    }

    /** The counted run as one block. */
    method GiveBack(start: nat) returns (released: bool)
      requires Valid() && Counts() && spanSize > 0 && (run != [] ==> start == run[0].address)
      modifies this, allocator
      ensures Valid() && spanBroken == old(spanBroken)
      ensures released <==> AllOwn(old(run))
      ensures released ==> run == [] && spanSize == 0 && allocator.live == Without(old(run), old(allocator.live))
      ensures released ==>
                |allocator.arenas| == 1 && |old(run)| > 0 && allocator.arenas[0].Tail() == old(run)[0].address
      ensures !released ==>
                run == old(run) && headers == old(headers) && spanSize == old(spanSize)
                && allocator.live == old(allocator.live)
    {
      hide Balanced, Align8, Handle.Valid, AllOwn, Without, Blocks, Grounds, HeadersMatch, RunCovers;
      allocator.Holding();
      RunAnswer(run, spanSize, allocator.arenas, allocator.live, headers);
      var result := allocator.FreeRun(start, spanSize);
      if !result.Success? { return false; }
      BeforeBalanced(true, run, spanSize, old(allocator.arenas), old(allocator.live), headers, allocator.arenas, start);
      headers := map a | a in headers && a < start :: headers[a];
      run, spanSize := [], 0;
      released := true;
    }
  }

  lemma NotListed(headers: map<nat, nat>, buffer: nat)
    requires buffer !in headers
    ensures headers - {buffer} == headers
  {
  }
}
