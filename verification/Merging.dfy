// Several sorted parts read as one: the value nearest to the end a walk comes from is picked, every
// part that stands on it moves on, and a part that runs out gives its place to the last one.
module Merging {
  import opened Order

  // ---------- a union of parts ----------

  ghost function All(sets: seq<set<nat>>): set<nat> { set p: nat, x | p < |sets| && x in sets[p] :: x }

  ghost predicate FirstOf(x: nat, s: set<nat>, descending: bool) {
    x in s && forall y :: y in s && y != x ==> Before(x, y, descending)
  }

  function SwapRemoved<T>(s: seq<T>, p: nat): seq<T>
    requires p < |s|
  {
    s[p := s[|s| - 1]][..|s| - 1]
  }

  /** A part that ran out is replaced by the last one: nothing is lost. */
  lemma AllSwapRemoved(sets: seq<set<nat>>, p: nat)
    requires p < |sets| && sets[p] == {}
    ensures All(SwapRemoved(sets, p)) == All(sets)
  {
    var r, n := SwapRemoved(sets, p), |sets| - 1;
    forall x | x in All(sets) ensures x in All(r) {
      var i: nat :| i < |sets| && x in sets[i];
      if i == n { assert x in r[p]; } else { assert x in r[i]; }
    }
    forall x | x in All(r) ensures x in All(sets) {
      var i: nat :| i < |r| && x in r[i];
      assert x in sets[if i == p then n else i];
    }
  }

  /** One part moves past the picked value. */
  lemma AllMoved(sets: seq<set<nat>>, p: nat, pick: nat)
    requires p < |sets| && pick in sets[p]
    ensures All(sets[p := sets[p] - {pick}]) + {pick} == All(sets)
  {
    var r := sets[p := sets[p] - {pick}];
    assert pick in All(sets);
    forall x | x in All(sets) && x != pick ensures x in All(r) {
      var i: nat :| i < |sets| && x in sets[i];
      assert x in r[i];
    }
    forall x | x in All(r) ensures x in All(sets) {
      var i: nat :| i < |r| && x in r[i];
      assert x in sets[i];
    }
  }

  lemma AllWithout(sets: seq<set<nat>>, was: set<nat>, pick: nat)
    requires All(sets) + {pick} == was && forall p :: 0 <= p < |sets| ==> pick !in sets[p]
    ensures All(sets) == was - {pick}
  {
  }

  lemma NoParts(sets: seq<set<nat>>)
    requires forall p :: 0 <= p < |sets| ==> sets[p] == {}
    ensures All(sets) == {}
  {
  }

  lemma OnePart(sets: seq<set<nat>>)
    requires |sets| == 1
    ensures All(sets) == sets[0]
  {
    assert forall x :: x in sets[0] ==> x in All(sets);
  }

  lemma PartWithin(sets: seq<set<nat>>, p: nat)
    requires p < |sets|
    ensures sets[p] <= All(sets)
  {
  }

  lemma AllAppended(sets: seq<set<nat>>, s: set<nat>)
    ensures All(sets + [s]) == All(sets) + s
  {
    var r := sets + [s];
    forall x | x in s ensures x in All(r) { assert x in r[|sets|]; }
    forall x | x in All(sets) ensures x in All(r) {
      var i: nat :| i < |sets| && x in sets[i];
      assert x in r[i];
    }
    forall x | x in All(r) ensures x in All(sets) + s {
      var i: nat :| i < |r| && x in r[i];
      assert i < |sets| ==> x in sets[i];
    }
  }

  /** The nearest of the values the parts stand on is the first of all. */
  lemma PickFirst(sets: seq<set<nat>>, heads: seq<nat>, pick: nat, descending: bool)
    requires |heads| == |sets| && forall p :: 0 <= p < |sets| ==> FirstOf(heads[p], sets[p], descending)
    requires pick in heads && forall p :: 0 <= p < |heads| ==> !Before(heads[p], pick, descending)
    ensures FirstOf(pick, All(sets), descending)
  {
    var i :| 0 <= i < |heads| && heads[i] == pick;
    assert pick in sets[i];
    forall y | y in All(sets) && y != pick ensures Before(pick, y, descending) {
      var p: nat :| p < |sets| && y in sets[p];
      assert y == heads[p] || Before(heads[p], y, descending);
    }
  }

  /** A part has the first of all only as its own first. */
  lemma PickOnlyFirst(sets: seq<set<nat>>, p: nat, head: nat, pick: nat, descending: bool)
    requires p < |sets| && FirstOf(head, sets[p], descending)
    requires forall y :: y in sets[p] && y != pick ==> Before(pick, y, descending)
    ensures pick in sets[p] <==> head == pick
  {
  }

  method Nearest(heads: seq<nat>, descending: bool) returns (pick: nat)
    requires |heads| > 0
    ensures pick in heads && forall p :: 0 <= p < |heads| ==> !Before(heads[p], pick, descending)
  {
    pick := heads[0];
    var p := 1;
    while p < |heads|
      invariant 1 <= p <= |heads| && pick in heads
      invariant forall i :: 0 <= i < p ==> !Before(heads[i], pick, descending)
    {
      if Before(heads[p], pick, descending) { pick := heads[p]; }
      p := p + 1;
    }
  }

  // ---------- spans of sorted values ----------

  /** The stretch of a sorted array a walk has still to read. */
  datatype Span = Span(values: seq<nat>, begin: nat, end: nat)

  ghost function SpanSet(s: Span): set<nat> {
    if s.begin <= s.end <= |s.values| then Elements(s.values[s.begin..s.end]) else {}
  }

  ghost predicate Sorted(s: Span) { s.begin <= s.end <= |s.values| && Ascending(s.values) }

  ghost predicate Open(s: Span) { Sorted(s) && s.begin < s.end }

  ghost predicate AllOpen(spans: seq<Span>) { forall p :: 0 <= p < |spans| ==> Open(spans[p]) }

  ghost function Sets(spans: seq<Span>): (r: seq<set<nat>>)
    ensures |r| == |spans|
  {
    seq(|spans|, p requires 0 <= p < |spans| => SpanSet(spans[p]))
  }

  function Head(s: Span, descending: bool): nat
    requires s.begin < s.end <= |s.values|
  {
    if descending then s.values[s.end - 1] else s.values[s.begin]
  }

  function Moved(s: Span, descending: bool): Span
    requires s.begin < s.end
  {
    if descending then s.(end := s.end - 1) else s.(begin := s.begin + 1)
  }

  lemma HeadMoves(s: Span, descending: bool)
    requires Open(s)
    ensures FirstOf(Head(s, descending), SpanSet(s), descending)
    ensures Sorted(Moved(s, descending)) && SpanSet(Moved(s, descending)) == SpanSet(s) - {Head(s, descending)}
  {
    var todo, head := s.values[s.begin..s.end], Head(s, descending);
    if descending {
      assert todo == s.values[s.begin..s.end - 1] + [head];
    } else {
      assert todo == [head] + s.values[s.begin + 1..s.end];
    }
  }

  lemma SpanSize(s: Span)
    requires Sorted(s)
    ensures |SpanSet(s)| == s.end - s.begin
  {
    AscendingSize(s.values[s.begin..s.end]);
  }

  function Heads(spans: seq<Span>, descending: bool): (h: seq<nat>)
    requires forall p :: 0 <= p < |spans| ==> spans[p].begin < spans[p].end <= |spans[p].values|
    ensures |h| == |spans| && forall p :: 0 <= p < |spans| ==> h[p] == Head(spans[p], descending)
  {
    seq(|spans|, p requires 0 <= p < |spans| => Head(spans[p], descending))
  }

  lemma OpenHeads(spans: seq<Span>, descending: bool)
    requires AllOpen(spans)
    ensures forall p :: 0 <= p < |spans| ==> spans[p].begin < spans[p].end <= |spans[p].values|
    ensures forall p :: 0 <= p < |spans| ==> FirstOf(Head(spans[p], descending), Sets(spans)[p], descending)
  {
    hide FirstOf;
    forall p | 0 <= p < |spans| ensures FirstOf(Head(spans[p], descending), Sets(spans)[p], descending) {
      assert Open(spans[p]);
      HeadMoves(spans[p], descending);
    }
  }

  /** The value the next step of the merge reads. */
  method Pick(spans: seq<Span>, descending: bool) returns (pick: nat)
    requires AllOpen(spans) && |spans| > 0
    ensures FirstOf(pick, All(Sets(spans)), descending)
  {
    hide FirstOf, All, Before;
    OpenHeads(spans, descending);
    pick := Nearest(Heads(spans, descending), descending);
    PickFirst(Sets(spans), Heads(spans, descending), pick, descending);
  }

  lemma SpanRemoved(spans: seq<Span>, p: nat)
    requires p < |spans| && AllOpen(SwapRemoved(spans, p)) && SpanSet(spans[p]) == {}
    ensures All(Sets(SwapRemoved(spans, p))) == All(Sets(spans))
  {
    AllSwapRemoved(Sets(spans), p);
    assert Sets(SwapRemoved(spans, p)) == SwapRemoved(Sets(spans), p);
  }

  lemma SpanMoved(spans: seq<Span>, p: nat, descending: bool)
    requires p < |spans| && Open(spans[p])
    ensures var moved, pick := Moved(spans[p], descending), Head(spans[p], descending);
            All(Sets(spans[p := moved])) + {pick} == All(Sets(spans)) && pick !in SpanSet(moved)
            && Sorted(moved) && (moved.begin == moved.end ==> SpanSet(moved) == {})
  {
    HeadMoves(spans[p], descending);
    AllMoved(Sets(spans), p, Head(spans[p], descending));
    assert Sets(spans[p := Moved(spans[p], descending)])
        == Sets(spans)[p := SpanSet(Moved(spans[p], descending))];
  }

  /** `pick` leaves the union, and no empty span remains. */
  method Step(spans: seq<Span>, pick: nat, descending: bool) returns (r: seq<Span>)
    requires AllOpen(spans) && FirstOf(pick, All(Sets(spans)), descending)
    ensures AllOpen(r) && |r| <= |spans| && All(Sets(r)) == All(Sets(spans)) - {pick}
  {
    hide All, SpanSet, Before;
    ghost var was := All(Sets(spans));
    r := spans;
    var p := 0;
    while p < |r|
      invariant 0 <= p <= |r| <= |spans| && AllOpen(r)
      invariant All(Sets(r)) + {pick} == was
      invariant forall i :: 0 <= i < p ==> pick !in SpanSet(r[i])
      decreases |r| - p
    {
      assert Open(r[p]);
      HeadMoves(r[p], descending);
      PartWithin(Sets(r), p);
      PickOnlyFirst(Sets(r), p, Head(r[p], descending), pick, descending);
      if Head(r[p], descending) == pick {
        var moved := Moved(r[p], descending);
        SpanMoved(r, p, descending);
        if moved.begin == moved.end {
          SpanRemoved(r[p := moved], p);
          assert SwapRemoved(r[p := moved], p) == SwapRemoved(r, p);
          r := SwapRemoved(r, p);
          continue;
        }
        r := r[p := moved];
      }
      p := p + 1;
    }
    AllWithout(Sets(r), was, pick);
  }

  // ---------- a page being read ----------

  /** After `n` of the entries of `q` the page holds its part of them, and this much of the skip is left. */
  ghost predicate Read(out: seq<nat>, skip: nat, q: seq<nat>, n: nat, skipped: nat, size: nat) {
    n <= |q| && out == Window(q[..n], skipped, size) && skip == SkipAfter(skipped, n)
  }

  lemma ReadNone(q: seq<nat>, skip: nat, size: nat)
    ensures Read([], skip, q, 0, skip, size)
  {
  }

  /** One more entry: passed over, or written. */
  lemma ReadOne(out: seq<nat>, skip: nat, q: seq<nat>, n: nat, skipped: nat, size: nat)
    requires Read(out, skip, q, n, skipped, size) && n < |q|
    ensures skip > 0 ==> Read(out, skip - 1, q, n + 1, skipped, size)
    ensures skip == 0 && |out| < size ==> Read(out + [q[n]], 0, q, n + 1, skipped, size)
  {
    WindowStep(q, n, skipped, size);
  }

  /** Several entries passed over at once. */
  lemma ReadPast(out: seq<nat>, skip: nat, q: seq<nat>, n: nat, m: nat, skipped: nat, size: nat)
    requires Read(out, skip, q, n, skipped, size) && n + m <= |q| && m <= skip
    ensures Read(out, skip - m, q, n + m, skipped, size)
  {
    if m > 0 {
      WindowNone(q[..n], skipped, size);
      WindowNone(q[..n + m], skipped, size);
    }
    hide Window;
  }

  /** A page that is full, or has read everything, is the page of the whole. */
  lemma ReadDone(out: seq<nat>, skip: nat, q: seq<nat>, n: nat, skipped: nat, size: nat)
    requires Read(out, skip, q, n, skipped, size) && (n == |q| || |out| >= size)
    ensures out == Window(q, skipped, size) && (size > 0 ==> skip == SkipAfter(skipped, |q|))
  {
    assert q[..|q|] == q;
    if n < |q| { WindowFull(q, n, skipped, size); }
  }
}
