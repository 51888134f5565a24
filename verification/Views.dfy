// What a roaring set holds: the mathematical set behind its two forms.
module Views {
  import opened Order
  import opened WordBuffer
  import opened Containers

  /** A set as it is read: sparse while it has no containers. */
  datatype View = View(values: seq<nat>, containers: seq<Container>, cardinality: nat, maximum: nat) {
    predicate Sparse() { |containers| == 0 }
  }

  ghost predicate In(view: View, value: nat) {
    if view.Sparse() then value in view.values
    else exists i :: 0 <= i < |view.containers| && InContainer(view.containers[i], value)
  }

  ghost predicate InContainer(c: Container, value: nat) { KeyOf(value) == c.key && Has(c, LowOf(value)) }

  /** The values of a set. */
  ghost function Content(view: View): set<nat> { set v: nat | v <= UINT32_MAX && In(view, v) }

  /** The values of one container. */
  ghost function Lifted(c: Container): set<nat> { set v: nat | v <= UINT32_MAX && InContainer(c, v) }

  /** The values low parts of one key stand for. */
  ghost function Lift(key: nat, lows: set<nat>): set<nat> {
    set v: nat | v <= UINT32_MAX && KeyOf(v) == key && LowOf(v) in lows
  }

  lemma LiftPoint(key: nat, lows: set<nat>, v: nat)
    requires key < LOWS && forall x :: x in lows ==> x < LOWS
    ensures v in Lift(key, lows) <==> v >= key * 65536 && v - key * 65536 in lows
  {
    ValueIs(KeyOf(v), LowOf(v));
    JoinValue(v);
    if v >= key * 65536 && v - key * 65536 in lows {
      ValueIs(key, v - key * 65536);
      SplitValue(key, v - key * 65536);
    }
    hide KeyOf, LowOf, ValueOf;
  }

  lemma ValueIs(key: nat, low: nat)
    ensures ValueOf(key, low) == key * 65536 + low
    ensures key < LOWS && low < LOWS ==> ValueOf(key, low) <= UINT32_MAX
  {
  }

  lemma LiftSize(key: nat, lows: set<nat>)
    requires key < LOWS && forall x :: x in lows ==> x < LOWS
    ensures |Lift(key, lows)| == |lows|
  {
    forall v: nat ensures v in Lift(key, lows) <==> v >= key * 65536 && v - key * 65536 in lows {
      LiftPoint(key, lows, v);
    }
    hide Lift;
    ShiftedSize(lows, key * 65536, Lift(key, lows));
  }

  lemma LiftedSize(c: Container)
    requires Sound(c)
    ensures |Lifted(c)| == c.cardinality
  {
    var lows := Part(c, 0, LOWS - 1);
    WholeKey(c);
    LiftSize(c.key, lows);
    forall v: nat ensures v in Lifted(c) <==> v in Lift(c.key, lows) { JoinValue(v); }
    assert Lifted(c) == Lift(c.key, lows);
  }

  /** `Lows` holds at most ARRAY_MAX values, `Bits` more than that. */
  ghost predicate KindByCount(c: Container) {
    match c.data
    case Lows(_) => c.cardinality <= ARRAY_MAX
    case Bits(_) => c.cardinality > ARRAY_MAX
    case Wide(_) => false
  }

  ghost predicate KeysAscending(cs: seq<Container>) { forall i, j :: 0 <= i < j < |cs| ==> cs[i].key < cs[j].key }

  ghost predicate AllSound(cs: seq<Container>) { forall i :: 0 <= i < |cs| ==> Sound(cs[i]) && KindByCount(cs[i]) }

  /** The shape every set is in between two calls. */
  ghost predicate Shape(view: View) {
    if view.Sparse() then
      Ascending(view.values) && |view.values| <= SPARSE_MAX && forall v :: v in view.values ==> v <= UINT32_MAX
    else
      view.values == [] && KeysAscending(view.containers) && AllSound(view.containers)
  }

  /** A sound set: its shape, its count exact, its maximum the largest value. */
  ghost predicate SoundView(view: View) {
    Shape(view) && view.cardinality == |Content(view)| <= UINT32_MAX
    && (view.cardinality > 0 ==> view.maximum in Content(view))
    && forall v :: v in Content(view) ==> v <= view.maximum
  }

  lemma SparseContent(view: View)
    requires Shape(view) && view.Sparse()
    ensures Content(view) == Elements(view.values) && |Content(view)| == |view.values|
  {
    assert Content(view) == Elements(view.values);
    AscendingSize(view.values);
  }

  /** A container of a larger key appended. */
  lemma Appended(view: View, c: Container, grown: View)
    requires Shape(view) && (view.Sparse() ==> view.values == []) && view.cardinality == |Content(view)|
    requires Sound(c) && KindByCount(c) && forall i :: 0 <= i < |view.containers| ==> view.containers[i].key < c.key
    requires grown.values == [] && grown.containers == view.containers + [c]
    ensures Shape(grown) && Content(grown) == Content(view) + Lifted(c)
    ensures |Content(grown)| == |Content(view)| + c.cardinality
    ensures forall v, w :: v in Content(view) && w in Lifted(c) ==> v < w
  {
    hide Has, Sound, InContainer, KindByCount, Content, Lifted, In;
    AppendedContent(view, c, grown);
    LiftedSize(c);
    forall v: nat, w: nat | v in Content(view) && w in Lifted(c) ensures v < w { KeyDecides(view, c, v, w); }
    DisjointSize(Content(view), Lifted(c), Content(grown));
  }

  lemma AppendedContent(view: View, c: Container, grown: View)
    requires view.Sparse() ==> view.values == []
    requires grown.containers == view.containers + [c]
    ensures Content(grown) == Content(view) + Lifted(c)
  {
    hide InContainer;
    forall v: nat | v <= UINT32_MAX ensures In(grown, v) <==> In(view, v) || InContainer(c, v) {
      assert grown.containers[|view.containers|] == c;
      if !view.Sparse() && In(view, v) {
        var i :| 0 <= i < |view.containers| && InContainer(view.containers[i], v);
        assert InContainer(grown.containers[i], v);
      }
    }
  }

  lemma KeyDecides(view: View, c: Container, v: nat, w: nat)
    requires (view.Sparse() ==> view.values == []) && v in Content(view) && w in Lifted(c)
    requires forall i :: 0 <= i < |view.containers| ==> view.containers[i].key < c.key
    ensures v < w
  {
    var i :| 0 <= i < |view.containers| && InContainer(view.containers[i], v);
    JoinValue(v); JoinValue(w);
    ValueOrder(KeyOf(v), LowOf(v), KeyOf(w), LowOf(w));
  }

  /** The last container replaced by one that holds one low part more. */
  lemma LastGrown(view: View, c: Container, low: nat, grown: View)
    requires Shape(view) && !view.Sparse() && Sound(c) && KindByCount(c) && low < LOWS
    requires var n := |view.containers| - 1;
             c.key == view.containers[n].key && !Has(view.containers[n], low)
             && (forall x: nat :: x < LOWS ==> (Has(c, x) <==> Has(view.containers[n], x) || x == low))
             && grown.values == [] && grown.containers == view.containers[..n] + [c]
    ensures Shape(grown) && Content(grown) == Content(view) + {ValueOf(c.key, low)}
    ensures ValueOf(c.key, low) !in Content(view)
  {
    var n := |view.containers| - 1;
    var last := view.containers[n];
    var front := View([], view.containers[..n], 0, 0);
    AppendedContent(front, last, view);
    AppendedContent(front, c, grown);
    OneMoreLow(last, c, low);
    forall v: nat | v in Content(front) ensures v != ValueOf(c.key, low) {
      KeyDecides(front, c, v, ValueOf(c.key, low));
    }
    hide Has, Sound, InContainer, KindByCount, Content, Lifted, In;
    assert view.containers == front.containers + [last];
    assert AllSound(grown.containers);
  }

  lemma OneMoreLow(c: Container, d: Container, low: nat)
    requires c.key == d.key < LOWS && low < LOWS && !Has(c, low)
    requires forall x: nat :: x < LOWS ==> (Has(d, x) <==> Has(c, x) || x == low)
    ensures Lifted(d) == Lifted(c) + {ValueOf(d.key, low)} && ValueOf(d.key, low) !in Lifted(c)
  {
    hide Has;
    var value := ValueOf(d.key, low);
    SplitValue(d.key, low);
    forall v: nat | v <= UINT32_MAX ensures InContainer(d, v) <==> InContainer(c, v) || v == value {
      JoinValue(v);
    }
  }
}
