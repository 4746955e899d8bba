/** The value types shared by the services and the API layer: points, boxes,
    monuments and segments, plus the geometric primitives the system borrows
    from foreign libraries. */
module Models {

  /** A (latitude, longitude) pair. Two points with the same coordinates are
      the same graph node. */
  datatype Coord = Coord(lat: real, lon: real)

  /** An axis-aligned latitude/longitude box. */
  datatype Box = Box(bottomLeft: Coord, topRight: Coord)

  /** A named point of interest. */
  datatype Monument = Monument(name: string, location: Coord)

  /** A segment between two points, as stored in a segments file. */
  datatype Segment = Segment(start: Coord, end: Coord)

  /** Great-circle distance (the `haversine` library); an input of the model. */
  type Metric = (Coord, Coord) -> real

  /** What the model assumes of the great-circle distance: symmetric,
      non-negative and zero between a point and itself. */
  ghost predicate IsDistance(dist: Metric)
  {
    && (forall a, b :: dist(a, b) == dist(b, a))
    && (forall a, b :: dist(a, b) >= 0.0)
    && (forall a :: dist(a, a) == 0.0)
  }

  /** `degrees(acos(c))`; an input of the model. */
  type ArcCosine = real -> real

  /** What the model assumes of `degrees(acos(c))`: on [-1, 1] it lies in [0, 180]. */
  ghost predicate IsArcCosine(acosDeg: ArcCosine)
  {
    forall c :: -1.0 <= c <= 1.0 ==> 0.0 <= acosDeg(c) <= 180.0
  }

  function Abs(x: real): real
  {
    if x < 0.0 then -x else x
  }

  /** The inclusive box test shared by every monument filter. */
  predicate InBox(box: Box, p: Coord)
  {
    && box.bottomLeft.lat <= p.lat <= box.topRight.lat
    && box.bottomLeft.lon <= p.lon <= box.topRight.lon
  }

  /** The monuments of `ms` that lie in `box`, in their original order. */
  function FilterInBox(ms: seq<Monument>, box: Box): (r: seq<Monument>)
    ensures |r| <= |ms|
    ensures forall i :: 0 <= i < |r| ==> InBox(box, r[i].location)
    ensures forall m :: m in r <==> m in ms && InBox(box, m.location)
  {
    if ms == [] then []
    else if InBox(box, ms[0].location) then [ms[0]] + FilterInBox(ms[1..], box)
    else FilterInBox(ms[1..], box)
  }

  /** The filter keeps every copy of a monument inside the box and no copy of
      one outside it. */
  lemma {:induction false} FilterCounts(ms: seq<Monument>, box: Box)
    ensures forall m :: multiset(FilterInBox(ms, box))[m] == if InBox(box, m.location) then multiset(ms)[m] else 0
    decreases |ms|
  {
    if ms != [] {
      FilterCounts(ms[1..], box);
      assert ms == [ms[0]] + ms[1..];
      assert multiset(ms) == multiset{ms[0]} + multiset(ms[1..]);
    }
  }

  /** `s` is obtained from `t` by deleting elements, keeping the rest in order. */
  ghost predicate IsSubsequence<T>(s: seq<T>, t: seq<T>)
    decreases |t|
  {
    if s == [] then true
    else if t == [] then false
    else if s[0] == t[0] then IsSubsequence(s[1..], t[1..])
    else IsSubsequence(s, t[1..])
  }

  /** The filter keeps the input order: it is a subsequence of its input. */
  lemma {:induction false} FilterIsSubsequence(ms: seq<Monument>, box: Box)
    ensures IsSubsequence(FilterInBox(ms, box), ms)
    decreases |ms|
  {
    if ms != [] {
      FilterIsSubsequence(ms[1..], box);
      var rest := FilterInBox(ms[1..], box);
      if !InBox(box, ms[0].location) {
        SubsequenceSkip(rest, ms);
      }
    }
  }

  lemma {:induction false} SubsequenceSkip<T>(s: seq<T>, t: seq<T>)
    requires t != []
    requires IsSubsequence(s, t[1..])
    ensures IsSubsequence(s, t)
    decreases |s| + |t|
  {
    if s != [] && s[0] == t[0] {
      // s[1..] is a subsequence of t[1..] because s is one of t[1..]
      SubsequenceTail(s, t[1..]);
    }
  }

  lemma {:induction false} SubsequenceTail<T>(s: seq<T>, t: seq<T>)
    requires s != []
    requires IsSubsequence(s, t)
    ensures IsSubsequence(s[1..], t)
    decreases |s| + |t|
  {
    if t == [] {
    } else if s[0] == t[0] {
      var u := s[1..];
      assert IsSubsequence(u, t[1..]);
      if u != [] {
        SubsequenceSkip(u, t);
      }
    } else {
      SubsequenceTail(s, t[1..]);
      SubsequenceSkip(s[1..], t);
    }
  }

  lemma ConsAssociates<T>(x: T, p: seq<T>, q: seq<T>)
    ensures [x] + (p + q) == ([x] + p) + q
  {
  }

  /** The filter distributes over concatenation, so it decides every element
      independently of its neighbours. */
  lemma {:induction false} FilterAppend(a: seq<Monument>, b: seq<Monument>, box: Box)
    ensures FilterInBox(a + b, box) == FilterInBox(a, box) + FilterInBox(b, box)
    decreases |a|
  {
    if a == [] {
      assert a + b == b;
    } else {
      var ab := a + b;
      assert ab[0] == a[0];
      assert ab[1..] == a[1..] + b;
      FilterAppend(a[1..], b, box);
      if InBox(box, a[0].location) {
        ConsAssociates(a[0], FilterInBox(a[1..], box), FilterInBox(b, box));
      }
    }
  }
}
