/** The monument service: the monuments of one type inside a search area. */
module MonumentService {
  import opened Wrappers
  import opened Models

  /** Python truthiness of an optional coordinate: `None` and `0.0` are
      false. */
  predicate Truthy(x: Option<real>)
  {
    x.Some? && x.value != 0.0
  }

  /** The search area: the caller's four coordinates when every one of them
      is truthy, otherwise the configured default box. */
  function SearchBox(blLat: Option<real>, blLon: Option<real>, trLat: Option<real>, trLon: Option<real>, defaultBox: Box): (box: Box)
    ensures Truthy(blLat) && Truthy(blLon) && Truthy(trLat) && Truthy(trLon) ==>
      box == Box(Coord(blLat.value, blLon.value), Coord(trLat.value, trLon.value))
    ensures !(Truthy(blLat) && Truthy(blLon) && Truthy(trLat) && Truthy(trLon)) ==> box == defaultBox
  {
    if Truthy(blLat) && Truthy(blLon) && Truthy(trLat) && Truthy(trLon) then
      Box(Coord(blLat.value, blLon.value), Coord(trLat.value, trLon.value))
    else defaultBox
  }

  /** A coordinate of exactly `0.0` counts as missing: the default box is
      searched even though the caller gave all four coordinates. */
  lemma ZeroCoordinateSelectsDefault(blLon: real, blLat: Option<real>, trLat: Option<real>, trLon: Option<real>, defaultBox: Box)
    requires blLon == 0.0
    ensures SearchBox(blLat, Some(blLon), trLat, trLon, defaultBox) == defaultBox
  {
  }

  /** `mapping.get(t, t)`: a known short type name becomes its full name; any
      other name passes through unchanged. */
  function MapType(mapping: map<string, string>, t: string): (r: string)
    ensures t in mapping ==> r == mapping[t]
    ensures t !in mapping ==> r == t
  {
    if t in mapping then mapping[t] else t
  }

  /** When no full name is itself a short name, mapping twice is mapping
      once. */
  lemma MapTypeIdempotent(mapping: map<string, string>, t: string)
    requires forall k :: k in mapping ==> mapping[k] !in mapping
    ensures MapType(mapping, MapType(mapping, t)) == MapType(mapping, t)
  {
  }

  /** Fetching the monuments of a full type name (the skeleton's
      `get_monuments`): the list, or the message of the exception it raised;
      an input of the model. */
  type Fetch = string -> Result<seq<Monument>, string>

  /** `get_monuments_by_type_and_area`: the fetched monuments of the mapped
      type that lie inside the search box, inclusive on every bound, in their
      original order and copied field for field; a fetch that raises is
      raised again. */
  function GetMonumentsByTypeAndArea(monumentType: string, blLat: Option<real>, blLon: Option<real>,
                                     trLat: Option<real>, trLon: Option<real>,
                                     mapping: map<string, string>, defaultBox: Box, fetch: Fetch): (r: Result<seq<Monument>, string>)
    ensures var fetched := fetch(MapType(mapping, monumentType));
      && (fetched.Failure? <==> r.Failure?)
      && (fetched.Failure? ==> r.error == fetched.error)
      && (r.Success? ==>
            var box := SearchBox(blLat, blLon, trLat, trLon, defaultBox);
            && |r.value| <= |fetched.value|
            && (forall m :: m in r.value <==> m in fetched.value && InBox(box, m.location))
            && (forall m :: multiset(r.value)[m] == if InBox(box, m.location) then multiset(fetched.value)[m] else 0)
            && IsSubsequence(r.value, fetched.value))
  {
    var box := SearchBox(blLat, blLon, trLat, trLon, defaultBox);
    var fetched := fetch(MapType(mapping, monumentType));
    if fetched.Failure? then Failure(fetched.error)
    else
      FilterIsSubsequence(fetched.value, box);
      FilterCounts(fetched.value, box);
      Success(FilterInBox(fetched.value, box))
  }
}
