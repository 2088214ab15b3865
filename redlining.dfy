/** The `/redlining` route: keep the features that have a point inside a
    closed longitude/latitude box, in input order.

    The filter loop breaks out of the ring and polygon loops as soon as the
    RESULT LIST is non-empty, not as soon as the current feature matched. So
    once some feature has been kept, every later feature is tested only on
    the first ring of its first polygon. `Redline` states exactly that;
    `IntendedRedline` is the per-feature filter the loop was evidently meant
    to be. */
module Redlining {
  import opened GeoJson
  import opened Subsequences

  const MissingParametersMessage := "Missing one or more required parameters: minLon, maxLon, minLat, maxLat"
  const FailurePrefix := "An error occurred while processing the redlining request: "
  const ResultKey := "redlinedData"

  /** A query parameter: absent, present but not a number (`Double.parseDouble`
      throws with `message`), or a parsed number. */
  datatype Param = Missing | Unparsable(message: string) | Number(value: real)

  /** The query box, exactly as given: the bounds are never swapped. */
  datatype Box = Box(minLon: real, maxLon: real, minLat: real, maxLat: real)

  predicate InBox(point: Point, box: Box) {
    && |point| >= 2
    && point[0] >= box.minLon && point[0] <= box.maxLon
    && point[1] >= box.minLat && point[1] <= box.maxLat
  }

  predicate RingHit(ring: Ring, box: Box) {
    exists k :: 0 <= k < |ring| && InBox(ring[k], box)
  }

  predicate PolygonHit(polygon: Polygon, box: Box) {
    exists q :: 0 <= q < |polygon| && RingHit(polygon[q], box)
  }

  /** Some point of some ring of some polygon lies in the box. */
  predicate AnyHit(coordinates: MultiPolygonCoordinates, box: Box) {
    exists p :: 0 <= p < |coordinates| && PolygonHit(coordinates[p], box)
  }

  /** Some point of the first ring of the first polygon lies in the box. */
  predicate FirstRingHit(coordinates: MultiPolygonCoordinates, box: Box) {
    |coordinates| > 0 && |coordinates[0]| > 0 && RingHit(coordinates[0][0], box)
  }

  /** The feature has a geometry whose type is exactly "MultiPolygon" and whose
      coordinates are not null: the only features the loop looks into. */
  predicate IsMultiPolygon(f: Feature) {
    f.geometry.Some? && f.geometry.value.kind == Some("MultiPolygon") && f.geometry.value.coordinates.Some?
  }

  function Coordinates(f: Feature): MultiPolygonCoordinates
    requires IsMultiPolygon(f)
  {
    f.geometry.value.coordinates.value
  }

  /** A multipolygon feature with some point in the box. */
  predicate Admitted(f: Feature, box: Box) {
    IsMultiPolygon(f) && AnyHit(Coordinates(f), box)
  }

  /** Whether the loop appends `f`, given whether the result list was already
      non-empty when it reached `f`. */
  predicate Selected(f: Feature, box: Box, matchedBefore: bool) {
    if matchedBefore then IsMultiPolygon(f) && FirstRingHit(Coordinates(f), box)
    else Admitted(f, box)
  }

  /** The result list after the loop has gone through `fs`. */
  function Redline(fs: seq<Feature>, box: Box): (r: seq<Feature>)
    decreases |fs|
  {
    if fs == [] then []
    else
      var n := |fs| - 1;
      var before := Redline(fs[..n], box);
      if Selected(fs[n], box, before != []) then before + [fs[n]] else before
  }

  /** The positions of `fs` that `Redline` takes. */
  function RedlineIndices(fs: seq<Feature>, box: Box): (r: seq<nat>)
    decreases |fs|
  {
    if fs == [] then []
    else
      var n := |fs| - 1;
      var before := RedlineIndices(fs[..n], box);
      if Selected(fs[n], box, before != []) then before + [n] else before
  }

  /** The position of the first admitted feature, or |fs| when there is none. */
  function FirstAdmitted(fs: seq<Feature>, box: Box): (r: nat)
    ensures r <= |fs|
    ensures forall j :: 0 <= j < r ==> !Admitted(fs[j], box)
    ensures r < |fs| ==> Admitted(fs[r], box)
    decreases |fs|
  {
    if fs == [] then 0
    else
      var n := |fs| - 1;
      var before := FirstAdmitted(fs[..n], box);
      if before < n then before
      else if Admitted(fs[n], box) then n
      else n + 1
  }

  lemma FirstRingHitIsHit(coordinates: MultiPolygonCoordinates, box: Box)
    requires FirstRingHit(coordinates, box)
    ensures AnyHit(coordinates, box)
  {
  }

  /** The result is the input read at strictly increasing positions (input
      order, each feature at most once). Up to and including the first
      admitted feature a feature is kept iff it is admitted; after it, iff it
      is a multipolygon whose first ring of its first polygon has a point in
      the box. */
  lemma {:induction false} RedlineSelects(fs: seq<Feature>, box: Box)
    ensures PicksAt(Redline(fs, box), fs, RedlineIndices(fs, box))
    ensures Redline(fs, box) != [] <==> FirstAdmitted(fs, box) < |fs|
    ensures forall i :: 0 <= i < |fs| ==>
              (i in RedlineIndices(fs, box) <==>
                 if i <= FirstAdmitted(fs, box) then Admitted(fs[i], box)
                 else IsMultiPolygon(fs[i]) && FirstRingHit(Coordinates(fs[i]), box))
    decreases |fs|
  {
    if fs != [] {
      var n := |fs| - 1;
      var init := fs[..n];
      assert fs == init + [fs[n]];
      RedlineSelects(init, box);
      PicksAtSnoc(Redline(init, box), init, RedlineIndices(init, box), fs[n]);
      forall i | 0 <= i < n
        ensures (i in RedlineIndices(fs, box) <==> i in RedlineIndices(init, box))
        ensures (i <= FirstAdmitted(fs, box) <==> i <= FirstAdmitted(init, box))
      {
      }
    }
  }

  /** The result is non-empty iff some input feature is a multipolygon with a
      point in the box; the first such feature is always kept. */
  lemma {:induction false} RedlineNonEmptyIffSomeAdmitted(fs: seq<Feature>, box: Box)
    ensures Redline(fs, box) != [] <==> exists i :: 0 <= i < |fs| && Admitted(fs[i], box)
    ensures forall i :: 0 <= i < |fs| && Admitted(fs[i], box) ==> Redline(fs, box) != []
  {
    RedlineSelects(fs, box);
  }

  /** Every kept feature is a multipolygon with some point, of at least two
      components, inside the closed box. */
  lemma {:induction false} RedlineKeepsOnlyAdmitted(fs: seq<Feature>, box: Box)
    ensures forall f :: f in Redline(fs, box) ==> Admitted(f, box)
  {
    RedlineSelects(fs, box);
    var r, idx := Redline(fs, box), RedlineIndices(fs, box);
    forall f | f in r
      ensures Admitted(f, box)
    {
      var k :| 0 <= k < |r| && r[k] == f;
      var i := idx[k];
      assert i in idx;
      if FirstAdmitted(fs, box) < i {
        FirstRingHitIsHit(Coordinates(fs[i]), box);
      }
    }
  }

  lemma EmptyBoxHasNoHit(coordinates: MultiPolygonCoordinates, box: Box)
    requires box.minLon > box.maxLon || box.minLat > box.maxLat
    ensures !AnyHit(coordinates, box)
  {
  }

  /** With minLon > maxLon or minLat > maxLat no point is in the box, so the
      result is empty: an inverted box is not normalised. */
  lemma {:induction false} EmptyBoxKeepsNothing(fs: seq<Feature>, box: Box)
    requires box.minLon > box.maxLon || box.minLat > box.maxLat
    ensures Redline(fs, box) == []
  {
    RedlineSelects(fs, box);
    forall i | 0 <= i < |fs| && IsMultiPolygon(fs[i])
      ensures !Admitted(fs[i], box)
    {
      EmptyBoxHasNoHit(Coordinates(fs[i]), box);
    }
  }

  /** A completed request: status, response key and payload. */
  function ServerError(message: string): Response {
    Response(500, ErrorKey, Error(FailurePrefix + message))
  }

  /** The whole route: the parameter check, the four parses in source order,
      reading the data file, and the filter. */
  function Respond(minLon: Param, maxLon: Param, minLat: Param, maxLat: Param, file: DataFile): (r: Response)
    ensures r.status == 400 <==> minLon.Missing? || maxLon.Missing? || minLat.Missing? || maxLat.Missing?
    ensures r.status == 400 ==> r == Response(400, ErrorKey, Error(MissingParametersMessage))
    ensures r.status == 500 <==>
              && !(minLon.Missing? || maxLon.Missing? || minLat.Missing? || maxLat.Missing?)
              && (minLon.Unparsable? || maxLon.Unparsable? || minLat.Unparsable? || maxLat.Unparsable?
                  || ReadFeatures(file).LoadFailed?)
    ensures r.status == 500 ==> r.key == ErrorKey && r.payload.Error?
    ensures r.status in {200, 400, 500}
    ensures r.status == 200 ==>
              && r.key == ResultKey
              && r.payload == Data(Redline(ReadFeatures(file).features,
                                           Box(minLon.value, maxLon.value, minLat.value, maxLat.value)))
  {
    if minLon.Missing? || maxLon.Missing? || minLat.Missing? || maxLat.Missing? then
      Response(400, ErrorKey, Error(MissingParametersMessage))
    else if minLon.Unparsable? then ServerError(minLon.message)
    else if maxLon.Unparsable? then ServerError(maxLon.message)
    else if minLat.Unparsable? then ServerError(minLat.message)
    else if maxLat.Unparsable? then ServerError(maxLat.message)
    else
      match ReadFeatures(file)
      case LoadFailed(message) => ServerError(message)
      case Loaded(features) =>
        Response(200, ResultKey, Data(Redline(features, Box(minLon.value, maxLon.value, minLat.value, maxLat.value))))
  }

  /** A data file without a `features` member gives status 200 and an empty
      `redlinedData` for every complete, parsable query. */
  lemma NoFeaturesKeyGivesEmptyResult(minLon: real, maxLon: real, minLat: real, maxLat: real)
    ensures Respond(Number(minLon), Number(maxLon), Number(minLat), Number(maxLat), Document(Absent))
            == Response(200, ResultKey, Data([]))
  {
  }

  /** The filter loop of the handler, with its three inner loops and its
      breaks: the point loop stops at the first point in the box, and the ring
      and polygon loops stop as soon as the result list is non-empty. */
  method FilterByBox(redliningData: seq<Feature>, box: Box) returns (matchingData: seq<Feature>)
    ensures matchingData == Redline(redliningData, box)
  {
    matchingData := [];
    for i := 0 to |redliningData|
      invariant matchingData == Redline(redliningData[..i], box)
    {
      var feature := redliningData[i];
      ghost var before := matchingData;
      var geometry := feature.geometry;
      if geometry.Some? && geometry.value.kind == Some("MultiPolygon") {
        var coordinates := geometry.value.coordinates;
        if coordinates.Some? {
          var polygons := coordinates.value;
          var p := 0;
          while p < |polygons|
            invariant 0 <= p <= |polygons|
            invariant matchingData == before
            invariant before != [] ==> p == 0
            invariant forall j :: 0 <= j < p ==> !PolygonHit(polygons[j], box)
          {
            var polygon := polygons[p];
            var q := 0;
            while q < |polygon|
              invariant 0 <= q <= |polygon|
              invariant matchingData == before
              invariant before != [] ==> q == 0
              invariant forall j :: 0 <= j < q ==> !RingHit(polygon[j], box)
            {
              var ring := polygon[q];
              var k := 0;
              while k < |ring|
                invariant 0 <= k <= |ring|
                invariant matchingData == before
                invariant forall j :: 0 <= j < k ==> !InBox(ring[j], box)
              {
                var point := ring[k];
                if |point| >= 2 {
                  var longitude := point[0];
                  var latitude := point[1];
                  if longitude >= box.minLon && longitude <= box.maxLon
                     && latitude >= box.minLat && latitude <= box.maxLat
                  {
                    assert InBox(ring[k], box);
                    matchingData := matchingData + [feature];
                    break;
                  }
                }
                k := k + 1;
              }
              if matchingData != [] {
                break;
              }
              q := q + 1;
            }
            if matchingData != [] {
              break;
            }
            p := p + 1;
          }
        }
      }
      assert redliningData[..i + 1][..i] == redliningData[..i];
    }
    assert redliningData[..|redliningData|] == redliningData;
  }

  /** The `handle` method of the route. */
  method Handle(minLonParam: Param, maxLonParam: Param, minLatParam: Param, maxLatParam: Param, file: DataFile)
    returns (response: Response)
    ensures response == Respond(minLonParam, maxLonParam, minLatParam, maxLatParam, file)
  {
    if minLonParam.Missing? || maxLonParam.Missing? || minLatParam.Missing? || maxLatParam.Missing? {
      return Response(400, ErrorKey, Error(MissingParametersMessage));
    }
    if minLonParam.Unparsable? {
      return ServerError(minLonParam.message);
    }
    if maxLonParam.Unparsable? {
      return ServerError(maxLonParam.message);
    }
    if minLatParam.Unparsable? {
      return ServerError(minLatParam.message);
    }
    if maxLatParam.Unparsable? {
      return ServerError(maxLatParam.message);
    }
    var box := Box(minLonParam.value, maxLonParam.value, minLatParam.value, maxLatParam.value);
    var loaded := ReadFeatures(file);
    if loaded.LoadFailed? {
      return ServerError(loaded.message);
    }
    var matchingData := FilterByBox(loaded.features, box);
    response := Response(200, ResultKey, Data(matchingData));
  }

  // ----- The per-feature filter the loop was evidently meant to be -----

  /** Keeps every admitted feature, whatever came before it. */
  function IntendedRedline(fs: seq<Feature>, box: Box): (r: seq<Feature>)
    decreases |fs|
  {
    if fs == [] then []
    else
      var n := |fs| - 1;
      var before := IntendedRedline(fs[..n], box);
      if Admitted(fs[n], box) then before + [fs[n]] else before
  }

  function IntendedIndices(fs: seq<Feature>, box: Box): (r: seq<nat>)
    decreases |fs|
  {
    if fs == [] then []
    else
      var n := |fs| - 1;
      var before := IntendedIndices(fs[..n], box);
      if Admitted(fs[n], box) then before + [n] else before
  }

  /** The corrected filter keeps, in input order and once each, exactly the
      multipolygon features with some point in the box. */
  lemma {:induction false} IntendedSelects(fs: seq<Feature>, box: Box)
    ensures PicksAt(IntendedRedline(fs, box), fs, IntendedIndices(fs, box))
    ensures forall i :: 0 <= i < |fs| ==> (i in IntendedIndices(fs, box) <==> Admitted(fs[i], box))
    decreases |fs|
  {
    if fs != [] {
      var n := |fs| - 1;
      var init := fs[..n];
      assert fs == init + [fs[n]];
      IntendedSelects(init, box);
      PicksAtSnoc(IntendedRedline(init, box), init, IntendedIndices(init, box), fs[n]);
    }
  }

  /** When every feature that has a point in the box has one in the first ring
      of its first polygon, as written and as intended agree. */
  lemma {:induction false} AgreesWhenHitsAreInFirstRing(fs: seq<Feature>, box: Box)
    requires forall f :: f in fs && Admitted(f, box) ==> FirstRingHit(Coordinates(f), box)
    ensures Redline(fs, box) == IntendedRedline(fs, box)
    decreases |fs|
  {
    if fs != [] {
      var n := |fs| - 1;
      var init := fs[..n];
      assert forall f :: f in init ==> f in fs;
      AgreesWhenHitsAreInFirstRing(init, box);
      if IsMultiPolygon(fs[n]) && FirstRingHit(Coordinates(fs[n]), box) {
        FirstRingHitIsHit(Coordinates(fs[n]), box);
      }
    }
  }

  /** The loop as written drops a feature whose only point in the box lies
      outside the first ring of its first polygon once an earlier feature has
      been kept, although it keeps the same feature when it comes first. */
  lemma QuirkDropsLaterFeature()
    ensures var box := Box(0.0, 1.0, 0.0, 1.0);
            var first := Feature(Some(Geometry(Some("MultiPolygon"), Some([[[[0.5, 0.5]]]]))), None);
            var second := Feature(Some(Geometry(Some("MultiPolygon"), Some([[[[5.0, 5.0]]], [[[0.5, 0.5]]]]))), None);
            && Redline([second], box) == [second]
            && Redline([first, second], box) == [first]
            && IntendedRedline([first, second], box) == [first, second]
  {
    var box := Box(0.0, 1.0, 0.0, 1.0);
    var first := Feature(Some(Geometry(Some("MultiPolygon"), Some([[[[0.5, 0.5]]]]))), None);
    var second := Feature(Some(Geometry(Some("MultiPolygon"), Some([[[[5.0, 5.0]]], [[[0.5, 0.5]]]]))), None);
    var c1, c2 := Coordinates(first), Coordinates(second);
    assert InBox(c1[0][0][0], box);
    assert RingHit(c1[0][0], box);
    assert PolygonHit(c1[0], box);
    assert InBox(c2[1][0][0], box);
    assert RingHit(c2[1][0], box);
    assert PolygonHit(c2[1], box);
    assert !InBox(c2[0][0][0], box);
    assert !FirstRingHit(c2, box);
    assert Admitted(first, box) && Admitted(second, box);
    assert [first, second][..1] == [first];
    assert [second][..0] == [];
    assert [first, second][..1][..0] == [];
    assert [first][..0] == [];
    assert IntendedRedline([first], box) == [first];
  }
}
