/**
 * The geohash aggregation behind the map's circles: the request the circle
 * service sends for the current viewport, zoom and query, and the way the
 * nested aggregation response is read back into buckets.
 */
module GeoAggregation {
  import opened Common
  import opened Viewport
  import opened QueryCompiler

  /** One parsed aggregation of a response, by kind, with the name it was given. */
  datatype Agg =
    | SingleBucketAgg(name: string, subs: seq<Agg>)
    | GeoHashGridAgg(name: string, buckets: seq<GridBucket>)
    | AvgAgg(name: string, value: real)
    | StringTermsAgg(name: string, keys: seq<string>)
    | OtherAgg(name: string)

  /** One cell of the geohash grid: its document count and its sub-aggregations. */
  datatype GridBucket = GridBucket(docCount: int, subs: seq<Agg>)

  /**
   * The arguments of the aggregation call: the bounding box, the geohash
   * precision, the query to filter by if there is one, and how many document
   * ids to sample per bucket.
   */
  datatype AggregationRequest = AggregationRequest(box: BoundingBox, precision: int, query: Option<Query>, sampleSize: int)

  /** The aggregation search sent to the backend, always with a query. */
  datatype AggregationSearch = AggregationSearch(box: BoundingBox, precision: int, query: Query, sampleSize: int)

  /**
   * The backend's answer: the aggregations, an IO error, a rejected argument,
   * or an error status.
   */
  datatype AggAnswer = Aggregations(aggs: seq<Agg>) | AggIOError | AggIllegalArgument | AggStatusError

  /**
   * The arguments the circle service passes: the clamped viewport, the
   * precision for the zoom level, and the current query as it stands.
   */
  function CircleServiceRequest(topLeft: Location, bottomRight: Location, zoom: real, query: Option<Query>, sampleSize: int)
    : (r: AggregationRequest)
    ensures r.box == ClampViewport(topLeft, bottomRight)
    ensures r.precision == DepthForZoom(zoom)
    ensures r.query == query
    ensures r.sampleSize == sampleSize
  {
    AggregationRequest(ClampViewport(topLeft, bottomRight), DepthForZoom(zoom), query, sampleSize)
  }

  /** The search built from the arguments: a missing query matches every document. */
  function SearchFor(request: AggregationRequest): (s: AggregationSearch)
    ensures s.box == request.box && s.precision == request.precision && s.sampleSize == request.sampleSize
    ensures request.query.None? ==> s.query == MatchAll
    ensures request.query.Some? ==> s.query == request.query.value
  {
    AggregationSearch(request.box, request.precision, request.query.GetOr(MatchAll), request.sampleSize)
  }

  /** Every request the circle service sends has a valid box and a precision the aggregator accepts. */
  lemma CircleRequestsAreValid(topLeft: Location, bottomRight: Location, zoom: real, query: Option<Query>, sampleSize: int)
    ensures var r := CircleServiceRequest(topLeft, bottomRight, zoom, query, sampleSize);
            && ValidLocation(r.box.topLeft) && ValidLocation(r.box.bottomRight)
            && 1 <= r.precision <= MaxPrecision
  {
  }

  /**
   * What a grid cell's sub-aggregations say: the last averages named
   * center_lat and center_lon, and the keys of every terms aggregation named
   * document_ids, in order.
   */
  datatype CellData = CellData(lat: Option<real>, lon: Option<real>, ids: seq<string>)

  predicate IsAvg(a: Agg, name: string)
  {
    a.AvgAgg? && a.name == name
  }

  /** The single pass over a cell's sub-aggregations, a later average overwriting an earlier one. */
  function ReadCell(subs: seq<Agg>): CellData
    decreases |subs|
  {
    if subs == [] then CellData(None, None, [])
    else
      var init := subs[..|subs| - 1];
      var last := subs[|subs| - 1];
      var before := ReadCell(init);
      match last
      case AvgAgg(name, v) =>
        if name == "center_lat" then CellData(Some(v), before.lon, before.ids)
        else if name == "center_lon" then CellData(before.lat, Some(v), before.ids)
        else before
      case StringTermsAgg(name, keys) =>
        if name == "document_ids" then CellData(before.lat, before.lon, before.ids + keys) else before
      case _ => before
  }

  /** The keys a sub-aggregation lists as document ids. */
  function IdKeys(a: Agg): seq<string>
  {
    if a.StringTermsAgg? && a.name == "document_ids" then a.keys else []
  }

  /** The document ids a cell lists: the keys of its document_ids terms aggregations, in order. */
  function TermKeys(subs: seq<Agg>): seq<string>
    decreases |subs|
  {
    if subs == [] then [] else TermKeys(subs[..|subs| - 1]) + IdKeys(subs[|subs| - 1])
  }

  /** The position of the last average with the given name, if there is one. */
  function LastAvgAt(subs: seq<Agg>, name: string): (r: Option<nat>)
    ensures r.None? <==> forall k :: 0 <= k < |subs| ==> !IsAvg(subs[k], name)
    ensures r.Some? ==> r.value < |subs| && IsAvg(subs[r.value], name)
    ensures r.Some? ==> forall k :: r.value < k < |subs| ==> !IsAvg(subs[k], name)
    decreases |subs|
  {
    if subs == [] then None
    else if IsAvg(subs[|subs| - 1], name) then Some(|subs| - 1)
    else
      var init := subs[..|subs| - 1];
      assert forall k :: 0 <= k < |init| ==> init[k] == subs[k];
      LastAvgAt(init, name)
  }

  /** The value of the last average with the given name, if there is one. */
  function LastAvg(subs: seq<Agg>, name: string): Option<real>
  {
    match LastAvgAt(subs, name)
    case None => None
    case Some(k) => Some(subs[k].value)
  }

  /**
   * The single pass reads what the cell says: the last center_lat average, the
   * last center_lon average, and the keys of every document_ids aggregation.
   */
  lemma {:induction false} ReadCellReads(subs: seq<Agg>)
    ensures ReadCell(subs) == CellData(LastAvg(subs, "center_lat"), LastAvg(subs, "center_lon"), TermKeys(subs))
    decreases |subs|
  {
    if subs != [] {
      var init := subs[..|subs| - 1];
      ReadCellReads(init);
      assert forall k :: 0 <= k < |init| ==> init[k] == subs[k];
    }
  }

  /** Ids are collected from every document_ids aggregation of the cell, not just the first. */
  lemma {:induction false} TermKeysAppend(a: seq<Agg>, b: seq<Agg>)
    ensures TermKeys(a + b) == TermKeys(a) + TermKeys(b)
    decreases |b|
  {
    if b == [] {
      assert a + b == a;
    } else {
      var init := b[..|b| - 1];
      assert (a + b)[..|a + b| - 1] == a + init;
      assert (a + b)[|a + b| - 1] == b[|b| - 1];
      TermKeysAppend(a, init);
    }
  }

  /** A grid cell becomes a bucket only when both averages are present. */
  function ParseBucket(b: GridBucket): (r: Option<GeoBucket>)
    ensures r.Some? <==> ReadCell(b.subs).lat.Some? && ReadCell(b.subs).lon.Some?
    ensures r.Some? ==> r.value == GeoBucket(ReadCell(b.subs).lat.value, ReadCell(b.subs).lon.value, b.docCount, ReadCell(b.subs).ids)
  {
    var cell := ReadCell(b.subs);
    if cell.lat.Some? && cell.lon.Some? then Some(GeoBucket(cell.lat.value, cell.lon.value, b.docCount, cell.ids)) else None
  }

  /** The buckets of one grid, in grid order. */
  function ParseGrid(buckets: seq<GridBucket>): (r: seq<GeoBucket>)
    ensures |r| <= |buckets|
    decreases |buckets|
  {
    if buckets == [] then []
    else
      var init := buckets[..|buckets| - 1];
      var last := ParseBucket(buckets[|buckets| - 1]);
      ParseGrid(init) + (if last.Some? then [last.value] else [])
  }

  lemma {:induction false} ParseGridAppend(a: seq<GridBucket>, b: seq<GridBucket>)
    ensures ParseGrid(a + b) == ParseGrid(a) + ParseGrid(b)
    decreases |b|
  {
    if b == [] {
      assert a + b == a;
    } else {
      var init := b[..|b| - 1];
      assert (a + b)[..|a + b| - 1] == a + init;
      assert (a + b)[|a + b| - 1] == b[|b| - 1];
      ParseGridAppend(a, init);
    }
  }

  /** A cell with both averages yields exactly one bucket, a cell without one yields none. */
  lemma ParseGridSingle(b: GridBucket)
    ensures ParseBucket(b).Some? ==> ParseGrid([b]) == [ParseBucket(b).value]
    ensures ParseBucket(b).None? ==> ParseGrid([b]) == []
  {
    assert [b][..0] == [];
  }

  /** When every cell has both averages, bucket i comes from cell i. */
  lemma {:induction false} ParseGridAllComplete(buckets: seq<GridBucket>)
    requires forall i :: 0 <= i < |buckets| ==> ParseBucket(buckets[i]).Some?
    ensures |ParseGrid(buckets)| == |buckets|
    ensures forall i :: 0 <= i < |buckets| ==> ParseGrid(buckets)[i] == ParseBucket(buckets[i]).value
    decreases |buckets|
  {
    if buckets != [] {
      var init := buckets[..|buckets| - 1];
      var last := buckets[|buckets| - 1];
      assert forall i :: 0 <= i < |init| ==> init[i] == buckets[i];
      ParseGridAllComplete(init);
      assert ParseBucket(last).Some?;
      assert ParseGrid(buckets) == ParseGrid(init) + [ParseBucket(last).value];
    }
  }

  /** Dropping a cell that lacks an average changes nothing. */
  lemma IncompleteCellDropped(a: seq<GridBucket>, b: GridBucket, c: seq<GridBucket>)
    requires ParseBucket(b).None?
    ensures ParseGrid(a + [b] + c) == ParseGrid(a + c)
  {
    ParseGridAppend(a + [b], c);
    ParseGridAppend(a, [b]);
    ParseGridAppend(a, c);
    ParseGridSingle(b);
  }

  /** The buckets of every grid named cells among the sub-aggregations of a filter, in order. */
  function GridsOf(subs: seq<Agg>): seq<GeoBucket>
    decreases |subs|
  {
    if subs == [] then []
    else
      var last := subs[|subs| - 1];
      GridsOf(subs[..|subs| - 1]) + (if last.GeoHashGridAgg? && last.name == "cells" then ParseGrid(last.buckets) else [])
  }

  /** The buckets of every filter named filtered_cells among the response's aggregations, in order. */
  function ParseResponse(aggs: seq<Agg>): seq<GeoBucket>
    decreases |aggs|
  {
    if aggs == [] then []
    else
      var last := aggs[|aggs| - 1];
      ParseResponse(aggs[..|aggs| - 1]) + (if last.SingleBucketAgg? && last.name == "filtered_cells" then GridsOf(last.subs) else [])
  }

  /** The expected response shape: one filter holding one grid. */
  lemma ExpectedShape(buckets: seq<GridBucket>)
    ensures ParseResponse([SingleBucketAgg("filtered_cells", [GeoHashGridAgg("cells", buckets)])]) == ParseGrid(buckets)
  {
    var grid := [GeoHashGridAgg("cells", buckets)];
    assert grid[..0] == [];
    assert GridsOf(grid) == ParseGrid(buckets);
    var top := [SingleBucketAgg("filtered_cells", grid)];
    assert top[..0] == [];
  }

  /** Aggregations of any other kind or name contribute nothing. */
  lemma {:induction false} OtherAggregationsIgnored(aggs: seq<Agg>)
    requires forall i :: 0 <= i < |aggs| ==> !(aggs[i].SingleBucketAgg? && aggs[i].name == "filtered_cells")
    ensures ParseResponse(aggs) == []
    decreases |aggs|
  {
    if aggs != [] {
      OtherAggregationsIgnored(aggs[..|aggs| - 1]);
    }
  }

  /**
   * The aggregation call: the buckets of the response to the search built from
   * the arguments, or on an IO error or a rejected argument an empty list and
   * an error report. An error status is not caught and leaves the call.
   */
  function PerformGeoAggregation(request: AggregationRequest, backend: AggregationSearch -> AggAnswer)
    : (r: Outcome<seq<GeoBucket>>)
    ensures var answer := backend(SearchFor(request));
            && (r.Crashed? <==> answer.AggStatusError?)
            && (r.Returned? ==>
                  && (r.reported <==> answer.AggIOError? || answer.AggIllegalArgument?)
                  && (r.reported ==> r.value == [])
                  && (!r.reported ==> r.value == ParseResponse(answer.aggs)))
  {
    match backend(SearchFor(request))
    case Aggregations(aggs) => Returned(ParseResponse(aggs), false)
    case AggIOError => Returned([], true)
    case AggIllegalArgument => Returned([], true)
    case AggStatusError => Crashed
  }
}
