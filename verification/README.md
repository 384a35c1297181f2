# Calliope map core, modelled in Dafny

Calliope is a desktop client for exploring geotagged image collections on a
map, backed by an Elasticsearch index. This project models the deterministic
core of two of its classes and proves properties of that model:

- the map controller (`CalliopeMapController`). This covers:
  - the zoom-to-geohash-precision step function;
  - the clamping of the viewport corners before either background service asks the backend anything;
  - the reconciler that grows or shrinks the parallel circle and controller lists to the bucket count, then moves circle i to bucket i;
  - exclusive circle selection;
  - compiling the enabled filter conditions into one query;
  - the z-ordered draw list: a rank side table plus the child list sorted by rank;
  - the site-overlay redraw: polygons when zoomed in, pins when zoomed out;
- the result shaping of the backend manager (`ElasticSearchConnectionManager`), against an abstract backend. This covers:
  - index creation;
  - the scroll loop shared by the site, collection and collection-removal reads;
  - boundary conversion;
  - the geohash aggregation parser;
  - NEON site detection by position;
  - the circle lookup's multi-get enrichment;
  - the partitioned enumeration of image paths.

The backend is a pure oracle: a sequence of scripted responses, a function from
request to answer, or a `Call` that answers, fails with an IO error, or is
answered with an error status (the client's unchecked
`ElasticsearchStatusException`). An unchecked Java exception that leaves an operation is the `Crashed` (or `Threw`,
`Crash`, `Fail`, `Throws`) outcome; an error notification is a `reported` flag.

Modules, one per file:
- `Common`: shared vocabulary (options, backend calls, outcomes, JSON values, locations, buckets) and sequence helpers.
- `Viewport`: zoom-to-precision step function and clamping.
- `Layers`: the z-order draw list.
- `Markers`: the circle reconciler and selection.
- `SiteOverlay`: the site redraw and the visibility switches.
- `QueryCompiler`: the filter query.
- `ScrollLoop`: the generic scroll.
- `RemoteStore`: the site, collection and removal scrolls.
- `IndexAdmin`: index creation.
- `GeoAggregation`: the aggregation request and its parser.
- `SiteDetection`: NEON site detection.
- `CircleLookup`: the circle lookup.
- `ImagePaths`: path enumeration.

## Model

| member | source | states |
|---|---|---|
| `Viewport.DepthForZoom` | Calliope/src/main/java/controller/CalliopeMapController.java:831-853 | the precision is always between 1 and 9; zoom at most 5 gives 1, zoom above 19 gives 9 |
| `Viewport.DepthCountsThresholds` | Calliope/src/main/java/controller/CalliopeMapController.java:836-852 | the ladder equals one plus the number of thresholds 5, 8, 10, 12, 14, 16, 18, 19 that the zoom lies strictly above |
| `Viewport.DepthMonotone` | Calliope/src/main/java/controller/CalliopeMapController.java:831-853 | zooming in never gives a coarser precision |
| `Viewport.Clamp` | Calliope/src/main/java/controller/CalliopeMapController.java:319-322 | a value below the range becomes its minimum, one above becomes its maximum, one inside is unchanged |
| `Viewport.ClampIdempotent` | Calliope/src/main/java/controller/CalliopeMapController.java:319-322 | clamping twice is clamping once |
| `Viewport.ClampLocation` | Calliope/src/main/java/controller/CalliopeMapController.java:420-423 | latitude ends in [-90, 90] and longitude in [-180, 180]; an in-range location passes unchanged; each out-of-range coordinate goes to the nearer bound |
| `Viewport.ClampViewport` | Calliope/src/main/java/controller/CalliopeMapController.java:318-322 | both corners handed to the backend are valid, and valid corners are passed through unchanged |
| `Viewport.ClampViewportIdempotent` | Calliope/src/main/java/controller/CalliopeMapController.java:419-423 | clamping an already clamped viewport changes nothing |
| `Layers.ZLayer` | Calliope/src/main/java/controller/CalliopeMapController.java:207-228 | a layer's rank is its position in the enum, in 0..5 |
| `Layers.ZLayersStrictlyIncreasing` | Calliope/src/main/java/controller/CalliopeMapController.java:209-214 | ranks follow enum order strictly |
| `Layers.AddNode` | Calliope/src/main/java/controller/CalliopeMapController.java:863-867 | adding records the node's rank, appends it to the list, and leaves every other rank alone |
| `Layers.AddKeepsWellFormed` | Calliope/src/main/java/controller/CalliopeMapController.java:863-867 | adding a new node keeps the list distinct and in step with the rank table |
| `Layers.AddAll` | Calliope/src/main/java/controller/CalliopeMapController.java:863-867 | adding nodes one after another appends them in order and ranks exactly them, keeping the list well formed when they are new and distinct |
| `Layers.RemoveFirst` | Calliope/src/main/java/controller/CalliopeMapController.java:876 | the list loses exactly one occurrence of the node |
| `Layers.RemoveFirstOfDistinct` | Calliope/src/main/java/controller/CalliopeMapController.java:876 | in a list without repeats, removing the first occurrence removes the node entirely and keeps the rest in order |
| `Layers.RemoveNode` | Calliope/src/main/java/controller/CalliopeMapController.java:874-878 | removal deletes the node from both the list and the rank table and changes no other rank |
| `Layers.RemoveKeepsWellFormed` | Calliope/src/main/java/controller/CalliopeMapController.java:874-878 | removal keeps the draw list well formed and leaves no copy of the node |
| `Layers.RemoveAll` | Calliope/src/main/java/controller/CalliopeMapController.java:329 | removing a list of nodes drops exactly those nodes from the rank table |
| `Layers.RemoveAllNodes` | Calliope/src/main/java/controller/CalliopeMapController.java:329 | the node list keeps every other node in its order |
| `Layers.RemoveAllKeepsWellFormed` | Calliope/src/main/java/controller/CalliopeMapController.java:329 | removing many nodes keeps the draw list well formed |
| `Layers.InsertByRank` | Calliope/src/main/java/controller/CalliopeMapController.java:250 | inserting into a rank-sorted list keeps it sorted and adds exactly that node |
| `Layers.SortByRank` | Calliope/src/main/java/controller/CalliopeMapController.java:250 | the result is sorted by rank and is a permutation of the input |
| `Layers.Displayed` | Calliope/src/main/java/controller/CalliopeMapController.java:250 | the map's children are the listed nodes, as often as listed, sorted by rank with unranked nodes at -1; every rank of a well-formed list is a real layer |
| `Markers.Select` | Calliope/src/main/java/controller/CalliopeMapController.java:739-752 | the new choice is highlighted, the old one unhighlighted, others untouched; a lookup runs only for a new non-null choice; choosing the current value changes nothing |
| `Markers.SelectKeepsValid` | Calliope/src/main/java/controller/CalliopeMapController.java:739-752 | selection keeps the controller invariant, and only the chosen circle can be highlighted |
| `Markers.SelectClears` | Calliope/src/main/java/controller/CalliopeMapController.java:473 | clearing the selection leaves no circle highlighted |
| `Markers.Positioned` | Calliope/src/main/java/controller/CalliopeMapController.java:451-471 | with equal sizes, circle i moves to bucket i's centre and controller i shows bucket i; with different sizes nothing is updated |
| `Markers.AddCircle` | Calliope/src/main/java/controller/CalliopeMapController.java:807-823 | a new circle and its controller are appended to both lists together and drawn on the circle layer |
| `Markers.RemoveLastCircle` | Calliope/src/main/java/controller/CalliopeMapController.java:443-447 | the tail circle and controller go together and the circle leaves the map |
| `Markers.AppendedKeepsValid` | Calliope/src/main/java/controller/CalliopeMapController.java:435-440 | growing keeps parallel distinct lists, each circle ranked on the circle layer |
| `Markers.Grow` | Calliope/src/main/java/controller/CalliopeMapController.java:435-440 | exactly max(0, n - M) circles are appended, with new identifiers, nothing else changes, and nothing at all when n is at most M |
| `Markers.AppendedIds` | Calliope/src/main/java/controller/CalliopeMapController.java:435-440 | the circle identifiers are the old ones followed by the freshly allocated ones |
| `Markers.TruncatedKeepsValid` | Calliope/src/main/java/controller/CalliopeMapController.java:443-448 | shrinking keeps the controller invariant |
| `Markers.RemoveLastTruncates` | Calliope/src/main/java/controller/CalliopeMapController.java:443-448 | each further tail removal extends a truncation of the original state |
| `Markers.Shrink` | Calliope/src/main/java/controller/CalliopeMapController.java:443-448 | exactly max(0, M - n) circles go from the tail, their nodes and ranks removed, and nothing changes when M is at most n |
| `Markers.TruncatedIds` | Calliope/src/main/java/controller/CalliopeMapController.java:443-448 | the remaining circles are a prefix of the old ones |
| `Markers.Finish` | Calliope/src/main/java/controller/CalliopeMapController.java:451-473 | equal sizes give the positional update; different sizes give only a report; the selection is always cleared and the invariant kept |
| `Markers.Reconcile` | Calliope/src/main/java/controller/CalliopeMapController.java:431-474 | the full listener: as many circles as buckets, circle i at bucket i, no report, no selection, identifiers and draw list changed only at the tail |
| `SiteOverlay.FindSite` | Calliope/src/main/java/controller/CalliopeMapController.java:335 | the first known site with the code, and none exactly when no site has it |
| `SiteOverlay.Matched` | Calliope/src/main/java/controller/CalliopeMapController.java:332-336 | every matched site is the first site for one of the codes, and every code naming a known site yields its site |
| `SiteOverlay.MatchedSingle` | Calliope/src/main/java/controller/CalliopeMapController.java:335 | one code yields its site when it names a known one, and nothing otherwise |
| `SiteOverlay.MatchedAppend` | Calliope/src/main/java/controller/CalliopeMapController.java:332-336 | the sites of concatenated codes are the concatenated sites, so each code yields its own site, once per occurrence, in code order |
| `SiteOverlay.MatchedAllKnown` | Calliope/src/main/java/controller/CalliopeMapController.java:332-336 | when every code is known, the matched sites follow the codes one for one |
| `SiteOverlay.MatchedNoneKnown` | Calliope/src/main/java/controller/CalliopeMapController.java:332-336 | unknown codes yield nothing |
| `SiteOverlay.LayerFor` | Calliope/src/main/java/controller/CalliopeMapController.java:343 | the layer every site shape at the zoom belongs to: the border-polygon layer exactly above the threshold of 10, otherwise the site-pin layer |
| `SiteOverlay.SiteNodesFor` | Calliope/src/main/java/controller/CalliopeMapController.java:337-393 | one node per matched site, in order, numbered consecutively, with the shape chosen by zoom |
| `SiteOverlay.Redraw` | Calliope/src/main/java/controller/CalliopeMapController.java:326-394 | the new site nodes are exactly one per matched site, with fresh consecutive identifiers |
| `SiteOverlay.RedrawTable` | Calliope/src/main/java/controller/CalliopeMapController.java:329-393 | after a redraw the rank table holds the old non-site nodes unchanged and the new site nodes on their shape's layer, nothing else |
| `SiteOverlay.RedrawList` | Calliope/src/main/java/controller/CalliopeMapController.java:329-393 | the draw list is the old list without the previous site nodes, followed by the new ones |
| `SiteOverlay.RedrawKeepsWellFormed` | Calliope/src/main/java/controller/CalliopeMapController.java:329-393 | a redraw keeps the draw list well formed |
| `SiteOverlay.RedrawForgetsOldNodes` | Calliope/src/main/java/controller/CalliopeMapController.java:329-330 | no previous site node survives a redraw |
| `SiteOverlay.RedrawShapes` | Calliope/src/main/java/controller/CalliopeMapController.java:343-393 | zoom above 10 draws polygons on the border layer, otherwise pins on the pin layer |
| `SiteOverlay.VisibleFollowsItsSwitch` | Calliope/src/main/java/controller/CalliopeMapController.java:358-360 | a NEON site shows exactly when the NEON switch is on, an LTAR site exactly when the LTAR switch is on, any other site never |
| `SiteOverlay.PrefixTestIgnoresCase` | Calliope/src/main/java/controller/CalliopeMapController.java:387-389 | the prefix test gives the same answer when either string is upper-cased, and holds exactly when the upper-cased prefix begins the upper-cased string |
| `QueryCompiler.Enabled` | Calliope/src/main/java/controller/CalliopeMapController.java:911-913 | exactly the enabled conditions are kept |
| `QueryCompiler.Compile` | Calliope/src/main/java/controller/CalliopeMapController.java:907-919 | the compiled query holds the clauses of the enabled conditions in list order |
| `QueryCompiler.EnabledClausesAppend` | Calliope/src/main/java/controller/CalliopeMapController.java:911-913 | compiling a concatenation concatenates the compilations |
| `QueryCompiler.OnlyEnabledMatter` | Calliope/src/main/java/controller/CalliopeMapController.java:911-913 | compiling only the enabled conditions gives the same query |
| `QueryCompiler.DisabledContributesNothing` | Calliope/src/main/java/controller/CalliopeMapController.java:912 | inserting a disabled condition anywhere changes nothing |
| `QueryCompiler.NothingEnabled` | Calliope/src/main/java/controller/CalliopeMapController.java:909-916 | with nothing enabled the query has no clauses |
| `QueryCompiler.SetQuery` | Calliope/src/main/java/controller/CalliopeMapController.java:916 | the query is replaced, and the circles are recomputed exactly when it changed |
| `QueryCompiler.RefreshAgainIsQuiet` | Calliope/src/main/java/controller/CalliopeMapController.java:493 | a second refresh with the same conditions does not rerun the circle service |
| `QueryCompiler.FirstRefreshReruns` | Calliope/src/main/java/controller/CalliopeMapController.java:197 | the initial match-all differs from every compiled query, so the first refresh reruns |
| `ScrollLoop.RunScroll` | Calliope/src/main/java/model/elasticsearch/ElasticSearchConnectionManager.java:483-554 | the loop computes exactly the reference scroll: pages in order until the first null or empty one, then a clear; an IO error ends it with a report, an error status escapes |
| `ScrollLoop.ScrollTrace` | Calliope/src/main/java/model/elasticsearch/ElasticSearchConnectionManager.java:536-551 | each scroll request carries the previous response's id; the clear is sent at most once, with the id of the first response without hits |
| `ScrollLoop.ScrollEveryPage` | Calliope/src/main/java/model/elasticsearch/ElasticSearchConnectionManager.java:490-559 | when no page is interrupted, the run escapes exactly when the response that ends it, or the clear after it, is an error status; otherwise every page with hits is handled once in order, the scroll is cleared exactly when its last response arrived, and an error is reported exactly when a page reported one, the ending response was an IO error, or the clear failed or did not succeed |
| `ScrollLoop.InterruptedRunReports` | Calliope/src/main/java/model/elasticsearch/ElasticSearchConnectionManager.java:785-815 | an IO error while handling a page ends the run there with a report and no clear, keeping the output of that page and the pages before it |
| `ScrollLoop.ClearOnlyReported` | Calliope/src/main/java/model/elasticsearch/ElasticSearchConnectionManager.java:549-554 | a clear that fails with an IO error or reports no success is reported, and is only reported: results, requests and the clear itself are unaffected |
| `ScrollLoop.OpeningFailure` | Calliope/src/main/java/model/elasticsearch/ElasticSearchConnectionManager.java:484-560 | an IO error on the opening search gives a report and nothing else |
| `RemoteStore.RawToBoundary` | Calliope/src/main/java/model/elasticsearch/ElasticSearchConnectionManager.java:571-575 | a ring of pairs becomes coordinates one for one, in order, the first number the longitude |
| `RemoteStore.BoundaryToRaw` | Calliope/src/main/java/model/elasticsearch/ElasticSearchConnectionManager.java:571-575 | a boundary written back is one [longitude, latitude] pair per coordinate |
| `RemoteStore.BoundaryRoundTrip` | Calliope/src/main/java/model/elasticsearch/ElasticSearchConnectionManager.java:571-575 | reading a written boundary gives it back |
| `RemoteStore.RawToBoundaries` | Calliope/src/main/java/model/elasticsearch/ElasticSearchConnectionManager.java:525 | the inner rings are converted one for one, in order |
| `RemoteStore.SiteHit` | Calliope/src/main/java/model/elasticsearch/ElasticSearchConnectionManager.java:496-527 | a hit without both a site and a boundary is skipped; a site that is not a JSON object (null included) throws before the boundary is looked at; then a boundary that is not a map, or coordinates that are not a list, skip the hit; a hit is kept exactly when it has a site object and a boundary object whose coordinates are a non-empty list of well-formed rings, and then holds the parsed site, its first ring as the outer boundary and the rest as the inner ones; an empty ring list or a malformed ring throws |
| `RemoteStore.KeepHits` | Calliope/src/main/java/model/elasticsearch/ElasticSearchConnectionManager.java:493-533 | a page throws exactly when one of its hits does, and otherwise yields at most one result per hit |
| `RemoteStore.KeepHitsSingle` | Calliope/src/main/java/model/elasticsearch/ElasticSearchConnectionManager.java:495-530 | one hit gives its value, nothing when skipped, and throws when it throws |
| `RemoteStore.KeepHitsAppend` | Calliope/src/main/java/model/elasticsearch/ElasticSearchConnectionManager.java:493-533 | the values of concatenated hits are the concatenated values, and the page throws exactly when either part does |
| `RemoteStore.KeepHitsAllKept` | Calliope/src/main/java/model/elasticsearch/ElasticSearchConnectionManager.java:493-533 | when every hit is kept, result k is hit k's |
| `RemoteStore.KeepHitsAllSkipped` | Calliope/src/main/java/model/elasticsearch/ElasticSearchConnectionManager.java:497 | hits without the required fields contribute nothing |
| `RemoteStore.PullRemoteSites` | Calliope/src/main/java/model/elasticsearch/ElasticSearchConnectionManager.java:461-563 | the site read is the scroll with the per-hit site rule |
| `RemoteStore.KeepHitsIsKeptSites` | Calliope/src/main/java/model/elasticsearch/ElasticSearchConnectionManager.java:495-530 | a page none of whose hits throws gives the sites of exactly its intact hits, first to last |
| `RemoteStore.PullSitesPageByPage` | Calliope/src/main/java/model/elasticsearch/ElasticSearchConnectionManager.java:483-560 | when no hit throws, the site read escapes only on an error status ending the scroll or on its clear; otherwise it returns the sites of the intact hits of every page, in page order, and reports exactly when the scroll ended on an IO error or its clear failed or did not succeed |
| `RemoteStore.CollectionHit` | Calliope/src/main/java/model/elasticsearch/ElasticSearchConnectionManager.java:614-621 | every collection hit yields its parsed collection |
| `RemoteStore.PullRemoteCollections` | Calliope/src/main/java/model/elasticsearch/ElasticSearchConnectionManager.java:582-651 | the collection read is the scroll with one collection per hit |
| `RemoteStore.PullCollectionsOnePerHit` | Calliope/src/main/java/model/elasticsearch/ElasticSearchConnectionManager.java:604-642 | the collection read throws only on an error status of the response that ends the scroll or of its clear; otherwise the collections are one per hit of every page, in page order, and an error is reported exactly when the scroll ended on an IO error or its clear failed or did not succeed |
| `RemoteStore.BulkDeletePage` | Calliope/src/main/java/model/elasticsearch/ElasticSearchConnectionManager.java:766-788 | each page sends one bulk delete of its hit ids; one with failures prints an error line, which is not a notification; an IO error stops the scroll and an error status escapes |
| `RemoteStore.RemoveCollection` | Calliope/src/main/java/model/elasticsearch/ElasticSearchConnectionManager.java:733-835 | the metadata scroll's deletes, then the collection delete, attempted whatever an IO error did to the scroll; an error status on any request escapes, and a reported error means an IO error or a delete not answered OK |
| `RemoteStore.EscapesOnlyOnStatus` | Calliope/src/main/java/model/elasticsearch/ElasticSearchConnectionManager.java:737-834 | the removal scroll leaves the operation only when a search, scroll, bulk or clear request was answered with an error status, the one exception its IOException handlers do not catch |
| `RemoteStore.OneBulkDeletePerPage` | Calliope/src/main/java/model/elasticsearch/ElasticSearchConnectionManager.java:763-801 | when every bulk answers, the removal throws only on an error status of the response ending the scroll or of its clear, and otherwise the deletes are exactly the pages' hit ids, one bulk per page, each printing an error line exactly when its response had failures; an error is reported exactly when the scroll ended on an IO error or its clear failed or did not succeed |
| `IndexAdmin.DeleteStep` | Calliope/src/main/java/model/elasticsearch/ElasticSearchConnectionManager.java:286-304 | a delete removes the index; an IO error or error status is reported and changes nothing |
| `IndexAdmin.CreateIndexRun` | Calliope/src/main/java/model/elasticsearch/ElasticSearchConnectionManager.java:316-355 | the existence probe always goes first; its IO error is reported and ends the run, its error status escapes; once the create is sent, the run escapes exactly when the create gets an error status, otherwise reports exactly when the create or the delete before it failed, and an accepted create leaves the index with the given definition |
| `IndexAdmin.RequestsFollowTheFlag` | Calliope/src/main/java/model/elasticsearch/ElasticSearchConnectionManager.java:329-348 | delete iff the flag is set and the index exists; create iff the flag is set or the index is missing; delete before create |
| `IndexAdmin.ExistingIndexKept` | Calliope/src/main/java/model/elasticsearch/ElasticSearchConnectionManager.java:332-337 | with the flag off and the index present, nothing is sent after the probe and nothing changes, unless the probe itself is refused with an error status |
| `IndexAdmin.SuccessfulRunLeavesIndex` | Calliope/src/main/java/model/elasticsearch/ElasticSearchConnectionManager.java:316-348 | a run without errors leaves the index present, with the new spec when it was created, and every other index untouched |
| `IndexAdmin.FailedDeleteThenRefusedCreate` | Calliope/src/main/java/model/elasticsearch/ElasticSearchConnectionManager.java:337-354 | after a failed delete, a refused create escapes uncaught and an IO error on create is reported |
| `GeoAggregation.CircleServiceRequest` | Calliope/src/main/java/controller/CalliopeMapController.java:419-426 | the call carries the clamped viewport, the zoom's precision and the current query as it stands |
| `GeoAggregation.SearchFor` | Calliope/src/main/java/model/elasticsearch/ElasticSearchConnectionManager.java:1142-1183 | the search sent carries the call's box, precision and sample size, and its query, match-all when there is none |
| `GeoAggregation.CircleRequestsAreValid` | Calliope/src/main/java/controller/CalliopeMapController.java:419-424 | every request has valid corners and a precision the aggregator accepts |
| `GeoAggregation.LastAvgAt` | Calliope/src/main/java/model/elasticsearch/ElasticSearchConnectionManager.java:1215-1220 | the position of the last average with the name, none exactly when there is no such average |
| `GeoAggregation.ReadCellReads` | Calliope/src/main/java/model/elasticsearch/ElasticSearchConnectionManager.java:1207-1228 | the single pass over a cell yields the last center_lat, the last center_lon and the keys of every document_ids aggregation |
| `GeoAggregation.TermKeysAppend` | Calliope/src/main/java/model/elasticsearch/ElasticSearchConnectionManager.java:1223-1226 | ids are gathered from every document_ids aggregation, in order |
| `GeoAggregation.ParseBucket` | Calliope/src/main/java/model/elasticsearch/ElasticSearchConnectionManager.java:1231-1232 | a cell becomes a bucket exactly when both averages are present, with its count and ids copied |
| `GeoAggregation.ParseGridAppend` | Calliope/src/main/java/model/elasticsearch/ElasticSearchConnectionManager.java:1203-1233 | parsing concatenated cells concatenates the buckets |
| `GeoAggregation.ParseGridSingle` | Calliope/src/main/java/model/elasticsearch/ElasticSearchConnectionManager.java:1231-1232 | one complete cell yields exactly one bucket, an incomplete one none |
| `GeoAggregation.ParseGridAllComplete` | Calliope/src/main/java/model/elasticsearch/ElasticSearchConnectionManager.java:1203-1233 | when every cell is complete, bucket i comes from cell i |
| `GeoAggregation.IncompleteCellDropped` | Calliope/src/main/java/model/elasticsearch/ElasticSearchConnectionManager.java:1231 | a cell missing an average is dropped and changes nothing else |
| `GeoAggregation.ExpectedShape` | Calliope/src/main/java/model/elasticsearch/ElasticSearchConnectionManager.java:1187-1203 | a response of one filtered_cells filter holding one cells grid yields that grid's buckets |
| `GeoAggregation.OtherAggregationsIgnored` | Calliope/src/main/java/model/elasticsearch/ElasticSearchConnectionManager.java:1190 | aggregations of other kinds or names yield nothing |
| `GeoAggregation.PerformGeoAggregation` | Calliope/src/main/java/model/elasticsearch/ElasticSearchConnectionManager.java:1134-1252 | the buckets parsed from the answer to the built search; an IO error or an illegal argument yields an empty list and a report; an error status escapes |
| `SiteDetection.Queries` | Calliope/src/main/java/model/elasticsearch/ElasticSearchConnectionManager.java:1025-1050 | one point query per image, in order, longitude first, when every query can be built; fewer otherwise; none at all exactly when no image's query can be built |
| `SiteDetection.QueriesOfBuildable` | Calliope/src/main/java/model/elasticsearch/ElasticSearchConnectionManager.java:1025-1050 | a query is in the list exactly when it is the query of an image whose query can be built |
| `SiteDetection.QueriesSingle` | Calliope/src/main/java/model/elasticsearch/ElasticSearchConnectionManager.java:1025-1050 | one image gives its query, or nothing when the query cannot be built |
| `SiteDetection.QueriesAppend` | Calliope/src/main/java/model/elasticsearch/ElasticSearchConnectionManager.java:1025-1050 | the queries follow the images' order: those of a concatenation are those of each part, in turn |
| `SiteDetection.CodeOf` | Calliope/src/main/java/model/elasticsearch/ElasticSearchConnectionManager.java:1066-1096 | a code exactly when the response has one hit whose site map holds a string siteCode |
| `SiteDetection.CodesOf` | Calliope/src/main/java/model/elasticsearch/ElasticSearchConnectionManager.java:1062-1101 | responses are read by position; a failed item throws |
| `SiteDetection.DetectNeonSites` | Calliope/src/main/java/model/elasticsearch/ElasticSearchConnectionManager.java:1017-1118 | the method computes the reference detection, sending the multi-search only when it holds a query |
| `SiteDetection.DetectionShape` | Calliope/src/main/java/model/elasticsearch/ElasticSearchConnectionManager.java:1020-1108 | with no query to send (no images, say) or an error status the detection throws; otherwise one entry per image; all null and reported when the counts differ; otherwise entry i is response i's code, and a failed response throws |
| `SiteDetection.UnbuiltQueryNullsAll` | Calliope/src/main/java/model/elasticsearch/ElasticSearchConnectionManager.java:1044-1106 | an image whose query cannot be built nulls every entry when the backend answers each query it got, and the detection throws when no query could be built at all |
| `CircleLookup.Text` | Calliope/src/main/java/model/elasticsearch/ElasticSearchConnectionManager.java:1306-1316 | a string's text is itself; a null value throws |
| `CircleLookup.FileName` | Calliope/src/main/java/model/elasticsearch/ElasticSearchConnectionManager.java:1306 | the text after the last slash or backslash, holding no separator |
| `CircleLookup.FileNameAfterDirectory` | Calliope/src/main/java/model/elasticsearch/ElasticSearchConnectionManager.java:1306 | a name put after a directory and a separator comes back out |
| `CircleLookup.FileNameOfBareName` | Calliope/src/main/java/model/elasticsearch/ElasticSearchConnectionManager.java:1306 | a path without separators is its own file name |
| `CircleLookup.CollectionName` | Calliope/src/main/java/model/elasticsearch/ElasticSearchConnectionManager.java:1312 | the first collection with the id gives the name, and "Not Found" when none has it |
| `CircleLookup.Enrich` | Calliope/src/main/java/model/elasticsearch/ElasticSearchConnectionManager.java:1288-1316 | failed items and documents missing any of the six fields are skipped; a null value or an unreadable date throws; a row holds the file name, collection name, camera and date read, and the altitude the number parser reads, or the NaN sentinel when it reads none |
| `CircleLookup.UnreadableAltitudeIsNaN` | Calliope/src/main/java/model/elasticsearch/ElasticSearchConnectionManager.java:1313 | an unparseable altitude becomes the NaN sentinel, and only then; a readable one is stored as read |
| `CircleLookup.Rows` | Calliope/src/main/java/model/elasticsearch/ElasticSearchConnectionManager.java:1286-1319 | the lookup throws exactly when some item does, and otherwise gives at most one row per item |
| `CircleLookup.RowsSingle` | Calliope/src/main/java/model/elasticsearch/ElasticSearchConnectionManager.java:1289-1316 | one item gives its row, nothing when skipped, and throws when it throws |
| `CircleLookup.RowsAppend` | Calliope/src/main/java/model/elasticsearch/ElasticSearchConnectionManager.java:1286-1319 | the rows of concatenated items are the concatenated rows, and the lookup throws exactly when either part does |
| `CircleLookup.RowsComeFromItems` | Calliope/src/main/java/model/elasticsearch/ElasticSearchConnectionManager.java:1286-1319 | every row is the row of some item |
| `CircleLookup.RowsAllComplete` | Calliope/src/main/java/model/elasticsearch/ElasticSearchConnectionManager.java:1286-1319 | when every document is complete and none throws, there is exactly one row per item and row i comes from item i |
| `CircleLookup.IncompleteItemSkipped` | Calliope/src/main/java/model/elasticsearch/ElasticSearchConnectionManager.java:1289-1300 | an incomplete item adds no row |
| `CircleLookup.PerformCircleLookup` | Calliope/src/main/java/model/elasticsearch/ElasticSearchConnectionManager.java:1262-1331 | the method computes the reference lookup |
| `CircleLookup.LookupRequests` | Calliope/src/main/java/model/elasticsearch/ElasticSearchConnectionManager.java:1268-1279 | no bucket or no ids means no request and an empty result; otherwise one multi-get for exactly the bucket's ids; a reported IO error yields nothing |
| `ImagePaths.PartitionsRequired` | Calliope/src/main/java/model/elasticsearch/ElasticSearchConnectionManager.java:1358-1362 | at least one partition, enough to cover every hit at 1000 per partition and never one more; none when the count overflows a 32-bit integer |
| `ImagePaths.PartitionsAreTight` | Calliope/src/main/java/model/elasticsearch/ElasticSearchConnectionManager.java:1358-1362 | the covering bounds determine the partition count uniquely |
| `ImagePaths.PathKeys` | Calliope/src/main/java/model/elasticsearch/ElasticSearchConnectionManager.java:1384-1388 | responses without string terms aggregations contribute no path |
| `ImagePaths.PathKeysSingle` | Calliope/src/main/java/model/elasticsearch/ElasticSearchConnectionManager.java:1385-1388 | one aggregation lists its keys when it is a string terms aggregation, and nothing otherwise |
| `ImagePaths.PathKeysAppend` | Calliope/src/main/java/model/elasticsearch/ElasticSearchConnectionManager.java:1384-1388 | the keys of concatenated aggregations are the concatenated keys, in order |
| `ImagePaths.GetImagePathsMatching` | Calliope/src/main/java/model/elasticsearch/ElasticSearchConnectionManager.java:1339-1399 | the method computes the reference enumeration and asks for the same partitions; nothing is asked when the count fails or overflows |
| `ImagePaths.GatherStopsAtFailure` | Calliope/src/main/java/model/elasticsearch/ElasticSearchConnectionManager.java:1365-1395 | after a failed partition nothing more is asked or gathered |
| `ImagePaths.GatherAsksInOrder` | Calliope/src/main/java/model/elasticsearch/ElasticSearchConnectionManager.java:1365-1389 | partitions 0, 1, ... are asked once each, in order, all of them when all answer, up to the first failure otherwise, whose kind (IO error or error status) decides how reading stopped; the paths are those of the answered partitions in partition order, so a failure keeps the paths read before it |
| `ImagePaths.CountFailureGivesNothing` | Calliope/src/main/java/model/elasticsearch/ElasticSearchConnectionManager.java:1356-1395 | an IO error on the counting search yields no paths and a report; an error status on it escapes |

## Where the code and its description differ

The model follows the code in each of these cases.
- An IO error inside a scroll leaves the scroll uncleared. Only the normal exit sends the clear.
- Nothing guards against stale background results. A finished run is applied whatever the viewport has become since.
- The displayed child list is a JavaFX sorted view, which does not promise any order among nodes of equal rank. The model proves it sorted by rank and a permutation of the node list. `Layers.SortByRank` picks one such order, the stable one.
- The positional update after resizing is guarded by a size check whose failure branch cannot be reached. `Markers.Finish` models both branches, and `Markers.Reconcile` proves the report never happens.
- `createIndex` catches only IO errors. A create refused with an error status escapes it uncaught.
- Apart from `deleteIndex`, every backend operation modelled here catches only IO errors (and the aggregation also illegal arguments). An error status on any of its requests escapes uncaught. This includes the existence probe, every search, scroll, clear and bulk request, and the collection delete.
- `detectNEONSites` sends its multi-search even when it holds no query: with no images, or none whose query could be built. The client refuses an empty multi-search before sending it, with an unchecked validation exception, so the call throws instead of returning.
- `pullRemoteSites` parses a hit's site before looking at its boundary. A hit whose site is JSON null, or any other non-object, therefore throws. A hit whose coordinate list is empty throws too, and so does a coordinate written as an integer, because the entries are cast to `Double`.
- A bulk delete whose response has failures is written to the console with `printError`. It is not an error notification, so the model records it per bulk delete and not in the reported flag.
- In `detectNEONSites`, a request that cannot be built is reported and left out. The responses then no longer line up with the images, so every entry comes back null.
- The selection property fires only when its value changes. Selecting the current circle again is therefore a no-op.

## Left out

- Transport: client setup, login, ping, request builders and wire formats are left out. The backend is an oracle passed in as a parameter.
- JSON mapping: the Gson mapping of sites and collections is modelled as total parser functions passed in (`parseSite`, `parseCollection`).
- Site codes: `grabSiteCodesWithin` is not part of this model. The site redraw takes the returned codes as input.
- Centroids: the backend script computes them. The averages are given values.
- Library parsing: the date and number parsers are `Option`-returning oracles. A non-string JSON value's text is an oracle too.
- `CircleLookup.Enrich`: a document that does not exist (null source map) is not modelled. Its behaviour depends on library code that is not shown.
- Case-insensitive prefix tests fold ASCII letters only. The site codes the switches test are ASCII.
- Query clauses: `ElasticSearchQuery.build` and the query condition classes are not part of this model. A condition contributes an opaque list of clauses.
- Concurrency: the re-runnable services, `Platform.runLater` and the executors are left out. Each finish listener is a pure function of its input.
- UI: the scale indicator is floating-point pixel arithmetic and is left out. So are animations, popovers, drag and drop of query polygons, and check-box handling.
- `Viewport.ClampLocation`: Java doubles are modelled as reals, so NaN is left out. The geometry library's clamp passes NaN through, so the in-range promise does not cover a NaN coordinate. `Viewport.Clamp` and `Viewport.ClampViewport` carry the same gap.
- `QueryCompiler.FirstRefreshReruns`: `ElasticSearchQuery.build()` is not part of this model. The lemma takes it that a built query never equals the initial match-all, which the model gets from two distinct constructors.
- `Markers.Select`: the metadata lookup is modelled only as the flag saying a lookup is requested. The lookup itself is `CircleLookup.PerformCircleLookup`.
- Other backend operations: indexing images, refreshing the NEON site cache, and pushing settings and collections are left out as I/O.
- Other controllers: the view controller and the import view controllers are left out as UI.
