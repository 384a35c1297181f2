/**
 * The three scroll-based reads and deletes of the backend manager: the site
 * list with its boundary polygons, the collection list, and the removal of a
 * collection together with every metadata entry that belongs to it.
 */
module RemoteStore {
  import opened Common
  import opened ScrollLoop

  /** A boundary point, longitude first as the raw lists store it. */
  datatype Coordinate = Coordinate(longitude: real, latitude: real)

  /** A site read from the site index with its outer ring and its inner rings. */
  datatype BoundedSite<S> = BoundedSite(site: S, outer: seq<Coordinate>, inner: seq<seq<Coordinate>>)

  /** What handling one hit gives: a value, nothing, or an unchecked exception. */
  datatype HitResult<R> = Keep(value: R) | Skip | Fail

  /**
   * A raw point is a list whose first two entries are doubles; anything else
   * throws, an integer entry included, since the entries are cast to Double.
   */
  predicate RawPoint(p: Json)
  {
    p.JList? && |p.items| >= 2 && p.items[0].JNumber? && p.items[1].JNumber?
  }

  function PointOf(p: Json): Coordinate
    requires RawPoint(p)
  {
    Coordinate(p.items[0].n, p.items[1].n)
  }

  /** A raw ring, a list of [longitude, latitude] lists, as a list of coordinates. */
  function RawToBoundary(ring: Json): (r: Option<seq<Coordinate>>)
    ensures r.Some? <==> ring.JList? && forall k :: 0 <= k < |ring.items| ==> RawPoint(ring.items[k])
    ensures r.Some? ==>
              && |r.value| == |ring.items|
              && forall k :: 0 <= k < |ring.items| ==> r.value[k] == PointOf(ring.items[k])
  {
    if ring.JList? && forall k :: 0 <= k < |ring.items| ==> RawPoint(ring.items[k]) then
      Some(seq(|ring.items|, k requires 0 <= k < |ring.items| => PointOf(ring.items[k])))
    else None
  }

  /** The raw form of a ring: one [longitude, latitude] list per coordinate. */
  function BoundaryToRaw(cs: seq<Coordinate>): (ring: Json)
    ensures ring.JList? && |ring.items| == |cs|
    ensures forall k :: 0 <= k < |cs| ==> ring.items[k] == JList([JNumber(cs[k].longitude), JNumber(cs[k].latitude)])
  {
    JList(seq(|cs|, k requires 0 <= k < |cs| => JList([JNumber(cs[k].longitude), JNumber(cs[k].latitude)])))
  }

  /** Reading a ring back gives the same points, in the same order. */
  lemma BoundaryRoundTrip(cs: seq<Coordinate>)
    ensures RawToBoundary(BoundaryToRaw(cs)) == Some(cs)
  {
    var ring := BoundaryToRaw(cs);
    assert forall k :: 0 <= k < |ring.items| ==> RawPoint(ring.items[k]) && PointOf(ring.items[k]) == cs[k];
    assert RawToBoundary(ring).value == cs;
  }

  /** Every ring of a list of rings, or None if any of them throws. */
  function RawToBoundaries(rings: seq<Json>): (r: Option<seq<seq<Coordinate>>>)
    ensures r.Some? <==> forall k :: 0 <= k < |rings| ==> RawToBoundary(rings[k]).Some?
    ensures r.Some? ==>
              && |r.value| == |rings|
              && forall k :: 0 <= k < |rings| ==> r.value[k] == RawToBoundary(rings[k]).value
  {
    if forall k :: 0 <= k < |rings| ==> RawToBoundary(rings[k]).Some? then
      Some(seq(|rings|, k requires 0 <= k < |rings| => RawToBoundary(rings[k]).value))
    else None
  }

  /** The field of a source map, with a missing key reading as null. */
  function Field(m: map<string, Json>, key: string): Json
  {
    if key in m then m[key] else JNull
  }

  /**
   * A site hit that is kept: it has a site object and a boundary object whose
   * coordinates are a non-empty list of well-formed rings.
   */
  predicate SiteIntact(h: Hit)
  {
    && "site" in h.source && "boundary" in h.source
    && h.source["site"].JObject? && h.source["boundary"].JObject?
    && var coords := Field(h.source["boundary"].fields, "coordinates");
       && coords.JList? && |coords.items| > 0
       && RawToBoundary(coords.items[0]).Some? && RawToBoundaries(coords.items[1..]).Some?
  }

  /**
   * One hit of the site scroll. A hit without both a site and a boundary is
   * skipped. Otherwise the site is mapped first: a site that is not a JSON
   * object throws (a null one maps to a null site whose initialisation
   * throws, and the mapper refuses any other non-object). Then a hit whose
   * boundary is not a map, or whose coordinates are not a list, is skipped;
   * otherwise the first ring is the outer boundary and the rest are the inner
   * ones, and an empty ring list or a malformed ring throws. The site's
   * fields are converted by the given parser.
   */
  function SiteHit<S>(h: Hit, parseSite: map<string, Json> -> S): (r: HitResult<BoundedSite<S>>)
    ensures r.Keep? <==> SiteIntact(h)
    ensures r.Keep? ==>
              var rings := Field(h.source["boundary"].fields, "coordinates").items;
              r.value == BoundedSite(parseSite(h.source["site"].fields),
                                     RawToBoundary(rings[0]).value, RawToBoundaries(rings[1..]).value)
    ensures r.Skip? <==>
              || "site" !in h.source || "boundary" !in h.source
              || (h.source["site"].JObject? &&
                  (|| !h.source["boundary"].JObject?
                   || !Field(h.source["boundary"].fields, "coordinates").JList?))
    ensures "site" in h.source && "boundary" in h.source && !h.source["site"].JObject? ==> r.Fail?
    ensures (&& "site" in h.source && "boundary" in h.source
             && h.source["site"].JObject? && h.source["boundary"].JObject?
             && Field(h.source["boundary"].fields, "coordinates").JList? && !SiteIntact(h)) ==> r.Fail?
  {
    if "site" in h.source && "boundary" in h.source then
      match h.source["site"]
      case JObject(site) =>
        (match h.source["boundary"]
         case JObject(fields) =>
           (match Field(fields, "coordinates")
            case JList(rings) =>
              if |rings| == 0 then Fail
              else
                (match (RawToBoundary(rings[0]), RawToBoundaries(rings[1..]))
                 case (Some(outer), Some(inner)) => Keep(BoundedSite(parseSite(site), outer, inner))
                 case _ => Fail)
            case _ => Skip)
         case _ => Skip)
      case _ => Fail
    else Skip
  }

  /** The values of the hits of one page, in order, or None if one of them throws. */
  function KeepHits<R>(hits: seq<Hit>, f: Hit -> HitResult<R>): (r: Option<seq<R>>)
    ensures r.None? <==> exists k :: 0 <= k < |hits| && f(hits[k]).Fail?
    ensures r.Some? ==> |r.value| <= |hits|
    decreases |hits|
  {
    if hits == [] then Some([])
    else
      var init := KeepHits(hits[..|hits| - 1], f);
      var last := f(hits[|hits| - 1]);
      assert forall k :: 0 <= k < |hits| - 1 ==> hits[..|hits| - 1][k] == hits[k];
      if init.None? || last.Fail? then
        None
      else Some(init.value + (if last.Keep? then [last.value] else []))
  }

  /** When no hit is skipped or throws, every hit yields exactly one value, in order. */
  lemma {:induction false} KeepHitsAllKept<R>(hits: seq<Hit>, f: Hit -> HitResult<R>)
    requires forall k :: 0 <= k < |hits| ==> f(hits[k]).Keep?
    ensures KeepHits(hits, f).Some? && |KeepHits(hits, f).value| == |hits|
    ensures forall k :: 0 <= k < |hits| ==> KeepHits(hits, f).value[k] == f(hits[k]).value
    decreases |hits|
  {
    if hits != [] {
      var init := hits[..|hits| - 1];
      assert forall k :: 0 <= k < |init| ==> init[k] == hits[k];
      KeepHitsAllKept(init, f);
      assert KeepHits(hits, f).value == KeepHits(init, f).value + [f(hits[|hits| - 1]).value];
    }
  }

  /** The values of one hit on its own. */
  lemma KeepHitsSingle<R>(h: Hit, f: Hit -> HitResult<R>)
    ensures KeepHits([h], f) == match f(h) case Keep(v) => Some([v]) case Skip => Some([]) case Fail => None
  {
    assert [h][..0] == [];
    assert KeepHits([], f) == Some([]);
    if f(h).Keep? {
      assert [] + [f(h).value] == [f(h).value];
    }
  }

  /**
   * The values of two runs of hits are those of the first followed by those of
   * the second, and the concatenation throws exactly when either run does.
   */
  lemma {:induction false} KeepHitsAppend<R>(a: seq<Hit>, b: seq<Hit>, f: Hit -> HitResult<R>)
    ensures KeepHits(a + b, f) ==
              if KeepHits(a, f).Some? && KeepHits(b, f).Some? then Some(KeepHits(a, f).value + KeepHits(b, f).value)
              else None
    decreases |b|
  {
    if b == [] {
      assert a + b == a;
      assert KeepHits(b, f) == Some([]);
      if KeepHits(a, f).Some? {
        assert KeepHits(a, f).value + [] == KeepHits(a, f).value;
      }
    } else {
      var init := b[..|b| - 1];
      var last := f(b[|b| - 1]);
      assert (a + b)[..|a + b| - 1] == a + init;
      assert (a + b)[|a + b| - 1] == b[|b| - 1];
      KeepHitsAppend(a, init, f);
      var ka, ki := KeepHits(a, f), KeepHits(init, f);
      if ka.Some? && ki.Some? && !last.Fail? {
        var tail := if last.Keep? then [last.value] else [];
        assert KeepHits(b, f) == Some(ki.value + tail);
        assert KeepHits(a + b, f) == Some((ka.value + ki.value) + tail);
        assert (ka.value + ki.value) + tail == ka.value + (ki.value + tail);
      }
    }
  }

  /** Skipped hits contribute nothing: a page of skipped hits yields no value. */
  lemma {:induction false} KeepHitsAllSkipped<R>(hits: seq<Hit>, f: Hit -> HitResult<R>)
    requires forall k :: 0 <= k < |hits| ==> f(hits[k]).Skip?
    ensures KeepHits(hits, f) == Some([])
    decreases |hits|
  {
    if hits != [] {
      var init := hits[..|hits| - 1];
      assert forall k :: 0 <= k < |init| ==> init[k] == hits[k];
      KeepHitsAllSkipped(init, f);
    }
  }

  /** Turns a per-hit handler into a page step: a hit that throws ends the operation. */
  function PerHit<R>(f: Hit -> HitResult<R>): (v: (nat, seq<Hit>) -> PageStep<R>)
    ensures forall j, hits :: v(j, hits) == match KeepHits(hits, f) case None => Crash case Some(out) => Continue(out, false)
  {
    (j: nat, hits: seq<Hit>) => match KeepHits(hits, f) case None => Crash case Some(out) => Continue(out, false)
  }

  function ToOutcome<R>(o: ScrollOutcome<R>): (r: Outcome<seq<R>>)
    ensures r.Crashed? <==> o.Threw?
    ensures o.Finished? ==> r == Returned(o.results, o.reported)
  {
    match o
    case Threw => Crashed
    case Finished(results, reported, _, _) => Returned(results, reported)
  }

  /** The site rule as a per-hit handler. */
  function SiteRule<S>(parseSite: map<string, Json> -> S): (f: Hit -> HitResult<BoundedSite<S>>)
    ensures forall h :: f(h) == SiteHit(h, parseSite)
  {
    (h: Hit) => SiteHit(h, parseSite)
  }

  /** Reads the site index, ten hits per page, keeping the hits with a usable boundary. */
  method PullRemoteSites<S>(pages: seq<Call<Page>>, clear: Call<bool>, parseSite: map<string, Json> -> S)
    returns (r: Outcome<seq<BoundedSite<S>>>)
    ensures r == ToOutcome(ScrollFrom(pages, 0, PerHit(SiteRule(parseSite)), clear))
  {
    var o := RunScroll(pages, PerHit(SiteRule(parseSite)), clear);
    r := ToOutcome(o);
  }

  /** The sites of the intact hits of a page, first to last: a reference for the site rule's output. */
  function KeptSites<S>(hits: seq<Hit>, parseSite: map<string, Json> -> S): seq<BoundedSite<S>>
  {
    if hits == [] then []
    else
      (if SiteIntact(hits[0]) then [SiteHit(hits[0], parseSite).value] else [])
      + KeptSites(hits[1..], parseSite)
  }

  /** A page none of whose hits throws gives exactly the sites of its intact hits. */
  lemma {:induction false} KeepHitsIsKeptSites<S>(hits: seq<Hit>, parseSite: map<string, Json> -> S)
    requires forall k :: 0 <= k < |hits| ==> !SiteHit(hits[k], parseSite).Fail?
    ensures KeepHits(hits, SiteRule(parseSite)) == Some(KeptSites(hits, parseSite))
    decreases |hits|
  {
    var f := SiteRule(parseSite);
    if hits != [] {
      assert hits == [hits[0]] + hits[1..];
      KeepHitsIsKeptSites(hits[1..], parseSite);
      KeepHitsSingle(hits[0], f);
      KeepHitsAppend([hits[0]], hits[1..], f);
    }
  }

  /**
   * When no hit of the pages read throws, the site read ends as the scroll
   * loop does, and returns the sites of the intact hits of every page up to
   * the first empty one, page by page and in order; it reports only how the
   * scroll ended.
   */
  lemma PullSitesPageByPage<S>(pages: seq<Call<Page>>, clear: Call<bool>, parseSite: map<string, Json> -> S)
    requires forall i, k :: 0 <= i < ReadCount(pages, 0) && 0 <= k < |HitsOf(Response(pages, i))| ==>
               !SiteHit(HitsOf(Response(pages, i))[k], parseSite).Fail?
    ensures var o := ScrollFrom(pages, 0, PerHit(SiteRule(parseSite)), clear);
            var n := ReadCount(pages, 0);
            var stop := Response(pages, n);
            && (o.Threw? <==> stop.StatusFailure? || (stop.Answer? && clear.StatusFailure?))
            && (o.Finished? ==>
                  && o.results == Flatten(seq(n, i requires 0 <= i < n => KeptSites(HitsOf(Response(pages, i)), parseSite)))
                  && |o.requested| == n
                  && (o.cleared.Some? <==> stop.Answer?)
                  && (o.reported <==> EndReported(stop, clear)))
  {
    var f := SiteRule(parseSite);
    var v := PerHit(f);
    var n := ReadCount(pages, 0);
    var want := seq(n, i requires 0 <= i < n => KeptSites(HitsOf(Response(pages, i)), parseSite));
    forall i | 0 <= i < n ensures v(i, HitsOf(Response(pages, i))).Continue? &&
                                  !v(i, HitsOf(Response(pages, i))).reported &&
                                  StepOut(v(i, HitsOf(Response(pages, i)))) == want[i]
    {
      KeepHitsIsKeptSites(HitsOf(Response(pages, i)), parseSite);
    }
    ScrollEveryPage(pages, 0, v, clear);
    assert Outs(pages, 0, n, v) == want;
  }

  /** One collection per hit, converted by the given parser. */
  function CollectionHit<C>(parseCollection: map<string, Json> -> C): (f: Hit -> HitResult<C>)
    ensures forall h :: f(h) == Keep(parseCollection(h.source))
  {
    (h: Hit) => Keep(parseCollection(h.source))
  }

  /** Reads the collection index, ten hits per page, one collection per hit. */
  method PullRemoteCollections<C>(pages: seq<Call<Page>>, clear: Call<bool>, parseCollection: map<string, Json> -> C)
    returns (r: Outcome<seq<C>>)
    ensures r == ToOutcome(ScrollFrom(pages, 0, PerHit(CollectionHit(parseCollection)), clear))
  {
    var o := RunScroll(pages, PerHit(CollectionHit(parseCollection)), clear);
    r := ToOutcome(o);
  }

  /** The parsed hits of the pages read, page by page. */
  function ParsedPages<C>(pages: seq<Call<Page>>, n: nat, parseCollection: map<string, Json> -> C): (r: seq<seq<C>>)
    ensures |r| == n
  {
    seq(n, i requires 0 <= i < n =>
      var hits := HitsOf(Response(pages, i));
      seq(|hits|, k requires 0 <= k < |hits| => parseCollection(hits[k].source)))
  }

  /**
   * The collection read throws only on an error status of the response that
   * ends the scroll or of the clear after it; otherwise it returns one
   * collection per hit of every page up to the first empty one, in order, and
   * the clear is sent exactly when that empty response arrived.
   */
  lemma PullCollectionsOnePerHit<C>(pages: seq<Call<Page>>, clear: Call<bool>, parseCollection: map<string, Json> -> C)
    ensures var o := ScrollFrom(pages, 0, PerHit(CollectionHit(parseCollection)), clear);
            var n := ReadCount(pages, 0);
            var stop := Response(pages, n);
            && (o.Threw? <==> stop.StatusFailure? || (stop.Answer? && clear.StatusFailure?))
            && (o.Finished? ==>
                  && o.results == Flatten(ParsedPages(pages, n, parseCollection))
                  && |o.requested| == n
                  && (o.cleared.Some? <==> stop.Answer?)
                  && (o.reported <==> EndReported(stop, clear)))
  {
    var f := CollectionHit(parseCollection);
    var v := PerHit(f);
    var n := ReadCount(pages, 0);
    forall i | 0 <= i < n ensures v(i, HitsOf(Response(pages, i))).Continue? &&
                                  !v(i, HitsOf(Response(pages, i))).reported &&
                                  StepOut(v(i, HitsOf(Response(pages, i)))) == ParsedPages(pages, n, parseCollection)[i]
    {
      KeepHitsAllKept(HitsOf(Response(pages, i)), f);
    }
    ScrollEveryPage(pages, 0, v, clear);
    assert Outs(pages, 0, n, v) == ParsedPages(pages, n, parseCollection);
  }

  /**
   * What removing a collection sent: one bulk delete per page of metadata hits
   * listing the page's document ids, the scroll requests and the clear as in
   * the scroll loop, and the delete of the collection document.
   */
  datatype Removal = Removal(
    bulkDeletes: seq<BulkDelete>,
    requested: seq<string>,
    cleared: Option<string>,
    collectionDelete: Option<string>)

  /**
   * One bulk delete: the document ids it lists, and whether a response with
   * failures made it print an error line to the console (which is not an
   * error notification).
   */
  datatype BulkDelete = BulkDelete(ids: seq<string>, printed: bool)

  function HitIds(hits: seq<Hit>): (r: seq<string>)
    ensures |r| == |hits| && forall k :: 0 <= k < |hits| ==> r[k] == hits[k].id
  {
    seq(|hits|, k requires 0 <= k < |hits| => hits[k].id)
  }

  /** The bulk response to the j-th page: an IO error, an error status, or whether it had failures. */
  function BulkAnswer(bulk: seq<Call<bool>>, j: nat): Call<bool>
  {
    if j < |bulk| then bulk[j] else IOFailure
  }

  /**
   * Handling one metadata page: one bulk delete of its ids; one with failures
   * prints an error line, an IO error stops the scroll, and an error status
   * leaves the operation.
   */
  function BulkDeletePage(bulk: seq<Call<bool>>): (v: (nat, seq<Hit>) -> PageStep<BulkDelete>)
    ensures forall j, hits :: v(j, hits) ==
              match BulkAnswer(bulk, j)
              case IOFailure => Interrupted([BulkDelete(HitIds(hits), false)])
              case StatusFailure => Crash
              case Answer(hasFailures) => Continue([BulkDelete(HitIds(hits), hasFailures)], false)
  {
    (j: nat, hits: seq<Hit>) =>
      match BulkAnswer(bulk, j)
      case IOFailure => Interrupted([BulkDelete(HitIds(hits), false)])
      case StatusFailure => Crash
      case Answer(hasFailures) => Continue([BulkDelete(HitIds(hits), hasFailures)], false)
  }

  /**
   * Removes a collection: scrolls the metadata entries of the collection, five
   * hundred at a time, deleting each page's entries in bulk, then deletes the
   * collection document whatever an IO error did to the scroll. `delete` is
   * whether the backend answered the collection delete with OK. Only IO errors
   * are caught: an error status anywhere leaves the operation.
   */
  method RemoveCollection(collectionId: string, pages: seq<Call<Page>>, bulk: seq<Call<bool>>,
                          clear: Call<bool>, delete: Call<bool>)
    returns (r: Outcome<Removal>)
    ensures var o := ScrollFrom(pages, 0, BulkDeletePage(bulk), clear);
            && (r.Crashed? <==> o.Threw? || delete.StatusFailure?)
            && (r.Returned? ==>
                  && r.value == Removal(o.results, o.requested, o.cleared, Some(collectionId))
                  && (r.reported <==> o.reported || delete.IOFailure? || !delete.value))
  {
    var o := RunScroll(pages, BulkDeletePage(bulk), clear);
    match o
    case Threw =>
      r := Crashed;
    case Finished(results, reported, requested, cleared) =>
      match delete
      case StatusFailure =>
        r := Crashed;
      case IOFailure =>
        r := Returned(Removal(results, requested, cleared, Some(collectionId)), true);
      case Answer(ok) =>
        r := Returned(Removal(results, requested, cleared, Some(collectionId)), reported || !ok);
  }

  /**
   * The metadata scroll leaves the operation only when some request was
   * answered with an error status: a search or scroll request, a bulk delete,
   * or the clear.
   */
  lemma {:induction false} EscapesOnlyOnStatus(pages: seq<Call<Page>>, j: nat, bulk: seq<Call<bool>>, clear: Call<bool>)
    requires ScrollFrom(pages, j, BulkDeletePage(bulk), clear).Threw?
    ensures || clear.StatusFailure?
            || (exists i :: j <= i < |pages| && pages[i].StatusFailure?)
            || (exists i :: j <= i < |bulk| && bulk[i].StatusFailure?)
    decreases |pages| - j
  {
    var resp := Response(pages, j);
    if HasHits(resp) {
      if BulkAnswer(bulk, j).StatusFailure? {
        assert bulk[j].StatusFailure?;
      } else {
        EscapesOnlyOnStatus(pages, j + 1, bulk, clear);
      }
    } else if resp.StatusFailure? {
      assert pages[j].StatusFailure?;
    }
  }

  /**
   * While every bulk request gets an answer, the removal scroll throws only on
   * an error status of the response that ends it or of the clear after it,
   * and otherwise each page of metadata hits up to the first empty one gets
   * exactly one bulk delete listing its ids in order, which prints an error
   * line exactly when its response had failures; those printed lines are not
   * reports, so the run reports only how the scroll ended.
   */
  lemma OneBulkDeletePerPage(pages: seq<Call<Page>>, bulk: seq<Call<bool>>, clear: Call<bool>)
    requires forall j :: 0 <= j < |bulk| ==> bulk[j].Answer?
    requires ReadCount(pages, 0) <= |bulk|
    ensures var o := ScrollFrom(pages, 0, BulkDeletePage(bulk), clear);
            var n := ReadCount(pages, 0);
            var stop := Response(pages, n);
            && (o.Threw? <==> stop.StatusFailure? || (stop.Answer? && clear.StatusFailure?))
            && (o.Finished? ==>
                  && o.results == seq(n, i requires 0 <= i < n => BulkDelete(HitIds(HitsOf(Response(pages, i))), bulk[i].value))
                  && (o.reported <==> EndReported(stop, clear)))
  {
    var v := BulkDeletePage(bulk);
    var n := ReadCount(pages, 0);
    ScrollEveryPage(pages, 0, v, clear);
    var outs := Outs(pages, 0, n, v);
    var want := seq(n, i requires 0 <= i < n => BulkDelete(HitIds(HitsOf(Response(pages, i))), bulk[i].value));
    FlattenSingletons(outs, want);
  }

  lemma {:induction false} FlattenSingletons<T>(outs: seq<seq<T>>, want: seq<T>)
    requires |outs| == |want| && forall i :: 0 <= i < |outs| ==> outs[i] == [want[i]]
    ensures Flatten(outs) == want
  {
    if outs != [] {
      FlattenSingletons(outs[1..], want[1..]);
    }
  }
}
