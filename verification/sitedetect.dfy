/**
 * NEON site detection in the backend manager: one point query per image,
 * sent as a single multi-search, whose responses are read back by position
 * into a list parallel to the images holding each image's site code or null.
 */
module SiteDetection {
  import opened Common

  /** The point an image's query intersects with the site boundaries, longitude first. */
  datatype PointQuery = PointQuery(longitude: real, latitude: real)

  /** One response of the multi-search: the source maps of its hits, or a failed item without a response. */
  datatype MultiItem = ItemHits(hits: seq<map<string, Json>>) | ItemFailed

  /** The multi-search's answer: its items, an IO error, or an error status. */
  datatype MultiAnswer = MultiItems(items: seq<MultiItem>) | MultiIOError | MultiStatusError

  function QueryFor(image: Location): PointQuery
  {
    PointQuery(image.lon, image.lat)
  }

  /** The queries that could be built, in image order. */
  function Queries(images: seq<Location>, buildable: Location -> bool): (r: seq<PointQuery>)
    ensures |r| <= |images|
    ensures (forall k :: 0 <= k < |images| ==> buildable(images[k])) ==>
              |r| == |images| && forall k :: 0 <= k < |images| ==> r[k] == QueryFor(images[k])
    ensures (exists k :: 0 <= k < |images| && !buildable(images[k])) ==> |r| < |images|
    ensures r == [] <==> forall k :: 0 <= k < |images| ==> !buildable(images[k])
    decreases |images|
  {
    if images == [] then []
    else
      var init := images[..|images| - 1];
      var last := images[|images| - 1];
      assert forall k :: 0 <= k < |init| ==> init[k] == images[k];
      Queries(init, buildable) + (if buildable(last) then [QueryFor(last)] else [])
  }

  /** A query is built exactly for the images whose query can be built. */
  lemma {:induction false} QueriesOfBuildable(images: seq<Location>, buildable: Location -> bool)
    ensures forall q :: q in Queries(images, buildable) <==>
              exists k :: 0 <= k < |images| && buildable(images[k]) && q == QueryFor(images[k])
    decreases |images|
  {
    if images != [] {
      var init := images[..|images| - 1];
      var last := images[|images| - 1];
      QueriesOfBuildable(init, buildable);
      forall q | q in Queries(images, buildable)
        ensures exists k :: 0 <= k < |images| && buildable(images[k]) && q == QueryFor(images[k])
      {
        if q in Queries(init, buildable) {
          var k :| 0 <= k < |init| && buildable(init[k]) && q == QueryFor(init[k]);
          assert images[k] == init[k];
        } else {
          assert buildable(images[|images| - 1]) && q == QueryFor(images[|images| - 1]);
        }
      }
      forall q | exists k :: 0 <= k < |images| && buildable(images[k]) && q == QueryFor(images[k])
        ensures q in Queries(images, buildable)
      {
        var k :| 0 <= k < |images| && buildable(images[k]) && q == QueryFor(images[k]);
        if k < |init| {
          assert init[k] == images[k];
        }
      }
    }
  }

  /** One image gives its query when that can be built, and nothing otherwise. */
  lemma QueriesSingle(image: Location, buildable: Location -> bool)
    ensures Queries([image], buildable) == if buildable(image) then [QueryFor(image)] else []
  {
    assert [image][..0] == [];
  }

  /** The queries of two runs of images are those of the first run followed by those of the second. */
  lemma {:induction false} QueriesAppend(a: seq<Location>, b: seq<Location>, buildable: Location -> bool)
    ensures Queries(a + b, buildable) == Queries(a, buildable) + Queries(b, buildable)
    decreases |b|
  {
    if b == [] {
      assert a + b == a;
    } else {
      var init := b[..|b| - 1];
      var last := b[|b| - 1];
      assert (a + b)[..|a + b| - 1] == a + init;
      assert (a + b)[|a + b| - 1] == last;
      assert b[..|b| - 1] == init;
      QueriesAppend(a, init, buildable);
      var tail := if buildable(last) then [QueryFor(last)] else [];
      assert Queries(a + init, buildable) + tail == Queries(a, buildable) + (Queries(init, buildable) + tail);
    }
  }

  /**
   * The site code a response gives: present only when it has exactly one hit
   * whose site field is a map holding a string site code.
   */
  function CodeOf(hits: seq<map<string, Json>>): (r: Option<string>)
    ensures r.Some? <==>
              && |hits| == 1 && "site" in hits[0] && hits[0]["site"].JObject?
              && "siteCode" in hits[0]["site"].fields && hits[0]["site"].fields["siteCode"].JString?
    ensures r.Some? ==> r.value == hits[0]["site"].fields["siteCode"].s
  {
    if |hits| == 1 && "site" in hits[0] then
      match hits[0]["site"]
      case JObject(details) =>
        if "siteCode" in details && details["siteCode"].JString? then Some(details["siteCode"].s) else None
      case _ => None
    else None
  }

  function AllNull(n: nat): (r: seq<Option<string>>)
    ensures |r| == n && forall k :: 0 <= k < n ==> r[k].None?
  {
    seq(n, k requires 0 <= k < n => None)
  }

  /** Whether the multi-search answered with exactly one response per image. */
  predicate OnePerImage(images: seq<Location>, answer: MultiAnswer)
  {
    answer.MultiItems? && |answer.items| == |images|
  }

  /** The codes read from the responses, in order; None once a failed item is met. */
  function CodesOf(items: seq<MultiItem>): (r: Option<seq<Option<string>>>)
    ensures r.None? <==> exists i :: 0 <= i < |items| && items[i].ItemFailed?
    ensures r.Some? ==> |r.value| == |items| && forall i :: 0 <= i < |items| ==> r.value[i] == CodeOf(items[i].hits)
    decreases |items|
  {
    if items == [] then Some([])
    else
      var init := items[..|items| - 1];
      var last := items[|items| - 1];
      assert forall i :: 0 <= i < |init| ==> init[i] == items[i];
      match CodesOf(init)
      case None => None
      case Some(codes) => if last.ItemFailed? then None else Some(codes + [CodeOf(last.hits)])
  }

  /**
   * The whole detection as a reference definition, given the backend's answer.
   * A multi-search without any query fails the client's own validation before
   * it is sent; that exception, like an error status, is not caught.
   */
  function Detection(images: seq<Location>, buildable: Location -> bool, answer: MultiAnswer): Outcome<seq<Option<string>>>
  {
    if Queries(images, buildable) == [] || answer.MultiStatusError? then Crashed
    else if !OnePerImage(images, answer) then Returned(AllNull(|images|), true)
    else
      match CodesOf(answer.items)
      case None => Crashed
      case Some(codes) => Returned(codes, exists k :: 0 <= k < |images| && !buildable(images[k]))
  }

  /**
   * Detects the site of each image. `buildable` says whether an image's query
   * could be built (one that cannot is reported and left out of the
   * multi-search); `backend` answers the multi-search, which is sent only
   * when it holds a query. A failed item has no response to read hits from
   * and throws.
   */
  method DetectNeonSites(images: seq<Location>, buildable: Location -> bool, backend: seq<PointQuery> -> MultiAnswer)
    returns (r: Outcome<seq<Option<string>>>)
    ensures r == Detection(images, buildable, backend(Queries(images, buildable)))
  {
    var buildReported := exists k :: 0 <= k < |images| && !buildable(images[k]);
    var queries := Queries(images, buildable);
    if queries == [] {
      r := Crashed;
      return;
    }
    var answer := backend(queries);
    if answer.MultiStatusError? {
      r := Crashed;
      return;
    }
    if answer.MultiIOError? || |answer.items| != |images| {
      r := Returned(AllNull(|images|), true);
      return;
    }
    var codes: seq<Option<string>> := [];
    var i := 0;
    while i < |answer.items|
      invariant 0 <= i <= |answer.items|
      invariant CodesOf(answer.items[..i]) == Some(codes)
    {
      assert answer.items[..i + 1][..i] == answer.items[..i];
      match answer.items[i]
      case ItemFailed =>
        r := Crashed;
        assert CodesOf(answer.items[..i + 1]).None?;
        return;
      case ItemHits(hits) =>
        codes := codes + [CodeOf(hits)];
      i := i + 1;
    }
    assert answer.items[..i] == answer.items;
    r := Returned(codes, buildReported);
  }

  /**
   * With no query to send, in particular with no images, or on an error
   * status, the detection throws. Otherwise the result has one entry per
   * image; it is all nulls with a report when the responses do not line up
   * with the images; otherwise it throws exactly when a response failed, and
   * entry i is the site code of image i.
   */
  lemma DetectionShape(images: seq<Location>, buildable: Location -> bool, answer: MultiAnswer)
    ensures var r := Detection(images, buildable, answer);
            var sent := Queries(images, buildable) != [];
            && (!sent || answer.MultiStatusError? ==> r.Crashed?)
            && (images == [] ==> r.Crashed?)
            && (r.Returned? ==> |r.value| == |images|)
            && (sent && !answer.MultiStatusError? && !OnePerImage(images, answer) ==> r == Returned(AllNull(|images|), true))
            && (sent && OnePerImage(images, answer) ==>
                  && (r.Crashed? <==> exists i :: 0 <= i < |images| && answer.items[i].ItemFailed?)
                  && (r.Returned? ==>
                        && (forall i :: 0 <= i < |images| ==> r.value[i] == CodeOf(answer.items[i].hits))
                        && (r.reported <==> exists k :: 0 <= k < |images| && !buildable(images[k]))))
  {
  }

  /**
   * A query that cannot be built always costs the whole result: when the backend
   * answers each query it was sent, one response is missing, so every entry is
   * null and the error is reported; and when no query could be built at all,
   * the empty multi-search throws.
   */
  lemma UnbuiltQueryNullsAll(images: seq<Location>, buildable: Location -> bool, answer: MultiAnswer, k: nat)
    requires k < |images| && !buildable(images[k])
    requires answer.MultiItems? && |answer.items| == |Queries(images, buildable)|
    ensures Detection(images, buildable, answer) ==
              if Queries(images, buildable) == [] then Crashed else Returned(AllNull(|images|), true)
  {
  }
}
