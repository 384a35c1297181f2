/**
 * The circle lookup of the backend manager: the documents behind one
 * aggregation dot are fetched with a multi-get and each complete document
 * becomes one row of image metadata (file name, collection name, altitude,
 * camera model, date taken) shown in the map's side panel.
 */
module CircleLookup {
  import opened Common

  /** One item of the multi-get: a failed item, or the document's source map. */
  datatype GetItem = GetFailed | GetFound(source: map<string, Json>)

  /** An uploaded collection as the client knows it. */
  datatype Collection = Collection(id: string, name: string)

  /** An altitude in metres, or the not-a-number sentinel an unparseable altitude becomes. */
  datatype Altitude = Metres(m: real) | NotANumber

  /** One row of the lookup's result; D is the date-time type the date parser yields. */
  datatype GeoImageResult<D> = GeoImageResult(fileName: string, collectionName: string, altitude: Altitude, cameraModel: string, dateTaken: D)

  /**
   * The library calls the lookup leans on: the text a non-string JSON value
   * prints as, the lenient number parser and the strict date parser (which
   * throws on text it cannot read, modelled as None).
   */
  datatype Parsers<D> = Parsers(show: Json -> string, number: string -> Option<real>, date: string -> Option<D>)

  /** The collection name shown when no known collection has the document's collection id. */
  const NotFound: string := "Not Found"

  /** A value's text; calling toString on a null value throws, modelled as None. */
  function Text<D>(j: Json, p: Parsers<D>): (r: Option<string>)
    ensures r.None? <==> j.JNull?
    ensures j.JString? ==> r == Some(j.s)
  {
    match j
    case JNull => None
    case JString(s) => Some(s)
    case _ => Some(p.show(j))
  }

  predicate IsSeparator(c: char)
  {
    c == '/' || c == '\\'
  }

  /** Where a path's last segment starts: just after its last separator, or at 0 when it has none. */
  function SegmentStart(path: string): (n: nat)
    ensures n <= |path|
    ensures forall k :: n <= k < |path| ==> !IsSeparator(path[k])
    ensures n > 0 ==> IsSeparator(path[n - 1])
    decreases |path|
  {
    if path == [] then 0
    else if IsSeparator(path[|path| - 1]) then |path|
    else SegmentStart(path[..|path| - 1])
  }

  /** The file name of a path: the text after its last separator, either kind. */
  function FileName(path: string): (r: string)
    ensures forall k :: 0 <= k < |r| ==> !IsSeparator(r[k])
    ensures r == path[SegmentStart(path)..]
  {
    path[SegmentStart(path)..]
  }

  /** A file name put after a directory and a separator comes back out. */
  lemma FileNameAfterDirectory(dir: string, sep: char, name: string)
    requires IsSeparator(sep)
    requires forall k :: 0 <= k < |name| ==> !IsSeparator(name[k])
    ensures FileName(dir + [sep] + name) == name
  {
    var front := dir + [sep];
    var path := front + name;
    assert path[|front|..] == name;
    assert IsSeparator(path[|front| - 1]);
    forall k | |front| <= k < |path| ensures !IsSeparator(path[k]) {
      assert path[k] == name[k - |front|];
    }
    SegmentStartUnique(path, |front|);
  }

  /** Only one place can start a separator-free tail that follows a separator. */
  lemma SegmentStartUnique(path: string, n: nat)
    requires 0 < n <= |path| && IsSeparator(path[n - 1])
    requires forall k :: n <= k < |path| ==> !IsSeparator(path[k])
    ensures SegmentStart(path) == n
  {
  }

  /** A path without separators is its own file name. */
  lemma FileNameOfBareName(name: string)
    requires forall k :: 0 <= k < |name| ==> !IsSeparator(name[k])
    ensures FileName(name) == name
  {
  }

  /** The name of the first collection with the given id, or NotFound. */
  function CollectionName(collections: seq<Collection>, id: string): (r: string)
    ensures (forall i :: 0 <= i < |collections| ==> collections[i].id != id) ==> r == NotFound
    ensures forall i :: (0 <= i < |collections| && collections[i].id == id &&
                         forall j :: 0 <= j < i ==> collections[j].id != id) ==> r == collections[i].name
  {
    if collections == [] then NotFound
    else if collections[0].id == id then collections[0].name
    else
      var rest := CollectionName(collections[1..], id);
      assert forall i :: 1 <= i < |collections| ==> collections[1..][i - 1] == collections[i];
      rest
  }

  /** What one multi-get item becomes: nothing, a row, or an exception. */
  datatype Enriched<D> = Skipped | Row(result: GeoImageResult<D>) | Throws

  /** The document holds the three top-level fields and a metadata map with the three fields read from it. */
  predicate Complete(item: GetItem)
  {
    && item.GetFound?
    && "collectionID" in item.source && "storagePath" in item.source && "imageMetadata" in item.source
    && item.source["imageMetadata"].JObject?
    && var meta := item.source["imageMetadata"].fields;
       "altitude" in meta && "cameraModel" in meta && "dateTaken" in meta
  }

  function Enrich<D>(item: GetItem, collections: seq<Collection>, p: Parsers<D>): (e: Enriched<D>)
    ensures e.Skipped? <==> !Complete(item)
    ensures e.Row? ==>
              var src := item.source;
              var meta := src["imageMetadata"].fields;
              && Text(src["storagePath"], p).Some?
              && e.result.fileName == FileName(Text(src["storagePath"], p).value)
              && Text(src["collectionID"], p).Some?
              && e.result.collectionName == CollectionName(collections, Text(src["collectionID"], p).value)
              && Text(meta["altitude"], p).Some?
              && e.result.altitude == (match p.number(Text(meta["altitude"], p).value)
                                       case Some(m) => Metres(m)
                                       case None => NotANumber)
              && Text(meta["cameraModel"], p) == Some(e.result.cameraModel)
              && Text(meta["dateTaken"], p).Some?
              && p.date(Text(meta["dateTaken"], p).value) == Some(e.result.dateTaken)
    ensures Complete(item) ==>
              var meta := item.source["imageMetadata"].fields;
              (e.Throws? <==>
                 || item.source["storagePath"].JNull? || item.source["collectionID"].JNull?
                 || meta["altitude"].JNull? || meta["cameraModel"].JNull? || meta["dateTaken"].JNull?
                 || p.date(Text(meta["dateTaken"], p).value).None?)
  {
    if !Complete(item) then Skipped
    else
      var src := item.source;
      var meta := src["imageMetadata"].fields;
      var path := Text(src["storagePath"], p);
      var id := Text(src["collectionID"], p);
      var altitude := Text(meta["altitude"], p);
      var camera := Text(meta["cameraModel"], p);
      var taken := Text(meta["dateTaken"], p);
      if path.None? || id.None? || altitude.None? || camera.None? || taken.None? then Throws
      else
        match p.date(taken.value)
        case None => Throws
        case Some(d) =>
          var alt := match p.number(altitude.value) case Some(m) => Metres(m) case None => NotANumber;
          Row(GeoImageResult(FileName(path.value), CollectionName(collections, id.value), alt, camera.value, d))
  }

  /**
   * An altitude the number parser cannot read becomes the sentinel, not a skip
   * or an exception; a readable one is stored as read.
   */
  lemma UnreadableAltitudeIsNaN<D>(item: GetItem, collections: seq<Collection>, p: Parsers<D>)
    requires Enrich(item, collections, p).Row?
    ensures var alt := item.source["imageMetadata"].fields["altitude"];
            && Text(alt, p).Some?
            && (p.number(Text(alt, p).value).None? <==> Enrich(item, collections, p).result.altitude == NotANumber)
            && forall m :: p.number(Text(alt, p).value) == Some(m) ==> Enrich(item, collections, p).result.altitude == Metres(m)
  {
  }

  /** The rows of the items in order, or None once an item throws. */
  function Rows<D>(items: seq<GetItem>, collections: seq<Collection>, p: Parsers<D>): (r: Option<seq<GeoImageResult<D>>>)
    ensures r.None? <==> exists i :: 0 <= i < |items| && Enrich(items[i], collections, p).Throws?
    ensures r.Some? ==> |r.value| <= |items|
    decreases |items|
  {
    if items == [] then Some([])
    else
      var init := items[..|items| - 1];
      var e := Enrich(items[|items| - 1], collections, p);
      assert forall i :: 0 <= i < |init| ==> init[i] == items[i];
      match Rows(init, collections, p)
      case None => None
      case Some(rows) =>
        match e
        case Throws => None
        case Skipped => Some(rows)
        case Row(row) => Some(rows + [row])
  }

  /** Every row is the row of some item. */
  lemma {:induction false} RowsComeFromItems<D>(items: seq<GetItem>, collections: seq<Collection>, p: Parsers<D>)
    requires Rows(items, collections, p).Some?
    ensures var rows := Rows(items, collections, p).value;
            forall k :: 0 <= k < |rows| ==> exists i :: 0 <= i < |items| && Enrich(items[i], collections, p) == Row(rows[k])
    decreases |items|
  {
    if items != [] {
      var init := items[..|items| - 1];
      assert forall i :: 0 <= i < |init| ==> init[i] == items[i];
      RowsComeFromItems(init, collections, p);
    }
  }

  /** When every document is complete and none throws, the rows line up with the items one for one. */
  lemma {:induction false} RowsAllComplete<D>(items: seq<GetItem>, collections: seq<Collection>, p: Parsers<D>)
    requires forall i :: 0 <= i < |items| ==> Complete(items[i]) && !Enrich(items[i], collections, p).Throws?
    ensures var rows := Rows(items, collections, p).value;
            |rows| == |items| && forall i :: 0 <= i < |items| ==> Enrich(items[i], collections, p) == Row(rows[i])
    decreases |items|
  {
    if items != [] {
      var init := items[..|items| - 1];
      assert forall i :: 0 <= i < |init| ==> init[i] == items[i];
      RowsAllComplete(init, collections, p);
    }
  }

  /** One item on its own gives its row, no row when it is skipped, and throws when it throws. */
  lemma RowsSingle<D>(item: GetItem, collections: seq<Collection>, p: Parsers<D>)
    ensures Rows([item], collections, p) ==
              match Enrich(item, collections, p) case Row(x) => Some([x]) case Skipped => Some([]) case Throws => None
  {
    assert [item][..0] == [];
    assert Rows([], collections, p) == Some([]);
    var e := Enrich(item, collections, p);
    if e.Row? {
      assert [] + [e.result] == [e.result];
    }
  }

  /** Rows read so far, extended by what one more item gives. */
  function Extend<D>(rows: Option<seq<GeoImageResult<D>>>, e: Enriched<D>): Option<seq<GeoImageResult<D>>>
  {
    match rows
    case None => None
    case Some(rs) =>
      match e
      case Throws => None
      case Skipped => Some(rs)
      case Row(x) => Some(rs + [x])
  }

  lemma RowsSnoc<D>(items: seq<GetItem>, item: GetItem, collections: seq<Collection>, p: Parsers<D>)
    ensures Rows(items + [item], collections, p) == Extend(Rows(items, collections, p), Enrich(item, collections, p))
  {
    assert (items + [item])[..|items|] == items;
  }

  /**
   * The rows of two runs of items are those of the first followed by those of
   * the second, and the lookup throws exactly when either run does: with
   * RowsSingle, every complete item contributes its own row, in item order.
   */
  lemma {:induction false} RowsAppend<D>(a: seq<GetItem>, b: seq<GetItem>, collections: seq<Collection>, p: Parsers<D>)
    ensures Rows(a + b, collections, p) ==
              if Rows(a, collections, p).Some? && Rows(b, collections, p).Some?
              then Some(Rows(a, collections, p).value + Rows(b, collections, p).value)
              else None
    decreases |b|
  {
    if b == [] {
      assert a + b == a;
      assert Rows(b, collections, p) == Some([]);
      if Rows(a, collections, p).Some? {
        assert Rows(a, collections, p).value + [] == Rows(a, collections, p).value;
      }
    } else {
      var init := b[..|b| - 1];
      var last := b[|b| - 1];
      assert b == init + [last];
      assert a + b == (a + init) + [last];
      RowsSnoc(a + init, last, collections, p);
      RowsSnoc(init, last, collections, p);
      RowsAppend(a, init, collections, p);
      var ra, ri := Rows(a, collections, p), Rows(init, collections, p);
      var e := Enrich(last, collections, p);
      if ra.Some? && ri.Some? && e.Row? {
        assert (ra.value + ri.value) + [e.result] == ra.value + (ri.value + [e.result]);
      }
    }
  }

  /** A failed item or an incomplete document adds no row. */
  lemma {:induction false} IncompleteItemSkipped<D>(items: seq<GetItem>, item: GetItem, collections: seq<Collection>, p: Parsers<D>)
    requires !Complete(item)
    ensures Rows(items + [item], collections, p) == Rows(items, collections, p)
  {
    assert (items + [item])[..|items|] == items;
  }

  /** The lookup as a reference definition: its result and the multi-get requests it sends. */
  function Lookup<D>(bucket: Option<GeoBucket>, collections: seq<Collection>, p: Parsers<D>, backend: seq<string> -> Call<seq<GetItem>>)
    : (r: (Outcome<seq<GeoImageResult<D>>>, seq<seq<string>>))
  {
    if bucket.None? || bucket.value.documentIds == [] then (Returned([], false), [])
    else
      var ids := bucket.value.documentIds;
      match backend(ids)
      case IOFailure => (Returned([], true), [ids])
      case StatusFailure => (Crashed, [ids])
      case Answer(items) =>
        match Rows(items, collections, p)
        case None => (Crashed, [ids])
        case Some(rows) => (Returned(rows, false), [ids])
  }

  /** The lookup as the backend manager runs it, one item at a time. */
  method PerformCircleLookup<D>(bucket: Option<GeoBucket>, collections: seq<Collection>, p: Parsers<D>, backend: seq<string> -> Call<seq<GetItem>>)
    returns (r: Outcome<seq<GeoImageResult<D>>>, requests: seq<seq<string>>)
    ensures (r, requests) == Lookup(bucket, collections, p, backend)
  {
    r := Returned([], false);
    requests := [];
    if bucket.Some? && bucket.value.documentIds != [] {
      var ids := bucket.value.documentIds;
      requests := [ids];
      var answer := backend(ids);
      if answer.IOFailure? {
        r := Returned([], true);
        return;
      }
      if answer.StatusFailure? {
        r := Crashed;
        return;
      }
      var items := answer.value;
      var rows: seq<GeoImageResult<D>> := [];
      var i := 0;
      while i < |items|
        invariant 0 <= i <= |items|
        invariant Rows(items[..i], collections, p) == Some(rows)
      {
        assert items[..i + 1][..i] == items[..i];
        var e := Enrich(items[i], collections, p);
        if e.Throws? {
          assert Rows(items[..i + 1], collections, p).None?;
          r := Crashed;
          return;
        }
        if e.Row? {
          rows := rows + [e.result];
        }
        i := i + 1;
      }
      assert items[..i] == items;
      r := Returned(rows, false);
    }
  }

  /**
   * No bucket, or one without document ids, sends nothing and shows nothing;
   * otherwise exactly one multi-get goes out, for exactly the bucket's ids in
   * their order.
   */
  lemma LookupRequests<D>(bucket: Option<GeoBucket>, collections: seq<Collection>, p: Parsers<D>, backend: seq<string> -> Call<seq<GetItem>>)
    ensures var (r, requests) := Lookup(bucket, collections, p, backend);
            && (bucket.None? || bucket.value.documentIds == [] ==> requests == [] && r == Returned([], false))
            && (bucket.Some? && bucket.value.documentIds != [] ==> requests == [bucket.value.documentIds])
            && (r.Returned? && r.reported ==> r.value == [])
  {
  }
}
