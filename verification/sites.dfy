/**
 * The site overlay of the map controller. Each time the site service finishes
 * with the list of site codes inside the viewport, every site node drawn so
 * far is taken off the map, and each returned code that names a known site
 * yields one new node: the site's boundary polygon when the map is zoomed in
 * past the pin-to-polygon threshold, a pin at the site's centre otherwise.
 */
module SiteOverlay {
  import opened Common
  import opened Layers

  /** Above this zoom level sites are drawn as polygons, at or below it as pins. */
  const PinToPolyThreshold: real := 10.0

  /** A known site: its code, its centre and the outer ring of its boundary. */
  datatype Site = Site(code: string, center: Location, outerBoundary: seq<Location>)

  /** How a site is drawn. */
  datatype SiteVisual =
    | BoundaryPolygon(outline: seq<Location>, center: Location)
    | Pin(center: Location)

  /** A site node on the map, the code of the site it shows and its shape. */
  datatype SiteNode = SiteNode(id: NodeId, code: string, visual: SiteVisual)

  /** The site nodes currently drawn, the shared draw list, and the identifier allocator. */
  datatype Overlay = Overlay(siteNodes: seq<SiteNode>, draw: DrawList, nextId: NodeId)

  /** The first known site with the given code, if any. */
  function FindSite(sites: seq<Site>, code: string): (r: Option<Site>)
    ensures r.Some? ==> r.value.code == code
    ensures r.Some? ==> exists i :: 0 <= i < |sites| && sites[i] == r.value &&
                          forall j :: 0 <= j < i ==> sites[j].code != code
    ensures r.None? <==> forall i :: 0 <= i < |sites| ==> sites[i].code != code
  {
    if sites == [] then None
    else if sites[0].code == code then Some(sites[0])
    else
      var r := FindSite(sites[1..], code);
      assert forall i :: 1 <= i < |sites| ==> sites[i] == sites[1..][i - 1];
      r
  }

  /** The sites the returned codes name, one per code that names a known site, in code order. */
  function Matched(codes: seq<string>, sites: seq<Site>): (r: seq<Site>)
    ensures |r| <= |codes|
    ensures forall x :: x in r ==> x.code in codes && FindSite(sites, x.code) == Some(x)
    ensures forall c :: c in codes && FindSite(sites, c).Some? ==> FindSite(sites, c).value in r
  {
    if codes == [] then []
    else
      var head := match FindSite(sites, codes[0]) case Some(x) => [x] case None => [];
      var rest := Matched(codes[1..], sites);
      assert forall c :: c in codes ==> c == codes[0] || c in codes[1..];
      head + rest
  }

  /** When every returned code names a known site, the matched sites follow the codes one to one. */
  lemma {:induction false} MatchedAllKnown(codes: seq<string>, sites: seq<Site>)
    requires forall k :: 0 <= k < |codes| ==> FindSite(sites, codes[k]).Some?
    ensures |Matched(codes, sites)| == |codes|
    ensures forall k :: 0 <= k < |codes| ==> Matched(codes, sites)[k] == FindSite(sites, codes[k]).value
  {
    if codes != [] {
      var rest := Matched(codes[1..], sites);
      assert forall k :: 1 <= k < |codes| ==> codes[1..][k - 1] == codes[k];
      MatchedAllKnown(codes[1..], sites);
      assert Matched(codes, sites) == [FindSite(sites, codes[0]).value] + rest;
    }
  }

  /** One code yields its site when it names a known one, and nothing otherwise. */
  lemma MatchedSingle(code: string, sites: seq<Site>)
    ensures Matched([code], sites) == match FindSite(sites, code) case Some(x) => [x] case None => []
  {
    assert [code][1..] == [];
  }

  /**
   * The sites of two runs of codes are those of the first followed by those of
   * the second: with MatchedSingle, each code yields its own site, once per
   * occurrence and in code order.
   */
  lemma {:induction false} MatchedAppend(a: seq<string>, b: seq<string>, sites: seq<Site>)
    ensures Matched(a + b, sites) == Matched(a, sites) + Matched(b, sites)
  {
    if a == [] {
      assert a + b == b;
    } else {
      assert (a + b)[0] == a[0];
      assert (a + b)[1..] == a[1..] + b;
      MatchedAppend(a[1..], b, sites);
    }
  }

  /** A code no known site carries yields nothing. */
  lemma {:induction false} MatchedNoneKnown(codes: seq<string>, sites: seq<Site>)
    requires forall k :: 0 <= k < |codes| ==> FindSite(sites, codes[k]).None?
    ensures Matched(codes, sites) == []
  {
    if codes != [] {
      assert forall k :: 1 <= k < |codes| ==> codes[1..][k - 1] == codes[k];
      MatchedNoneKnown(codes[1..], sites);
    }
  }

  /** The shape for the current zoom level. */
  function VisualFor(site: Site, zoom: real): SiteVisual
  {
    if zoom > PinToPolyThreshold then BoundaryPolygon(site.outerBoundary, site.center) else Pin(site.center)
  }

  /** Polygons go on the border-polygon layer and pins on the site-pin layer. */
  function LayerOf(v: SiteVisual): MapLayer
  {
    match v
    case BoundaryPolygon(_, _) => BorderPolygon
    case Pin(_) => SitePins
  }

  /**
   * The draw-list identifiers of the site nodes, in order: what the redraw
   * removes from the draw list. Site nodes are a datatype of their own,
   * apart from the circles' map nodes, so this is the site counterpart of the
   * circles' identifier list.
   */
  function NodeIds(ns: seq<SiteNode>): (r: seq<NodeId>)
    ensures |r| == |ns|
    ensures forall i :: 0 <= i < |ns| ==> r[i] == ns[i].id
  {
    seq(|ns|, i requires 0 <= i < |ns| => ns[i].id)
  }

  /** The layer sites are drawn on at a zoom level: the one every site's shape at that zoom belongs to. */
  function LayerFor(zoom: real): (l: MapLayer)
    ensures forall site :: LayerOf(VisualFor(site, zoom)) == l
    ensures l == BorderPolygon <==> zoom > PinToPolyThreshold
  {
    if zoom > PinToPolyThreshold then BorderPolygon else SitePins
  }

  /** One node per matched site, numbered from next on. */
  function SiteNodesFor(matched: seq<Site>, zoom: real, next: NodeId): (r: seq<SiteNode>)
    ensures |r| == |matched|
    ensures forall i :: 0 <= i < |matched| ==> r[i] == SiteNode(next + i, matched[i].code, VisualFor(matched[i], zoom))
  {
    seq(|matched|, i requires 0 <= i < |matched| => SiteNode(next + i, matched[i].code, VisualFor(matched[i], zoom)))
  }

  /**
   * The finish listener of the site service: every site node drawn so far is
   * removed and forgotten, then one node is drawn per returned code that names
   * a known site.
   */
  function Redraw(o: Overlay, codes: seq<string>, sites: seq<Site>, zoom: real): (r: Overlay)
    ensures var matched := Matched(codes, sites);
            && |r.siteNodes| == |matched|
            && forall i :: 0 <= i < |matched| ==>
                 r.siteNodes[i] == SiteNode(o.nextId + i, matched[i].code, VisualFor(matched[i], zoom))
    ensures r.nextId == o.nextId + |r.siteNodes|
    ensures NodeIds(r.siteNodes) == Range(o.nextId, |r.siteNodes|)
  {
    var matched := Matched(codes, sites);
    var ids := Range(o.nextId, |matched|);
    var added := SiteNodesFor(matched, zoom, o.nextId);
    assert NodeIds(added) == ids;
    Overlay(added, AddAll(RemoveAll(o.draw, NodeIds(o.siteNodes)), ids, LayerFor(zoom)), o.nextId + |matched|)
  }

  /**
   * After a redraw the map holds exactly the new site nodes and whatever it held
   * besides the old site nodes; the new ones are ranked on the layer their shape
   * belongs to and every other rank is unchanged.
   */
  lemma RedrawTable(o: Overlay, codes: seq<string>, sites: seq<Site>, zoom: real)
    ensures var r := Redraw(o, codes, sites, zoom);
            && (forall x :: x in r.draw.zOrder <==>
                  (x in o.draw.zOrder && x !in NodeIds(o.siteNodes)) || o.nextId <= x < r.nextId)
            && (forall i :: 0 <= i < |r.siteNodes| ==>
                  r.draw.zOrder[r.siteNodes[i].id] == ZLayer(LayerOf(r.siteNodes[i].visual)))
            && forall x :: x in r.draw.zOrder && !(o.nextId <= x < r.nextId) ==> r.draw.zOrder[x] == o.draw.zOrder[x]
  {
    var r := Redraw(o, codes, sites, zoom);
    var ids := Range(o.nextId, |r.siteNodes|);
    assert forall x :: x in ids <==> o.nextId <= x < r.nextId by {
      forall x | o.nextId <= x < r.nextId ensures x in ids {
        assert ids[x - o.nextId] == x;
      }
    }
  }

  /** On a list without repetitions, the old site nodes are filtered out and the new ones appended. */
  lemma RedrawList(o: Overlay, codes: seq<string>, sites: seq<Site>, zoom: real)
    requires Distinct(o.draw.nodes)
    ensures var r := Redraw(o, codes, sites, zoom);
            r.draw.nodes == Without(o.draw.nodes, Elems(NodeIds(o.siteNodes))) + NodeIds(r.siteNodes)
  {
    RemoveAllNodes(o.draw, NodeIds(o.siteNodes));
  }

  /** A redraw keeps the draw list well formed and the allocator ahead of every drawn node. */
  lemma RedrawKeepsWellFormed(o: Overlay, codes: seq<string>, sites: seq<Site>, zoom: real)
    requires WellFormed(o.draw) && forall x :: x in o.draw.zOrder ==> x < o.nextId
    ensures var r := Redraw(o, codes, sites, zoom);
            WellFormed(r.draw) && forall x :: x in r.draw.zOrder ==> x < r.nextId
  {
    var r := Redraw(o, codes, sites, zoom);
    var cleared := RemoveAll(o.draw, NodeIds(o.siteNodes));
    var ids := Range(o.nextId, |r.siteNodes|);
    RemoveAllKeepsWellFormed(o.draw, NodeIds(o.siteNodes));
    assert forall x :: x in ids ==> x !in cleared.zOrder;
    RedrawTable(o, codes, sites, zoom);
  }

  /** No site node drawn before a redraw is on the map after it. */
  lemma RedrawForgetsOldNodes(o: Overlay, codes: seq<string>, sites: seq<Site>, zoom: real)
    requires forall i :: 0 <= i < |o.siteNodes| ==> o.siteNodes[i].id < o.nextId
    ensures var r := Redraw(o, codes, sites, zoom);
            forall i :: 0 <= i < |o.siteNodes| ==> o.siteNodes[i].id !in r.draw.zOrder
  {
    RedrawTable(o, codes, sites, zoom);
    var ids := NodeIds(o.siteNodes);
    assert forall i :: 0 <= i < |o.siteNodes| ==> o.siteNodes[i].id == ids[i];
  }

  /** Zoomed in past the threshold every new node is a polygon; otherwise every one is a pin. */
  lemma RedrawShapes(o: Overlay, codes: seq<string>, sites: seq<Site>, zoom: real)
    ensures var r := Redraw(o, codes, sites, zoom);
            forall i :: 0 <= i < |r.siteNodes| ==>
              if zoom > PinToPolyThreshold then r.siteNodes[i].visual.BoundaryPolygon? && LayerOf(r.siteNodes[i].visual) == BorderPolygon
              else r.siteNodes[i].visual.Pin? && LayerOf(r.siteNodes[i].visual) == SitePins
  {
  }

  /** ASCII upper-casing, the case folding the prefix test applies. */
  function UpperAscii(c: char): (u: char)
    ensures 'a' <= c <= 'z' ==> u as int == c as int - 32
    ensures !('a' <= c <= 'z') ==> u == c
  {
    if 'a' <= c <= 'z' then (c as int - 32) as char else c
  }

  /** Whether s begins with prefix when letter case is ignored. */
  predicate StartsWithIgnoreCase(s: string, prefix: string)
  {
    |prefix| <= |s| && forall i :: 0 <= i < |prefix| ==> UpperAscii(s[i]) == UpperAscii(prefix[i])
  }

  /**
   * A site node is shown while the NEON switch is on and its code starts with
   * NEON, or while the LTAR switch is on and its code starts with LTAR.
   */
  predicate Visible(n: SiteNode, neonOn: bool, ltarOn: bool)
  {
    || (neonOn && StartsWithIgnoreCase(n.code, "NEON"))
    || (ltarOn && StartsWithIgnoreCase(n.code, "LTAR"))
  }

  /** No code carries both prefixes, so each node answers to exactly one switch, or to none. */
  lemma VisibleFollowsItsSwitch(n: SiteNode, neonOn: bool, ltarOn: bool)
    ensures StartsWithIgnoreCase(n.code, "NEON") ==> (Visible(n, neonOn, ltarOn) <==> neonOn)
    ensures StartsWithIgnoreCase(n.code, "LTAR") ==> (Visible(n, neonOn, ltarOn) <==> ltarOn)
    ensures !StartsWithIgnoreCase(n.code, "NEON") && !StartsWithIgnoreCase(n.code, "LTAR") ==>
              !Visible(n, neonOn, ltarOn)
  {
    if StartsWithIgnoreCase(n.code, "NEON") {
      assert UpperAscii(n.code[0]) == 'N' != UpperAscii("LTAR"[0]);
    }
  }

  /** The ASCII upper-casing of a string, letter by letter. */
  function UpperString(s: string): (r: string)
    ensures |r| == |s| && forall i :: 0 <= i < |s| ==> r[i] == UpperAscii(s[i])
  {
    seq(|s|, i requires 0 <= i < |s| => UpperAscii(s[i]))
  }

  /** Upper-casing an upper-cased letter changes nothing. */
  lemma UpperAsciiIdempotent(c: char)
    ensures UpperAscii(UpperAscii(c)) == UpperAscii(c)
  {
  }

  /**
   * The prefix test ignores case: it gives the same answer when either string
   * is replaced by its upper-casing, and it holds exactly when the upper-cased
   * prefix begins the upper-cased string.
   */
  lemma PrefixTestIgnoresCase(s: string, prefix: string)
    ensures StartsWithIgnoreCase(UpperString(s), prefix) <==> StartsWithIgnoreCase(s, prefix)
    ensures StartsWithIgnoreCase(s, UpperString(prefix)) <==> StartsWithIgnoreCase(s, prefix)
    ensures StartsWithIgnoreCase(s, prefix) <==>
              |prefix| <= |s| && UpperString(s)[..|prefix|] == UpperString(prefix)
  {
    forall c: char ensures UpperAscii(UpperAscii(c)) == UpperAscii(c) {
      UpperAsciiIdempotent(c);
    }
    if |prefix| <= |s| && UpperString(s)[..|prefix|] == UpperString(prefix) {
      forall i | 0 <= i < |prefix| ensures UpperAscii(s[i]) == UpperAscii(prefix[i]) {
        assert UpperString(s)[..|prefix|][i] == UpperString(prefix)[i];
      }
    }
  }
}
