/**
 * The aggregation circles of the map controller: two parallel lists, one of
 * circle nodes and one of their controllers, which the controller grows or
 * shrinks to the number of buckets of each completed aggregation run and then
 * remaps to the buckets by position; and the exclusive selection of a circle.
 */
module Markers {
  import opened Common
  import opened Layers

  /** A circle node on the map and where it is drawn, once it has been positioned. */
  datatype MapNode = MapNode(id: NodeId, location: Option<Location>)

  /** A circle's controller: the bucket it displays and whether it is highlighted. */
  datatype CircleController = CircleController(id: NodeId, bucket: Option<GeoBucket>, selected: bool)

  /**
   * The circle part of the controller. A controller is created together with its
   * node and carries the node's identifier; `selected` is the selected-circle
   * property, naming a controller; `nextId` is the next identifier to allocate.
   */
  datatype MapState = MapState(
    circles: seq<MapNode>,
    controllers: seq<CircleController>,
    draw: DrawList,
    selected: Option<NodeId>,
    nextId: NodeId)

  /** The node list and the controller list run in parallel. */
  predicate Parallel(s: MapState)
  {
    && |s.circles| == |s.controllers|
    && forall i :: 0 <= i < |s.circles| ==> s.circles[i].id == s.controllers[i].id
  }

  function CircleIds(cs: seq<MapNode>): (r: seq<NodeId>)
    ensures |r| == |cs|
    ensures forall i :: 0 <= i < |cs| ==> r[i] == cs[i].id
  {
    seq(|cs|, i requires 0 <= i < |cs| => cs[i].id)
  }

  /** The identifiers of the circles from position k to the end. */
  ghost function TailIds(cs: seq<MapNode>, k: nat): set<NodeId>
  {
    set i | k <= i < |cs| :: cs[i].id
  }

  /**
   * The invariant the controller keeps between events: parallel lists of
   * distinct circles, a well-formed draw list holding every circle on the
   * circle layer, identifiers below the allocator, and no highlighted
   * controller other than the selected one.
   */
  ghost predicate Valid(s: MapState)
  {
    && Parallel(s)
    && Distinct(CircleIds(s.circles))
    && WellFormed(s.draw)
    && (forall n :: n in s.draw.zOrder ==> n < s.nextId)
    && (forall i :: 0 <= i < |s.circles| ==>
          s.circles[i].id in s.draw.zOrder && s.draw.zOrder[s.circles[i].id] == ZLayer(Circles))
    && (forall i :: 0 <= i < |s.controllers| && s.controllers[i].selected ==>
          s.selected == Some(s.controllers[i].id))
  }

  /** Sets the highlight of the controller with the given identifier. */
  function SetHighlight(cs: seq<CircleController>, id: NodeId, flag: bool): (r: seq<CircleController>)
    ensures |r| == |cs|
    ensures forall i :: 0 <= i < |cs| ==>
              r[i] == (if cs[i].id == id then cs[i].(selected := flag) else cs[i])
  {
    seq(|cs|, i requires 0 <= i < |cs| => if cs[i].id == id then cs[i].(selected := flag) else cs[i])
  }

  /**
   * Sets the selected-circle property. It notifies its listener only when the
   * value changes; the listener highlights the new circle and asks for its
   * metadata when the new value is present, and removes the old highlight when
   * the old value is present. The second component says whether a metadata
   * lookup was requested.
   */
  function Select(s: MapState, choice: Option<NodeId>): (r: (MapState, bool))
    ensures r.0.selected == choice
    ensures r.1 <==> choice.Some? && choice != s.selected
    ensures choice == s.selected ==> r.0 == s
    ensures r.0.circles == s.circles && r.0.draw == s.draw && r.0.nextId == s.nextId
    ensures |r.0.controllers| == |s.controllers|
    ensures forall i :: 0 <= i < |s.controllers| ==>
              && r.0.controllers[i].id == s.controllers[i].id
              && r.0.controllers[i].bucket == s.controllers[i].bucket
    ensures choice != s.selected ==> forall i :: 0 <= i < |s.controllers| ==>
              r.0.controllers[i].selected ==
                if Some(s.controllers[i].id) == choice then true
                else if Some(s.controllers[i].id) == s.selected then false
                else s.controllers[i].selected
  {
    if choice == s.selected then (s, false)
    else
      var highlighted := if choice.Some? then SetHighlight(s.controllers, choice.value, true) else s.controllers;
      var cleared := if s.selected.Some? then SetHighlight(highlighted, s.selected.value, false) else highlighted;
      (s.(controllers := cleared, selected := choice), choice.Some?)
  }

  /** Selection is exclusive: afterwards only the chosen circle can be highlighted. */
  lemma SelectKeepsValid(s: MapState, choice: Option<NodeId>)
    requires Valid(s)
    ensures Valid(Select(s, choice).0)
    ensures forall i :: 0 <= i < |s.controllers| && Select(s, choice).0.controllers[i].selected ==>
              choice == Some(s.controllers[i].id)
  {
  }

  /** Clearing the selection leaves no circle highlighted. */
  lemma SelectClears(s: MapState)
    ensures Valid(s) ==> Valid(Select(s, None).0)
    ensures Valid(s) ==> forall i :: 0 <= i < |s.controllers| ==> !Select(s, None).0.controllers[i].selected
  {
    if Valid(s) {
      SelectKeepsValid(s, None);
    }
  }

  /**
   * The positional update: node i moves to bucket i's centre and controller i
   * displays bucket i. When the sizes differ nothing is updated.
   */
  function Positioned(circles: seq<MapNode>, controllers: seq<CircleController>, buckets: seq<GeoBucket>)
    : (r: Option<(seq<MapNode>, seq<CircleController>)>)
    requires |circles| == |controllers|
    ensures r.Some? <==> |circles| == |buckets|
    ensures r.Some? ==> |r.value.0| == |buckets| && |r.value.1| == |buckets|
    ensures r.Some? ==> forall i :: 0 <= i < |buckets| ==>
              && r.value.0[i] == circles[i].(location := Some(Centre(buckets[i])))
              && r.value.1[i] == controllers[i].(bucket := Some(buckets[i]))
  {
    if |circles| != |buckets| then None
    else
      Some((seq(|circles|, i requires 0 <= i < |circles| => circles[i].(location := Some(Centre(buckets[i])))),
            seq(|controllers|, i requires 0 <= i < |controllers| => controllers[i].(bucket := Some(buckets[i])))))
  }

  /** Appends one new circle, its controller and its draw-list entry. */
  function AddCircle(s: MapState): (r: MapState)
    ensures r.circles == s.circles + [MapNode(s.nextId, None)]
    ensures r.controllers == s.controllers + [CircleController(s.nextId, None, false)]
    ensures r.draw == AddNode(s.draw, s.nextId, Circles)
    ensures r.selected == s.selected && r.nextId == s.nextId + 1
  {
    MapState(s.circles + [MapNode(s.nextId, None)],
             s.controllers + [CircleController(s.nextId, None, false)],
             AddNode(s.draw, s.nextId, Circles),
             s.selected,
             s.nextId + 1)
  }

  /** Removes the last circle, its controller and its draw-list entry. */
  function RemoveLastCircle(s: MapState): (r: MapState)
    requires Parallel(s) && |s.circles| > 0
    ensures r.circles == s.circles[..|s.circles| - 1]
    ensures r.controllers == s.controllers[..|s.controllers| - 1]
    ensures r.draw == RemoveNode(s.draw, s.circles[|s.circles| - 1].id)
    ensures r.selected == s.selected && r.nextId == s.nextId
  {
    MapState(s.circles[..|s.circles| - 1],
             s.controllers[..|s.controllers| - 1],
             RemoveNode(s.draw, s.circles[|s.circles| - 1].id),
             s.selected,
             s.nextId)
  }

  /**
   * g is s with new circles appended: the old circles kept in front, the new
   * ones numbered from s's allocator on, unpositioned, unhighlighted and ranked
   * on the circle layer; nothing else changed.
   */
  ghost predicate Appended(s: MapState, g: MapState)
  {
    var m := |s.circles|;
    && Parallel(g)
    && m <= |g.circles|
    && g.circles[..m] == s.circles && g.controllers[..m] == s.controllers
    && (forall k :: m <= k < |g.circles| ==>
          && g.circles[k] == MapNode(s.nextId + (k - m), None)
          && g.controllers[k] == CircleController(s.nextId + (k - m), None, false))
    && g.nextId == s.nextId + (|g.circles| - m)
    && g.draw.nodes == s.draw.nodes + Range(s.nextId, |g.circles| - m)
    && (forall x :: x in g.draw.zOrder <==> x in s.draw.zOrder || s.nextId <= x < g.nextId)
    && (forall x :: x in g.draw.zOrder ==>
          g.draw.zOrder[x] == if s.nextId <= x < g.nextId then ZLayer(Circles) else s.draw.zOrder[x])
    && g.selected == s.selected
  }

  /** Appending new circles keeps the controller's invariant. */
  lemma AppendedKeepsValid(s: MapState, g: MapState)
    requires Valid(s) && Appended(s, g)
    ensures Valid(g)
  {
    var m := |s.circles|;
    var added := Range(s.nextId, |g.circles| - m);
    forall x | x in s.draw.nodes ensures x < s.nextId {
      assert x in s.draw.zOrder;
    }
    forall i, j | 0 <= i < j < |g.draw.nodes| ensures g.draw.nodes[i] != g.draw.nodes[j] {
      if j >= |s.draw.nodes| {
        assert g.draw.nodes[j] == added[j - |s.draw.nodes|];
        if i < |s.draw.nodes| {
          assert g.draw.nodes[i] == s.draw.nodes[i];
          assert s.draw.nodes[i] in s.draw.nodes;
        } else {
          assert g.draw.nodes[i] == added[i - |s.draw.nodes|];
        }
      }
    }
    forall x | x in g.draw.nodes ensures x in g.draw.zOrder {
      if x !in s.draw.nodes {
        var k :| 0 <= k < |added| && added[k] == x;
      }
    }
    forall x | x in g.draw.zOrder ensures x in g.draw.nodes {
      if x !in s.draw.zOrder {
        assert added[x - s.nextId] == x;
        assert x in added;
      }
    }
    var ids := CircleIds(g.circles);
    forall i, j | 0 <= i < j < |ids| ensures ids[i] != ids[j] {
      if j >= m {
        if i < m {
          assert g.circles[i] == s.circles[i];
          assert s.circles[i].id in s.draw.zOrder;
        }
      } else {
        assert g.circles[i] == s.circles[i] && g.circles[j] == s.circles[j];
        assert ids[i] == CircleIds(s.circles)[i] && ids[j] == CircleIds(s.circles)[j];
      }
    }
    forall i | 0 <= i < |g.circles|
      ensures g.circles[i].id in g.draw.zOrder && g.draw.zOrder[g.circles[i].id] == ZLayer(Circles)
    {
      if i < m {
        assert g.circles[i] == s.circles[i];
        assert s.circles[i].id in s.draw.zOrder;
      }
    }
    forall i | 0 <= i < |g.controllers| && g.controllers[i].selected
      ensures g.selected == Some(g.controllers[i].id)
    {
      if i < m {
        assert g.controllers[i] == s.controllers[i];
      }
    }
  }

  /** The first loop of the finish listener: append new circles until there are n. */
  method Grow(s: MapState, n: nat) returns (g: MapState)
    requires Parallel(s)
    ensures Appended(s, g)
    ensures |g.circles| == |s.circles| + Max0(n - |s.circles|)
    ensures n <= |s.circles| ==> g == s
  {
    var m := |s.circles|;
    g := s;
    while |g.circles| < n
      invariant Appended(s, g)
      invariant |g.circles| <= m + Max0(n - m)
      invariant |g.circles| == m ==> g == s
    {
      assert Range(s.nextId, |g.circles| - m) + [g.nextId] == Range(s.nextId, |g.circles| + 1 - m);
      g := AddCircle(g);
    }
  }

  /**
   * h is s with the circles from position |h.circles| on removed, together with
   * their controllers and draw-list entries; nothing else changed.
   */
  ghost predicate Truncated(s: MapState, h: MapState)
  {
    && Parallel(s) && Parallel(h)
    && |h.circles| <= |s.circles|
    && h.circles == s.circles[..|h.circles|] && h.controllers == s.controllers[..|h.circles|]
    && h.draw.zOrder == s.draw.zOrder - TailIds(s.circles, |h.circles|)
    && (Distinct(s.draw.nodes) ==> h.draw.nodes == Without(s.draw.nodes, TailIds(s.circles, |h.circles|)))
    && h.selected == s.selected && h.nextId == s.nextId
  }

  /** Dropping circles from the tail keeps the controller's invariant. */
  lemma TruncatedKeepsValid(s: MapState, h: MapState)
    requires Valid(s) && Truncated(s, h)
    ensures Valid(h)
  {
    var gone := TailIds(s.circles, |h.circles|);
    WithoutDistinct(s.draw.nodes, gone);
    var ids := CircleIds(h.circles);
    var old_ids := CircleIds(s.circles);
    forall i, j | 0 <= i < j < |ids| ensures ids[i] != ids[j] {
      assert ids[i] == old_ids[i] && ids[j] == old_ids[j];
    }
    forall i | 0 <= i < |h.circles|
      ensures h.circles[i].id in h.draw.zOrder && h.draw.zOrder[h.circles[i].id] == ZLayer(Circles)
    {
      assert h.circles[i] == s.circles[i];
    }
    forall i | 0 <= i < |h.controllers| && h.controllers[i].selected
      ensures h.selected == Some(h.controllers[i].id)
    {
      assert h.controllers[i] == s.controllers[i];
    }
  }

  /** One more removal from the tail extends a truncation. */
  lemma RemoveLastTruncates(s: MapState, h: MapState)
    requires Truncated(s, h) && |h.circles| > 0
    requires Distinct(s.draw.nodes) ==> Distinct(h.draw.nodes)
    ensures Truncated(s, RemoveLastCircle(h))
    ensures Distinct(s.draw.nodes) ==> Distinct(RemoveLastCircle(h).draw.nodes)
  {
    var k := |h.circles|;
    var r := RemoveLastCircle(h);
    var last := h.circles[k - 1].id;
    assert last == s.circles[k - 1].id;
    var before := TailIds(s.circles, k);
    var after := TailIds(s.circles, k - 1);
    assert after == before + {last};
    assert r.circles == s.circles[..k - 1] && r.controllers == s.controllers[..k - 1];
    assert r.draw.zOrder == h.draw.zOrder - {last};
    assert r.draw.zOrder == s.draw.zOrder - after;
    if Distinct(s.draw.nodes) {
      WithoutUnion(s.draw.nodes, before, {last});
      WithoutDistinct(h.draw.nodes, {last});
      assert r.draw.nodes == Without(s.draw.nodes, after);
    }
  }

  /** The second loop of the finish listener: drop circles from the tail until there are n. */
  method Shrink(s: MapState, n: nat) returns (h: MapState)
    requires Parallel(s)
    ensures Truncated(s, h)
    ensures |h.circles| == if n < |s.circles| then n else |s.circles|
    ensures |s.circles| <= n ==> h == s
  {
    h := s;
    assert TailIds(s.circles, |s.circles|) == {};
    WithoutNothing(s.draw.nodes, {});
    while |h.circles| > n
      invariant Truncated(s, h)
      invariant n <= |h.circles| || h == s
      invariant |s.circles| <= n ==> h == s
      invariant Distinct(s.draw.nodes) ==> Distinct(h.draw.nodes)
    {
      RemoveLastTruncates(s, h);
      h := RemoveLastCircle(h);
    }
  }

  lemma AppendedIds(s: MapState, g: MapState)
    requires Appended(s, g)
    ensures CircleIds(g.circles) == CircleIds(s.circles) + Range(s.nextId, |g.circles| - |s.circles|)
  {
  }

  lemma TruncatedIds(s: MapState, h: MapState)
    requires Truncated(s, h)
    ensures CircleIds(h.circles) == CircleIds(s.circles)[..|h.circles|]
  {
  }

  /**
   * The end of the finish listener once the sizes have been reconciled: the
   * positional update when the sizes agree, the error report when they do
   * not, and the clearing of the selected circle in both cases.
   */
  function Finish(h: MapState, buckets: seq<GeoBucket>): (r: (MapState, bool))
    requires Parallel(h)
    ensures Parallel(r.0) && |r.0.circles| == |h.circles|
    ensures r.1 <==> |h.circles| != |buckets|
    ensures CircleIds(r.0.circles) == CircleIds(h.circles)
    ensures r.0.draw == h.draw && r.0.nextId == h.nextId && r.0.selected == None
    ensures !r.1 ==> forall i :: 0 <= i < |buckets| ==>
              && r.0.circles[i].location == Some(Centre(buckets[i]))
              && r.0.controllers[i].bucket == Some(buckets[i])
    ensures Valid(h) ==> Valid(r.0) && forall i :: 0 <= i < |r.0.controllers| ==> !r.0.controllers[i].selected
  {
    var (positioned, reported) :=
      match Positioned(h.circles, h.controllers, buckets)
      case None => (h, true)
      case Some(updated) => (h.(circles := updated.0, controllers := updated.1), false);
    assert Valid(h) ==> Valid(positioned);
    SelectClears(positioned);
    (Select(positioned, None).0, reported)
  }

  /**
   * The finish listener of the circle-drawing service. It appends added circles
   * while there are more buckets than circles, removes circles from the tail
   * while there are fewer, remaps buckets to circles by position, reports an
   * error if the sizes still differ, and finally clears the selected circle.
   * The second result says whether that error was reported; it never is.
   */
  method Reconcile(s: MapState, buckets: seq<GeoBucket>) returns (t: MapState, reported: bool)
    requires Parallel(s)
    ensures Parallel(t) && |t.circles| == |buckets|
    ensures !reported
    ensures forall i :: 0 <= i < |buckets| ==>
              && t.circles[i].location == Some(Centre(buckets[i]))
              && t.controllers[i].bucket == Some(buckets[i])
    ensures t.selected == None
    ensures t.nextId == s.nextId + Max0(|buckets| - |s.circles|)
    ensures |s.circles| <= |buckets| ==>
              && CircleIds(t.circles) == CircleIds(s.circles) + Range(s.nextId, |buckets| - |s.circles|)
              && t.draw.nodes == s.draw.nodes + Range(s.nextId, |buckets| - |s.circles|)
              && (forall x :: x in t.draw.zOrder <==> x in s.draw.zOrder || s.nextId <= x < t.nextId)
              && forall x :: x in t.draw.zOrder ==>
                   t.draw.zOrder[x] == if s.nextId <= x < t.nextId then ZLayer(Circles) else s.draw.zOrder[x]
    ensures |buckets| <= |s.circles| ==>
              && CircleIds(t.circles) == CircleIds(s.circles)[..|buckets|]
              && t.draw.zOrder == s.draw.zOrder - TailIds(s.circles, |buckets|)
              && (Distinct(s.draw.nodes) ==> t.draw.nodes == Without(s.draw.nodes, TailIds(s.circles, |buckets|)))
    ensures Valid(s) ==> Valid(t) && forall i :: 0 <= i < |t.controllers| ==> !t.controllers[i].selected
  {
    var g := Grow(s, |buckets|);
    if Valid(s) {
      AppendedKeepsValid(s, g);
    }
    var h := Shrink(g, |buckets|);
    if Valid(g) {
      TruncatedKeepsValid(g, h);
    }
    AppendedIds(s, g);
    TruncatedIds(g, h);
    var finished := Finish(h, buckets);
    t, reported := finished.0, finished.1;
  }
}
