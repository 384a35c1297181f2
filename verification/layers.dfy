/**
 * The z-order bookkeeping of the map controller. The map widget has no native
 * z-order, so the controller keeps its own node list plus a side table from
 * node to z-layer, and the map shows that list sorted by z-layer, a node
 * without an entry counting as layer -1.
 */
module Layers {
  import opened Common

  /** A map node (circle, polygon, pin or tile layer), identified by allocation. */
  type NodeId = nat

  /** The overlay kinds, in declaration order. */
  datatype MapLayer = TileProvider | BorderPolygon | Circles | QueryBoundary | QueryCorner | SitePins

  const AllLayers: seq<MapLayer> := [TileProvider, BorderPolygon, Circles, QueryBoundary, QueryCorner, SitePins]

  /** The z-layer of an overlay kind is its position in declaration order. */
  function ZLayer(l: MapLayer): (z: int)
    ensures 0 <= z < |AllLayers|
    ensures AllLayers[z] == l
  {
    match l
    case TileProvider => 0
    case BorderPolygon => 1
    case Circles => 2
    case QueryBoundary => 3
    case QueryCorner => 4
    case SitePins => 5
  }

  /** Ranks run from 0 to 5 and grow strictly along the declaration order. */
  lemma ZLayersStrictlyIncreasing()
    ensures forall i :: 0 <= i < |AllLayers| ==> ZLayer(AllLayers[i]) == i
    ensures forall i, j :: 0 <= i < j < |AllLayers| ==> ZLayer(AllLayers[i]) < ZLayer(AllLayers[j])
  {
  }

  /** The controller's node list and its z-order side table. */
  datatype DrawList = DrawList(nodes: seq<NodeId>, zOrder: map<NodeId, int>)

  const EmptyDrawList: DrawList := DrawList([], map[])

  /**
   * A draw list as the controller keeps it: no node listed twice, exactly the
   * listed nodes ranked, and every rank one of the layers.
   */
  predicate WellFormed(d: DrawList)
  {
    && Distinct(d.nodes)
    && (forall n :: n in d.nodes ==> n in d.zOrder)
    && (forall n :: n in d.zOrder ==> n in d.nodes)
    && (forall n :: n in d.zOrder ==> 0 <= d.zOrder[n] < |AllLayers|)
  }

  /** Adding a node records its rank and appends it to the list. */
  function AddNode(d: DrawList, n: NodeId, layer: MapLayer): (r: DrawList)
    ensures r.nodes == d.nodes + [n]
    ensures r.zOrder.Keys == d.zOrder.Keys + {n}
    ensures r.zOrder[n] == ZLayer(layer)
    ensures forall m :: m in d.zOrder && m != n ==> r.zOrder[m] == d.zOrder[m]
  {
    DrawList(d.nodes + [n], d.zOrder[n := ZLayer(layer)])
  }

  /** Adds each listed node in turn, all on the same layer. */
  function AddAll(d: DrawList, ids: seq<NodeId>, layer: MapLayer): (r: DrawList)
    ensures r.nodes == d.nodes + ids
    ensures forall x :: x in r.zOrder <==> x in d.zOrder || x in ids
    ensures forall x :: x in r.zOrder ==> r.zOrder[x] == if x in ids then ZLayer(layer) else d.zOrder[x]
    ensures WellFormed(d) && Distinct(ids) && (forall x :: x in ids ==> x !in d.zOrder) ==> WellFormed(r)
    decreases |ids|
  {
    if ids == [] then
      assert d.nodes + ids == d.nodes;
      d
    else
      var init := ids[..|ids| - 1];
      var last := ids[|ids| - 1];
      assert ids == init + [last];
      var before := AddAll(d, init, layer);
      assert forall x :: x in ids <==> x in init || x == last;
      if WellFormed(d) && Distinct(ids) && (forall x :: x in ids ==> x !in d.zOrder) then
        assert Distinct(init) by {
          forall i, j | 0 <= i < j < |init| ensures init[i] != init[j] {
            assert init[i] == ids[i] && init[j] == ids[j];
          }
        }
        assert last !in init by {
          forall i | 0 <= i < |init| ensures init[i] != last {
            assert init[i] == ids[i];
          }
        }
        AddKeepsWellFormed(before, last, layer);
        AddNode(before, last, layer)
      else
        AddNode(before, last, layer)
  }

  /** The list's removal of one element: its first occurrence, if any. */
  function RemoveFirst(s: seq<NodeId>, x: NodeId): (r: seq<NodeId>)
    ensures multiset(r) == multiset(s) - multiset{x}
  {
    if s == [] then []
    else
      assert s == [s[0]] + s[1..];
      if s[0] == x then s[1..] else [s[0]] + RemoveFirst(s[1..], x)
  }

  lemma {:induction false} RemoveFirstOfDistinct(s: seq<NodeId>, x: NodeId)
    ensures Distinct(s) ==> RemoveFirst(s, x) == Without(s, {x})
  {
    if s != [] && Distinct(s) {
      assert Distinct(s[1..]) by {
        forall i, j | 0 <= i < j < |s[1..]| ensures s[1..][i] != s[1..][j] {
          assert s[1..][i] == s[i + 1] && s[1..][j] == s[j + 1];
        }
      }
      if s[0] == x {
        assert x !in s[1..];
        WithoutNothing(s[1..], {x});
      } else {
        RemoveFirstOfDistinct(s[1..], x);
      }
    }
  }

  /** Removing a node takes it out of both the list and the side table. */
  function RemoveNode(d: DrawList, n: NodeId): (r: DrawList)
    ensures n !in r.zOrder
    ensures r.zOrder.Keys == d.zOrder.Keys - {n}
    ensures forall m :: m in r.zOrder ==> r.zOrder[m] == d.zOrder[m]
    ensures multiset(r.nodes) == multiset(d.nodes) - multiset{n}
    ensures Distinct(d.nodes) ==> r.nodes == Without(d.nodes, {n})
  {
    RemoveFirstOfDistinct(d.nodes, n);
    DrawList(RemoveFirst(d.nodes, n), d.zOrder - {n})
  }

  /** Takes each listed node off the map in turn. */
  function RemoveAll(d: DrawList, ids: seq<NodeId>): (r: DrawList)
    ensures r.zOrder == d.zOrder - Elems(ids)
    decreases |ids|
  {
    if ids == [] then
      assert Elems(ids) == {};
      d
    else
      var init := ids[..|ids| - 1];
      var last := ids[|ids| - 1];
      assert ids == init + [last];
      ElemsSnoc(init, last);
      RemoveNode(RemoveAll(d, init), last)
  }

  lemma ElemsSnoc(init: seq<NodeId>, last: NodeId)
    ensures Elems(init + [last]) == Elems(init) + {last}
  {
    assert forall x :: x in init + [last] <==> x in init || x == last;
  }

  /** On a list without repetitions, removing the listed nodes filters them out in order. */
  lemma {:induction false} RemoveAllNodes(d: DrawList, ids: seq<NodeId>)
    requires Distinct(d.nodes)
    ensures Distinct(RemoveAll(d, ids).nodes)
    ensures RemoveAll(d, ids).nodes == Without(d.nodes, Elems(ids))
    decreases |ids|
  {
    if ids == [] {
      assert Elems(ids) == {};
      WithoutNothing(d.nodes, {});
    } else {
      var init := ids[..|ids| - 1];
      var last := ids[|ids| - 1];
      assert ids == init + [last];
      ElemsSnoc(init, last);
      RemoveAllNodes(d, init);
      var before := RemoveAll(d, init);
      WithoutUnion(d.nodes, Elems(init), {last});
      WithoutDistinct(before.nodes, {last});
    }
  }

  lemma {:induction false} RemoveAllKeepsWellFormed(d: DrawList, ids: seq<NodeId>)
    requires WellFormed(d)
    ensures WellFormed(RemoveAll(d, ids))
    decreases |ids|
  {
    if ids != [] {
      var init := ids[..|ids| - 1];
      assert ids == init + [ids[|ids| - 1]];
      RemoveAllKeepsWellFormed(d, init);
      RemoveKeepsWellFormed(RemoveAll(d, init), ids[|ids| - 1]);
    }
  }

  lemma AddKeepsWellFormed(d: DrawList, n: NodeId, layer: MapLayer)
    requires WellFormed(d)
    requires n !in d.zOrder
    ensures WellFormed(AddNode(d, n, layer))
  {
    var r := AddNode(d, n, layer);
    forall i, j | 0 <= i < j < |r.nodes| ensures r.nodes[i] != r.nodes[j] {
      if j == |d.nodes| {
        assert r.nodes[i] == d.nodes[i];
        assert d.nodes[i] in d.nodes;
      }
    }
  }

  lemma RemoveKeepsWellFormed(d: DrawList, n: NodeId)
    requires WellFormed(d)
    ensures WellFormed(RemoveNode(d, n))
    ensures n !in RemoveNode(d, n).nodes
  {
    WithoutDistinct(d.nodes, {n});
  }

  /** The side-table lookup with -1 as the default for unranked nodes. */
  function RankOf(z: map<NodeId, int>, n: NodeId): int
  {
    if n in z then z[n] else -1
  }

  predicate SortedByRank(s: seq<NodeId>, z: map<NodeId, int>)
  {
    forall i, j :: 0 <= i < j < |s| ==> RankOf(z, s[i]) <= RankOf(z, s[j])
  }

  lemma SortedCons(h: NodeId, rest: seq<NodeId>, z: map<NodeId, int>)
    requires SortedByRank(rest, z)
    requires forall k :: 0 <= k < |rest| ==> RankOf(z, h) <= RankOf(z, rest[k])
    ensures SortedByRank([h] + rest, z)
  {
    var s := [h] + rest;
    forall i, j | 0 <= i < j < |s| ensures RankOf(z, s[i]) <= RankOf(z, s[j]) {
      assert s[j] == rest[j - 1];
      if i > 0 {
        assert s[i] == rest[i - 1];
      }
    }
  }

  /** What lies behind the head of a sorted list ranks no lower than the head. */
  lemma HeadIsLeast(t: seq<NodeId>, z: map<NodeId, int>, y: NodeId)
    requires SortedByRank(t, z) && t != []
    requires y in multiset(t[1..])
    ensures RankOf(z, t[0]) <= RankOf(z, y)
  {
    assert y in t[1..];
    var m :| 0 <= m < |t[1..]| && t[1..][m] == y;
    assert t[m + 1] == y;
  }

  /** Inserts x before the first element that does not rank below it. */
  function InsertByRank(x: NodeId, t: seq<NodeId>, z: map<NodeId, int>): (r: seq<NodeId>)
    requires SortedByRank(t, z)
    ensures SortedByRank(r, z)
    ensures multiset(r) == multiset(t) + multiset{x}
  {
    if t == [] || RankOf(z, x) <= RankOf(z, t[0]) then
      SortedCons(x, t, z);
      [x] + t
    else
      assert SortedByRank(t[1..], z);
      var rest := InsertByRank(x, t[1..], z);
      assert forall k :: 0 <= k < |rest| ==> RankOf(z, t[0]) <= RankOf(z, rest[k]) by {
        forall k | 0 <= k < |rest| ensures RankOf(z, t[0]) <= RankOf(z, rest[k]) {
          assert rest[k] in multiset(rest);
          if rest[k] != x {
            HeadIsLeast(t, z, rest[k]);
          }
        }
      }
      SortedCons(t[0], rest, z);
      assert t == [t[0]] + t[1..];
      [t[0]] + rest
  }

  /** The node list sorted by rank; among equal ranks the list order is kept. */
  function SortByRank(s: seq<NodeId>, z: map<NodeId, int>): (r: seq<NodeId>)
    ensures SortedByRank(r, z)
    ensures multiset(r) == multiset(s)
  {
    if s == [] then []
    else
      assert s == [s[0]] + s[1..];
      InsertByRank(s[0], SortByRank(s[1..], z), z)
  }

  /** The map's children: every listed node exactly as often as listed, in rank order. */
  function Displayed(d: DrawList): (r: seq<NodeId>)
    ensures SortedByRank(r, d.zOrder)
    ensures multiset(r) == multiset(d.nodes)
    ensures WellFormed(d) ==> forall k :: 0 <= k < |r| ==> 0 <= RankOf(d.zOrder, r[k]) < |AllLayers|
  {
    var r := SortByRank(d.nodes, d.zOrder);
    assert forall k :: 0 <= k < |r| ==> r[k] in multiset(r);
    assert forall k :: 0 <= k < |r| ==> r[k] in d.nodes;
    r
  }
}
