/**
 * Enumerating the storage paths of every image matching a query: a counting
 * search sizes the job, then the paths are read back through a terms
 * aggregation split into partitions of at most a thousand keys each.
 */
module ImagePaths {
  import opened Common
  import opened GeoAggregation

  /** The most keys one partition's terms aggregation returns. */
  const MaxAggsPerSearch: nat := 1000

  /** The largest value of a 32-bit signed integer. */
  const IntMax: nat := 0x7FFF_FFFF

  /**
   * The number of partitions for a hit count, as a 32-bit integer; None when it
   * does not fit, where the exact conversion throws.
   */
  function PartitionsRequired(totalHits: nat): (r: Option<nat>)
    ensures r.None? <==> totalHits >= IntMax * MaxAggsPerSearch
    ensures r.Some? ==> 1 <= r.value <= IntMax
    ensures r.Some? ==> (r.value - 1) * MaxAggsPerSearch <= totalHits < r.value * MaxAggsPerSearch
  {
    var p := totalHits / MaxAggsPerSearch + 1;
    if p > IntMax then None else Some(p)
  }

  /** Any hit count up to 32-bit partitions is covered by exactly enough partitions, never one too many. */
  lemma PartitionsAreTight(totalHits: nat, p: nat)
    requires p >= 1 && (p - 1) * MaxAggsPerSearch <= totalHits < p * MaxAggsPerSearch && p <= IntMax
    ensures PartitionsRequired(totalHits) == Some(p)
  {
  }

  /** The paths one partition's response lists: the keys of every string terms aggregation in it, in order. */
  function PathKeys(aggs: seq<Agg>): (r: seq<string>)
    ensures (forall k :: 0 <= k < |aggs| ==> !aggs[k].StringTermsAgg?) ==> r == []
  {
    if aggs == [] then []
    else (if aggs[0].StringTermsAgg? then aggs[0].keys else []) + PathKeys(aggs[1..])
  }

  /** One aggregation lists its keys when it is a string terms aggregation, and nothing otherwise. */
  lemma PathKeysSingle(a: Agg)
    ensures PathKeys([a]) == if a.StringTermsAgg? then a.keys else []
  {
    assert [a][1..] == [];
  }

  /** The keys of two runs of aggregations are those of the first followed by those of the second. */
  lemma {:induction false} PathKeysAppend(a: seq<Agg>, b: seq<Agg>)
    ensures PathKeys(a + b) == PathKeys(a) + PathKeys(b)
  {
    if a == [] {
      assert a + b == b;
    } else {
      assert (a + b)[0] == a[0];
      assert (a + b)[1..] == a[1..] + b;
      PathKeysAppend(a[1..], b);
    }
  }

  /** How reading the partitions stands: still going, stopped by an IO error, or left by an error status. */
  datatype Halt = Going | IOStop | StatusStop

  /** The work done for the partitions read so far: the paths, the partition numbers asked for, and what stopped it. */
  datatype Gathered = Gathered(paths: seq<string>, asked: seq<nat>, halt: Halt)

  /** The first n partitions, read in order; `search(i, of)` answers partition i of `of`. */
  function Gather(search: (nat, nat) -> Call<seq<Agg>>, n: nat, total: nat): Gathered
  {
    if n == 0 then Gathered([], [], Going)
    else
      var g := Gather(search, n - 1, total);
      if !g.halt.Going? then g
      else
        match search(n - 1, total)
        case IOFailure => Gathered(g.paths, g.asked + [n - 1], IOStop)
        case StatusFailure => Gathered(g.paths, g.asked + [n - 1], StatusStop)
        case Answer(aggs) => Gathered(g.paths + PathKeys(aggs), g.asked + [n - 1], Going)
  }

  /**
   * The enumeration as a reference definition; `count` answers the counting
   * search. Only IO errors are caught: an error status leaves the operation.
   */
  function PathsMatching(count: Call<nat>, search: (nat, nat) -> Call<seq<Agg>>): Outcome<seq<string>>
  {
    match count
    case IOFailure => Returned([], true)
    case StatusFailure => Crashed
    case Answer(totalHits) =>
      match PartitionsRequired(totalHits)
      case None => Crashed
      case Some(p) =>
        var g := Gather(search, p, p);
        if g.halt.StatusStop? then Crashed else Returned(g.paths, g.halt.IOStop?)
  }

  /** The enumeration as the backend manager runs it. */
  method GetImagePathsMatching(count: Call<nat>, search: (nat, nat) -> Call<seq<Agg>>)
    returns (r: Outcome<seq<string>>, asked: seq<nat>)
    ensures r == PathsMatching(count, search)
    ensures count.Answer? && PartitionsRequired(count.value).Some? ==>
              asked == Gather(search, PartitionsRequired(count.value).value, PartitionsRequired(count.value).value).asked
    ensures !count.Answer? || PartitionsRequired(count.value).None? ==> asked == []
  {
    asked := [];
    if count.IOFailure? {
      r := Returned([], true);
      return;
    }
    if count.StatusFailure? {
      r := Crashed;
      return;
    }
    var required := PartitionsRequired(count.value);
    if required.None? {
      r := Crashed;
      return;
    }
    var partitions := required.value;
    var paths: seq<string> := [];
    var i := 0;
    while i < partitions
      invariant 0 <= i <= partitions
      invariant Gather(search, i, partitions) == Gathered(paths, asked, Going)
    {
      asked := asked + [i];
      var answer := search(i, partitions);
      if answer.IOFailure? {
        r := Returned(paths, true);
        assert Gather(search, i + 1, partitions) == Gathered(paths, asked, IOStop);
        GatherStopsAtFailure(search, i + 1, partitions, partitions);
        return;
      }
      if answer.StatusFailure? {
        r := Crashed;
        assert Gather(search, i + 1, partitions) == Gathered(paths, asked, StatusStop);
        GatherStopsAtFailure(search, i + 1, partitions, partitions);
        return;
      }
      paths := paths + PathKeys(answer.value);
      i := i + 1;
    }
    r := Returned(paths, false);
  }

  /** Once a partition fails, no later one is asked for and nothing more is gathered. */
  lemma {:induction false} GatherStopsAtFailure(search: (nat, nat) -> Call<seq<Agg>>, m: nat, n: nat, total: nat)
    requires m <= n && !Gather(search, m, total).halt.Going?
    ensures Gather(search, n, total) == Gather(search, m, total)
    decreases n
  {
    if n > m {
      GatherStopsAtFailure(search, m, n - 1, total);
    }
  }

  /** The paths of partitions 0 to n - 1 when all of them answer, in partition order. */
  function AllPaths(search: (nat, nat) -> Call<seq<Agg>>, n: nat, total: nat): seq<string>
    requires forall i :: 0 <= i < n ==> search(i, total).Answer?
  {
    if n == 0 then [] else AllPaths(search, n - 1, total) + PathKeys(search(n - 1, total).value)
  }

  /**
   * Partitions are asked for one at a time, in order, each once: all of them
   * when every one answers, and up to and including the first that fails
   * otherwise, keeping the paths read before it; the kind of that failure
   * decides how the reading stopped.
   */
  lemma {:induction false} GatherAsksInOrder(search: (nat, nat) -> Call<seq<Agg>>, n: nat, total: nat)
    ensures var g := Gather(search, n, total);
            && g.asked == Range(0, |g.asked|)
            && |g.asked| <= n
            && (g.halt.Going? <==> forall i :: 0 <= i < n ==> search(i, total).Answer?)
            && (g.halt.Going? ==> |g.asked| == n && g.paths == AllPaths(search, n, total))
            && (!g.halt.Going? ==>
                  && |g.asked| >= 1
                  && (g.halt.IOStop? <==> search(|g.asked| - 1, total).IOFailure?)
                  && (g.halt.StatusStop? <==> search(|g.asked| - 1, total).StatusFailure?)
                  && (forall i :: 0 <= i < |g.asked| - 1 ==> search(i, total).Answer?)
                  && g.paths == AllPaths(search, |g.asked| - 1, total))
    decreases n
  {
    if n > 0 {
      GatherAsksInOrder(search, n - 1, total);
    }
  }

  /**
   * A counting search whose IO error is reported yields no paths and asks for
   * no partition; one answered with an error status leaves the operation.
   */
  lemma CountFailureGivesNothing(search: (nat, nat) -> Call<seq<Agg>>)
    ensures PathsMatching(IOFailure, search) == Returned([], true)
    ensures PathsMatching(StatusFailure, search) == Crashed
  {
  }
}
