/**
 * The scroll loop every bulk read of the backend manager follows: open a
 * scroll, and while the latest response carries a non-empty page of hits,
 * handle that page and ask for the next one with the latest scroll id; once a
 * response comes back empty, clear the scroll with the latest id, reporting a
 * failed clear. An IO error anywhere ends the loop with an error report and
 * whatever was gathered so far; the scroll is then left uncleared. An error
 * status on any request escapes the IOException handler and leaves the
 * operation.
 */
module ScrollLoop {
  import opened Common

  /** One search hit: its document identifier and its source map. */
  datatype Hit = Hit(id: string, source: map<string, Json>)

  /** One search or scroll response: the scroll id to continue with and the hit array, which may be null. */
  datatype Page = Page(scrollId: string, hits: Option<seq<Hit>>)

  /**
   * The backend's j-th response: the opening search for j = 0, the j-th scroll
   * request after it. A request past the scripted responses fails like a
   * timed-out one.
   */
  function Response(pages: seq<Call<Page>>, j: nat): (c: Call<Page>)
    ensures j >= |pages| ==> c.IOFailure?
  {
    if j < |pages| then pages[j] else IOFailure
  }

  /** The loop goes on while the response holds a non-null, non-empty hit array. */
  predicate HasHits(c: Call<Page>)
  {
    c.Answer? && c.value.hits.Some? && |c.value.hits.value| > 0
  }

  function HitsOf(c: Call<Page>): seq<Hit>
  {
    if HasHits(c) then c.value.hits.value else []
  }

  /**
   * What handling one page does: it goes on with some output and perhaps an
   * error report, or an IO error stops the loop after some output, or an
   * unchecked exception leaves the operation.
   */
  datatype PageStep<R> = Continue(out: seq<R>, reported: bool) | Interrupted(out: seq<R>) | Crash

  function StepOut<R>(s: PageStep<R>): seq<R>
  {
    if s.Crash? then [] else s.out
  }

  /**
   * How a scroll ends: with the gathered output, whether an error was reported,
   * the scroll ids sent with the scroll requests, and the id sent with the clear
   * request if one was sent; or with an unchecked exception.
   */
  datatype ScrollOutcome<R> =
    | Finished(results: seq<R>, reported: bool, requested: seq<string>, cleared: Option<string>)
    | Threw

  /** Puts the effect of the pages already handled in front of the rest of the run. */
  function Prepend<R>(out: seq<R>, reported: bool, requested: seq<string>, o: ScrollOutcome<R>): (r: ScrollOutcome<R>)
    ensures r.Threw? <==> o.Threw?
    ensures o.Finished? ==>
              && r.results == out + o.results && r.requested == requested + o.requested
              && r.cleared == o.cleared && (r.reported <==> reported || o.reported)
  {
    match o
    case Threw => Threw
    case Finished(res, rep, req, c) => Finished(out + res, reported || rep, requested + req, c)
  }

  lemma PrependPrepend<R>(a: seq<R>, ra: bool, qa: seq<string>, b: seq<R>, rb: bool, qb: seq<string>, o: ScrollOutcome<R>)
    ensures Prepend(a, ra, qa, Prepend(b, rb, qb, o)) == Prepend(a + b, ra || rb, qa + qb, o)
  {
    if o.Finished? {
      assert a + (b + o.results) == (a + b) + o.results;
      assert qa + (qb + o.requested) == (qa + qb) + o.requested;
    }
  }

  /**
   * How the loop ends at a response without hits: an IO error ends it with a
   * report and no clear, an error status escapes, and an arrived response is
   * followed by the clear request with its scroll id.
   */
  function Stop<R>(resp: Call<Page>, clear: Call<bool>): ScrollOutcome<R>
  {
    match resp
    case IOFailure => Finished([], true, [], None)
    case StatusFailure => Threw
    case Answer(page) =>
      match clear
      case StatusFailure => Threw
      case IOFailure => Finished([], true, [], Some(page.scrollId))
      case Answer(succeeded) => Finished([], !succeeded, [], Some(page.scrollId))
  }

  /**
   * The end of a scroll is reported when the response that ends it is an IO
   * error, or when it arrived and the clear after it failed with an IO error
   * or came back without success.
   */
  predicate EndReported(stop: Call<Page>, clear: Call<bool>)
  {
    stop.IOFailure? || (stop.Answer? && (clear.IOFailure? || (clear.Answer? && !clear.value)))
  }

  /** The scroll from the j-th response on, as a reference definition. */
  function ScrollFrom<R>(pages: seq<Call<Page>>, j: nat, visit: (nat, seq<Hit>) -> PageStep<R>, clear: Call<bool>)
    : ScrollOutcome<R>
    decreases |pages| - j
  {
    var resp := Response(pages, j);
    if !HasHits(resp) then Stop(resp, clear)
    else
      match visit(j, resp.value.hits.value)
      case Crash => Threw
      case Interrupted(out) => Finished(out, true, [], None)
      case Continue(out, rep) => Prepend(out, rep, [resp.value.scrollId], ScrollFrom(pages, j + 1, visit, clear))
  }

  /** The loop as the backend manager runs it. */
  method RunScroll<R>(pages: seq<Call<Page>>, visit: (nat, seq<Hit>) -> PageStep<R>, clear: Call<bool>)
    returns (o: ScrollOutcome<R>)
    ensures o == ScrollFrom(pages, 0, visit, clear)
  {
    var results: seq<R> := [];
    var reported := false;
    var requested: seq<string> := [];
    var j := 0;
    var resp := Response(pages, 0);
    while HasHits(resp)
      invariant resp == Response(pages, j)
      invariant ScrollFrom(pages, 0, visit, clear) == Prepend(results, reported, requested, ScrollFrom(pages, j, visit, clear))
      decreases |pages| - j
    {
      var step := visit(j, resp.value.hits.value);
      match step
      case Crash =>
        o := Threw;
        return;
      case Interrupted(out) =>
        o := Finished(results + out, true, requested, None);
        assert requested + [] == requested;
        return;
      case Continue(out, rep) =>
        PrependPrepend(results, reported, requested, out, rep, [resp.value.scrollId], ScrollFrom(pages, j + 1, visit, clear));
        results := results + out;
        reported := reported || rep;
        requested := requested + [resp.value.scrollId];
      j := j + 1;
      resp := Response(pages, j);
    }
    o := Prepend(results, reported, requested, Stop(resp, clear));
  }

  /** The number of consecutive responses with hits from the j-th on. */
  function ReadCount(pages: seq<Call<Page>>, j: nat): (n: nat)
    ensures n <= Max0(|pages| - j)
    decreases |pages| - j
  {
    if HasHits(Response(pages, j)) then 1 + ReadCount(pages, j + 1) else 0
  }

  /** The scroll id a response carries, if it arrived. */
  function IdOf(c: Call<Page>): string
  {
    if c.Answer? then c.value.scrollId else ""
  }

  /** The scroll ids of the n responses from the j-th on. */
  function ScrollIds(pages: seq<Call<Page>>, j: nat, n: nat): (r: seq<string>)
    ensures |r| == n
    ensures forall i :: 0 <= i < n ==> r[i] == IdOf(Response(pages, j + i))
  {
    seq(n, i requires 0 <= i < n => IdOf(Response(pages, j + i)))
  }

  lemma ScrollIdsCons(pages: seq<Call<Page>>, j: nat, n: nat)
    ensures ScrollIds(pages, j, n + 1) == [IdOf(Response(pages, j))] + ScrollIds(pages, j + 1, n)
  {
    var l := ScrollIds(pages, j, n + 1);
    var r := [IdOf(Response(pages, j))] + ScrollIds(pages, j + 1, n);
    forall i | 0 <= i < n + 1 ensures l[i] == r[i] {
      if i > 0 {
        assert r[i] == ScrollIds(pages, j + 1, n)[i - 1];
        assert (j + 1) + (i - 1) == j + i;
      }
    }
  }

  /** The first ReadCount responses all carry hits. */
  lemma {:induction false} ReadCountHasHits(pages: seq<Call<Page>>, j: nat, i: nat)
    requires i < ReadCount(pages, j)
    ensures HasHits(Response(pages, j + i))
    decreases i
  {
    if i > 0 {
      ReadCountHasHits(pages, j + 1, i - 1);
      assert (j + 1) + (i - 1) == j + i;
    }
  }

  /**
   * Each scroll request carries the scroll id of the response before it, and
   * the clear request, sent at most once, carries the id of the first response
   * without hits.
   */
  lemma {:induction false} ScrollTrace<R>(pages: seq<Call<Page>>, j: nat, visit: (nat, seq<Hit>) -> PageStep<R>, clear: Call<bool>)
    ensures var o := ScrollFrom(pages, j, visit, clear);
            o.Finished? ==>
              && |o.requested| <= ReadCount(pages, j)
              && o.requested == ScrollIds(pages, j, |o.requested|)
              && (o.cleared.Some? ==>
                    && |o.requested| == ReadCount(pages, j)
                    && Response(pages, j + |o.requested|).Answer?
                    && !HasHits(Response(pages, j + |o.requested|))
                    && o.cleared.value == Response(pages, j + |o.requested|).value.scrollId)
    decreases |pages| - j
  {
    var resp := Response(pages, j);
    if HasHits(resp) {
      var step := visit(j, resp.value.hits.value);
      if step.Continue? {
        ScrollTrace(pages, j + 1, visit, clear);
        var rest := ScrollFrom(pages, j + 1, visit, clear);
        if rest.Finished? {
          ScrollIdsCons(pages, j, |rest.requested|);
          assert j + 1 + |rest.requested| == j + (|rest.requested| + 1);
        }
      }
    } else {
      assert ScrollIds(pages, j, 0) == [];
    }
  }

  /** The outputs of the n pages from the j-th on. */
  function Outs<R>(pages: seq<Call<Page>>, j: nat, n: nat, visit: (nat, seq<Hit>) -> PageStep<R>): (r: seq<seq<R>>)
    ensures |r| == n
    ensures forall i :: 0 <= i < n ==> r[i] == StepOut(visit(j + i, HitsOf(Response(pages, j + i))))
  {
    seq(n, i requires 0 <= i < n => StepOut(visit(j + i, HitsOf(Response(pages, j + i)))))
  }

  /**
   * When no page is interrupted or crashes, the run escapes exactly when the
   * first response without hits, or the clear after it, is an error status;
   * otherwise every page with hits is handled exactly once and in order, the
   * loop stops at that response, and the scroll is cleared exactly when that
   * response did arrive.
   */
  lemma {:induction false} ScrollEveryPage<R>(pages: seq<Call<Page>>, j: nat, visit: (nat, seq<Hit>) -> PageStep<R>, clear: Call<bool>)
    requires forall i :: j <= i < j + ReadCount(pages, j) ==> visit(i, HitsOf(Response(pages, i))).Continue?
    ensures var o := ScrollFrom(pages, j, visit, clear);
            var n := ReadCount(pages, j);
            var stop := Response(pages, j + n);
            && (o.Threw? <==> stop.StatusFailure? || (stop.Answer? && clear.StatusFailure?))
            && (o.Finished? ==>
                  && |o.requested| == n
                  && o.results == Flatten(Outs(pages, j, n, visit))
                  && (o.cleared.Some? <==> stop.Answer?)
                  && (o.reported <==>
                        || (exists i :: j <= i < j + n && visit(i, HitsOf(Response(pages, i))).reported)
                        || EndReported(stop, clear)))
    decreases |pages| - j
  {
    var resp := Response(pages, j);
    var n := ReadCount(pages, j);
    if HasHits(resp) {
      ScrollEveryPage(pages, j + 1, visit, clear);
      var rest := ScrollFrom(pages, j + 1, visit, clear);
      var step := visit(j, HitsOf(resp));
      assert step.Continue?;
      var outs := Outs(pages, j, n, visit);
      assert outs[0] == step.out;
      assert outs[1..] == Outs(pages, j + 1, n - 1, visit);
      assert ScrollFrom(pages, j, visit, clear) == Prepend(step.out, step.reported, [resp.value.scrollId], rest);
      assert j + n == (j + 1) + (n - 1);
    } else {
      assert Outs(pages, j, 0, visit) == [];
    }
  }

  /**
   * When the handling of a page is interrupted by an IO error after every page
   * before it went on, the run ends there with a report and without a clear,
   * having asked for the pages before it and kept the output of all of them.
   */
  lemma {:induction false} InterruptedRunReports<R>(pages: seq<Call<Page>>, j: nat, visit: (nat, seq<Hit>) -> PageStep<R>, clear: Call<bool>, k: nat)
    requires j <= k < j + ReadCount(pages, j)
    requires forall i :: j <= i < k ==> visit(i, HitsOf(Response(pages, i))).Continue?
    requires visit(k, HitsOf(Response(pages, k))).Interrupted?
    ensures var o := ScrollFrom(pages, j, visit, clear);
            && o.Finished? && o.reported && o.cleared.None?
            && |o.requested| == k - j
            && o.results == Flatten(Outs(pages, j, k - j + 1, visit))
    decreases k - j
  {
    var resp := Response(pages, j);
    ReadCountHasHits(pages, j, 0);
    assert HasHits(resp);
    var outs := Outs(pages, j, k - j + 1, visit);
    if k == j {
      assert outs == [StepOut(visit(j, HitsOf(resp)))];
    } else {
      InterruptedRunReports(pages, j + 1, visit, clear, k);
      assert outs[0] == StepOut(visit(j, HitsOf(resp)));
      assert outs[1..] == Outs(pages, j + 1, k - (j + 1) + 1, visit);
    }
  }

  /**
   * A clear that fails with an IO error or reports no success is only
   * reported: the run reports once such a clear is sent, and the clear
   * changes nothing else about it.
   */
  lemma {:induction false} ClearOnlyReported<R>(pages: seq<Call<Page>>, j: nat, visit: (nat, seq<Hit>) -> PageStep<R>, c1: Call<bool>, c2: Call<bool>)
    requires c1.StatusFailure? <==> c2.StatusFailure?
    ensures var o1 := ScrollFrom(pages, j, visit, c1);
            var o2 := ScrollFrom(pages, j, visit, c2);
            && (o1.Threw? <==> o2.Threw?)
            && (o1.Finished? ==> o1.results == o2.results && o1.requested == o2.requested && o1.cleared == o2.cleared)
            && (o1.Finished? && o1.cleared.Some? && (c1.IOFailure? || (c1.Answer? && !c1.value)) ==> o1.reported)
    decreases |pages| - j
  {
    var resp := Response(pages, j);
    if HasHits(resp) && visit(j, resp.value.hits.value).Continue? {
      ClearOnlyReported(pages, j + 1, visit, c1, c2);
    }
  }

  /** An IO error on the opening search ends the operation with a report, no output and no clear. */
  lemma OpeningFailure<R>(pages: seq<Call<Page>>, visit: (nat, seq<Hit>) -> PageStep<R>, clear: Call<bool>)
    requires Response(pages, 0).IOFailure?
    ensures ScrollFrom(pages, 0, visit, clear) == Finished([], true, [], None)
  {
  }
}
