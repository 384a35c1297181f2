/**
 * The refresh action of the map controller: the query is rebuilt from the
 * user's filter conditions, each enabled condition appending its clauses in
 * list order, and the result replaces the current query, which starts out as
 * match-all. The aggregation service reruns whenever the current query changes.
 */
module QueryCompiler {

  /** One clause a condition appends to the query under construction. */
  datatype Clause = Clause(text: string)

  /** A filter condition: whether it is switched on, and the clauses it appends when it is. */
  datatype Condition = Condition(enabled: bool, clauses: seq<Clause>)

  /** The current query: the initial match-all query, or one built from clauses. */
  datatype Query = MatchAll | Built(clauses: seq<Clause>)

  const InitialQuery: Query := MatchAll

  /** The clauses the enabled conditions contribute, in list order. */
  function EnabledClauses(conds: seq<Condition>): seq<Clause>
    decreases |conds|
  {
    if conds == [] then []
    else
      var last := conds[|conds| - 1];
      EnabledClauses(conds[..|conds| - 1]) + (if last.enabled then last.clauses else [])
  }

  /** The enabled conditions, in list order. */
  function Enabled(conds: seq<Condition>): (r: seq<Condition>)
    ensures |r| <= |conds|
    ensures forall k :: 0 <= k < |r| ==> r[k].enabled
    ensures forall c :: c in r <==> c in conds && c.enabled
    decreases |conds|
  {
    if conds == [] then []
    else
      var last := conds[|conds| - 1];
      assert conds == conds[..|conds| - 1] + [last];
      Enabled(conds[..|conds| - 1]) + (if last.enabled then [last] else [])
  }

  /** The loop of the refresh action: each enabled condition appends its clauses to the query. */
  method Compile(conds: seq<Condition>) returns (q: Query)
    ensures q.Built?
    ensures q.clauses == EnabledClauses(conds)
  {
    var clauses: seq<Clause> := [];
    var i := 0;
    while i < |conds|
      invariant 0 <= i <= |conds|
      invariant clauses == EnabledClauses(conds[..i])
    {
      assert conds[..i + 1][..i] == conds[..i];
      if conds[i].enabled {
        clauses := clauses + conds[i].clauses;
      }
      i := i + 1;
    }
    assert conds[..|conds|] == conds;
    q := Built(clauses);
  }

  /** Compiling a concatenation concatenates the contributions. */
  lemma {:induction false} EnabledClausesAppend(a: seq<Condition>, b: seq<Condition>)
    ensures EnabledClauses(a + b) == EnabledClauses(a) + EnabledClauses(b)
    decreases |b|
  {
    if b == [] {
      assert a + b == a;
    } else {
      var init := b[..|b| - 1];
      assert (a + b)[..|a + b| - 1] == a + init;
      assert (a + b)[|a + b| - 1] == b[|b| - 1];
      EnabledClausesAppend(a, init);
    }
  }

  /** Only the enabled conditions matter: compiling them alone gives the same clauses. */
  lemma {:induction false} OnlyEnabledMatter(conds: seq<Condition>)
    ensures EnabledClauses(Enabled(conds)) == EnabledClauses(conds)
    decreases |conds|
  {
    if conds != [] {
      var init := conds[..|conds| - 1];
      var last := conds[|conds| - 1];
      OnlyEnabledMatter(init);
      EnabledClausesAppend(Enabled(init), if last.enabled then [last] else []);
      if last.enabled {
        assert [last][..0] == [];
      }
    }
  }

  /** Switching a condition off has the same effect as deleting it from the list. */
  lemma DisabledContributesNothing(before: seq<Condition>, c: Condition, after: seq<Condition>)
    requires !c.enabled
    ensures EnabledClauses(before + [c] + after) == EnabledClauses(before + after)
  {
    EnabledClausesAppend(before + [c], after);
    EnabledClausesAppend(before, [c]);
    EnabledClausesAppend(before, after);
    assert [c][..0] == [];
  }

  /** With no condition switched on the rebuilt query has no clauses at all. */
  lemma {:induction false} NothingEnabled(conds: seq<Condition>)
    requires forall k :: 0 <= k < |conds| ==> !conds[k].enabled
    ensures EnabledClauses(conds) == []
    decreases |conds|
  {
    if conds != [] {
      NothingEnabled(conds[..|conds| - 1]);
    }
  }

  /**
   * Setting the current query: the property notifies the aggregation service
   * only when the new query differs from the current one.
   */
  function SetQuery(current: Query, next: Query): (r: (Query, bool))
    ensures r.0 == next
    ensures r.1 <==> next != current
  {
    (next, next != current)
  }

  /** Refreshing twice with the same conditions reruns the service at most the first time. */
  lemma RefreshAgainIsQuiet(current: Query, conds: seq<Condition>)
    ensures var first := SetQuery(current, Built(EnabledClauses(conds)));
            !SetQuery(first.0, Built(EnabledClauses(conds))).1
  {
  }

  /** The first refresh always reruns the service, since no built query equals match-all. */
  lemma FirstRefreshReruns(conds: seq<Condition>)
    ensures SetQuery(InitialQuery, Built(EnabledClauses(conds))).1
  {
  }
}
