/**
 * Index creation in the backend manager: probe whether the index exists,
 * delete it first when asked to replace it and it is there, and create it
 * when asked to replace it or when it was missing.
 */
module IndexAdmin {
  import opened Common

  /** What an index is created with: its type, its mapping, its shard and replica counts. */
  datatype IndexSpec = IndexSpec(typeName: string, mapping: string, shards: int, replicas: int)

  /** The backend's indices by name. */
  type Cluster = map<string, IndexSpec>

  /** The requests index creation sends, in order. */
  datatype IndexRequest = ExistsProbe | DeleteIndex | CreateIndex

  /** How the backend answers a delete or a create: done, an IO error, or an error status. */
  datatype StepResult = Ok | IOError | StatusError

  /** The requests sent and how the operation ended, with the indices it left behind. */
  datatype AdminRun = AdminRun(requests: seq<IndexRequest>, outcome: Outcome<Cluster>)

  /**
   * The delete helper: a deleted index is gone; an IO error or an error status
   * is reported and leaves the indices as they were.
   */
  function DeleteStep(c: Cluster, index: string, answer: StepResult): (r: (Cluster, bool))
    ensures answer == Ok ==> r == (c - {index}, false)
    ensures answer != Ok ==> r == (c, true)
  {
    if answer == Ok then (c - {index}, false) else (c, true)
  }

  /**
   * Creates an index. `probe` is the answer to the existence probe (the real
   * answer is whether the index is among the indices); `del` and `create` are
   * the backend's answers to the delete and create requests, if sent. An IO
   * error is reported; an error status on the delete is reported by the delete
   * helper, but one on the probe or the create is not caught and leaves the
   * operation. Once the create is sent, the operation leaves exactly when the
   * create is refused with an error status, and otherwise reports exactly when
   * the create or the delete before it failed.
   */
  function CreateIndexRun(c: Cluster, index: string, spec: IndexSpec, deleteOriginalIfPresent: bool,
                          probe: Call<()>, del: StepResult, create: StepResult): (r: AdminRun)
    ensures |r.requests| >= 1 && r.requests[0] == ExistsProbe
    ensures probe.IOFailure? ==> r == AdminRun([ExistsProbe], Returned(c, true))
    ensures probe.StatusFailure? ==> r == AdminRun([ExistsProbe], Crashed)
    ensures probe.Answer? && (deleteOriginalIfPresent || index !in c) ==>
              && (r.outcome.Crashed? <==> create == StatusError)
              && (r.outcome.Returned? ==>
                    && (r.outcome.reported <==> create == IOError || (deleteOriginalIfPresent && index in c && del != Ok))
                    && (create == Ok ==> index in r.outcome.value && r.outcome.value[index] == spec))
  {
    if probe.IOFailure? then AdminRun([ExistsProbe], Returned(c, true))
    else if probe.StatusFailure? then AdminRun([ExistsProbe], Crashed)
    else
      var present := index in c;
      var (afterDelete, deleteReported) :=
        if deleteOriginalIfPresent && present then DeleteStep(c, index, del) else (c, false);
      var deleteRequests := if deleteOriginalIfPresent && present then [DeleteIndex] else [];
      if deleteOriginalIfPresent || !present then
        var requests := [ExistsProbe] + deleteRequests + [CreateIndex];
        match create
        case Ok => AdminRun(requests, Returned(afterDelete[index := spec], deleteReported))
        case IOError => AdminRun(requests, Returned(afterDelete, true))
        case StatusError => AdminRun(requests, Crashed)
      else
        AdminRun([ExistsProbe] + deleteRequests, Returned(afterDelete, deleteReported))
  }

  /**
   * Once the probe has answered, the delete is sent exactly when replacing was
   * asked for and the index exists, and the create exactly when replacing was
   * asked for or the index is missing; the delete always comes before the create.
   */
  lemma RequestsFollowTheFlag(c: Cluster, index: string, spec: IndexSpec, flag: bool,
                              probe: Call<()>, del: StepResult, create: StepResult)
    requires probe.Answer?
    ensures var r := CreateIndexRun(c, index, spec, flag, probe, del, create);
            && (DeleteIndex in r.requests <==> flag && index in c)
            && (CreateIndex in r.requests <==> flag || index !in c)
            && (DeleteIndex in r.requests && CreateIndex in r.requests ==> r.requests == [ExistsProbe, DeleteIndex, CreateIndex])
  {
  }

  /**
   * Without the flag an existing index is left alone: nothing but the probe is
   * sent and nothing changes, unless the probe itself is refused.
   */
  lemma ExistingIndexKept(c: Cluster, index: string, spec: IndexSpec,
                          probe: Call<()>, del: StepResult, create: StepResult)
    requires index in c
    ensures CreateIndexRun(c, index, spec, false, probe, del, create).outcome ==
              if probe.StatusFailure? then Crashed else Returned(c, probe.IOFailure?)
    ensures CreateIndexRun(c, index, spec, false, probe, del, create).requests == [ExistsProbe]
  {
  }

  /**
   * When every request succeeds the index exists afterwards: with the given
   * definition if it was created, as before if it was kept; no other index changes.
   */
  lemma SuccessfulRunLeavesIndex(c: Cluster, index: string, spec: IndexSpec, flag: bool, probe: Call<()>)
    requires probe.Answer?
    ensures var r := CreateIndexRun(c, index, spec, flag, probe, Ok, Ok);
            && r.outcome.Returned? && !r.outcome.reported
            && index in r.outcome.value
            && r.outcome.value[index] == (if flag || index !in c then spec else c[index])
            && forall other :: other != index ==>
                 (other in r.outcome.value <==> other in c) &&
                 (other in c ==> r.outcome.value[other] == c[other])
  {
  }

  /**
   * A failed delete leaves the old index in place, and the create that follows
   * then meets it: if the backend refuses with an error status, the operation
   * leaves by that exception.
   */
  lemma FailedDeleteThenRefusedCreate(c: Cluster, index: string, spec: IndexSpec, probe: Call<()>, del: StepResult)
    requires probe.Answer? && index in c && del != Ok
    ensures CreateIndexRun(c, index, spec, true, probe, del, StatusError).outcome.Crashed?
    ensures CreateIndexRun(c, index, spec, true, probe, del, IOError).outcome == Returned(c, true)
  {
  }
}
