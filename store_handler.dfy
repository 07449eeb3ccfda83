/** The store handlers over the store table, with the two detached
    completion tasks as methods of their own, so that any interleaving of
    requests and completions is a sequence of calls. Each method is one
    atomic step against the table. */
module StoreHandler {
  import opened Common
  import opened Http
  import opened Models
  import opened Stores
  import Health
  import Helm

  /** The JSON answer of the health endpoint. */
  datatype HealthReply = HealthReply(code: int, healthy: bool, status: Option<string>, error: Option<string>)

  class StoreTable {
    /** The `stores` table, keyed by id. */
    var records: Table

    ghost predicate Valid()
      reads this
    {
      Keyed(records)
    }

    constructor ()
      ensures Valid() && records == map[]
    {
      records := map[];
    }

    /** `CreateStore` with `id` the freshly generated UUID and `suffixEnv`
        the value of `DOMAIN_SUFFIX`. An accepted store is returned for the
        provisioning task. */
    method CreateStore(name: string, storeType: string, id: string, suffixEnv: string, now: int)
        returns (code: int, reply: CreateReply)
      requires Valid() && |id| >= 8
      modifies this
      ensures Valid()
      ensures (reply, records) == Create(old(records), name, storeType, id, suffixEnv, now)
      ensures code == CreateStatus(reply)
    {
      var invalid := ValidateCreate(name, storeType);
      if invalid.Some? {
        return StatusBadRequest, Rejected(invalid.value);
      }
      var store := NewRecord(id, name, storeType, suffixEnv, now);
      if id in records {
        return StatusInternalServerError, InsertFailed;
      }
      records := records[id := store];
      return StatusAccepted, Accepted(store);
    }

    /** The provisioning goroutine for the copy `s` made at creation: run
        `ProvisionStore`, then write status, error message and updated-at in
        one update of whatever record has `s`'s id, without checking its
        current status. The error it logs is returned. */
    method ProvisioningTask(s: Store, env: Helm.Env, draws: seq<Result<nat, string>>, install: Helm.Installer, now: int)
        returns (err: Option<string>)
      requires Valid() && 2 * Helm.PasswordLength <= |draws| && Helm.DrawsInRange(draws)
      modifies this
      ensures Valid()
      ensures err == Helm.Provision(s, env, draws, install).err
      ensures records == FinishProvisioning(old(records), s.id, err, now)
    {
      var invoked;
      invoked, err := Helm.ProvisionStore(s, env, draws, install);
      var status := if err.None? then Ready else Failed;
      if s.id in records {
        records := records[s.id := records[s.id].(status := status, errorMessage := err, updatedAt := now)];
      }
      assert records == FinishProvisioning(old(records), s.id, err, now);
    }

    /** `DeleteStore`: 404 for a missing id, 409 when already `Deleting`,
        otherwise mark `Deleting` and answer 200. `started` is the record
        handed to the deletion task, which reads only its id and namespace. */
    method DeleteStore(id: string, now: int) returns (code: int, started: Option<Store>)
      requires Valid()
      modifies this
      ensures Valid()
      ensures code == DeleteStatus(MarkDeleting(old(records), id, now).0)
      ensures records == MarkDeleting(old(records), id, now).1
      ensures started.Some? <==> code == StatusOK
      ensures started.Some? ==> started.value.id == id && started.value.namespace == old(records)[id].namespace
    {
      if id !in records {
        return StatusNotFound, None;
      }
      var store := records[id];
      if store.status == Deleting {
        return StatusConflict, None;
      }
      records := records[id := store.(status := Deleting, updatedAt := now)];
      return StatusOK, Some(store);
    }

    /** The deletion goroutine for the copy `s`: run the teardown; on failure
        mark `DeletionFailed` with the error and keep the record, on success
        remove the record. */
    method DeletionTask(s: Store, kubeconfig: string, exec: Helm.Exec, now: int) returns (err: Option<string>)
      requires Valid()
      modifies this
      ensures Valid()
      ensures err == Helm.TeardownError(s, kubeconfig, exec)
      ensures records == FinishDeletion(old(records), s.id, err, now)
    {
      var invoked;
      invoked, err := Helm.DeleteStore(s, kubeconfig, exec);
      if err.Some? {
        if s.id in records {
          records := records[s.id := records[s.id].(status := DeletionFailed, errorMessage := err, updatedAt := now)];
        }
      } else {
        records := records - {s.id};
      }
    }

    /** `CheckStoreHealth` handler: 404 for a missing id, 503 with
        `healthy=false` when the probe errs, else 200 with the probe's
        verdict and the stored status. It writes nothing. */
    method CheckStoreHealth(id: string, fetch: Health.Fetcher) returns (reply: HealthReply)
      ensures reply.code == StatusNotFound <==> id !in records
      ensures id in records ==> var p := Health.CheckStoreHealth(records[id], fetch);
        && (reply.code == StatusServiceUnavailable <==> p.err.Some?)
        && (p.err.Some? ==> reply == HealthReply(StatusServiceUnavailable, false, None, p.err))
        && (p.err.None? ==> reply == HealthReply(StatusOK, p.healthy, Some(records[id].status), None))
      ensures reply.code == StatusOK ==> reply.healthy
    {
      if id !in records {
        return HealthReply(StatusNotFound, false, None, Some("Store not found"));
      }
      var store := records[id];
      var probe := Health.CheckStoreHealth(store, fetch);
      if probe.err.Some? {
        return HealthReply(StatusServiceUnavailable, false, None, probe.err);
      }
      return HealthReply(StatusOK, probe.healthy, Some(store.status), None);
    }
  }
}
