/**
 Clients of the kernel manager: each one builds a fresh manager and drives
 it through one lifecycle, using nothing but the manager's contracts.
 */
module KernelScenarios {
  import opened KernelRecords
  import opened MappingKernels

  /** Start a kernel, ask for its model, list: exactly that one record, and the id passes the lookup. */
  method StartThenModel(argv: seq<string>, id: KernelId, url: string)
    returns (started: Result<KernelId>, listed: seq<KernelRecord>, check: Outcome)
    ensures started == Ok(id)
    ensures listed == [KernelRecord(id, url)]
    ensures check == Pass
  {
    var m := new MappingKernelManager(argv);
    started := m.StartKernel(map[], Launched(id));
    var rec := m.KernelModel(id, url);
    listed := m.ListKernels();
    check := m.CheckKernelId(id);
  }

  /**
   Asking twice for the model of one kernel lists it twice; shutting the
   kernel down then leaves one of the two records behind, although the
   registry no longer knows the id.
   */
  method DuplicateModelSurvivesShutdown(argv: seq<string>, id: KernelId, url: string)
    returns (before: seq<KernelRecord>, shutdown: Outcome, after: seq<KernelRecord>, check: Outcome)
    ensures before == [KernelRecord(id, url), KernelRecord(id, url)]
    ensures shutdown == Pass
    ensures after == [KernelRecord(id, url)]
    ensures check == Fail(NotFoundError(id))
  {
    var m := new MappingKernelManager(argv);
    var started := m.StartKernel(map[], Launched(id));
    var rec1 := m.KernelModel(id, url);
    var rec2 := m.KernelModel(id, url);
    before := m.ListKernels();
    shutdown := m.ShutdownKernel(id, false);
    PruneSkipsAdjacentMatch(rec1, rec2, []);
    after := m.ListKernels();
    check := m.CheckKernelId(id);
  }

  /**
   A kernel that dies fails the lookup but keeps its record in the list;
   a later shutdown prunes the record and then fails with the 404 error.
   */
  method DeathLeavesStaleRecord(argv: seq<string>, id: KernelId, url: string)
    returns (afterDeath: seq<KernelRecord>, check: Outcome, shutdown: Outcome, afterShutdown: seq<KernelRecord>)
    ensures afterDeath == [KernelRecord(id, url)]
    ensures check == Fail(NotFoundError(id))
    ensures shutdown == Fail(NotFoundError(id))
    ensures afterShutdown == []
  {
    var m := new MappingKernelManager(argv);
    var started := m.StartKernel(map[], Launched(id));
    var rec := m.KernelModel(id, url);
    m.HandleKernelDied(id);
    afterDeath := m.ListKernels();
    check := m.CheckKernelId(id);
    shutdown := m.ShutdownKernel(id, true);
    afterShutdown := m.ListKernels();
  }

  /** Shutting down an id that was never started fails with the 404 error and lists nothing. */
  method ShutdownNeverStarted(argv: seq<string>, id: KernelId)
    returns (shutdown: Outcome, listed: seq<KernelRecord>)
    ensures shutdown == Fail(NotFoundError(id))
    ensures listed == []
  {
    var m := new MappingKernelManager(argv);
    shutdown := m.ShutdownKernel(id, false);
    listed := m.ListKernels();
  }
}
