/**
 The notebook server's kernel manager: it relates notebooks to kernels,
 keeps a visible list of kernel records for the web API and turns lookups
 of unknown kernels into HTTP 404 errors. It is a subclass of the
 multi-kernel registry; the registry's own state and operations appear
 here as the abstract fields and methods marked "registry".
 */
module MappingKernels {
  import opened KernelRecords

  /** Errors a caller of the manager can see. */
  datatype Error =
    | HttpError(status: nat, message: string)  // the web framework's HTTPError
    | StartError(reason: string)               // a launch failure, propagated unchanged

  /** Success or failure of an operation that returns nothing. */
  datatype Outcome = Pass | Fail(error: Error)

  /** Success or failure of an operation that returns a value. */
  datatype Result<T> = Ok(value: T) | Err(error: Error)

  /** The error raised for a kernel id the registry does not hold. */
  function NotFoundError(k: KernelId): (e: Error)
    ensures e.HttpError? && e.status == 404
  {
    HttpError(404, "Kernel does not exist: " + k)
  }

  /** A keyword argument passed on to the registry's start. */
  datatype Kwarg = Args(items: seq<string>) | Value(text: string)

  type Kwargs = map<string, Kwarg>

  /** The keyword under which launch arguments reach the registry. */
  const ExtraArguments: string := "extra_arguments"

  /** The restart event on which the death handler is registered. */
  const Dead: string := "dead"

  /**
   The outcome of launching a kernel process, which happens outside the
   manager: either the fresh id the registry assigned, or the launch error.
   */
  datatype LaunchOutcome = Launched(id: KernelId) | LaunchFailed(reason: string)

  /**
   A restart callback held by the registry. Every callback this manager
   registers runs its death handler on the id it was registered for.
   */
  datatype RestartCallback = RestartCallback(kernelId: KernelId, event: string)

  /** A call this manager delegated to the registry. */
  datatype RegistryCall =
    | StartCall(kwargs: Kwargs)
    | ShutdownCall(kernelId: KernelId, now: bool)
    | RemoveCall(kernelId: KernelId)

  class MappingKernelManager {
    /** The visible list of kernel records (a class attribute in the source). */
    var kernels: seq<KernelRecord>
    /** Launch arguments given to every kernel started through this manager. */
    var kernelArgv: seq<string>

    /** registry: the ids of the kernels it currently holds. */
    var live: set<KernelId>
    /** registry: the restart callbacks registered with it, in order. */
    var callbacks: seq<RestartCallback>
    /** registry: every id it ever handed out; ids are never reused. */
    ghost var issued: set<KernelId>
    /** The calls this manager delegated to the registry, in order. */
    ghost var registryCalls: seq<RegistryCall>

    /**
     The registry holds only ids it handed out, and every registered
     callback is the death handler of one of those ids; each started
     kernel has its death handler registered.
     */
    ghost predicate Valid()
      reads this
    {
      && live <= issued
      && (forall c :: c in callbacks ==> c.kernelId in issued && c.event == Dead)
      && (forall k :: k in issued ==> RestartCallback(k, Dead) in callbacks)
    }

    constructor (argv: seq<string>)
      ensures Valid()
      ensures kernels == [] && kernelArgv == argv
      ensures live == {} && callbacks == [] && issued == {} && registryCalls == []
    {
      kernels := [];
      kernelArgv := argv;
      live := {};
      callbacks := [];
      issued := {};
      registryCalls := [];
    }

    /** registry: start a kernel with the given keyword arguments. */
    method RegistryStart(kwargs: Kwargs, launch: LaunchOutcome) returns (r: Result<KernelId>)
      requires launch.Launched? ==> launch.id !in issued
      modifies this`live, this`issued, this`registryCalls
      ensures registryCalls == old(registryCalls) + [StartCall(kwargs)]
      ensures launch.Launched? ==>
        r == Ok(launch.id) && live == old(live) + {launch.id} && issued == old(issued) + {launch.id}
      ensures launch.LaunchFailed? ==>
        r == Err(StartError(launch.reason)) && live == old(live) && issued == old(issued)
    {
      registryCalls := registryCalls + [StartCall(kwargs)];
      match launch
      case Launched(id) =>
        live := live + {id};
        issued := issued + {id};
        r := Ok(id);
      case LaunchFailed(reason) =>
        r := Err(StartError(reason));
    }

    /** registry: register `callback` on `event` for the kernel `k`. */
    method AddRestartCallback(k: KernelId, event: string)
      requires k in live
      modifies this`callbacks
      ensures callbacks == old(callbacks) + [RestartCallback(k, event)]
    {
      callbacks := callbacks + [RestartCallback(k, event)];
    }

    /** registry: shut a kernel down and forget it; unknown ids fail the lookup. */
    method RegistryShutdown(k: KernelId, now: bool) returns (o: Outcome)
      modifies this`live, this`registryCalls
      ensures registryCalls == old(registryCalls) + [ShutdownCall(k, now)]
      ensures live == old(live) - {k}
      ensures o == if k in old(live) then Pass else Fail(NotFoundError(k))
    {
      registryCalls := registryCalls + [ShutdownCall(k, now)];
      o := CheckKernelId(k);
      live := live - {k};
    }

    /** registry: forget a kernel without shutting it down. */
    method RemoveKernel(k: KernelId)
      modifies this`live, this`registryCalls
      ensures registryCalls == old(registryCalls) + [RemoveCall(k)]
      ensures live == old(live) - {k}
    {
      registryCalls := registryCalls + [RemoveCall(k)];
      live := live - {k};
    }

    /**
     The death handler: the registry forgets the kernel. The visible list
     keeps any record of it.
     */
    method HandleKernelDied(k: KernelId)
      requires Valid()
      requires RestartCallback(k, Dead) in callbacks
      modifies this`live, this`registryCalls
      ensures Valid()
      ensures live == old(live) - {k}
      ensures registryCalls == old(registryCalls) + [RemoveCall(k)]
    {
      RemoveKernel(k);
    }

    /**
     Starts a kernel: the launch arguments are replaced by `kernelArgv`, the
     registry starts the kernel, and its death handler is registered on the
     "dead" event. The visible list is not touched.
     */
    method StartKernel(kwargs: Kwargs, launch: LaunchOutcome) returns (r: Result<KernelId>)
      requires Valid()
      requires launch.Launched? ==> launch.id !in issued
      modifies this`live, this`issued, this`callbacks, this`registryCalls
      ensures Valid()
      ensures registryCalls == old(registryCalls) + [StartCall(kwargs[ExtraArguments := Args(kernelArgv)])]
      ensures launch.Launched? ==>
        && r == Ok(launch.id)
        && live == old(live) + {launch.id}
        && issued == old(issued) + {launch.id}
        && RestartCallback(launch.id, Dead) !in old(callbacks)
        && callbacks == old(callbacks) + [RestartCallback(launch.id, Dead)]
      ensures launch.LaunchFailed? ==>
        && r == Err(StartError(launch.reason))
        && live == old(live) && issued == old(issued) && callbacks == old(callbacks)
    {
      var options := kwargs[ExtraArguments := Args(kernelArgv)];
      r := RegistryStart(options, launch);
      if r.Ok? {
        AddRestartCallback(r.value, Dead);
      }
    }

    /**
     Shuts a kernel down: first prunes the visible list of records with id
     `k` (moving on after every deletion, so a record right after a deleted
     one is skipped), then always delegates to the registry.
     */
    method ShutdownKernel(k: KernelId, now: bool) returns (o: Outcome)
      requires Valid()
      modifies this`kernels, this`live, this`registryCalls
      ensures Valid()
      ensures kernels == Prune(old(kernels), k)
      ensures live == old(live) - {k}
      ensures registryCalls == old(registryCalls) + [ShutdownCall(k, now)]
      ensures o == if k in old(live) then Pass else Fail(NotFoundError(k))
    {
      ghost var s0 := kernels;
      var i := 0;
      while i < |kernels|
        modifies this`kernels
        invariant i <= |kernels| + 1
        invariant i <= |kernels| ==> kernels[..i] + Prune(kernels[i..], k) == Prune(s0, k)
        invariant i > |kernels| ==> kernels == Prune(s0, k)
        decreases |kernels| + 1 - i
      {
        if kernels[i].id == k {
          PruneStepDelete(kernels, i, k);
          kernels := kernels[..i] + kernels[i + 1..];
        } else {
          PruneStepKeep(kernels, i, k);
        }
        i := i + 1;
      }
      if i == |kernels| {
        assert kernels[..i] == kernels && kernels[i..] == [];
      }
      o := RegistryShutdown(k, now);
    }

    /** Builds the record of kernel `k` and appends it to the visible list. */
    method KernelModel(k: KernelId, wsUrl: string) returns (m: KernelRecord)
      modifies this`kernels
      ensures m == KernelRecord(k, wsUrl)
      ensures kernels == old(kernels) + [m]
      ensures Count(kernels, k) == Count(old(kernels), k) + 1
    {
      m := KernelRecord(k, wsUrl);
      CountAppendOne(kernels, m, k);
      kernels := kernels + [m];
    }

    /** The visible list itself, unfiltered against the registry. */
    function ListKernels(): (r: seq<KernelRecord>)
      reads this
      ensures r == kernels
    {
      kernels
    }

    /** Passes exactly when the registry holds `k`; otherwise the 404 error. */
    function CheckKernelId(k: KernelId): (o: Outcome)
      reads this
      ensures o.Pass? <==> k in live
      ensures o.Fail? ==> o.error == NotFoundError(k)
    {
      if k !in live then Fail(NotFoundError(k)) else Pass
    }
  }
}
