# Notebook kernel mapping manager

This project models `MappingKernelManager`, the notebook server's kernel manager. It is a
subclass of the multi-kernel registry (`MultiKernelManager`). On top of the registry that owns
the kernel processes, it keeps a *visible list* of kernel records `{id, ws_url}` for the web API.
It also registers a death handler for every kernel it starts, and it turns lookups of unknown
kernels into HTTP 404 errors.

The model has three modules:

- `KernelRecords` holds the records as values. `Prune` is the list that `shutdown_kernel`'s
  pruning loop leaves behind. The lemmas prove what that loop does and does not do.
- `MappingKernels` holds the class `MappingKernelManager`. Its fields are:
  - `kernels`: the visible list, a `seq` that the methods reassign.
  - `kernelArgv`: the launch arguments.
  - The registry state the subclass relies on: `live` (the ids the registry holds, the
    source's `kernel_id in self`), `callbacks` (the restart callbacks registered) and the ghost
    `issued` (every id ever handed out).
  - A ghost log `registryCalls` of what the manager delegated to the registry.

  The registry's operations are methods of the same class, as they are in the source through
  inheritance: `RegistryStart`, `RegistryShutdown`, `RemoveKernel` and `AddRestartCallback`.
- `KernelScenarios` holds client methods. Each builds a fresh manager and proves one lifecycle
  from the class contracts alone.

Behaviour kept as the source has it:

- The pruning loop in `shutdown_kernel` deletes the element at index `i` and then increments `i`
  anyway, so the record that slides into the deleted slot is never examined. Pruning `[A, A]` by
  A's id leaves `[A]` (`PruneSkipsAdjacentMatch`, `DuplicateModelSurvivesShutdown`). Because
  `kernel_model` never deduplicates, this case can happen.
- `kernel_model` appends on every call. `list_kernels` returns the list without filtering it
  against the registry. The death handler prunes nothing, so records of dead kernels stay
  visible (`DeathLeavesStaleRecord`).
- `shutdown_kernel` prunes first and then always delegates to the registry. For a kernel that
  already died, that means the prune happens and then the call fails with the 404 error.
- In `start_kernel`, `kernel_id` is set to `None` and then tested with `is None`, so the
  `else` branch (the "existing kernel" path) can never run. Only the taken branch is modelled.
  The `session_id` keyword it documents has no effect. It is kept in the keyword arguments
  passed on to the registry, like any other keyword.

The registry itself is not part of this model: process launch, its id generation and its own
checks are abstract here.

- A start's outcome is the parameter `launch`. It holds either the fresh id or the launch error,
  and the id must be one the registry never issued before (uuid4 non-reuse).
- A registry shutdown of an id the registry does not hold fails with the 404 error. The reason:
  the registry's per-kernel operations look the id up through `_check_kernel_id`, which this
  class overrides to raise 404.

## Model

| member | source | states |
|---|---|---|
| `MappingKernels.MappingKernelManager.constructor` | IPython/html/services/kernels/kernelmanager.py:37-38 | a new manager has an empty visible list, the given `kernel_argv`, and a registry holding no kernels and no callbacks |
| `MappingKernels.MappingKernelManager.StartKernel` | IPython/html/services/kernels/kernelmanager.py:59-73 | the registry is called once, with the caller's keywords except that `extra_arguments` is forced to `kernel_argv`. On a launch it returns that id, the id becomes live, and exactly one new `'dead'` callback is registered for it. A launch error propagates unchanged and registers nothing. The visible list never changes |
| `MappingKernels.MappingKernelManager.RegistryStart` | IPython/html/services/kernels/kernelmanager.py:62 | the delegated start: logs the keywords it was given; on a launch returns the fresh id and adds it to the registry; on failure returns the start error and adds nothing |
| `MappingKernels.MappingKernelManager.AddRestartCallback` | IPython/html/services/kernels/kernelmanager.py:66-69 | appends exactly one callback for the given live kernel and event to the registry's callbacks |
| `MappingKernels.MappingKernelManager.ShutdownKernel` | IPython/html/services/kernels/kernelmanager.py:75-82 | the visible list becomes `Prune` of the old list (the loop is proved against it). The registry shutdown is then always called with the same id and `now`. The id leaves the registry. The result is the 404 error exactly when the registry did not hold the id |
| `MappingKernels.MappingKernelManager.RegistryShutdown` | IPython/html/services/kernels/kernelmanager.py:82 | the delegated shutdown: logs `(kernel_id, now)`, removes the id from the registry, fails with 404 exactly when the id was not held |
| `MappingKernels.MappingKernelManager.KernelModel` | IPython/html/services/kernels/kernelmanager.py:84-87 | returns the record `{id: k, ws_url: u}` and appends that same record at the end of the list. Earlier records are unchanged. There is no deduplication: the count of records with id `k` grows by one on every call |
| `MappingKernels.MappingKernelManager.ListKernels` | IPython/html/services/kernels/kernelmanager.py:89-90 | the visible list exactly, in insertion order, with no filtering against the registry |
| `MappingKernels.MappingKernelManager.CheckKernelId` | IPython/html/services/kernels/kernelmanager.py:93-96 | passes if and only if the registry holds the id. Otherwise it fails with the 404 error for that id. It is a function, so it changes no state |
| `MappingKernels.NotFoundError` | IPython/html/services/kernels/kernelmanager.py:96 | the lookup error is an HTTP error with status 404 |
| `MappingKernels.MappingKernelManager.HandleKernelDied` | IPython/html/services/kernels/kernelmanager.py:44-47 | the kernel leaves the registry through `remove_kernel` (not through a shutdown). The visible list and the callbacks are unchanged |
| `MappingKernels.MappingKernelManager.RemoveKernel` | IPython/html/services/kernels/kernelmanager.py:47 | the delegated removal: logs it and takes the id out of the registry |
| `KernelRecords.Prune` | IPython/html/services/kernels/kernelmanager.py:77-81 | the list the loop leaves: a matching record is deleted and the record right after it is skipped and kept, whatever its id; the result is never longer than the input |
| `KernelRecords.PruneStepKeep` | IPython/html/services/kernels/kernelmanager.py:78-81 | a loop step over a non-matching record moves the index past it and leaves the final pruned list unchanged |
| `KernelRecords.PruneStepDelete` | IPython/html/services/kernels/kernelmanager.py:78-81 | a loop step that deletes at `i` and then moves to `i + 1` leaves the final pruned list unchanged. When it deletes the last record, the loop ends with that list |
| `KernelRecords.PruneIsSubsequence` | IPython/html/services/kernels/kernelmanager.py:77-81 | pruning never adds or reorders records: the result is a subsequence of the list |
| `KernelRecords.PruneKeepsOthers` | IPython/html/services/kernels/kernelmanager.py:77-81 | every record whose id differs from the pruned id survives, in its original relative order |
| `KernelRecords.PruneCounts` | IPython/html/services/kernels/kernelmanager.py:77-81 | the records deleted plus the matching records skipped equal the number of matching records |
| `KernelRecords.PruneSurvivorsBound` | IPython/html/services/kernels/kernelmanager.py:77-81 | at most half of the matching records survive: twice the surviving matches never exceed the matches of the input |
| `KernelRecords.PruneLengthBounds` | IPython/html/services/kernels/kernelmanager.py:77-81 | the length drops by at most the number of matching records and never grows |
| `KernelRecords.PruneAtMostOnce` | IPython/html/services/kernels/kernelmanager.py:77-81 | if the id occurs at most once, no record with it remains. The length drops by exactly that count, and the result is the list with the matches removed |
| `KernelRecords.PruneAbsent` | IPython/html/services/kernels/kernelmanager.py:77-81 | pruning an id the list does not hold leaves the list as it was |
| `KernelRecords.PruneSkipsAdjacentMatch` | IPython/html/services/kernels/kernelmanager.py:78-81 | of two neighbouring matches, the first is deleted and the second survives: `[A, A]` becomes `[A]` |
| `KernelRecords.CountAppend` | IPython/html/services/kernels/kernelmanager.py:86 | the number of records with an id is additive over concatenation of lists |
| `KernelRecords.CountAppendOne` | IPython/html/services/kernels/kernelmanager.py:86 | appending a record raises the count of its own id by one and leaves every other id's count unchanged |
| `KernelScenarios.StartThenModel` | IPython/html/services/kernels/kernelmanager.py:59-96 | start, then `kernel_model(k, url)`: the list is `[{id: k, ws_url: url}]` and the lookup of `k` passes |
| `KernelScenarios.DuplicateModelSurvivesShutdown` | IPython/html/services/kernels/kernelmanager.py:75-87 | two `kernel_model` calls for one kernel list two equal records. A successful shutdown then leaves one of them listed while the lookup fails with 404 |
| `KernelScenarios.DeathLeavesStaleRecord` | IPython/html/services/kernels/kernelmanager.py:44-82 | after a death the record stays listed and the lookup fails. A later shutdown prunes the record and fails with 404 |
| `KernelScenarios.ShutdownNeverStarted` | IPython/html/services/kernels/kernelmanager.py:75-82 | shutting down an id that was never started fails with 404, and the list stays empty |

## Left out

- The registry (`MultiKernelManager`) is not part of this model. Process launch, ZMQ and ioloop
  kernel managers, and restart monitoring are foreign code. They are abstracted as the `live`
  set, the `callbacks` sequence and the launch outcome passed in.
- Sharing: `kernels` is a class attribute in the source, so all manager instances share one
  list. The model gives one manager its own field. State shared between several instances is
  not modelled.
- Aliasing: `list_kernels` returns the list object itself, and `kernel_model` returns the dict
  that it appended. A caller that mutates either of them mutates the manager's state. The model
  returns values instead.
- Kwarg: a keyword value is either a list of strings or a single string. Python keyword
  arguments can hold any value; other kinds of value are not modelled.
- Logging (`log.warn`, `log.info`, `log.debug`) is I/O and is left out.
- The `web.HTTPError` type and traitlets: the error is modelled as status 404 plus its message
  `"Kernel does not exist: " + id`. `kernel_argv`'s trait type is modelled as a sequence of
  strings.
- `_kernel_manager_class_default`: it only names the per-kernel manager class the registry
  uses, which is not part of this model.
- RegistryShutdown: fails with the 404 error on an id the registry does not hold. The registry's
  shutdown is not part of this model; the failure follows from the comment at
  kernelmanager.py:92, which says the override exists so that the registry's lookups raise 404
  instead of `KeyError`.
- AddRestartCallback: never fails. A registration that fails after a successful start would
  leave the kernel started without a death handler; that case is not modelled.
- HandleKernelDied: requires that its `'dead'` callback was registered, since that callback is
  its only caller. If the registry has already dropped the id, the model removes nothing. What
  `remove_kernel` does in that case is not part of this model.
- Firing a callback: the registry invoking registered callbacks on a death is not modelled as an
  operation. A client calls `HandleKernelDied` directly for a registered kernel.
- The other files of the repository are not modelled: the HTML and JavaScript kernel-list
  widget, the terminal channel classes that only print message types, and the interactive-shell
  tests.
