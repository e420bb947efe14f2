# Data-node vnode management, modelled in Dafny

This project models the management module of a TDengine data node, found in
`src/dnode/src/dnodeMgmt.c`. The module:

- keeps a registry of the vnodes the node hosts, keyed by vgroup id;
- hands vnodes out to readers and writers with a reference count;
- opens, creates, cleans up and drops vnodes by calling the storage engine
  (tsdb) and the read and write worker pools;
- dispatches the management messages that arrive from the controller
  (create, drop and alter vnode, alter stream, configure dnode) through a
  table of handlers indexed by message tag.

The model follows that code as written, including where its tests read
differently from what their error codes suggest. In particular:

- Open and create register a vnode only when the storage engine returns NULL
  (the code tests `pTsdb != NULL` for failure).
- Lookup rejects only a SLAVE vnode. The test at
  `src/dnode/src/dnodeMgmt.c:119` is
  `status != TSDB_VN_STATUS_MASTER && status == TSDB_VN_STATUS_SLAVE`, which
  holds exactly when the status is SLAVE. NOT_READY vnodes are therefore
  handed out.
- Drop lowers the reference count once itself and once more in cleanup.
- The create, drop and alter handlers reply and free the received buffer, and
  the dispatcher then does both again.

## Layout

- `Base.dfy`: `int8` and `int32`, 32-bit wrap-around (`Wrap32`) for the
  atomic increment and decrement, handles, result codes and message tags.
- `NetOrder.dfy`: `htonl` on a little-endian host, as a byte swap of the
  signed 32-bit value, and its involution.
- `Format.dfy`: `sprintf("%d")` and the root directory `"<dir>/vnode<vgId>"`,
  with a parser that inverts them.
- `VnodeSpec.dfy`: the module's state (registry, `terrno`, log of calls to
  collaborators) as a value, and one function per C function that computes
  the next state.
- `Properties.dfy`: what those functions guarantee, including the invariant
  every reachable state satisfies.
- `Dnode.dfy`: the class `DnodeMgmt`. It holds the registry, `terrno`, the
  dispatch table (an array) and the timer flags as fields, and updates them
  step by step like the C code. Message bodies are objects that the handlers
  convert from network order in place. Each method is proved to produce the
  state the matching VnodeSpec function computes. Every method that changes
  the registry or the log keeps the reachable-state invariant, except that
  `AddVnode` keeps it only for a NULL repository handle, the only handle
  open and create ever pass it.

Calls into the storage engine, the worker pools and the RPC layer are not
modelled as code. Each call is appended to a ghost log (`Event`). What the call
returns is a parameter: an `Env` holding the repository handle, the `terrno`
it leaves, and the two worker handles.

## Model

| member | source | states |
|---|---|---|
| Dnode.DnodeMgmt.constructor | src/dnode/src/dnodeMgmt.c:55-60 | The table starts with no handlers, the registry empty, no timers; the state satisfies the reachable-state invariant |
| Dnode.DnodeMgmt.InitMgmt | src/dnode/src/dnodeMgmt.c:62-83 | The five handlers are installed over the old table, leaving other entries alone. A failed registry or timer allocation returns -1 and skips what follows. Success arms the status timer and returns SUCCESS |
| Dnode.DnodeMgmt.SendStatusMsg | src/dnode/src/dnodeMgmt.c:346-351 | Only the status timer is re-armed; the registry and the log are unchanged |
| Dnode.DnodeMgmt.CleanupMgmt | src/dnode/src/dnodeMgmt.c:85-93 | The status timer is stopped if armed; the registry is emptied |
| Dnode.DnodeMgmt.HandleMgmtMsg | src/dnode/src/dnodeMgmt.c:95-110 | The new state is `Dispatch` of the old state: `terrno` reset, the registered handler run (or MSG_NOT_PROCESSED recorded), a reply carrying `terrno`, then the buffer freed. The invariant is kept |
| Dnode.DnodeMgmt.Call | src/dnode/src/dnodeMgmt.c:98-99 | The effect is that of the handler the table holds for the tag (`VnodeSpec.RunHandler`); the invariant is kept |
| Dnode.DnodeMgmt.GetVnode | src/dnode/src/dnodeMgmt.c:112-126 | Agrees with `VnodeSpec.GetVnode`. A returned key is the requested id and is registered. In a reachable state, lookup fails exactly when the id is absent |
| Dnode.DnodeMgmt.GetVnodeStatus | src/dnode/src/dnodeMgmt.c:128-130 | Returns the stored status, which is NOT_READY in every reachable state |
| Dnode.DnodeMgmt.GetVnodeWworker | src/dnode/src/dnodeMgmt.c:132-134 | Returns the stored write worker, which in a reachable state came from the write-worker allocator |
| Dnode.DnodeMgmt.GetVnodeRworker | src/dnode/src/dnodeMgmt.c:136-138 | Returns the stored read worker, which in a reachable state came from the read-worker allocator |
| Dnode.DnodeMgmt.GetVnodeWal | src/dnode/src/dnodeMgmt.c:140-142 | Returns the stored wal handle, NULL in every reachable state |
| Dnode.DnodeMgmt.GetVnodeTsdb | src/dnode/src/dnodeMgmt.c:144-146 | Returns the stored repository handle, NULL in every reachable state |
| Dnode.DnodeMgmt.ReleaseVnode | src/dnode/src/dnodeMgmt.c:148-150 | Lowers the vnode's reference count by one (32-bit wrap); the invariant is kept |
| Dnode.DnodeMgmt.AddVnode | src/dnode/src/dnodeMgmt.c:170-183 | Allocates the write worker, then the read worker, and registers a NOT_READY object with reference count 1 under its vgroup id. With a NULL repository handle the invariant is kept |
| Dnode.DnodeMgmt.OpenVnode | src/dnode/src/dnodeMgmt.c:161-186 | Agrees with `VnodeSpec.OpenVnode`; the invariant is kept |
| Dnode.DnodeMgmt.CleanupVnode | src/dnode/src/dnodeMgmt.c:188-214 | Agrees with `VnodeSpec.CleanupVnode`; the invariant is kept |
| Dnode.DnodeMgmt.CreateVnode | src/dnode/src/dnodeMgmt.c:216-251 | Agrees with `VnodeSpec.CreateVnode` on the body's current fields; the invariant is kept |
| Dnode.DnodeMgmt.DropVnode | src/dnode/src/dnodeMgmt.c:253-267 | Agrees with `VnodeSpec.DropVnode`; the invariant is kept |
| Dnode.DnodeMgmt.DecodeInPlace | src/dnode/src/dnodeMgmt.c:272-276 | The four converted fields of the body are byte-swapped in place; precision is untouched |
| Dnode.DnodeMgmt.ProcessCreateVnodeMsg | src/dnode/src/dnodeMgmt.c:269-287 | The body ends decoded, and the state is `VnodeSpec.ProcessCreateVnodeMsg` of the old state and the body as received; the invariant is kept |
| Dnode.DnodeMgmt.ProcessDropVnodeMsg | src/dnode/src/dnodeMgmt.c:289-305 | The body's vgroup id ends decoded, and the state is `VnodeSpec.ProcessDropVnodeMsg` of the old state; the invariant is kept |
| Dnode.DnodeMgmt.ProcessAlterVnodeMsg | src/dnode/src/dnodeMgmt.c:307-325 | The same as the create handler |
| Dnode.DnodeMgmt.ProcessAlterStreamMsg | src/dnode/src/dnodeMgmt.c:327-336 | Changes nothing |
| Dnode.DnodeMgmt.ProcessConfigDnodeMsg | src/dnode/src/dnodeMgmt.c:338-343 | Changes nothing |
| Base.Wrap32 | src/dnode/src/dnodeMgmt.c:124 | The result is congruent to the exact value modulo 2^32, and equals it when it fits in 32 bits |
| Base.IncWrap | src/dnode/src/dnodeMgmt.c:124 | The increment adds one, except that the largest `int32` wraps to the smallest |
| Base.DecWrap | src/dnode/src/dnodeMgmt.c:149 | The decrement subtracts one, except that the smallest `int32` wraps to the largest |
| Base.WrapAdd | src/dnode/src/dnodeMgmt.c:124 | Two wrapped additions in a row equal one wrapped addition of the sum |
| Base.AddThenInc | src/dnode/src/dnodeMgmt.c:124 | `n - 1` wrapped additions and one more increment are `n` added at once, modulo 2^32 |
| Base.AddThenSub | src/dnode/src/dnodeMgmt.c:124-149 | Adding `n` and then subtracting `n`, each wrapped, gives the original count back |
| Base.DecThenSub | src/dnode/src/dnodeMgmt.c:256 | One decrement and `n - 1` more wrapped subtractions are `n` subtracted at once |
| NetOrder.HtonlReversesBytes | src/dnode/src/dnodeMgmt.c:273-276 | The result's four bytes are the argument's in reverse order |
| NetOrder.HtonlInvolutive | src/dnode/src/dnodeMgmt.c:273-276 | `htonl` undoes itself, so the handler's conversion recovers the sender's value |
| Format.Digits | src/dnode/src/dnodeMgmt.c:163 | At least one character, all decimal digits, no leading zero except for 0 itself |
| Format.Decimal | src/dnode/src/dnodeMgmt.c:163 | Starts with '-' exactly for negative numbers; digits follow |
| Format.ParseMinusDigits | src/dnode/src/dnodeMgmt.c:163 | A minus sign followed by the digits of `m` parses to `-m` |
| Format.DecimalRoundTrip | src/dnode/src/dnodeMgmt.c:163 | Parsing the printed number gives the number back |
| Format.RootDirShape | src/dnode/src/dnodeMgmt.c:163 | The root directory is the data directory, then "/vnode", then the vgroup id in decimal, which can be read back (create builds the same string at line 228; see `OpenCreateSameRootDir`) |
| Format.RootDirInjective | src/dnode/src/dnodeMgmt.c:163 | Two vgroups under the same data directory never share a root directory |
| VnodeSpec.Install | src/dnode/src/dnodeMgmt.c:63-67 | The five management tags receive their handlers, and every other entry of the table is unchanged |
| VnodeSpec.Dispatch | src/dnode/src/dnodeMgmt.c:95-110 | Whatever the handler did, the last two calls are a reply carrying the final `terrno` and no body, then the free of the received buffer |
| VnodeSpec.GetVnode | src/dnode/src/dnodeMgmt.c:112-126 | Lookup never changes the log or the set of ids. Success returns the requested id and leaves `terrno`; failure leaves the registry alone and sets a non-zero `terrno` |
| VnodeSpec.ReleaseVnode | src/dnode/src/dnodeMgmt.c:148-150 | Release changes neither the log, `terrno` nor the set of ids |
| VnodeSpec.Register | src/dnode/src/dnodeMgmt.c:170-183 | Exactly `vgId` joins the ids, as NOT_READY with count 1, after two calls appended to the log; `terrno` is unchanged |
| VnodeSpec.OpenVnode | src/dnode/src/dnodeMgmt.c:161-186 | The first new call opens the repository at the vgroup's root directory. At most that vgroup joins the registry, and a failure code leaves the registry unchanged |
| VnodeSpec.CreateVnode | src/dnode/src/dnodeMgmt.c:216-251 | The first new call creates the repository at the vgroup's root directory with the configuration built from the message (`TsdbConfig`). At most that vgroup joins, and a failure code leaves the registry unchanged |
| VnodeSpec.CleanupVnode | src/dnode/src/dnodeMgmt.c:188-214 | `terrno` is untouched, no id is added, at least two calls are appended, and an object stored under its own id leaves the registry |
| VnodeSpec.DropVnode | src/dnode/src/dnodeMgmt.c:253-267 | The same guarantees as cleanup |
| Properties.GetVnodeOutcome | src/dnode/src/dnodeMgmt.c:112-126 | Lookup fails exactly on an absent id (INVALID_VGROUP_ID) or a SLAVE vnode (INVALID_VNODE_STATUS), changing only `terrno`. Otherwise only that vnode's reference count rises, by one when it does not overflow |
| Properties.GetReleaseBalance | src/dnode/src/dnodeMgmt.c:112-150 | A successful lookup followed by a release restores the state |
| Properties.AcquireNEffect | src/dnode/src/dnodeMgmt.c:124 | `n` lookups raise the count by `n` modulo 2^32 and change nothing else |
| Properties.ReleaseNEffect | src/dnode/src/dnodeMgmt.c:149 | `n` releases lower the count by `n` modulo 2^32 and change nothing else |
| Properties.BorrowsBalance | src/dnode/src/dnodeMgmt.c:112-150 | Any number of lookups and as many releases restore the state, across wrap-around |
| Properties.OpenVnodeOutcome | src/dnode/src/dnodeMgmt.c:161-186 | One open call under the vgroup's root directory. A non-NULL repository returns `terrno`, with the registry unchanged. A NULL one allocates both workers, registers a fresh NOT_READY object with count 1, and returns SUCCESS |
| Properties.CreateVnodeOutcome | src/dnode/src/dnodeMgmt.c:216-251 | As for open, with one create call. The configuration has the message's precision, vnode (as tsdb id), maxSessions and daysPerFile; the other four fields are -1 |
| Properties.OpenCreateSameRootDir | src/dnode/src/dnodeMgmt.c:161-230 | Open and create of one vgroup use the same directory; different vgroups use different directories |
| Properties.CleanupVnodeOutcome | src/dnode/src/dnodeMgmt.c:188-214 | The read worker, then the write worker are freed, and the repository is closed only if non-NULL. Exactly this vgroup leaves the registry, and `terrno` is untouched. The object as cleanup writes it under its key just before deleting it (`Retired`) is NOT_READY, has no workers and no repository, and has its count lowered by one |
| Properties.DropVnodeOutcome | src/dnode/src/dnodeMgmt.c:253-267 | The repository is dropped if non-NULL, then the two workers are freed; the repository is never closed. Exactly the vgroup leaves the registry, `terrno` is untouched, and a later lookup fails with INVALID_VGROUP_ID |
| Properties.DropVnodeCount | src/dnode/src/dnodeMgmt.c:254-256 | The object as drop and then cleanup write it under its key before the deletion is NOT_READY, with its count two below the stored one, modulo 2^32 |
| Properties.DecodeEncodeCreate | src/dnode/src/dnodeMgmt.c:272-276 | The handlers' conversion inverts the sender's encoding and never touches precision |
| Properties.CreateMsgRegistered | src/dnode/src/dnodeMgmt.c:269-325 | Create or alter of a registered vgroup only replies SUCCESS and frees the buffer |
| Properties.CreateMsgRegistersSentVgroup | src/dnode/src/dnodeMgmt.c:269-287 | Create of a new vgroup with a NULL repository registers the vgroup the sender encoded and replies SUCCESS |
| Properties.CreateMsgIdempotent | src/dnode/src/dnodeMgmt.c:269-287 | A second identical create changes nothing but the log and is answered SUCCESS |
| Properties.DropMsgAbsent | src/dnode/src/dnodeMgmt.c:295-304 | Drop of an absent vgroup only replies INVALID_VGROUP_ID and frees the buffer |
| Properties.DropMsgPresent | src/dnode/src/dnodeMgmt.c:289-305 | Drop of a registered vgroup removes exactly it and replies SUCCESS |
| Properties.InitTableEntries | src/dnode/src/dnodeMgmt.c:63-67 | After initialisation, exactly the five management tags have handlers, each the right one |
| Properties.CountsAppend | src/dnode/src/dnodeMgmt.c:108-109 | Reply and free counts add up over concatenated logs |
| Properties.QuietCounts | src/dnode/src/dnodeMgmt.c:161-267 | Collaborator calls other than replies and frees contribute no reply and no free |
| Properties.CreateIfAbsentLog | src/dnode/src/dnodeMgmt.c:278-283 | Create-if-absent only appends to the log, and only calls that are neither replies nor frees |
| Properties.ReplyLog | src/dnode/src/dnodeMgmt.c:285-286 | A handler's reply and free come last, after the quiet calls it made |
| Properties.ProcessCreateLog | src/dnode/src/dnodeMgmt.c:269-287 | The create handler keeps the old log as a prefix, then makes quiet calls, then one reply and the free of its own buffer |
| Properties.ProcessAlterLog | src/dnode/src/dnodeMgmt.c:307-325 | The same for the alter handler |
| Properties.ProcessDropLog | src/dnode/src/dnodeMgmt.c:289-305 | The same for the drop handler |
| Properties.HandlerLog | src/dnode/src/dnodeMgmt.c:269-343 | Create, drop and alter extend the log with quiet calls, then their own reply and free. Alter stream and config dnode change nothing |
| Properties.DispatchOutcome | src/dnode/src/dnodeMgmt.c:95-110 | The dispatcher's last two calls are a reply with `terrno` and no body, then the free. An unregistered tag changes only `terrno` (MSG_NOT_PROCESSED) and those two calls |
| Properties.DispatchCounts | src/dnode/src/dnodeMgmt.c:95-325 | For create, drop and alter the buffer is freed twice and two replies go out; for every other tag, once each |
| Properties.DispatchDropUnknown | src/dnode/src/dnodeMgmt.c:95-305 | Drop of an unknown vgroup through the dispatcher replies INVALID_VGROUP_ID, then SUCCESS (the untouched `terrno`), and frees the buffer twice |
| Properties.DispatchSome | src/dnode/src/dnodeMgmt.c:96-109 | On a registered tag the dispatcher is: reset `terrno`, run the handler, reply with the `terrno` it leaves, free the buffer |
| Properties.DispatchNone | src/dnode/src/dnodeMgmt.c:96-109 | On an unregistered tag it records MSG_NOT_PROCESSED and replies with it |
| Properties.RegisterPreserves | src/dnode/src/dnodeMgmt.c:170-183 | Registering an object with a NULL repository keeps the invariant |
| Properties.ReplyPreserves | src/dnode/src/dnodeMgmt.c:285-286 | A reply and a free keep the invariant |
| Properties.ProcessCreatePreserves | src/dnode/src/dnodeMgmt.c:269-287 | The create handler keeps the invariant for any body |
| Properties.ProcessAlterPreserves | src/dnode/src/dnodeMgmt.c:307-325 | The alter handler keeps the invariant for any body |
| Properties.ProcessDropPreserves | src/dnode/src/dnodeMgmt.c:289-305 | The drop handler keeps the invariant for any body |
| Properties.RunHandlerPreserves | src/dnode/src/dnodeMgmt.c:98-99 | Whichever of the five handlers runs, the invariant is kept |
| Properties.DispatchPreserves | src/dnode/src/dnodeMgmt.c:95-110 | Dispatching any routable message keeps the reachable-state invariant |
| Properties.RunPreserves | src/dnode/src/dnodeMgmt.c:95-110 | Every state reached by any sequence of messages through the initialised table keeps the invariant |
| Properties.ReachableConsequences | src/dnode/src/dnodeMgmt.c:112-267 | In a reachable state, lookup fails only on an absent id, and drop and cleanup never call the storage engine |
| Properties.ScenarioCreate | src/dnode/src/dnodeMgmt.c:95-287 | From an empty registry, dispatching a create of any vgroup with a NULL repository gives exactly: the vgroup registered with count 1, `terrno` SUCCESS, and the log create, two allocations, then two replies of SUCCESS and two frees |
| Properties.ScenarioLookup | src/dnode/src/dnodeMgmt.c:112-126 | Looking that vnode up succeeds and raises its count to 2 |
| Properties.ScenarioDrop | src/dnode/src/dnodeMgmt.c:95-305 | Dispatching a drop of it makes the handler reply SUCCESS and empties the registry; a further lookup fails with INVALID_VGROUP_ID |

## Left out

- The storage engine, the worker pools and the RPC layer are not modelled as
  code. Their calls are entries of a ghost log, and their results are
  parameters.
- Result codes and message tags other than SUCCESS (0) are stand-ins.
  `taoserror.h` and `taosmsg.h` are not part of this model. The stand-ins
  are distinct, and the tags lie below the table size of 32.
- The ihash registry's internals, its capacity bound (`TSDB_MAX_VNODES`)
  and its behaviour on a duplicate key are not modelled. Adding under an
  existing key replaces the entry.
- Operations on a registry that failed to be created (a NULL hash) are not
  modelled. After `dnodeCleanupMgmt` the registry is modelled as empty,
  not as freed memory.
- Only `tsdbOpenRepo` and `tsdbCreateRepo` are modelled as setting `terrno`.
  The other collaborators are assumed to leave it alone.
- Concurrency is not modelled: the atomic reference-count operations are
  single steps, and the empty "wait refcount" branches do nothing.
- Dnode.DnodeMgmt.HandleMgmtMsg: requires the tag to be inside the table and
  the body to have the shape the registered handler casts `pCont` to: a
  create body for create and alter, a drop body for drop. An out-of-range
  tag reads past the C array, and a mismatched body is read through the
  wrong struct; both are undefined behaviour in C.
- VnodeSpec.DecodeCreate, VnodeSpec.ProcessCreateVnodeMsg,
  VnodeSpec.ProcessAlterVnodeMsg, VnodeSpec.ProcessDropVnodeMsg and
  VnodeSpec.RunHandler carry no contract of their own; what they guarantee
  is stated as lemmas in `Properties.dfy` (`DecodeEncodeCreate`, the
  `Process*Log` and `Process*Preserves` lemmas, `HandlerLog` and
  `RunHandlerPreserves`). VnodeSpec.Invariant is a predicate; the lemmas
  named `*Preserves` and `RunPreserves` state that it holds.
- `rootDir` overflowing `TSDB_FILENAME_LEN` is not modelled: the directory
  string is unbounded.
- `htonl` is the identity on big-endian hosts; only little-endian hosts are
  modelled.
- The timer function `dnodeSendStatusMsg` has its message-building code
  commented out. Only its re-arming is modelled, with the re-arm outcome as
  a parameter.
- `dnodeOpenVnodes` and `dnodeCleanupVnodes` only log, so the model treats
  them as doing nothing. All `dPrint`/`dError` logging is left out.
- A vnode "pointer" is modelled by the object's registry key, since the
  registry stores objects by value.
