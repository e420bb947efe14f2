/** The vnode registry of a data node and the management operations on it,
    as functions from one state value to the next. Each function follows
    one C function of src/dnode/src/dnodeMgmt.c step by step; the class in
    Dnode.dfy does the same work in place and is proved to agree with them.

    The foreign collaborators (the tsdb storage engine, the worker pools,
    the RPC layer) are not modelled: what they return comes in as an `Env`
    value, and every call to them is appended to the state's `log`. */
module VnodeSpec {
  import opened Base
  import opened NetOrder
  import opened Format

  /** `TSDB_VN_STATUS_*`: master, slave, not ready, deleting. */
  datatype Status = NotReady | Master | Slave | Deleting

  /** `SVnodeObj`, stored by value in the registry. */
  datatype VnodeObj = VnodeObj(
    vgId: int32,
    status: Status,
    refCount: int32,
    version: int,      // int64_t, always 0 here
    wworker: Handle,
    rworker: Handle,
    wal: Handle,
    tsdb: Handle,
    replica: Handle,
    events: Handle,
    cq: Handle)

  /** `STsdbCfg`, the configuration handed to `tsdbCreateRepo`. */
  datatype TsdbCfg = TsdbCfg(
    precision: int8,
    tsdbId: int32,
    maxTables: int32,
    daysPerFile: int32,
    minRowsPerFileBlock: int,
    maxRowsPerFileBlock: int,
    keep: int,
    maxCacheSize: int)

  /** The fields of `SMDCreateVnodeMsg` this module reads: `vnode` and the
      `cfg` fields `vgId`, `maxSessions`, `daysPerFile`, `precision`. */
  datatype CreateCfg = CreateCfg(
    vnode: int32,
    vgId: int32,
    maxSessions: int32,
    daysPerFile: int32,
    precision: int8)

  /** One call into a collaborator, in the order it is made. */
  datatype Event =
    | RepoOpened(rootDir: string)                  // tsdbOpenRepo
    | RepoCreated(rootDir: string, cfg: TsdbCfg)   // tsdbCreateRepo
    | RepoClosed(repo: Handle)                     // tsdbCloseRepo
    | RepoDropped(repo: Handle)                    // tsdbDropRepo
    | WriteWorkerAllocated(worker: Handle)         // dnodeAllocateWriteWorker
    | ReadWorkerAllocated(worker: Handle)          // dnodeAllocateReadWorker
    | ReadWorkerFreed(worker: Handle)              // dnodeFreeReadWorker
    | WriteWorkerFreed(worker: Handle)             // dnodeFreeWriteWorker
    | Response(handle: Handle, code: int32, cont: Handle)  // rpcSendResponse
    | ContFreed(cont: Handle)                      // rpcFreeCont

  /** What `tsdbOpenRepo` or `tsdbCreateRepo` returns, and the value it
      leaves in `terrno`. */
  datatype RepoReply = RepoReply(repo: Handle, terrno: int32)

  /** The results of the foreign calls one operation may make. */
  datatype Env = Env(repo: RepoReply, wworker: Handle, rworker: Handle)

  /** The module's global state: the registry `tsDnodeVnodesHash`, the
      error variable `terrno`, and the calls made so far. */
  datatype MgmtState = MgmtState(vnodes: map<int32, VnodeObj>, terrno: int32, log: seq<Event>)

  /** The entries of the function-pointer table `dnodeProcessMgmtMsgFp`. */
  datatype Handler =
    | CreateVnodeHandler
    | DropVnodeHandler
    | AlterVnodeHandler
    | AlterStreamHandler
    | ConfigDnodeHandler

  /** The body of a management message, already read out of `pCont`. */
  datatype Payload = CreatePayload(cfg: CreateCfg) | DropPayload(vgId: int32) | OtherPayload

  /** `SRpcMsg` as the dispatcher sees it. */
  datatype MgmtMsg = MgmtMsg(msgType: nat, handle: Handle, pCont: Handle, payload: Payload)

  /** Every entry is stored under its own vgroup id. */
  ghost predicate KeysMatch(vnodes: map<int32, VnodeObj>)
  {
    forall k :: k in vnodes ==> vnodes[k].vgId == k
  }

  /** How open and create leave an object, apart from `vgId` and the
      reference count: NOT_READY, version 0, no wal, repository, replica,
      events or continuous query, and workers obtained from the allocator. */
  ghost predicate AsBuilt(v: VnodeObj, log: seq<Event>)
  {
    && v.status == NotReady && v.version == 0
    && v.wal == Null && v.tsdb == Null && v.replica == Null && v.events == Null && v.cq == Null
    && WriteWorkerAllocated(v.wworker) in log
    && ReadWorkerAllocated(v.rworker) in log
  }

  /** Holds in every state the module can reach: nothing in it ever stores a
      status other than NOT_READY, and because open and create register an
      object only when the repository call returned NULL, every stored
      repository handle is NULL. */
  ghost predicate Invariant(s: MgmtState)
  {
    && KeysMatch(s.vnodes)
    && forall k :: k in s.vnodes ==> AsBuilt(s.vnodes[k], s.log)
  }

  // ---------------------------------------------------------------------
  // The dispatch table

  /** The table as the loader leaves it: every entry NULL. */
  function EmptyTable(): seq<Option<Handler>>
  {
    seq(MsgTypeMax, _ => None)
  }

  /** The five tags `dnodeInitMgmt` installs a handler for. */
  predicate ManagementTag(t: nat)
  {
    t == MsgMdCreateVnode || t == MsgMdDropVnode || t == MsgMdAlterVnode
    || t == MsgMdAlterStream || t == MsgMdConfigDnode
  }

  /** The five assignments of `dnodeInitMgmt` applied to a table. */
  function Install(table: seq<Option<Handler>>): (r: seq<Option<Handler>>)
    requires |table| == MsgTypeMax
    ensures |r| == MsgTypeMax
    ensures r[MsgMdCreateVnode] == Some(CreateVnodeHandler) && r[MsgMdDropVnode] == Some(DropVnodeHandler)
    ensures r[MsgMdAlterVnode] == Some(AlterVnodeHandler) && r[MsgMdAlterStream] == Some(AlterStreamHandler)
    ensures r[MsgMdConfigDnode] == Some(ConfigDnodeHandler)
    ensures forall i :: 0 <= i < |r| && !ManagementTag(i) ==> r[i] == table[i]
  {
    table
      [MsgMdCreateVnode := Some(CreateVnodeHandler)]
      [MsgMdDropVnode := Some(DropVnodeHandler)]
      [MsgMdAlterVnode := Some(AlterVnodeHandler)]
      [MsgMdAlterStream := Some(AlterStreamHandler)]
      [MsgMdConfigDnode := Some(ConfigDnodeHandler)]
  }

  /** The table after `dnodeInitMgmt` has filled in its five entries. */
  function InitTable(): seq<Option<Handler>>
  {
    Install(EmptyTable())
  }

  /** The body a handler casts `pCont` to. */
  predicate PayloadFits(h: Handler, p: Payload)
  {
    match h
    case CreateVnodeHandler => p.CreatePayload?
    case AlterVnodeHandler => p.CreatePayload?
    case DropVnodeHandler => p.DropPayload?
    case AlterStreamHandler => true
    case ConfigDnodeHandler => true
  }

  // ---------------------------------------------------------------------
  // Lookup and reference counting

  /** `dnodeGetVnode`: the registry key of the vnode handed out, if any. */
  function GetVnode(s: MgmtState, vgId: int32): (r: (MgmtState, Option<int32>))
    ensures r.0.log == s.log && r.0.vnodes.Keys == s.vnodes.Keys
    ensures r.1.Some? ==> r.1.value == vgId && r.0.terrno == s.terrno
    ensures r.1.None? ==> r.0.vnodes == s.vnodes && r.0.terrno != CodeSuccess
  {
    if vgId !in s.vnodes then
      (s.(terrno := CodeInvalidVgroupId), None)
    else
      var v := s.vnodes[vgId];
      if v.status != Master && v.status == Slave then
        (s.(terrno := CodeInvalidVnodeStatus), None)
      else
        (s.(vnodes := s.vnodes[vgId := v.(refCount := Inc(v.refCount))]), Some(vgId))
  }

  /** `dnodeReleaseVnode` on the vnode stored under `p`. */
  function ReleaseVnode(s: MgmtState, p: int32): (r: MgmtState)
    requires p in s.vnodes
    ensures r.log == s.log && r.terrno == s.terrno && r.vnodes.Keys == s.vnodes.Keys
  {
    var v := s.vnodes[p];
    s.(vnodes := s.vnodes[p := v.(refCount := Dec(v.refCount))])
  }

  // ---------------------------------------------------------------------
  // Open, create, clean up, drop

  /** The object open and create assemble around the repository handle. */
  function NewVnode(vgId: int32, repo: Handle, env: Env): VnodeObj
  {
    VnodeObj(vgId, NotReady, 1, 0, env.wworker, env.rworker, Null, repo, Null, Null, Null)
  }

  /** Allocates the two workers and adds the new object to the registry. */
  function Register(s: MgmtState, vgId: int32, repo: Handle, env: Env): (r: MgmtState)
    ensures r.vnodes.Keys == s.vnodes.Keys + {vgId} && r.terrno == s.terrno
    ensures r.vnodes[vgId].status == NotReady && r.vnodes[vgId].refCount == 1
    ensures |r.log| == |s.log| + 2 && r.log[..|s.log|] == s.log
  {
    var v := NewVnode(vgId, repo, env);
    s.(vnodes := s.vnodes[v.vgId := v],
       log := s.log + [WriteWorkerAllocated(env.wworker), ReadWorkerAllocated(env.rworker)])
  }

  /** `dnodeOpenVnode`: the state afterwards and the code returned. */
  function OpenVnode(s: MgmtState, dir: string, vgId: int32, env: Env): (r: (MgmtState, int32))
    ensures |r.0.log| > |s.log| && r.0.log[..|s.log|] == s.log
    ensures r.0.log[|s.log|] == RepoOpened(RootDir(dir, vgId))
    ensures r.0.vnodes == s.vnodes || r.0.vnodes.Keys == s.vnodes.Keys + {vgId}
    ensures r.1 != CodeSuccess ==> r.0.vnodes == s.vnodes
  {
    var s1 := s.(log := s.log + [RepoOpened(RootDir(dir, vgId))], terrno := env.repo.terrno);
    if env.repo.repo != Null then (s1, s1.terrno)
    else (Register(s1, vgId, env.repo.repo, env), CodeSuccess)
  }

  /** The storage configuration `dnodeCreateVnode` builds from the message. */
  function TsdbConfig(cfg: CreateCfg): TsdbCfg
  {
    TsdbCfg(cfg.precision, cfg.vnode, cfg.maxSessions, cfg.daysPerFile, -1, -1, -1, -1)
  }

  /** `dnodeCreateVnode`: the state afterwards and the code returned. */
  function CreateVnode(s: MgmtState, dir: string, cfg: CreateCfg, env: Env): (r: (MgmtState, int32))
    ensures |r.0.log| > |s.log| && r.0.log[..|s.log|] == s.log
    ensures r.0.log[|s.log|] == RepoCreated(RootDir(dir, cfg.vgId), TsdbConfig(cfg))
    ensures r.0.vnodes == s.vnodes || r.0.vnodes.Keys == s.vnodes.Keys + {cfg.vgId}
    ensures r.1 != CodeSuccess ==> r.0.vnodes == s.vnodes
  {
    var s1 := s.(log := s.log + [RepoCreated(RootDir(dir, cfg.vgId), TsdbConfig(cfg))],
                 terrno := env.repo.terrno);
    if env.repo.repo != Null then (s1, s1.terrno)
    else (Register(s1, cfg.vgId, env.repo.repo, env), CodeSuccess)
  }

  /** The fields of an object as `dnodeCleanupVnode` leaves them just before
      it removes the object. */
  function Retired(v: VnodeObj): VnodeObj
  {
    v.(status := NotReady, refCount := Dec(v.refCount), rworker := Null, wworker := Null, tsdb := Null)
  }

  /** The calls `dnodeCleanupVnode` makes to release what `v` holds. */
  function ReleaseCalls(v: VnodeObj): seq<Event>
  {
    [ReadWorkerFreed(v.rworker), WriteWorkerFreed(v.wworker)]
      + (if v.tsdb != Null then [RepoClosed(v.tsdb)] else [])
  }

  /** `dnodeCleanupVnode` on the vnode stored under `p`. */
  function CleanupVnode(s: MgmtState, p: int32): (r: MgmtState)
    requires p in s.vnodes
    ensures r.terrno == s.terrno && r.vnodes.Keys <= s.vnodes.Keys
    ensures |r.log| >= |s.log| + 2 && r.log[..|s.log|] == s.log
    ensures s.vnodes[p].vgId == p ==> p !in r.vnodes
  {
    var v := s.vnodes[p];
    var last := Retired(v);
    s.(vnodes := s.vnodes[p := last] - {last.vgId}, log := s.log + ReleaseCalls(v))
  }

  /** The fields of an object after the first half of `dnodeDropVnode`. */
  function Dropping(v: VnodeObj): VnodeObj
  {
    v.(status := NotReady, refCount := Dec(v.refCount), tsdb := Null)
  }

  /** `dnodeDropVnode` on the vnode stored under `p`: deletes the repository
      if there is one, then cleans up. */
  function DropVnode(s: MgmtState, p: int32): (r: MgmtState)
    requires p in s.vnodes
    ensures r.terrno == s.terrno && r.vnodes.Keys <= s.vnodes.Keys
    ensures |r.log| >= |s.log| + 2 && r.log[..|s.log|] == s.log
    ensures s.vnodes[p].vgId == p ==> p !in r.vnodes
  {
    var v := s.vnodes[p];
    var s1 := s.(vnodes := s.vnodes[p := Dropping(v)],
                 log := s.log + (if v.tsdb != Null then [RepoDropped(v.tsdb)] else []));
    CleanupVnode(s1, p)
  }

  // ---------------------------------------------------------------------
  // Message handlers

  /** The `htonl` conversions the create and alter handlers apply in place. */
  function DecodeCreate(w: CreateCfg): (r: CreateCfg)
  {
    w.(vnode := Htonl(w.vnode), vgId := Htonl(w.vgId),
       maxSessions := Htonl(w.maxSessions), daysPerFile := Htonl(w.daysPerFile))
  }

  /** The handler's own reply followed by its own release of the buffer. */
  function Reply(s: MgmtState, handle: Handle, code: int32, cont: Handle): MgmtState
  {
    s.(log := s.log + [Response(handle, code, Null), ContFreed(cont)])
  }

  /** The shared part of the create and alter handlers on a decoded
      message: nothing to do if the vgroup is registered, else create. */
  function CreateIfAbsent(s: MgmtState, dir: string, cfg: CreateCfg, env: Env): (MgmtState, int32)
  {
    if cfg.vgId in s.vnodes then (s, CodeSuccess) else CreateVnode(s, dir, cfg, env)
  }

  /** `dnodeProcessCreateVnodeMsg` on a message whose body holds `wire`. */
  function ProcessCreateVnodeMsg(s: MgmtState, dir: string, msg: MgmtMsg, wire: CreateCfg, env: Env): (r: MgmtState)
  {
    var (s1, code) := CreateIfAbsent(s, dir, DecodeCreate(wire), env);
    Reply(s1, msg.handle, code, msg.pCont)
  }

  /** `dnodeProcessAlterVnodeMsg`: the same steps as the create handler. */
  function ProcessAlterVnodeMsg(s: MgmtState, dir: string, msg: MgmtMsg, wire: CreateCfg, env: Env): (r: MgmtState)
  {
    var (s1, code) := CreateIfAbsent(s, dir, DecodeCreate(wire), env);
    Reply(s1, msg.handle, code, msg.pCont)
  }

  /** `dnodeProcessDropVnodeMsg` on a message whose body holds `wireVgId`. */
  function ProcessDropVnodeMsg(s: MgmtState, msg: MgmtMsg, wireVgId: int32): (r: MgmtState)
  {
    var vgId := Htonl(wireVgId);
    if vgId in s.vnodes then Reply(DropVnode(s, vgId), msg.handle, CodeSuccess, msg.pCont)
    else Reply(s, msg.handle, CodeInvalidVgroupId, msg.pCont)
  }

  /** Runs the handler the table holds for the message. The alter-stream
      and config-dnode handlers have empty bodies. */
  function RunHandler(s: MgmtState, dir: string, h: Handler, msg: MgmtMsg, env: Env): MgmtState
    requires PayloadFits(h, msg.payload)
  {
    match h
    case CreateVnodeHandler => ProcessCreateVnodeMsg(s, dir, msg, msg.payload.cfg, env)
    case DropVnodeHandler => ProcessDropVnodeMsg(s, msg, msg.payload.vgId)
    case AlterVnodeHandler => ProcessAlterVnodeMsg(s, dir, msg, msg.payload.cfg, env)
    case AlterStreamHandler => s
    case ConfigDnodeHandler => s
  }

  /** A message the table can route: its tag is inside the table and its
      body is the one the registered handler expects. */
  predicate Routable(table: seq<Option<Handler>>, msg: MgmtMsg)
  {
    && msg.msgType < |table|
    && (table[msg.msgType].Some? ==> PayloadFits(table[msg.msgType].value, msg.payload))
  }

  /** `dnodeMgmt`: reset `terrno`, run the registered handler (or record
      that the tag is not handled), reply with `terrno` and free the buffer. */
  function Dispatch(s: MgmtState, dir: string, table: seq<Option<Handler>>, msg: MgmtMsg, env: Env): (r: MgmtState)
    requires Routable(table, msg)
    ensures |r.log| >= |s.log| + 2
    ensures r.log[|r.log| - 2] == Response(msg.handle, r.terrno, Null)
    ensures r.log[|r.log| - 1] == ContFreed(msg.pCont)
  {
    var s0 := s.(terrno := 0);
    var s1 := (match table[msg.msgType]
      case Some(h) => RunHandler(s0, dir, h, msg, env)
      case None => s0.(terrno := CodeMsgNotProcessed));
    Reply(s1, msg.handle, s1.terrno, msg.pCont)
  }
}
