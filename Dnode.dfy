/** The data-node management module of src/dnode/src/dnodeMgmt.c as an
    object: the registry `tsDnodeVnodesHash`, `terrno`, the dispatch table
    `dnodeProcessMgmtMsgFp` and the status timer become fields that the
    methods update step by step, in the order the C code does. Every method
    is proved to leave the object in the state the matching function of
    VnodeSpec computes from the state before, so the lemmas of Properties
    apply to it. Calls into the storage engine, the worker pools and the
    RPC layer are appended to the ghost field `log`; what they return is
    passed in as an `Env`. */
module Dnode {
  import opened Base
  import opened NetOrder
  import opened Format
  import VnodeSpec
  import Properties

  /** `SMDCreateVnodeMsg`, the body of a create or alter message, which the
      handlers convert from network order in place. */
  class CreateVnodeMsg {
    var vnode: int32
    var vgId: int32
    var maxSessions: int32
    var daysPerFile: int32
    var precision: int8

    constructor(vnode: int32, vgId: int32, maxSessions: int32, daysPerFile: int32, precision: int8)
      ensures Value() == VnodeSpec.CreateCfg(vnode, vgId, maxSessions, daysPerFile, precision)
    {
      this.vnode := vnode;
      this.vgId := vgId;
      this.maxSessions := maxSessions;
      this.daysPerFile := daysPerFile;
      this.precision := precision;
    }

    /** The fields as a value. */
    function Value(): VnodeSpec.CreateCfg
      reads this
    {
      VnodeSpec.CreateCfg(vnode, vgId, maxSessions, daysPerFile, precision)
    }
  }

  /** `SMDDropVnodeMsg`, the body of a drop message. */
  class DropVnodeMsg {
    var vgId: int32

    constructor(vgId: int32)
      ensures this.vgId == vgId
    {
      this.vgId := vgId;
    }
  }

  /** What `pCont` points to. */
  datatype Body = CreateBody(create: CreateVnodeMsg) | DropBody(drop: DropVnodeMsg) | OtherBody

  /** `SRpcMsg`: the tag, the connection to answer and the received buffer. */
  datatype RpcMsg = RpcMsg(msgType: nat, handle: Handle, pCont: Handle, body: Body)

  function BodyObjects(b: Body): set<object>
  {
    match b
    case CreateBody(c) => {c}
    case DropBody(d) => {d}
    case OtherBody => {}
  }

  /** The message as the value-level model sees it. */
  function View(m: RpcMsg): VnodeSpec.MgmtMsg
    reads BodyObjects(m.body)
  {
    var payload := match m.body
      case CreateBody(c) => VnodeSpec.CreatePayload(c.Value())
      case DropBody(d) => VnodeSpec.DropPayload(d.vgId)
      case OtherBody => VnodeSpec.OtherPayload;
    VnodeSpec.MgmtMsg(m.msgType, m.handle, m.pCont, payload)
  }

  class DnodeMgmt {
    /** `tsDnodeVnodesHash`: vnode objects by vgroup id, stored by value. */
    var vnodes: map<int32, VnodeSpec.VnodeObj>
    /** The thread's `terrno`. */
    var terrno: int32
    /** Calls into the collaborators, in order. */
    ghost var log: seq<VnodeSpec.Event>
    /** `dnodeProcessMgmtMsgFp`, indexed by message tag. */
    const fp: array<Option<VnodeSpec.Handler>>
    /** `tsDirectory`, the data directory. */
    const tsDirectory: string
    /** `tsDnodeVnodesHash != NULL` */
    var registryReady: bool
    /** `tsDnodeTmr != NULL` */
    var timerReady: bool
    /** `tsStatusTimer != NULL` */
    var statusTimer: bool

    ghost predicate Valid()
      reads this
    {
      fp.Length == MsgTypeMax
    }

    ghost function Abs(): VnodeSpec.MgmtState
      reads this
    {
      VnodeSpec.MgmtState(vnodes, terrno, log)
    }

    /** The registry, timer and status-timer flags are as given. */
    predicate FlagsAre(registry: bool, timer: bool, status: bool)
      reads this
    {
      registryReady == registry && timerReady == timer && statusTimer == status
    }

    /** The object is in a state the module can reach. */
    ghost predicate Reachable()
      reads this
    {
      Valid() && VnodeSpec.Invariant(Abs())
    }

    /** The module as the loader leaves it: no handler in the table, an
        empty registry, no timer. */
    constructor(dir: string)
      ensures Valid() && Reachable()
      ensures fresh(fp) && fp[..] == VnodeSpec.EmptyTable()
      ensures tsDirectory == dir
      ensures Abs() == VnodeSpec.MgmtState(map[], 0, [])
      ensures !registryReady && !timerReady && !statusTimer
    {
      fp := new Option<VnodeSpec.Handler>[MsgTypeMax](_ => None);
      tsDirectory := dir;
      vnodes := map[];
      terrno := 0;
      log := [];
      registryReady := false;
      timerReady := false;
      statusTimer := false;
    }

    /** `dnodeInitMgmt`: fills in the five handlers, creates the registry
        and the timer, arms the status timer and opens the vnodes (which
        does nothing). `hashCreated` and `tmrCreated` are whether the
        allocations succeeded; either failure returns -1. */
    method InitMgmt(hashCreated: bool, tmrCreated: bool, armed: bool) returns (code: int32)
      requires Valid()
      modifies this, fp
      ensures Valid()
      ensures fp[..] == VnodeSpec.Install(old(fp[..]))
      ensures old(fp[..]) == VnodeSpec.EmptyTable() ==> fp[..] == VnodeSpec.InitTable()
      ensures code == (if hashCreated && tmrCreated then CodeSuccess else -1)
      ensures registryReady == hashCreated && vnodes == map[]
      ensures terrno == old(terrno) && log == old(log)
      ensures timerReady == (if hashCreated then tmrCreated else old(timerReady))
      ensures statusTimer == (if hashCreated && tmrCreated then armed else old(statusTimer))
      ensures old(Reachable()) ==> Reachable()
    {
      fp[MsgMdCreateVnode] := Some(VnodeSpec.CreateVnodeHandler);
      fp[MsgMdDropVnode] := Some(VnodeSpec.DropVnodeHandler);
      fp[MsgMdAlterVnode] := Some(VnodeSpec.AlterVnodeHandler);
      fp[MsgMdAlterStream] := Some(VnodeSpec.AlterStreamHandler);
      fp[MsgMdConfigDnode] := Some(VnodeSpec.ConfigDnodeHandler);
      assert fp[..] == VnodeSpec.Install(old(fp[..]));

      vnodes := map[];
      registryReady := hashCreated;
      if !hashCreated {
        return -1;
      }

      timerReady := tmrCreated;
      if !tmrCreated {
        return -1;
      }
      statusTimer := armed;

      code := CodeSuccess;
    }

    /** `dnodeSendStatusMsg`: re-arms the status timer; nothing else is
        sent. `armed` is whether re-arming succeeded. */
    method SendStatusMsg(armed: bool)
      modifies this
      ensures statusTimer == armed
      ensures Abs() == old(Abs()) && timerReady == old(timerReady) && registryReady == old(registryReady)
    {
      statusTimer := armed;
    }

    /** `dnodeCleanupMgmt`: stops the status timer if it is armed and
        releases the registry. */
    method CleanupMgmt()
      requires Valid()
      modifies this
      ensures Valid()
      ensures !statusTimer && timerReady == old(timerReady) && registryReady == old(registryReady)
      ensures vnodes == map[] && terrno == old(terrno) && log == old(log)
      ensures old(Reachable()) ==> Reachable()
    {
      if statusTimer {
        statusTimer := false;
      }
      vnodes := map[];
    }

    /** `dnodeMgmt`: resets `terrno`, runs the handler registered for the
        tag or records MSG_NOT_PROCESSED, replies with `terrno` and frees
        the received buffer. */
    method HandleMgmtMsg(msg: RpcMsg, env: VnodeSpec.Env)
      requires Valid() && VnodeSpec.Routable(fp[..], View(msg))
      modifies this, BodyObjects(msg.body)
      ensures Valid()
      ensures Abs() == VnodeSpec.Dispatch(old(Abs()), tsDirectory, fp[..], old(View(msg)), env)
      ensures FlagsAre(old(registryReady), old(timerReady), old(statusTimer))
      ensures old(Reachable()) ==> Reachable()
    {
      ghost var s := Abs();
      ghost var m := View(msg);
      terrno := 0;
      ghost var s0 := Abs();
      assert s0 == s.(terrno := 0);
      assert old(Reachable()) ==> Reachable();
      var entry := fp[msg.msgType];
      assert entry == fp[..][m.msgType];
      if entry.Some? {
        assert View(msg) == m;
        Call(entry.value, msg, env);
        assert Abs() == VnodeSpec.RunHandler(s0, tsDirectory, entry.value, m, env);
        Properties.DispatchSome(s, tsDirectory, fp[..], m, env);
      } else {
        terrno := CodeMsgNotProcessed;
        Properties.DispatchNone(s, tsDirectory, fp[..], m, env);
      }
      ghost var s1 := Abs();
      ghost var l0 := log;
      log := log + [VnodeSpec.Response(msg.handle, terrno, Null)];
      log := log + [VnodeSpec.ContFreed(msg.pCont)];
      Properties.AppendTwo(l0, VnodeSpec.Response(msg.handle, terrno, Null), VnodeSpec.ContFreed(msg.pCont));
      assert Abs() == VnodeSpec.Reply(s1, msg.handle, s1.terrno, msg.pCont);
      if old(Reachable()) {
        Properties.ReplyPreserves(s1, msg.handle, s1.terrno, msg.pCont);
      }
    }

    /** `(*dnodeProcessMgmtMsgFp[msgType])(pMsg)` */
    method Call(h: VnodeSpec.Handler, msg: RpcMsg, env: VnodeSpec.Env)
      requires VnodeSpec.PayloadFits(h, View(msg).payload)
      modifies this, BodyObjects(msg.body)
      ensures Abs() == VnodeSpec.RunHandler(old(Abs()), tsDirectory, h, old(View(msg)), env)
      ensures FlagsAre(old(registryReady), old(timerReady), old(statusTimer))
      ensures old(Reachable()) ==> Reachable()
    {
      match h
      case CreateVnodeHandler => ProcessCreateVnodeMsg(msg, env);
      case DropVnodeHandler => ProcessDropVnodeMsg(msg);
      case AlterVnodeHandler => ProcessAlterVnodeMsg(msg, env);
      case AlterStreamHandler => ProcessAlterStreamMsg(msg);
      case ConfigDnodeHandler => ProcessConfigDnodeMsg(msg);
    }

    /** `dnodeGetVnode`: hands out the vnode stored under `vgId` (by its key)
        and counts the borrow, unless it is missing or a SLAVE. */
    method GetVnode(vgId: int32) returns (p: Option<int32>)
      modifies this
      ensures (Abs(), p) == VnodeSpec.GetVnode(old(Abs()), vgId)
      ensures p.Some? ==> p.value == vgId && vgId in vnodes
      ensures old(Reachable()) ==> Reachable() && (p.None? <==> vgId !in old(vnodes))
      ensures FlagsAre(old(registryReady), old(timerReady), old(statusTimer))
    {
      if vgId !in vnodes {
        terrno := CodeInvalidVgroupId;
        return None;
      }
      var v := vnodes[vgId];
      if v.status != VnodeSpec.Master && v.status == VnodeSpec.Slave {
        terrno := CodeInvalidVnodeStatus;
        return None;
      }
      vnodes := vnodes[vgId := v.(refCount := Inc(v.refCount))];
      p := Some(vgId);
      if old(Reachable()) {
        Properties.GetVnodePreserves(old(Abs()), vgId);
      }
    }

    /** `dnodeGetVnodeStatus`; every object the module stores is NOT_READY. */
    method GetVnodeStatus(p: int32) returns (status: VnodeSpec.Status)
      requires p in vnodes
      ensures status == vnodes[p].status
      ensures Reachable() ==> status == VnodeSpec.NotReady
    {
      status := vnodes[p].status;
    }

    /** `dnodeGetVnodeWworker`: a worker the write pool handed out. */
    method GetVnodeWworker(p: int32) returns (w: Handle)
      requires p in vnodes
      ensures w == vnodes[p].wworker
      ensures Reachable() ==> VnodeSpec.WriteWorkerAllocated(w) in log
    {
      w := vnodes[p].wworker;
    }

    /** `dnodeGetVnodeRworker`: a worker the read pool handed out. */
    method GetVnodeRworker(p: int32) returns (r: Handle)
      requires p in vnodes
      ensures r == vnodes[p].rworker
      ensures Reachable() ==> VnodeSpec.ReadWorkerAllocated(r) in log
    {
      r := vnodes[p].rworker;
    }

    /** `dnodeGetVnodeWal`: nothing in the module sets a wal. */
    method GetVnodeWal(p: int32) returns (wal: Handle)
      requires p in vnodes
      ensures wal == vnodes[p].wal
      ensures Reachable() ==> wal == Null
    {
      wal := vnodes[p].wal;
    }

    /** `dnodeGetVnodeTsdb`: the repository handle, which open and create
        store only when it is NULL. */
    method GetVnodeTsdb(p: int32) returns (tsdb: Handle)
      requires p in vnodes
      ensures tsdb == vnodes[p].tsdb
      ensures Reachable() ==> tsdb == Null
    {
      tsdb := vnodes[p].tsdb;
    }

    /** `dnodeReleaseVnode`: returns a borrow. */
    method ReleaseVnode(p: int32)
      requires p in vnodes
      modifies this
      ensures Abs() == VnodeSpec.ReleaseVnode(old(Abs()), p)
      ensures old(Reachable()) ==> Reachable()
      ensures FlagsAre(old(registryReady), old(timerReady), old(statusTimer))
    {
      var v := vnodes[p];
      vnodes := vnodes[p := v.(refCount := Dec(v.refCount))];
      if old(Reachable()) {
        Properties.ReleaseVnodePreserves(old(Abs()), p);
      }
    }

    /** Allocates the write and then the read worker and adds a NOT_READY
        object with one reference to the registry: the tail shared by
        `dnodeOpenVnode` and `dnodeCreateVnode`. */
    method AddVnode(vgId: int32, pTsdb: Handle, env: VnodeSpec.Env)
      modifies this
      ensures Abs() == VnodeSpec.Register(old(Abs()), vgId, pTsdb, env)
      ensures FlagsAre(old(registryReady), old(timerReady), old(statusTimer))
      ensures old(Reachable()) && pTsdb == Null ==> Reachable()
    {
      var obj := VnodeSpec.VnodeObj(vgId, VnodeSpec.NotReady, 1, 0, Null, Null, Null, pTsdb, Null, Null, Null);
      obj := obj.(wworker := env.wworker);
      log := log + [VnodeSpec.WriteWorkerAllocated(env.wworker)];
      obj := obj.(rworker := env.rworker);
      log := log + [VnodeSpec.ReadWorkerAllocated(env.rworker)];
      vnodes := vnodes[obj.vgId := obj];
      if old(Reachable()) && pTsdb == Null {
        Properties.RegisterPreserves(old(Abs()), vgId, env);
      }
    }

    /** `dnodeOpenVnode`: asks the storage engine to open the repository
        under the vgroup's directory and registers the vnode when the
        answer is NULL. */
    method OpenVnode(vgId: int32, env: VnodeSpec.Env) returns (code: int32)
      modifies this
      ensures (Abs(), code) == VnodeSpec.OpenVnode(old(Abs()), tsDirectory, vgId, env)
      ensures old(Reachable()) ==> Reachable()
      ensures FlagsAre(old(registryReady), old(timerReady), old(statusTimer))
    {
      var rootDir := RootDir(tsDirectory, vgId);
      log := log + [VnodeSpec.RepoOpened(rootDir)];
      terrno := env.repo.terrno;
      var pTsdb := env.repo.repo;
      if pTsdb != Null {
        code := terrno;
      } else {
        AddVnode(vgId, pTsdb, env);
        code := CodeSuccess;
      }
      if old(Reachable()) {
        Properties.OpenVnodePreserves(old(Abs()), tsDirectory, vgId, env);
      }
    }

    /** `dnodeCleanupVnode`: marks the vnode NOT_READY, drops one reference,
        frees the read and then the write worker, closes the repository if
        there is one, and removes the object from the registry. */
    method CleanupVnode(p: int32)
      requires p in vnodes
      modifies this
      ensures Abs() == VnodeSpec.CleanupVnode(old(Abs()), p)
      ensures old(Reachable()) ==> Reachable()
      ensures FlagsAre(old(registryReady), old(timerReady), old(statusTimer))
    {
      var v := vnodes[p];
      v := v.(status := VnodeSpec.NotReady);
      var count := Dec(v.refCount);
      v := v.(refCount := count);
      // the reference count is not waited for
      log := log + [VnodeSpec.ReadWorkerFreed(v.rworker)];
      v := v.(rworker := Null);
      log := log + [VnodeSpec.WriteWorkerFreed(v.wworker)];
      v := v.(wworker := Null);
      if v.tsdb != Null {
        log := log + [VnodeSpec.RepoClosed(v.tsdb)];
        v := v.(tsdb := Null);
      }
      vnodes := vnodes[p := v];
      vnodes := vnodes - {v.vgId};
      if old(Reachable()) {
        Properties.CleanupVnodePreserves(old(Abs()), p);
      }
    }

    /** `dnodeCreateVnode`: builds the storage configuration from the
        message, asks the storage engine to create the repository and
        registers the vnode when the answer is NULL. */
    method CreateVnode(pVnodeCfg: CreateVnodeMsg, env: VnodeSpec.Env) returns (code: int32)
      modifies this
      ensures (Abs(), code) == VnodeSpec.CreateVnode(old(Abs()), tsDirectory, pVnodeCfg.Value(), env)
      ensures old(Reachable()) ==> Reachable()
      ensures FlagsAre(old(registryReady), old(timerReady), old(statusTimer))
    {
      var tsdbCfg := VnodeSpec.TsdbCfg(pVnodeCfg.precision, pVnodeCfg.vnode, pVnodeCfg.maxSessions,
                                       pVnodeCfg.daysPerFile, -1, -1, -1, -1);
      var rootDir := RootDir(tsDirectory, pVnodeCfg.vgId);
      log := log + [VnodeSpec.RepoCreated(rootDir, tsdbCfg)];
      terrno := env.repo.terrno;
      var pTsdb := env.repo.repo;
      if pTsdb != Null {
        code := terrno;
      } else {
        AddVnode(pVnodeCfg.vgId, pTsdb, env);
        code := CodeSuccess;
      }
      if old(Reachable()) {
        Properties.CreateVnodePreserves(old(Abs()), tsDirectory, pVnodeCfg.Value(), env);
      }
    }

    /** `dnodeDropVnode`: marks the vnode NOT_READY, drops one reference,
        deletes the repository if there is one, then cleans up, which drops
        a second reference. */
    method DropVnode(p: int32)
      requires p in vnodes
      modifies this
      ensures Abs() == VnodeSpec.DropVnode(old(Abs()), p)
      ensures old(Reachable()) ==> Reachable()
      ensures FlagsAre(old(registryReady), old(timerReady), old(statusTimer))
    {
      var v := vnodes[p];
      v := v.(status := VnodeSpec.NotReady);
      var count := Dec(v.refCount);
      v := v.(refCount := count);
      // the reference count is not waited for
      if v.tsdb != Null {
        log := log + [VnodeSpec.RepoDropped(v.tsdb)];
        v := v.(tsdb := Null);
      }
      vnodes := vnodes[p := v];
      CleanupVnode(p);
      if old(Reachable()) {
        Properties.DropVnodePreserves(old(Abs()), p);
      }
    }

    /** Converts the fields `dnodeProcessCreateVnodeMsg` and
        `dnodeProcessAlterVnodeMsg` read from network order, in place. */
    method DecodeInPlace(pCreate: CreateVnodeMsg)
      modifies pCreate
      ensures pCreate.Value() == VnodeSpec.DecodeCreate(old(pCreate.Value()))
    {
      ghost var w := pCreate.Value();
      pCreate.vnode := Htonl(pCreate.vnode);
      pCreate.vgId := Htonl(pCreate.vgId);
      pCreate.maxSessions := Htonl(pCreate.maxSessions);
      pCreate.daysPerFile := Htonl(pCreate.daysPerFile);
      assert pCreate.Value() == w.(vnode := Htonl(w.vnode), vgId := Htonl(w.vgId),
                                   maxSessions := Htonl(w.maxSessions), daysPerFile := Htonl(w.daysPerFile));
    }

    /** `dnodeProcessCreateVnodeMsg`: decodes the body, creates the vnode
        unless its vgroup is registered, replies with the outcome and frees
        the buffer. */
    method ProcessCreateVnodeMsg(rpcMsg: RpcMsg, env: VnodeSpec.Env)
      requires rpcMsg.body.CreateBody?
      modifies this, rpcMsg.body.create
      ensures rpcMsg.body.create.Value() == VnodeSpec.DecodeCreate(old(rpcMsg.body.create.Value()))
      ensures Abs() == VnodeSpec.ProcessCreateVnodeMsg(old(Abs()), tsDirectory, old(View(rpcMsg)),
                                                       old(rpcMsg.body.create.Value()), env)
      ensures FlagsAre(old(registryReady), old(timerReady), old(statusTimer))
      ensures old(Reachable()) ==> Reachable()
    {
      ghost var s := Abs();
      ghost var m := View(rpcMsg);
      var pCreate := rpcMsg.body.create;
      ghost var w := pCreate.Value();
      DecodeInPlace(pCreate);
      ghost var cfg := pCreate.Value();
      assert Abs() == s;
      var code;
      if pCreate.vgId in vnodes {
        code := CodeSuccess;
      } else {
        code := CreateVnode(pCreate, env);
      }
      assert (Abs(), code) == VnodeSpec.CreateIfAbsent(s, tsDirectory, cfg, env);
      ghost var s1 := Abs();
      ghost var l0 := log;
      log := log + [VnodeSpec.Response(rpcMsg.handle, code, Null)];
      log := log + [VnodeSpec.ContFreed(rpcMsg.pCont)];
      Properties.AppendTwo(l0, VnodeSpec.Response(rpcMsg.handle, code, Null), VnodeSpec.ContFreed(rpcMsg.pCont));
      assert Abs() == VnodeSpec.Reply(s1, rpcMsg.handle, code, rpcMsg.pCont);
      if old(Reachable()) {
        Properties.ProcessCreatePreserves(s, tsDirectory, m, w, env);
      }
    }

    /** `dnodeProcessDropVnodeMsg`: decodes the vgroup id, drops the vnode
        if it is registered (SUCCESS) or answers INVALID_VGROUP_ID, and
        frees the buffer. */
    method ProcessDropVnodeMsg(rpcMsg: RpcMsg)
      requires rpcMsg.body.DropBody?
      modifies this, rpcMsg.body.drop
      ensures rpcMsg.body.drop.vgId == Htonl(old(rpcMsg.body.drop.vgId))
      ensures Abs() == VnodeSpec.ProcessDropVnodeMsg(old(Abs()), old(View(rpcMsg)), old(rpcMsg.body.drop.vgId))
      ensures FlagsAre(old(registryReady), old(timerReady), old(statusTimer))
      ensures old(Reachable()) ==> Reachable()
    {
      var pDrop := rpcMsg.body.drop;
      pDrop.vgId := Htonl(pDrop.vgId);
      var code;
      if pDrop.vgId in vnodes {
        DropVnode(pDrop.vgId);
        code := CodeSuccess;
      } else {
        code := CodeInvalidVgroupId;
      }
      ghost var l0 := log;
      log := log + [VnodeSpec.Response(rpcMsg.handle, code, Null)];
      log := log + [VnodeSpec.ContFreed(rpcMsg.pCont)];
      Properties.AppendTwo(l0, VnodeSpec.Response(rpcMsg.handle, code, Null), VnodeSpec.ContFreed(rpcMsg.pCont));
      if old(Reachable()) {
        Properties.ProcessDropPreserves(old(Abs()), old(View(rpcMsg)), old(rpcMsg.body.drop.vgId));
      }
    }

    /** `dnodeProcessAlterVnodeMsg`: the same steps as the create handler. */
    method ProcessAlterVnodeMsg(rpcMsg: RpcMsg, env: VnodeSpec.Env)
      requires rpcMsg.body.CreateBody?
      modifies this, rpcMsg.body.create
      ensures rpcMsg.body.create.Value() == VnodeSpec.DecodeCreate(old(rpcMsg.body.create.Value()))
      ensures Abs() == VnodeSpec.ProcessAlterVnodeMsg(old(Abs()), tsDirectory, old(View(rpcMsg)),
                                                      old(rpcMsg.body.create.Value()), env)
      ensures FlagsAre(old(registryReady), old(timerReady), old(statusTimer))
      ensures old(Reachable()) ==> Reachable()
    {
      ghost var s := Abs();
      ghost var m := View(rpcMsg);
      var pCreate := rpcMsg.body.create;
      ghost var w := pCreate.Value();
      DecodeInPlace(pCreate);
      ghost var cfg := pCreate.Value();
      assert Abs() == s;
      var code;
      if pCreate.vgId in vnodes {
        code := CodeSuccess;
      } else {
        code := CreateVnode(pCreate, env);
      }
      assert (Abs(), code) == VnodeSpec.CreateIfAbsent(s, tsDirectory, cfg, env);
      ghost var s1 := Abs();
      ghost var l0 := log;
      log := log + [VnodeSpec.Response(rpcMsg.handle, code, Null)];
      log := log + [VnodeSpec.ContFreed(rpcMsg.pCont)];
      Properties.AppendTwo(l0, VnodeSpec.Response(rpcMsg.handle, code, Null), VnodeSpec.ContFreed(rpcMsg.pCont));
      assert Abs() == VnodeSpec.Reply(s1, rpcMsg.handle, code, rpcMsg.pCont);
      if old(Reachable()) {
        Properties.ProcessAlterPreserves(s, tsDirectory, m, w, env);
      }
    }

    /** `dnodeProcessAlterStreamMsg`: its body is commented out. */
    method ProcessAlterStreamMsg(pMsg: RpcMsg)
      ensures Abs() == old(Abs())
    {
    }

    /** `dnodeProcessConfigDnodeMsg`: its body is commented out. */
    method ProcessConfigDnodeMsg(pMsg: RpcMsg)
      ensures Abs() == old(Abs())
    {
    }
  }
}
