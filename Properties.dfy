/** What the management operations of dnodeMgmt.c guarantee, proved about
    the functions of VnodeSpec. */
module Properties {
  import opened Base
  import opened NetOrder
  import opened Format
  import opened VnodeSpec

  // ---------------------------------------------------------------------
  // dnodeGetVnode and dnodeReleaseVnode

  /** Lookup fails with INVALID_VGROUP_ID on an absent id and with
      INVALID_VNODE_STATUS exactly on a SLAVE vnode, changing only `terrno`;
      otherwise it hands out the vnode and adds one to its reference count,
      and nothing else changes. */
  lemma GetVnodeOutcome(s: MgmtState, vgId: int32)
    ensures var (s', p) := GetVnode(s, vgId);
      && s'.log == s.log
      && (p.None? <==> vgId !in s.vnodes || s.vnodes[vgId].status == Slave)
      && (vgId !in s.vnodes ==> s' == s.(terrno := CodeInvalidVgroupId))
      && (vgId in s.vnodes && s.vnodes[vgId].status == Slave ==>
            s' == s.(terrno := CodeInvalidVnodeStatus))
      && (p.Some? ==>
            && p.value == vgId
            && s'.terrno == s.terrno
            && s'.vnodes.Keys == s.vnodes.Keys
            && s'.vnodes[vgId] == s.vnodes[vgId].(refCount := s'.vnodes[vgId].refCount)
            && (s.vnodes[vgId].refCount < 0x7fff_ffff ==>
                  s'.vnodes[vgId].refCount == s.vnodes[vgId].refCount + 1)
            && forall k :: k in s.vnodes && k != vgId ==> s'.vnodes[k] == s.vnodes[k])
  {
  }

  /** A successful lookup followed by a release restores the state exactly. */
  lemma GetReleaseBalance(s: MgmtState, vgId: int32)
    requires GetVnode(s, vgId).1.Some?
    ensures vgId in GetVnode(s, vgId).0.vnodes
    ensures ReleaseVnode(GetVnode(s, vgId).0, vgId) == s
  {
    var v := s.vnodes[vgId];
    WrapAdd(v.refCount, 1, -1);
    assert Dec(Inc(v.refCount)) == v.refCount;
    assert ReleaseVnode(GetVnode(s, vgId).0, vgId).vnodes == s.vnodes;
  }

  /** The state with the reference count of the vnode under `k` set to `c`. */
  function WithCount(s: MgmtState, k: int32, c: int32): MgmtState
    requires k in s.vnodes
  {
    s.(vnodes := s.vnodes[k := s.vnodes[k].(refCount := c)])
  }

  lemma WithCountTwice(s: MgmtState, k: int32, a: int32, b: int32)
    requires k in s.vnodes
    ensures WithCount(WithCount(s, k, a), k, b) == WithCount(s, k, b)
  {
  }

  lemma WithCountSame(s: MgmtState, k: int32)
    requires k in s.vnodes
    ensures WithCount(s, k, s.vnodes[k].refCount) == s
  {
    assert s.vnodes[k := s.vnodes[k]] == s.vnodes;
  }

  /** `n` lookups of the same vnode in a row. */
  function AcquireN(s: MgmtState, vgId: int32, n: nat): MgmtState
  {
    if n == 0 then s else GetVnode(AcquireN(s, vgId, n - 1), vgId).0
  }

  /** `n` releases of the same vnode in a row. */
  function ReleaseN(s: MgmtState, vgId: int32, n: nat): MgmtState
    requires vgId in s.vnodes
    decreases n
  {
    if n == 0 then s else
      var s1 := ReleaseVnode(s, vgId);
      ReleaseN(s1, vgId, n - 1)
  }

  lemma {:induction false} AcquireNEffect(s: MgmtState, vgId: int32, n: nat)
    requires vgId in s.vnodes && s.vnodes[vgId].status != Slave
    decreases n
    ensures AcquireN(s, vgId, n) == WithCount(s, vgId, Wrap32(s.vnodes[vgId].refCount as int + n))
  {
    var c := s.vnodes[vgId].refCount;
    if n == 0 {
      assert Wrap32(c as int + 0) == c;
      WithCountSame(s, vgId);
    } else {
      AcquireNEffect(s, vgId, n - 1);
      var a := Wrap32(c as int + (n - 1));
      assert AcquireN(s, vgId, n) == GetVnode(WithCount(s, vgId, a), vgId).0;
      assert GetVnode(WithCount(s, vgId, a), vgId).0 == WithCount(WithCount(s, vgId, a), vgId, Inc(a));
      AddThenInc(c, n);
      WithCountTwice(s, vgId, a, Inc(a));
    }
  }

  lemma {:induction false} ReleaseNEffect(s: MgmtState, vgId: int32, n: nat)
    requires vgId in s.vnodes
    decreases n
    ensures vgId in ReleaseN(s, vgId, n).vnodes
    ensures ReleaseN(s, vgId, n) == WithCount(s, vgId, Wrap32(s.vnodes[vgId].refCount as int - n as int))
  {
    var c := s.vnodes[vgId].refCount;
    if n == 0 {
      assert Wrap32(c as int - 0) == c;
      WithCountSame(s, vgId);
    } else {
      var s1 := ReleaseVnode(s, vgId);
      assert s1 == WithCount(s, vgId, Dec(c));
      assert ReleaseN(s, vgId, n) == ReleaseN(s1, vgId, n - 1);
      var w := Wrap32(Dec(c) as int - (n as int - 1));
      ReleaseNEffect(s1, vgId, n - 1);
      assert ReleaseN(s1, vgId, n - 1) == WithCount(s1, vgId, w);
      DecThenSub(c, n);
      WithCountTwice(s, vgId, Dec(c), w);
    }
  }

  /** Reference counting balances: any number of borrows of a vnode that
      lookup hands out, followed by as many releases, leaves the state as
      it was, even across 32-bit wrap-around of the count. */
  lemma BorrowsBalance(s: MgmtState, vgId: int32, n: nat)
    requires vgId in s.vnodes && s.vnodes[vgId].status != Slave
    ensures vgId in AcquireN(s, vgId, n).vnodes
    ensures ReleaseN(AcquireN(s, vgId, n), vgId, n) == s
  {
    var c := s.vnodes[vgId].refCount;
    var w := Wrap32(c as int + n);
    AcquireNEffect(s, vgId, n);
    var s1 := WithCount(s, vgId, w);
    assert AcquireN(s, vgId, n) == s1;
    assert s1.vnodes[vgId].refCount == w;
    ReleaseNEffect(s1, vgId, n);
    AddThenSub(c, n);
    assert ReleaseN(s1, vgId, n) == WithCount(s1, vgId, c);
    WithCountTwice(s, vgId, w, c);
    WithCountSame(s, vgId);
  }

  // ---------------------------------------------------------------------
  // dnodeOpenVnode and dnodeCreateVnode

  /** Open asks the storage engine for the repository under the vgroup's root
      directory. A non-NULL handle makes it return `terrno` and leave the
      registry alone; a NULL handle makes it allocate the two workers,
      register a fresh NOT_READY object with reference count 1, and return
      SUCCESS. */
  lemma OpenVnodeOutcome(s: MgmtState, dir: string, vgId: int32, env: Env)
    ensures var (s', code) := OpenVnode(s, dir, vgId, env);
      && s'.terrno == env.repo.terrno
      && (env.repo.repo != Null ==>
            && code == env.repo.terrno
            && s'.vnodes == s.vnodes
            && s'.log == s.log + [RepoOpened(RootDir(dir, vgId))])
      && (env.repo.repo == Null ==>
            && code == CodeSuccess
            && s'.vnodes == s.vnodes[vgId := NewVnode(vgId, Null, env)]
            && s'.log == s.log + [RepoOpened(RootDir(dir, vgId)),
                                  WriteWorkerAllocated(env.wworker), ReadWorkerAllocated(env.rworker)])
  {
  }

  /** Create does the same as open, except that it asks the storage engine to
      create the repository, with precision, table count and days per file
      from the message, the vnode number as the tsdb id, and -1 (unset) for
      the row limits, the retention and the cache size. */
  lemma CreateVnodeOutcome(s: MgmtState, dir: string, cfg: CreateCfg, env: Env)
    ensures var (s', code) := CreateVnode(s, dir, cfg, env);
      var call := RepoCreated(RootDir(dir, cfg.vgId),
                              TsdbCfg(cfg.precision, cfg.vnode, cfg.maxSessions, cfg.daysPerFile, -1, -1, -1, -1));
      && s'.terrno == env.repo.terrno
      && (env.repo.repo != Null ==>
            && code == env.repo.terrno
            && s'.vnodes == s.vnodes
            && s'.log == s.log + [call])
      && (env.repo.repo == Null ==>
            && code == CodeSuccess
            && s'.vnodes == s.vnodes[cfg.vgId := NewVnode(cfg.vgId, Null, env)]
            && s'.log == s.log + [call, WriteWorkerAllocated(env.wworker), ReadWorkerAllocated(env.rworker)])
  {
  }

  /** Open and create of the same vgroup address the same directory, and
      different vgroups address different directories. */
  lemma OpenCreateSameRootDir(s: MgmtState, dir: string, cfg: CreateCfg, env1: Env, env2: Env)
    ensures OpenVnode(s, dir, cfg.vgId, env1).0.log[|s.log|].rootDir
         == CreateVnode(s, dir, cfg, env2).0.log[|s.log|].rootDir
    ensures forall other: int32 :: other != cfg.vgId ==>
         OpenVnode(s, dir, other, env1).0.log[|s.log|].rootDir
         != CreateVnode(s, dir, cfg, env2).0.log[|s.log|].rootDir
  {
    forall other: int32 | other != cfg.vgId
      ensures RootDir(dir, other) != RootDir(dir, cfg.vgId)
    {
      if RootDir(dir, other) == RootDir(dir, cfg.vgId) {
        RootDirInjective(dir, other, cfg.vgId);
      }
    }
  }

  // ---------------------------------------------------------------------
  // dnodeCleanupVnode and dnodeDropVnode

  /** Cleanup frees the read worker, then the write worker, closes the
      repository only if the handle is non-NULL, and removes exactly this
      vgroup from the registry. `Retired(v)` is the object as cleanup writes
      it under its key just before deleting that key; the registry holds
      objects by value, so nothing can observe it afterwards. */
  lemma CleanupVnodeOutcome(s: MgmtState, p: int32)
    requires p in s.vnodes && KeysMatch(s.vnodes)
    ensures var v := s.vnodes[p]; var s' := CleanupVnode(s, p);
      && s'.vnodes == s.vnodes - {p}
      && s'.terrno == s.terrno
      && s'.log == s.log + [ReadWorkerFreed(v.rworker), WriteWorkerFreed(v.wworker)]
                         + (if v.tsdb != Null then [RepoClosed(v.tsdb)] else [])
      && Retired(v).status == NotReady
      && Retired(v).rworker == Null && Retired(v).wworker == Null && Retired(v).tsdb == Null
      && (v.refCount > -0x8000_0000 ==> Retired(v).refCount == v.refCount - 1)
  {
    var v := s.vnodes[p];
    assert (s.vnodes[p := Retired(v)] - {Retired(v).vgId}) == s.vnodes - {p};
  }

  /** Drop deletes the repository when the handle is non-NULL and never
      closes it, because it clears the handle before cleaning up; the
      vgroup is gone afterwards, so a later lookup fails with
      INVALID_VGROUP_ID. */
  lemma DropVnodeOutcome(s: MgmtState, p: int32)
    requires p in s.vnodes && KeysMatch(s.vnodes)
    ensures var v := s.vnodes[p]; var s' := DropVnode(s, p);
      && s'.vnodes == s.vnodes - {p}
      && s'.terrno == s.terrno
      && s'.log == s.log + (if v.tsdb != Null then [RepoDropped(v.tsdb)] else [])
                         + [ReadWorkerFreed(v.rworker), WriteWorkerFreed(v.wworker)]
      && (forall i :: |s.log| <= i < |s'.log| ==> !s'.log[i].RepoClosed?)
      && GetVnode(s', p) == (s'.(terrno := CodeInvalidVgroupId), None)
  {
    var v := s.vnodes[p];
    var last := Retired(Dropping(v));
    var s1 := s.(vnodes := s.vnodes[p := Dropping(v)],
                 log := s.log + (if v.tsdb != Null then [RepoDropped(v.tsdb)] else []));
    assert last.vgId == p;
    assert s1.vnodes[p := last] - {p} == s.vnodes - {p};
    assert ReleaseCalls(Dropping(v)) == [ReadWorkerFreed(v.rworker), WriteWorkerFreed(v.wworker)];
  }

  /** Both halves of drop take a reference off, so the object's count as
      cleanup writes it before the removal is two below the stored one,
      modulo 2^32. */
  lemma DropVnodeCount(s: MgmtState, p: int32)
    requires p in s.vnodes
    ensures Retired(Dropping(s.vnodes[p])).status == NotReady
    ensures Retired(Dropping(s.vnodes[p])).refCount == Wrap32(s.vnodes[p].refCount as int - 2)
  {
    DecThenSub(s.vnodes[p].refCount, 2);
  }

  // ---------------------------------------------------------------------
  // The message handlers

  /** What the controller puts on the wire: every converted field in network
      order. `htonl` is its own inverse, so encoding is the same byte swap as
      the handlers' decoding. */
  function EncodeCreate(cfg: CreateCfg): CreateCfg
  {
    DecodeCreate(cfg)
  }

  lemma DecodeEncodeCreate(cfg: CreateCfg)
    ensures DecodeCreate(EncodeCreate(cfg)) == cfg
    ensures forall w :: DecodeCreate(w).precision == w.precision
  {
    HtonlInvolutive(cfg.vnode);
    HtonlInvolutive(cfg.vgId);
    HtonlInvolutive(cfg.maxSessions);
    HtonlInvolutive(cfg.daysPerFile);
  }

  /** A create message for a registered vgroup is answered with SUCCESS and
      creates nothing. */
  lemma CreateMsgRegistered(s: MgmtState, dir: string, msg: MgmtMsg, wire: CreateCfg, env: Env)
    requires DecodeCreate(wire).vgId in s.vnodes
    ensures ProcessCreateVnodeMsg(s, dir, msg, wire, env)
         == s.(log := s.log + [Response(msg.handle, CodeSuccess, Null), ContFreed(msg.pCont)])
    ensures ProcessAlterVnodeMsg(s, dir, msg, wire, env)
         == s.(log := s.log + [Response(msg.handle, CodeSuccess, Null), ContFreed(msg.pCont)])
  {
  }

  /** A create message for a vgroup the node does not host registers the
      vgroup id the sender encoded. */
  lemma CreateMsgRegistersSentVgroup(s: MgmtState, dir: string, msg: MgmtMsg, cfg: CreateCfg, env: Env)
    requires cfg.vgId !in s.vnodes && env.repo.repo == Null
    ensures var s' := ProcessCreateVnodeMsg(s, dir, msg, EncodeCreate(cfg), env);
      && s'.vnodes == s.vnodes[cfg.vgId := NewVnode(cfg.vgId, Null, env)]
      && s'.log[|s'.log| - 2] == Response(msg.handle, CodeSuccess, Null)
  {
    DecodeEncodeCreate(cfg);
  }

  /** Create is idempotent: once a create message has registered its vgroup,
      a second one with the same body changes nothing but the log, and is
      answered with SUCCESS. */
  lemma CreateMsgIdempotent(s: MgmtState, dir: string, m1: MgmtMsg, m2: MgmtMsg, wire: CreateCfg, env1: Env, env2: Env)
    requires env1.repo.repo == Null || DecodeCreate(wire).vgId in s.vnodes
    ensures var s1 := ProcessCreateVnodeMsg(s, dir, m1, wire, env1);
      var s2 := ProcessCreateVnodeMsg(s1, dir, m2, wire, env2);
      && DecodeCreate(wire).vgId in s1.vnodes
      && s2 == s1.(log := s1.log + [Response(m2.handle, CodeSuccess, Null), ContFreed(m2.pCont)])
  {
  }

  /** A drop message for an absent vgroup is answered with INVALID_VGROUP_ID
      and changes nothing else. */
  lemma DropMsgAbsent(s: MgmtState, msg: MgmtMsg, wireVgId: int32)
    requires Htonl(wireVgId) !in s.vnodes
    ensures ProcessDropVnodeMsg(s, msg, wireVgId)
         == s.(log := s.log + [Response(msg.handle, CodeInvalidVgroupId, Null), ContFreed(msg.pCont)])
  {
  }

  /** A drop message for a registered vgroup removes it and is answered with SUCCESS. */
  lemma DropMsgPresent(s: MgmtState, msg: MgmtMsg, wireVgId: int32)
    requires Htonl(wireVgId) in s.vnodes && KeysMatch(s.vnodes)
    ensures var s' := ProcessDropVnodeMsg(s, msg, wireVgId);
      && s'.vnodes == s.vnodes - {Htonl(wireVgId)}
      && s'.log[|s'.log| - 2] == Response(msg.handle, CodeSuccess, Null)
  {
    DropVnodeOutcome(s, Htonl(wireVgId));
  }

  // ---------------------------------------------------------------------
  // dnodeInitMgmt and dnodeMgmt

  /** After initialisation exactly the five management tags have a handler. */
  lemma InitTableEntries(t: nat)
    requires t < MsgTypeMax
    ensures |InitTable()| == MsgTypeMax
    ensures InitTable()[t].Some? <==>
      t == MsgMdCreateVnode || t == MsgMdDropVnode || t == MsgMdAlterVnode
      || t == MsgMdAlterStream || t == MsgMdConfigDnode
    ensures InitTable()[MsgMdCreateVnode] == Some(CreateVnodeHandler)
    ensures InitTable()[MsgMdDropVnode] == Some(DropVnodeHandler)
    ensures InitTable()[MsgMdAlterVnode] == Some(AlterVnodeHandler)
    ensures InitTable()[MsgMdAlterStream] == Some(AlterStreamHandler)
    ensures InitTable()[MsgMdConfigDnode] == Some(ConfigDnodeHandler)
  {
  }

  /** How often `rpcFreeCont` is called on buffer `c` in a log. */
  function FreesOf(log: seq<Event>, c: Handle): nat
  {
    if |log| == 0 then 0
    else FreesOf(log[..|log| - 1], c) + (if log[|log| - 1] == ContFreed(c) then 1 else 0)
  }

  /** How many replies a log holds. */
  function RepliesIn(log: seq<Event>): nat
  {
    if |log| == 0 then 0
    else RepliesIn(log[..|log| - 1]) + (if log[|log| - 1].Response? then 1 else 0)
  }

  lemma {:induction false} CountsAppend(a: seq<Event>, b: seq<Event>, c: Handle)
    ensures FreesOf(a + b, c) == FreesOf(a, c) + FreesOf(b, c)
    ensures RepliesIn(a + b) == RepliesIn(a) + RepliesIn(b)
    decreases |b|
  {
    if |b| > 0 {
      assert (a + b)[..|a + b| - 1] == a + b[..|b| - 1];
      CountsAppend(a, b[..|b| - 1], c);
    } else {
      assert a + b == a;
    }
  }

  /** Whether the registered handler itself replies and frees the buffer. */
  predicate RepliesItself(h: Option<Handler>)
  {
    h == Some(CreateVnodeHandler) || h == Some(DropVnodeHandler) || h == Some(AlterVnodeHandler)
  }

  /** No reply and no buffer release among these calls. */
  predicate Quiet(calls: seq<Event>)
  {
    forall i :: 0 <= i < |calls| ==> !calls[i].ContFreed? && !calls[i].Response?
  }

  lemma {:induction false} QuietCounts(calls: seq<Event>, c: Handle)
    requires Quiet(calls)
    ensures FreesOf(calls, c) == 0 && RepliesIn(calls) == 0
    decreases |calls|
  {
    if |calls| > 0 {
      QuietCounts(calls[..|calls| - 1], c);
    }
  }

  /** The shared part of create and alter only appends calls, none of them a
      reply or a buffer release. */
  lemma CreateIfAbsentLog(s: MgmtState, dir: string, cfg: CreateCfg, env: Env)
    ensures var sc := CreateIfAbsent(s, dir, cfg, env).0;
      && |sc.log| >= |s.log| && sc.log[..|s.log|] == s.log && Quiet(sc.log[|s.log|..])
  {
    if cfg.vgId !in s.vnodes {
      CreateVnodeOutcome(s, dir, cfg, env);
    }
  }

  /** A handler's own reply, appended after calls that do not reply. */
  lemma ReplyLog(s: MgmtState, s1: MgmtState, handle: Handle, code: int32, cont: Handle)
    requires |s1.log| >= |s.log| && s1.log[..|s.log|] == s.log && Quiet(s1.log[|s.log|..])
    ensures var s2 := Reply(s1, handle, code, cont);
      && |s2.log| >= |s.log| + 2
      && s2.log[..|s.log|] == s.log
      && Quiet(s2.log[|s.log|..|s2.log| - 2])
      && s2.log[|s2.log| - 2] == Response(handle, code, Null)
      && s2.log[|s2.log| - 1] == ContFreed(cont)
  {
    var s2 := Reply(s1, handle, code, cont);
    assert s2.log[|s.log|..|s2.log| - 2] == s1.log[|s.log|..];
  }

  lemma ProcessCreateLog(s: MgmtState, dir: string, msg: MgmtMsg, wire: CreateCfg, env: Env)
    ensures var s1 := ProcessCreateVnodeMsg(s, dir, msg, wire, env);
      && |s1.log| >= |s.log| + 2
      && s1.log[..|s.log|] == s.log
      && Quiet(s1.log[|s.log|..|s1.log| - 2])
      && s1.log[|s1.log| - 2].Response?
      && s1.log[|s1.log| - 1] == ContFreed(msg.pCont)
  {
    var cfg := DecodeCreate(wire);
    CreateIfAbsentLog(s, dir, cfg, env);
    var (sc, code) := CreateIfAbsent(s, dir, cfg, env);
    ReplyLog(s, sc, msg.handle, code, msg.pCont);
  }

  lemma ProcessAlterLog(s: MgmtState, dir: string, msg: MgmtMsg, wire: CreateCfg, env: Env)
    ensures var s1 := ProcessAlterVnodeMsg(s, dir, msg, wire, env);
      && |s1.log| >= |s.log| + 2
      && s1.log[..|s.log|] == s.log
      && Quiet(s1.log[|s.log|..|s1.log| - 2])
      && s1.log[|s1.log| - 2].Response?
      && s1.log[|s1.log| - 1] == ContFreed(msg.pCont)
  {
    var cfg := DecodeCreate(wire);
    CreateIfAbsentLog(s, dir, cfg, env);
    var (sc, code) := CreateIfAbsent(s, dir, cfg, env);
    ReplyLog(s, sc, msg.handle, code, msg.pCont);
  }

  lemma ProcessDropLog(s: MgmtState, msg: MgmtMsg, wireVgId: int32)
    ensures var s1 := ProcessDropVnodeMsg(s, msg, wireVgId);
      && |s1.log| >= |s.log| + 2
      && s1.log[..|s.log|] == s.log
      && Quiet(s1.log[|s.log|..|s1.log| - 2])
      && s1.log[|s1.log| - 2].Response?
      && s1.log[|s1.log| - 1] == ContFreed(msg.pCont)
  {
    var vgId := Htonl(wireVgId);
    if vgId in s.vnodes {
      var sd := DropVnode(s, vgId);
      var v := s.vnodes[vgId];
      var calls := (if v.tsdb != Null then [RepoDropped(v.tsdb)] else [])
                   + [ReadWorkerFreed(Dropping(v).rworker), WriteWorkerFreed(Dropping(v).wworker)];
      assert sd.log == s.log + calls;
      assert sd.log[|s.log|..] == calls;
      ReplyLog(s, sd, msg.handle, CodeSuccess, msg.pCont);
    } else {
      assert s.log[|s.log|..] == [];
      ReplyLog(s, s, msg.handle, CodeInvalidVgroupId, msg.pCont);
    }
  }

  /** The create and alter handlers make their collaborator calls, then reply
      and free the buffer; the drop handler likewise; the other two do nothing. */
  lemma HandlerLog(s: MgmtState, dir: string, h: Handler, msg: MgmtMsg, env: Env)
    requires PayloadFits(h, msg.payload)
    ensures var s1 := RunHandler(s, dir, h, msg, env);
      && (RepliesItself(Some(h)) ==>
            && |s1.log| >= |s.log| + 2
            && s1.log[..|s.log|] == s.log
            && Quiet(s1.log[|s.log|..|s1.log| - 2])
            && s1.log[|s1.log| - 2].Response?
            && s1.log[|s1.log| - 1] == ContFreed(msg.pCont))
      && (!RepliesItself(Some(h)) ==> s1 == s)
  {
    match h
    case CreateVnodeHandler => ProcessCreateLog(s, dir, msg, msg.payload.cfg, env);
    case AlterVnodeHandler => ProcessAlterLog(s, dir, msg, msg.payload.cfg, env);
    case DropVnodeHandler => ProcessDropLog(s, msg, msg.payload.vgId);
    case AlterStreamHandler =>
    case ConfigDnodeHandler =>
  }

  /** The dispatcher resets `terrno`, and its last two calls are a reply to
      the incoming handle carrying `terrno` and no body, then the release of
      the incoming buffer. An unregistered tag changes nothing but `terrno`,
      which becomes MSG_NOT_PROCESSED. */
  lemma DispatchOutcome(s: MgmtState, dir: string, table: seq<Option<Handler>>, msg: MgmtMsg, env: Env)
    requires Routable(table, msg)
    ensures var s' := Dispatch(s, dir, table, msg, env);
      && |s'.log| >= |s.log| + 2
      && s'.log[..|s.log|] == s.log
      && s'.log[|s'.log| - 2] == Response(msg.handle, s'.terrno, Null)
      && s'.log[|s'.log| - 1] == ContFreed(msg.pCont)
      && (table[msg.msgType].None? ==>
            s' == s.(terrno := CodeMsgNotProcessed,
                     log := s.log + [Response(msg.handle, CodeMsgNotProcessed, Null), ContFreed(msg.pCont)]))
  {
    match table[msg.msgType]
    case None =>
    case Some(h) => HandlerLog(s.(terrno := 0), dir, h, msg, env);
  }

  /** A reply followed by the release of `c`. */
  lemma PairCounts(r: Event, c: Handle)
    requires r.Response?
    ensures FreesOf([r, ContFreed(c)], c) == 1 && RepliesIn([r, ContFreed(c)]) == 1
  {
    var one := [r];
    assert one[..0] == [];
    assert FreesOf(one, c) == 0 && RepliesIn(one) == 1;
    assert [r, ContFreed(c)][..1] == one;
  }

  /** Counts over a handler's quiet calls, its own reply and release, and
      the dispatcher's reply and release. */
  lemma SelfReplyCounts(calls: seq<Event>, r1: Event, r2: Event, c: Handle)
    requires Quiet(calls) && r1.Response? && r2.Response?
    ensures FreesOf(calls + [r1, ContFreed(c)] + [r2, ContFreed(c)], c) == 2
    ensures RepliesIn(calls + [r1, ContFreed(c)] + [r2, ContFreed(c)]) == 2
  {
    PairCounts(r1, c);
    PairCounts(r2, c);
    QuietCounts(calls, c);
    CountsAppend(calls, [r1, ContFreed(c)], c);
    CountsAppend(calls + [r1, ContFreed(c)], [r2, ContFreed(c)], c);
  }

  /** The buffer is released, and a reply sent, once by the dispatcher; the
      create, drop and alter handlers do both themselves as well, so for
      those tags the same buffer is released twice and two replies go out. */
  lemma DispatchCounts(s: MgmtState, dir: string, table: seq<Option<Handler>>, msg: MgmtMsg, env: Env)
    requires Routable(table, msg)
    ensures var s' := Dispatch(s, dir, table, msg, env);
      && |s'.log| >= |s.log|
      && FreesOf(s'.log[|s.log|..], msg.pCont) == (if RepliesItself(table[msg.msgType]) then 2 else 1)
      && RepliesIn(s'.log[|s.log|..]) == (if RepliesItself(table[msg.msgType]) then 2 else 1)
  {
    var s' := Dispatch(s, dir, table, msg, env);
    var r2 := Response(msg.handle, s'.terrno, Null);
    DispatchOutcome(s, dir, table, msg, env);
    if RepliesItself(table[msg.msgType]) {
      DispatchSelfReply(s, dir, table, msg, env);
    } else {
      PairCounts(r2, msg.pCont);
      assert s'.log[|s.log|..] == [r2, ContFreed(msg.pCont)];
    }
  }

  lemma DispatchSelfReply(s: MgmtState, dir: string, table: seq<Option<Handler>>, msg: MgmtMsg, env: Env)
    requires Routable(table, msg) && RepliesItself(table[msg.msgType])
    ensures var s' := Dispatch(s, dir, table, msg, env);
      && |s'.log| >= |s.log|
      && FreesOf(s'.log[|s.log|..], msg.pCont) == 2
      && RepliesIn(s'.log[|s.log|..]) == 2
  {
    var s0 := s.(terrno := 0);
    var h := table[msg.msgType].value;
    var s1 := RunHandler(s0, dir, h, msg, env);
    HandlerLog(s0, dir, h, msg, env);
    var r2 := Response(msg.handle, s1.terrno, Null);
    assert Dispatch(s, dir, table, msg, env).log == s1.log + [r2, ContFreed(msg.pCont)];
    HandlerThenReplyCounts(s.log, s1.log, r2, msg.pCont);
  }

  /** The log of a handler that replied itself, followed by the dispatcher's
      reply and release. */
  lemma HandlerThenReplyCounts(pre: seq<Event>, l1: seq<Event>, r2: Event, c: Handle)
    requires |l1| >= |pre| + 2 && l1[..|pre|] == pre
    requires Quiet(l1[|pre|..|l1| - 2]) && l1[|l1| - 2].Response? && l1[|l1| - 1] == ContFreed(c)
    requires r2.Response?
    ensures FreesOf((l1 + [r2, ContFreed(c)])[|pre|..], c) == 2
    ensures RepliesIn((l1 + [r2, ContFreed(c)])[|pre|..]) == 2
  {
    var calls := l1[|pre|..|l1| - 2];
    var r1 := l1[|l1| - 2];
    assert (l1 + [r2, ContFreed(c)])[|pre|..] == calls + [r1, ContFreed(c)] + [r2, ContFreed(c)];
    SelfReplyCounts(calls, r1, r2, c);
  }

  /** A drop of an unknown vgroup through the dispatcher: the handler answers
      INVALID_VGROUP_ID, then the dispatcher answers again with `terrno`,
      which nothing has set since it was reset, so the second reply says
      SUCCESS. The registry does not change. */
  lemma DispatchDropUnknown(s: MgmtState, dir: string, msg: MgmtMsg)
    requires MsgMdDropVnode == msg.msgType && msg.payload.DropPayload?
    requires Htonl(msg.payload.vgId) !in s.vnodes
    ensures Dispatch(s, dir, InitTable(), msg, Env(RepoReply(Null, 0), Null, Null))
         == MgmtState(s.vnodes, 0, s.log + [Response(msg.handle, CodeInvalidVgroupId, Null), ContFreed(msg.pCont),
                                             Response(msg.handle, CodeSuccess, Null), ContFreed(msg.pCont)])
  {
    InitTableEntries(msg.msgType);
  }

  // ---------------------------------------------------------------------
  // The invariant of reachable states

  lemma GetVnodePreserves(s: MgmtState, vgId: int32)
    requires Invariant(s)
    ensures Invariant(GetVnode(s, vgId).0)
  {
  }

  lemma ReleaseVnodePreserves(s: MgmtState, p: int32)
    requires Invariant(s) && p in s.vnodes
    ensures Invariant(ReleaseVnode(s, p))
  {
  }

  lemma OpenVnodePreserves(s: MgmtState, dir: string, vgId: int32, env: Env)
    requires Invariant(s)
    ensures Invariant(OpenVnode(s, dir, vgId, env).0)
  {
    OpenVnodeOutcome(s, dir, vgId, env);
  }

  /** Registering an object keeps the invariant when the repository handle
      is NULL, which is the only case open and create register. */
  lemma RegisterPreserves(s: MgmtState, vgId: int32, env: Env)
    requires Invariant(s)
    ensures Invariant(Register(s, vgId, Null, env))
  {
    var s1 := Register(s, vgId, Null, env);
    forall k | k in s1.vnodes
      ensures AsBuilt(s1.vnodes[k], s1.log)
    {
      if k != vgId {
        assert AsBuilt(s.vnodes[k], s.log);
      }
    }
  }

  lemma CreateVnodePreserves(s: MgmtState, dir: string, cfg: CreateCfg, env: Env)
    requires Invariant(s)
    ensures Invariant(CreateVnode(s, dir, cfg, env).0)
  {
    CreateVnodeOutcome(s, dir, cfg, env);
  }

  lemma CleanupVnodePreserves(s: MgmtState, p: int32)
    requires Invariant(s) && p in s.vnodes
    ensures Invariant(CleanupVnode(s, p))
  {
    CleanupVnodeOutcome(s, p);
  }

  lemma DropVnodePreserves(s: MgmtState, p: int32)
    requires Invariant(s) && p in s.vnodes
    ensures Invariant(DropVnode(s, p))
  {
    DropVnodeOutcome(s, p);
  }

  /** Two calls appended one after the other are the reply's two calls. */
  lemma AppendTwo(log: seq<Event>, a: Event, b: Event)
    ensures log + [a] + [b] == log + [a, b]
  {
    assert [a] + [b] == [a, b];
  }

  /** Appending a reply keeps the invariant: it only lengthens the log. */
  lemma ReplyPreserves(s: MgmtState, handle: Handle, code: int32, cont: Handle)
    requires Invariant(s)
    ensures Invariant(Reply(s, handle, code, cont))
  {
    var s1 := Reply(s, handle, code, cont);
    forall k | k in s1.vnodes
      ensures AsBuilt(s1.vnodes[k], s1.log)
    {
      assert AsBuilt(s.vnodes[k], s.log);
    }
  }

  lemma ProcessCreatePreserves(s: MgmtState, dir: string, msg: MgmtMsg, wire: CreateCfg, env: Env)
    requires Invariant(s)
    ensures Invariant(ProcessCreateVnodeMsg(s, dir, msg, wire, env))
  {
    var cfg := DecodeCreate(wire);
    if cfg.vgId !in s.vnodes { CreateVnodePreserves(s, dir, cfg, env); }
    var (sc, code) := CreateIfAbsent(s, dir, cfg, env);
    ReplyPreserves(sc, msg.handle, code, msg.pCont);
  }

  lemma ProcessAlterPreserves(s: MgmtState, dir: string, msg: MgmtMsg, wire: CreateCfg, env: Env)
    requires Invariant(s)
    ensures Invariant(ProcessAlterVnodeMsg(s, dir, msg, wire, env))
  {
    var cfg := DecodeCreate(wire);
    if cfg.vgId !in s.vnodes { CreateVnodePreserves(s, dir, cfg, env); }
    var (sc, code) := CreateIfAbsent(s, dir, cfg, env);
    ReplyPreserves(sc, msg.handle, code, msg.pCont);
  }

  lemma ProcessDropPreserves(s: MgmtState, msg: MgmtMsg, wireVgId: int32)
    requires Invariant(s)
    ensures Invariant(ProcessDropVnodeMsg(s, msg, wireVgId))
  {
    var vgId := Htonl(wireVgId);
    if vgId in s.vnodes {
      DropVnodePreserves(s, vgId);
      ReplyPreserves(DropVnode(s, vgId), msg.handle, CodeSuccess, msg.pCont);
    } else {
      ReplyPreserves(s, msg.handle, CodeInvalidVgroupId, msg.pCont);
    }
  }

  lemma RunHandlerPreserves(s: MgmtState, dir: string, h: Handler, msg: MgmtMsg, env: Env)
    requires Invariant(s) && PayloadFits(h, msg.payload)
    ensures Invariant(RunHandler(s, dir, h, msg, env))
  {
    match h
    case CreateVnodeHandler => ProcessCreatePreserves(s, dir, msg, msg.payload.cfg, env);
    case AlterVnodeHandler => ProcessAlterPreserves(s, dir, msg, msg.payload.cfg, env);
    case DropVnodeHandler => ProcessDropPreserves(s, msg, msg.payload.vgId);
    case AlterStreamHandler =>
    case ConfigDnodeHandler =>
  }

  /** The dispatcher on a registered tag, one step at a time. */
  lemma DispatchSome(s: MgmtState, dir: string, table: seq<Option<Handler>>, msg: MgmtMsg, env: Env)
    requires Routable(table, msg) && table[msg.msgType].Some?
    ensures var s1 := RunHandler(s.(terrno := 0), dir, table[msg.msgType].value, msg, env);
      Dispatch(s, dir, table, msg, env) == Reply(s1, msg.handle, s1.terrno, msg.pCont)
  {
  }

  /** The dispatcher on an unregistered tag, one step at a time. */
  lemma DispatchNone(s: MgmtState, dir: string, table: seq<Option<Handler>>, msg: MgmtMsg, env: Env)
    requires Routable(table, msg) && table[msg.msgType].None?
    ensures Dispatch(s, dir, table, msg, env)
         == Reply(s.(terrno := CodeMsgNotProcessed), msg.handle, CodeMsgNotProcessed, msg.pCont)
  {
  }

  lemma DispatchPreserves(s: MgmtState, dir: string, table: seq<Option<Handler>>, msg: MgmtMsg, env: Env)
    requires Invariant(s) && Routable(table, msg)
    ensures Invariant(Dispatch(s, dir, table, msg, env))
  {
    var s0 := s.(terrno := 0);
    var s1 := match table[msg.msgType]
      case Some(h) => RunHandler(s0, dir, h, msg, env)
      case None => s0.(terrno := CodeMsgNotProcessed);
    if table[msg.msgType].Some? {
      RunHandlerPreserves(s0, dir, table[msg.msgType].value, msg, env);
    }
    ReplyPreserves(s1, msg.handle, s1.terrno, msg.pCont);
  }

  /** A sequence of management messages, each delivered with the results its
      collaborator calls return, through the initialised table. */
  function Run(s: MgmtState, dir: string, msgs: seq<(MgmtMsg, Env)>): MgmtState
    requires forall i :: 0 <= i < |msgs| ==> Routable(InitTable(), msgs[i].0)
    decreases |msgs|
  {
    if |msgs| == 0 then s
    else Run(Dispatch(s, dir, InitTable(), msgs[0].0, msgs[0].1), dir, msgs[1..])
  }

  /** Every state reached from a state satisfying the invariant by any
      sequence of management messages satisfies it too. */
  lemma {:induction false} RunPreserves(s: MgmtState, dir: string, msgs: seq<(MgmtMsg, Env)>)
    requires Invariant(s)
    requires forall i :: 0 <= i < |msgs| ==> Routable(InitTable(), msgs[i].0)
    ensures Invariant(Run(s, dir, msgs))
    decreases |msgs|
  {
    if |msgs| > 0 {
      DispatchPreserves(s, dir, InitTable(), msgs[0].0, msgs[0].1);
      RunPreserves(Dispatch(s, dir, InitTable(), msgs[0].0, msgs[0].1), dir, msgs[1..]);
    }
  }

  /** Consequences of the inverted NULL checks and of nothing setting a
      status: in a reachable state, lookup fails only on an absent id, and
      drop and cleanup never reach the storage engine at all. */
  lemma ReachableConsequences(s: MgmtState, vgId: int32)
    requires Invariant(s)
    ensures GetVnode(s, vgId).1.Some? <==> vgId in s.vnodes
    ensures vgId in s.vnodes ==>
      && DropVnode(s, vgId).log == s.log + [ReadWorkerFreed(s.vnodes[vgId].rworker), WriteWorkerFreed(s.vnodes[vgId].wworker)]
      && CleanupVnode(s, vgId).log == s.log + [ReadWorkerFreed(s.vnodes[vgId].rworker), WriteWorkerFreed(s.vnodes[vgId].wworker)]
  {
    if vgId in s.vnodes {
      DropVnodeOutcome(s, vgId);
      CleanupVnodeOutcome(s, vgId);
    }
  }

  // ---------------------------------------------------------------------
  // A scenario: create a vgroup, look it up, drop it, look it up again

  /** The collaborators as the scenario sees them: the storage engine
      returns NULL with `terrno` SUCCESS, the pools hand out `w` and `r`. */
  function ScenarioEnv(w: Handle, r: Handle): Env
  {
    Env(RepoReply(Null, 0), w, r)
  }

  /** From an empty registry, a create message registers its vgroup with
      one reference. The handler replies success, then the dispatcher
      replies with the `terrno` the handler left (success). */
  lemma ScenarioCreate(dir: string, cfg: CreateCfg, h: Handle, c1: Handle, w: Handle, r: Handle)
    ensures Dispatch(MgmtState(map[], 0, []), dir, InitTable(),
                     MgmtMsg(MsgMdCreateVnode, h, c1, CreatePayload(EncodeCreate(cfg))), ScenarioEnv(w, r))
         == MgmtState(map[cfg.vgId := NewVnode(cfg.vgId, Null, ScenarioEnv(w, r))], CodeSuccess,
                      [RepoCreated(RootDir(dir, cfg.vgId), TsdbConfig(cfg)),
                       WriteWorkerAllocated(w), ReadWorkerAllocated(r)]
                      + [Response(h, CodeSuccess, Null), ContFreed(c1)]
                      + [Response(h, CodeSuccess, Null), ContFreed(c1)])
  {
    var s0 := MgmtState(map[], 0, []);
    var env := ScenarioEnv(w, r);
    var m := MgmtMsg(MsgMdCreateVnode, h, c1, CreatePayload(EncodeCreate(cfg)));
    InitTableEntries(MsgMdCreateVnode);
    DecodeEncodeCreate(cfg);
    DispatchSome(s0, dir, InitTable(), m, env);
    assert s0.(terrno := 0) == s0;
    CreateVnodeOutcome(s0, dir, cfg, env);
    var sc := CreateVnode(s0, dir, cfg, env).0;
    assert sc == MgmtState(map[cfg.vgId := NewVnode(cfg.vgId, Null, env)], CodeSuccess,
                           [RepoCreated(RootDir(dir, cfg.vgId), TsdbConfig(cfg)),
                            WriteWorkerAllocated(w), ReadWorkerAllocated(r)]);
    assert CreateIfAbsent(s0, dir, DecodeCreate(EncodeCreate(cfg)), env) == (sc, CodeSuccess);
    var s1 := Reply(sc, h, CodeSuccess, c1);
    assert ProcessCreateVnodeMsg(s0, dir, m, EncodeCreate(cfg), env) == s1;
    assert RunHandler(s0, dir, InitTable()[m.msgType].value, m, env) == s1;
  }

  /** Before any role change the lookup succeeds, because the status check
      rejects only SLAVE and a new vnode is NOT_READY; it takes a second
      reference. */
  lemma ScenarioLookup(s: MgmtState, g: int32, env: Env)
    requires s.vnodes == map[g := NewVnode(g, Null, env)]
    ensures GetVnode(s, g) == (s.(vnodes := map[g := NewVnode(g, Null, env).(refCount := 2)]), Some(g))
  {
    var v := NewVnode(g, Null, env);
    assert Inc(v.refCount) == 2;
    assert s.vnodes[g := v.(refCount := 2)] == map[g := v.(refCount := 2)];
  }

  /** Dropping the registered vgroup replies success and empties the
      registry; a lookup afterwards fails with INVALID_VGROUP_ID. */
  lemma ScenarioDrop(s: MgmtState, dir: string, g: int32, h: Handle, c2: Handle, env: Env)
    requires s.vnodes == map[g := NewVnode(g, Null, env).(refCount := 2)]
    ensures var s' := Dispatch(s, dir, InitTable(), MgmtMsg(MsgMdDropVnode, h, c2, DropPayload(Htonl(g))), env);
      && |s'.log| >= 4 && s'.log[|s'.log| - 4] == Response(h, CodeSuccess, Null)
      && s'.vnodes == map[]
      && GetVnode(s', g) == (s'.(terrno := CodeInvalidVgroupId), None)
  {
    InitTableEntries(MsgMdDropVnode);
    HtonlInvolutive(g);
    var m := MgmtMsg(MsgMdDropVnode, h, c2, DropPayload(Htonl(g)));
    assert KeysMatch(s.vnodes);
    DropMsgPresent(s.(terrno := 0), m, Htonl(g));
  }
}
