/**
 * The epoch store kept in ZooKeeper (ZookeeperEpochStore.cpp). A log owns the
 * znode root/<logid> (the "migration" znode, holding the serialized
 * LogMetaData in the new format) with three children: sequencer (epoch
 * metadata), lce and metadatalog_lce (last clean epochs). A request reads its
 * legacy znode (one of the children) and, when double writing is on, the
 * migration znode too; it then provisions all four znodes in one multi-op or
 * writes back conditionally on the versions it read, so that its
 * read-modify-write is atomic.
 */
module ZookeeperEpochStore {
  import opened Errors
  import opened Wrappers
  import opened HexCodec
  import Text
  import opened Zookeeper
  import opened EpochStoreRequest

  /**
   * What the store relies on about `ZookeeperClientBase::toStatus` (which is
   * not part of this model): the codes of the operations it issues map to
   * OK, NOTFOUND, EXISTS and VERSION_MISMATCH, and only ZOK is OK and only
   * ZNONODE is NOTFOUND.
   */
  ghost predicate ToStatusFacts(toStatus: int -> Status)
  {
    toStatus(ZOK) == OK && toStatus(ZNONODE) == NOTFOUND && toStatus(ZNODEEXISTS) == EXISTS &&
    toStatus(ZBADVERSION) == VERSION_MISMATCH &&
    (forall rc :: toStatus(rc) == OK ==> rc == ZOK) &&
    (forall rc :: toStatus(rc) == NOTFOUND ==> rc == ZNONODE)
  }

  /**
   * `completionStatus`: the status a ZooKeeper return code completes with.
   * A version mismatch becomes AGAIN, the caller's signal to retry, so the
   * store never reports VERSION_MISMATCH.
   */
  function CompletionStatus(rc: int, zstate: int, toStatus: int -> Status): (st: Status)
    ensures st != VERSION_MISMATCH
    ensures rc !in {ZRUNTIMEINCONSISTENCY, ZBADARGUMENTS, ZINVALIDSTATE} ==>
              (st == AGAIN <==> toStatus(rc) in {VERSION_MISMATCH, AGAIN})
    ensures rc == ZINVALIDSTATE ==> st in {NOTCONN, ACCESS, Status.FAILED}
  {
    if rc == ZRUNTIMEINCONSISTENCY then Status.FAILED
    else if rc == ZBADARGUMENTS then INTERNAL
    else if rc == ZINVALIDSTATE then
      if zstate == ZOO_EXPIRED_SESSION_STATE then NOTCONN
      else if zstate == ZOO_AUTH_FAILED_STATE then ACCESS
      else Status.FAILED
    else if toStatus(rc) == VERSION_MISMATCH then AGAIN
    else toStatus(rc)
  }

  /** Under the toStatus facts, the codes of the store's own operations complete as expected. */
  lemma CompletionOfOwnCodes(zstate: int, toStatus: int -> Status)
    requires ToStatusFacts(toStatus)
    ensures CompletionStatus(ZOK, zstate, toStatus) == OK
    ensures CompletionStatus(ZNONODE, zstate, toStatus) == NOTFOUND
    ensures CompletionStatus(ZNODEEXISTS, zstate, toStatus) == EXISTS
    ensures CompletionStatus(ZBADVERSION, zstate, toStatus) == AGAIN
    ensures forall rc :: CompletionStatus(rc, zstate, toStatus) == OK ==> rc == ZOK
    ensures forall rc :: CompletionStatus(rc, zstate, toStatus) == NOTFOUND ==> rc == ZNONODE
  {
  }

  /** Bit 63 of a log id marks a metadata log (`MetaDataLog::isMetaDataLog`). */
  const METADATA_LOG_BIT: nat := 0x8000_0000_0000_0000

  predicate IsMetaDataLog(logid: nat)
  {
    (logid / METADATA_LOG_BIT) % 2 == 1
  }

  /** `MetaDataLog::dataLogID`: the log id with bit 63 cleared. */
  function DataLogId(logid: nat): nat
  {
    if IsMetaDataLog(logid) then logid - METADATA_LOG_BIT else logid
  }

  /** `znodePathForLog`: a metadata log shares the root znode of its data log. */
  function ZnodePathForLog(rootPath: string, logid: nat): string
    requires logid != 0
  {
    rootPath + "/" + Text.Decimal(DataLogId(logid))
  }

  lemma MetaDataLogSharesZnode(rootPath: string, logid: nat)
    requires 0 < logid < METADATA_LOG_BIT
    ensures IsMetaDataLog(logid + METADATA_LOG_BIT) && !IsMetaDataLog(logid)
    ensures ZnodePathForLog(rootPath, logid + METADATA_LOG_BIT) == ZnodePathForLog(rootPath, logid)
  {
    assert (logid + METADATA_LOG_BIT) / METADATA_LOG_BIT == 1;
    assert logid / METADATA_LOG_BIT == 0;
  }

  /** The store's settings: `rootPath()`, toStatus, the buffer size and the two settings it reads. */
  datatype Config = Config(
    rootPath: string,
    toStatus: int -> Status,
    bufferLen: nat,
    zkCreateRootZnodes: bool,
    doubleWrite: bool)

  /** The multi-op `provisionLogZnodes` issues: the log's root znode and its three children. */
  function ProvisionOps(rootPath: string, req: Request, md: LogMetaData, value: Bytes, doubleWrite: bool): seq<Op>
    requires req.logid != 0
  {
    var logroot := ZnodePathForLog(rootPath, req.logid);
    [CreateOp(logroot, if doubleWrite then req.serialize(md) else []),
     CreateOp(logroot + "/" + SEQUENCER, value),
     CreateOp(logroot + "/" + LCE, []),
     CreateOp(logroot + "/" + METADATALOG_LCE, [])]
  }

  /** The multi-op `doubleWriteZnode` issues: both znodes, each conditional on the version read. */
  function DoubleWriteOps(rootPath: string, req: Request, md: LogMetaData, value: Bytes,
                          legacyVersion: nat, migrationVersion: nat): seq<Op>
    requires req.logid != 0
  {
    [SetOp(ZnodePathForLog(rootPath, req.logid), req.serialize(md), migrationVersion),
     SetOp(req.znodePath(rootPath), value, legacyVersion)]
  }

  /**
   * Provisioning: the multi-op, and when it reports a missing root and the
   * store may create it, createWithAncestors of the root and the multi-op
   * once more. A second NOTFOUND cannot happen (ProvisionRetryEnds), so the
   * source's recursive retry stops there.
   */
  function ProvisionSpec(nodes: Znodes, fault: int, zstate: int, cfg: Config, req: Request, md: LogMetaData,
                         value: Bytes, doubleWrite: bool): (Znodes, Status)
    requires req.logid != 0
  {
    var ops := ProvisionOps(cfg.rootPath, req, md, value, doubleWrite);
    var (n1, rc) := WithFault(nodes, fault, MultiSpec(nodes, ops));
    var st := CompletionStatus(rc, zstate, cfg.toStatus);
    if st == NOTFOUND && cfg.zkCreateRootZnodes then
      var (n2, rootRc) := WithFault(nodes, fault, CreateWithAncestorsSpec(nodes, cfg.rootPath, []));
      var rootSt := CompletionStatus(rootRc, zstate, cfg.toStatus);
      if rootSt == OK || rootSt == EXISTS then
        var (n3, rc3) := WithFault(n2, fault, MultiSpec(n2, ops));
        (n3, CompletionStatus(rc3, zstate, cfg.toStatus))
      else (n2, rootSt)
    else (n1, st)
  }

  /** `writeZnode`: a double write only with double writing on and a known migration version, else a single set. */
  function WriteSpec(nodes: Znodes, fault: int, zstate: int, cfg: Config, req: Request, md: LogMetaData,
                     value: Bytes, legacyVersion: nat, migrationVersion: Option<nat>, doubleWrite: bool): (Znodes, Status)
    requires req.logid != 0
  {
    var (n, rc) :=
      if doubleWrite && migrationVersion.Some? then
        WithFault(nodes, fault, MultiSpec(nodes, DoubleWriteOps(cfg.rootPath, req, md, value, legacyVersion, migrationVersion.value)))
      else
        WithFault(nodes, fault, ApplyOp(nodes, SetOp(req.znodePath(cfg.rootPath), value, legacyVersion)));
    (n, CompletionStatus(rc, zstate, cfg.toStatus))
  }

  /** Where `onGetZnodeComplete` goes: complete, provision, or write back. */
  datatype ZkPlan =
    | ZFinish(st: Status, md: LogMetaData)
    | ZProvision(value: Bytes, md: LogMetaData, doubleWrite: bool)
    | ZWrite(value: Bytes, md: LogMetaData, legacyVersion: nat, migrationVersion: Option<nat>, doubleWrite: bool)

  predicate ReadOk(st: Status)
  {
    st == OK || st == NOTFOUND
  }

  /**
   * The decision `onGetZnodeComplete` takes on the two reads:
   *   - a legacy or migration read that is neither OK nor NOTFOUND completes
   *     with its status;
   *   - legacy and migration statuses that differ complete with INTERNAL;
   *   - an existing non-empty migration znode is deserialized into the
   *     metadata; an empty one, when the request may not trigger the
   *     migration, is ignored and double writing is switched off;
   *   - then the steps shared with the rqlite store (AfterRead).
   */
  function GetZnodePlan(req: Request, md: LogMetaData, legacy: ZnodeRead, migration: Option<ZnodeRead>,
                        doubleWrite: bool, zstate: int, toStatus: int -> Status, bufferLen: nat): ZkPlan
  {
    var legacySt := CompletionStatus(legacy.rc, zstate, toStatus);
    var migrationSt := if migration.Some? then CompletionStatus(migration.value.rc, zstate, toStatus) else legacySt;
    var migrated := migration.Some? && migrationSt == OK && migration.value.value != [];
    var ignored := migration.Some? && migrationSt == OK && migration.value.value == [] &&
                   !req.allowedToTriggerNewFormatMigration;
    if !ReadOk(legacySt) then ZFinish(legacySt, md)
    else if !ReadOk(migrationSt) then ZFinish(migrationSt, md)
    else if migrationSt != legacySt then ZFinish(INTERNAL, md)
    else if migrated && req.deserialize(migration.value.value, md).0 != OK then
      ZFinish(req.deserialize(migration.value.value, md).0, req.deserialize(migration.value.value, md).1)
    else
      var md1 := if migrated then req.deserialize(migration.value.value, md).1 else md;
      var dw := doubleWrite && !ignored;
      var migrationVersion := if migration.Some? && !ignored then Some(migration.value.version) else None;
      match AfterRead(req, md1, legacySt == OK, legacy.value, bufferLen)
      case Finish(st, m) => ZFinish(st, m)
      case Provision(v, m) => ZProvision(v, m, dw)
      case Modify(v, m) => ZWrite(v, m, legacy.version, migrationVersion, dw)
  }

  /**
   * The decision as the source writes it: a failed migration read jumps to
   * the error exit while the status still holds the legacy status, so the
   * request completes with that status (OK or NOTFOUND) instead of the
   * failure.
   */
  function GetZnodePlanAsWritten(req: Request, md: LogMetaData, legacy: ZnodeRead, migration: Option<ZnodeRead>,
                                 doubleWrite: bool, zstate: int, toStatus: int -> Status, bufferLen: nat): ZkPlan
  {
    var legacySt := CompletionStatus(legacy.rc, zstate, toStatus);
    if ReadOk(legacySt) && migration.Some? && !ReadOk(CompletionStatus(migration.value.rc, zstate, toStatus)) then
      ZFinish(legacySt, md)
    else GetZnodePlan(req, md, legacy, migration, doubleWrite, zstate, toStatus, bufferLen)
  }

  /** The znodes, the status and the metadata a plan ends with. */
  function Outcome(nodes: Znodes, fault: int, zstate: int, cfg: Config, req: Request, plan: ZkPlan): (Znodes, Status, LogMetaData)
    requires req.logid != 0
  {
    match plan
    case ZFinish(st, m) => (nodes, st, m)
    case ZProvision(v, m, dw) =>
      var (n, st) := ProvisionSpec(nodes, fault, zstate, cfg, req, m, v, dw);
      (n, st, m)
    case ZWrite(v, m, lv, mv, dw) =>
      var (n, st) := WriteSpec(nodes, fault, zstate, cfg, req, m, v, lv, mv, dw);
      (n, st, m)
  }

  /** The two reads `runRequest` issues: the legacy znode, and the migration znode when double writing is on. */
  function LegacyRead(nodes: Znodes, fault: int, cfg: Config, req: Request): ZnodeRead
  {
    ReadSpec(nodes, fault, req.znodePath(cfg.rootPath))
  }

  function MigrationRead(nodes: Znodes, fault: int, cfg: Config, req: Request): Option<ZnodeRead>
    requires req.logid != 0
  {
    if cfg.doubleWrite then Some(ReadSpec(nodes, fault, ZnodePathForLog(cfg.rootPath, req.logid))) else None
  }

  /** A whole request from the metadata of a new log: both reads, the plan, and its outcome. */
  function RequestSpec(nodes: Znodes, fault: int, zstate: int, cfg: Config, req: Request): (Znodes, Status, LogMetaData)
    requires req.logid != 0
  {
    var plan := GetZnodePlan(req, ForNewLog(req.logid), LegacyRead(nodes, fault, cfg, req),
                             MigrationRead(nodes, fault, cfg, req), cfg.doubleWrite, zstate, cfg.toStatus, cfg.bufferLen);
    Outcome(nodes, fault, zstate, cfg, req, plan)
  }

  class Store {
    const clusterName: string
    const zk: Ensemble
    const cfg: Config
    /** `LOGID_MAX`. */
    const logidMax: nat
    var shuttingDown: bool

    constructor(clusterName: string, zk: Ensemble, cfg: Config, logidMax: nat)
      requires clusterName != []
      ensures this.clusterName == clusterName && this.zk == zk && this.cfg == cfg && this.logidMax == logidMax
      ensures !shuttingDown
    {
      this.clusterName := clusterName;
      this.zk := zk;
      this.cfg := cfg;
      this.logidMax := logidMax;
      shuttingDown := false;
    }

    /** The destructor: from here on SHUTDOWN completions are dropped. */
    method Shutdown()
      modifies this
      ensures shuttingDown
    {
      shuttingDown := true;
    }

    /**
     * provisionLogZnodes, with its retry after creating the root. The retry
     * recurses at most once: it happens only while the root is missing from
     * a healthy ensemble, and it runs after the root has been created.
     */
    method ProvisionLogZnodes(req: Request, md: LogMetaData, value: Bytes, doubleWrite: bool)
      returns (posted: Option<Completion>)
      requires req.logid != 0 && ToStatusFacts(cfg.toStatus)
      modifies zk
      ensures zk.fault == old(zk.fault) && zk.state == old(zk.state)
      ensures var (n, st) := ProvisionSpec(old(zk.znodes), zk.fault, zk.state, cfg, req, md, value, doubleWrite);
              zk.znodes == n && posted == PostRequestCompletion(st, md, shuttingDown)
      decreases if zk.fault == ZOK && cfg.rootPath !in zk.znodes then 1 else 0
    {
      var ops := ProvisionOps(cfg.rootPath, req, md, value, doubleWrite);
      ghost var nodes := zk.znodes;
      var rc := zk.Multi(ops);
      var st := CompletionStatus(rc, zk.state, cfg.toStatus);
      if st == NOTFOUND && cfg.zkCreateRootZnodes {
        var rootRc := zk.CreateWithAncestors(cfg.rootPath, []);
        var rootSt := CompletionStatus(rootRc, zk.state, cfg.toStatus);
        if rootSt == OK || rootSt == EXISTS {
          ProvisionRetry(nodes, zk.fault, zk.state, cfg, req, md, value, doubleWrite);
          posted := ProvisionLogZnodes(req, md, value, doubleWrite);
          return;
        }
        st := rootSt;
      }
      posted := PostRequestCompletion(st, md, shuttingDown);
    }

    /** legacyWriteZnode: setData conditional on the legacy version read. */
    method LegacyWriteZnode(req: Request, md: LogMetaData, value: Bytes, legacyVersion: nat)
      returns (posted: Option<Completion>)
      modifies zk
      ensures zk.fault == old(zk.fault) && zk.state == old(zk.state)
      ensures var (n, rc) := WithFault(old(zk.znodes), zk.fault,
                                       ApplyOp(old(zk.znodes), SetOp(req.znodePath(cfg.rootPath), value, legacyVersion)));
              zk.znodes == n && posted == PostRequestCompletion(CompletionStatus(rc, zk.state, cfg.toStatus), md, shuttingDown)
    {
      var rc := zk.SetData(req.znodePath(cfg.rootPath), value, legacyVersion);
      posted := PostRequestCompletion(CompletionStatus(rc, zk.state, cfg.toStatus), md, shuttingDown);
    }

    /** doubleWriteZnode: both znodes in one multi-op, so both writes happen or neither. */
    method DoubleWriteZnode(req: Request, md: LogMetaData, value: Bytes, legacyVersion: nat, migrationVersion: nat)
      returns (posted: Option<Completion>)
      requires req.logid != 0
      modifies zk
      ensures zk.fault == old(zk.fault) && zk.state == old(zk.state)
      ensures var (n, rc) := WithFault(old(zk.znodes), zk.fault,
                                       MultiSpec(old(zk.znodes), DoubleWriteOps(cfg.rootPath, req, md, value, legacyVersion, migrationVersion)));
              zk.znodes == n && posted == PostRequestCompletion(CompletionStatus(rc, zk.state, cfg.toStatus), md, shuttingDown)
    {
      var rc := zk.Multi(DoubleWriteOps(cfg.rootPath, req, md, value, legacyVersion, migrationVersion));
      posted := PostRequestCompletion(CompletionStatus(rc, zk.state, cfg.toStatus), md, shuttingDown);
    }

    /** writeZnode. */
    method WriteZnode(req: Request, md: LogMetaData, value: Bytes, legacyVersion: nat,
                      migrationVersion: Option<nat>, doubleWrite: bool)
      returns (posted: Option<Completion>)
      requires req.logid != 0
      modifies zk
      ensures zk.fault == old(zk.fault) && zk.state == old(zk.state)
      ensures var (n, st) := WriteSpec(old(zk.znodes), zk.fault, zk.state, cfg, req, md, value, legacyVersion,
                                       migrationVersion, doubleWrite);
              zk.znodes == n && posted == PostRequestCompletion(st, md, shuttingDown)
    {
      if doubleWrite && migrationVersion.Some? {
        posted := DoubleWriteZnode(req, md, value, legacyVersion, migrationVersion.value);
      } else {
        posted := LegacyWriteZnode(req, md, value, legacyVersion);
      }
    }

    /** onGetZnodeComplete: the checks on the two reads, then the shared steps, then the write. */
    method OnGetZnodeComplete(req: Request, md0: LogMetaData, legacy: ZnodeRead, migration0: Option<ZnodeRead>,
                              doubleWrite0: bool)
      returns (posted: Option<Completion>)
      requires req.logid != 0 && ToStatusFacts(cfg.toStatus)
      modifies zk
      ensures zk.fault == old(zk.fault) && zk.state == old(zk.state)
      ensures var plan := GetZnodePlan(req, md0, legacy, migration0, doubleWrite0, zk.state, cfg.toStatus, cfg.bufferLen);
              var (n, st, m) := Outcome(old(zk.znodes), zk.fault, zk.state, cfg, req, plan);
              zk.znodes == n && posted == PostRequestCompletion(st, m, shuttingDown)
    {
      var plan := DecideAfterReads(req, md0, legacy, migration0, doubleWrite0);
      posted := CarryOut(req, plan);
    }

    /**
     * The part of onGetZnodeComplete before the write: each failed check
     * jumps to the error exit with its status, then the request's own steps
     * decide whether to stop, provision or write.
     */
    method DecideAfterReads(req: Request, md0: LogMetaData, legacy: ZnodeRead, migration0: Option<ZnodeRead>,
                            doubleWrite0: bool)
      returns (plan: ZkPlan)
      ensures plan == GetZnodePlan(req, md0, legacy, migration0, doubleWrite0, zk.state, cfg.toStatus, cfg.bufferLen)
    {
      var md := md0;
      var migration := migration0;
      var doubleWrite := doubleWrite0;
      var legacySt := CompletionStatus(legacy.rc, zk.state, cfg.toStatus);
      var valueExisted := legacySt == OK;
      if legacySt != OK && legacySt != NOTFOUND {
        return ZFinish(legacySt, md);
      }
      if migration.Some? {
        var migrationSt := CompletionStatus(migration.value.rc, zk.state, cfg.toStatus);
        if migrationSt != OK && migrationSt != NOTFOUND {
          return ZFinish(migrationSt, md);
        }
        if legacySt != migrationSt {
          return ZFinish(INTERNAL, md);
        }
        if migrationSt == OK {
          if migration.value.value != [] {
            var st;
            var (deserialized, md1) := req.deserialize(migration.value.value, md);
            st, md := deserialized, md1;
            if st != OK {
              return ZFinish(st, md);
            }
          } else if !req.allowedToTriggerNewFormatMigration {
            migration := None;
            doubleWrite := false;
          }
        }
      }
      var decision := AfterRead(req, md, valueExisted, legacy.value, cfg.bufferLen);
      match decision
      case Finish(st, m) =>
        plan := ZFinish(st, m);
      case Provision(v, m) =>
        plan := ZProvision(v, m, doubleWrite);
      case Modify(v, m) =>
        plan := ZWrite(v, m, legacy.version, if migration.Some? then Some(migration.value.version) else None, doubleWrite);
    }

    /** The end of onGetZnodeComplete: complete at once, provision, or write. */
    method CarryOut(req: Request, plan: ZkPlan) returns (posted: Option<Completion>)
      requires req.logid != 0 && ToStatusFacts(cfg.toStatus)
      modifies zk
      ensures zk.fault == old(zk.fault) && zk.state == old(zk.state)
      ensures var (n, st, m) := Outcome(old(zk.znodes), zk.fault, zk.state, cfg, req, plan);
              zk.znodes == n && posted == PostRequestCompletion(st, m, shuttingDown)
    {
      match plan
      case ZFinish(st, m) =>
        posted := PostRequestCompletion(st, m, shuttingDown);
      case ZProvision(v, m, dw) =>
        posted := ProvisionLogZnodes(req, m, v, dw);
      case ZWrite(v, m, lv, mv, dw) =>
        posted := WriteZnode(req, m, v, lv, mv, dw);
    }

    /** runRequest: both reads from the metadata of a new log, then onGetZnodeComplete. */
    method RunRequest(req: Request) returns (posted: Option<Completion>)
      requires req.logid != 0 && ToStatusFacts(cfg.toStatus)
      modifies zk
      ensures zk.fault == old(zk.fault) && zk.state == old(zk.state)
      ensures var (n, st, m) := RequestSpec(old(zk.znodes), zk.fault, zk.state, cfg, req);
              zk.znodes == n && posted == PostRequestCompletion(st, m, shuttingDown)
    {
      var legacy := zk.GetData(req.znodePath(cfg.rootPath));
      var migration: Option<ZnodeRead> := None;
      if cfg.doubleWrite {
        var r := zk.GetData(ZnodePathForLog(cfg.rootPath, req.logid));
        migration := Some(r);
      }
      posted := OnGetZnodeComplete(req, ForNewLog(req.logid), legacy, migration, cfg.doubleWrite);
    }

    /** setLastCleanEpoch: an invalid tail record, or one with an offset within the epoch, is refused. */
    method SetLastCleanEpoch(req: Request, tailRecordValid: bool, tailContainsOffsetWithinEpoch: bool)
      returns (rc: int, err: Status, posted: Option<Completion>)
      requires req.logid != 0 && ToStatusFacts(cfg.toStatus)
      modifies zk
      ensures !tailRecordValid || tailContainsOffsetWithinEpoch ==>
                rc == -1 && err == INVALID_PARAM && posted.None? && zk.znodes == old(zk.znodes)
      ensures zk.fault == old(zk.fault) && zk.state == old(zk.state)
      ensures tailRecordValid && !tailContainsOffsetWithinEpoch ==>
                rc == 0 && err == OK &&
                var (n, st, m) := RequestSpec(old(zk.znodes), zk.fault, zk.state, cfg, req);
                zk.znodes == n && posted == PostRequestCompletion(st, m, shuttingDown)
    {
      if !tailRecordValid || tailContainsOffsetWithinEpoch {
        return -1, INVALID_PARAM, None;
      }
      posted := RunRequest(req);
      rc, err := 0, OK;
    }

    /** createOrUpdateMetaData: only data log ids, LOGID_INVALID < logid <= LOGID_MAX, are accepted. */
    method CreateOrUpdateMetaData(req: Request) returns (rc: int, err: Status, posted: Option<Completion>)
      requires ToStatusFacts(cfg.toStatus)
      modifies zk
      ensures req.logid == 0 || req.logid > logidMax ==>
                rc == -1 && err == INVALID_PARAM && posted.None? && zk.znodes == old(zk.znodes)
      ensures zk.fault == old(zk.fault) && zk.state == old(zk.state)
      ensures 0 < req.logid <= logidMax ==>
                rc == 0 && err == OK &&
                var (n, st, m) := RequestSpec(old(zk.znodes), zk.fault, zk.state, cfg, req);
                zk.znodes == n && posted == PostRequestCompletion(st, m, shuttingDown)
    {
      if req.logid == 0 || req.logid > logidMax {
        return -1, INVALID_PARAM, None;
      }
      posted := RunRequest(req);
      rc, err := 0, OK;
    }
  }

  /**
   * With the root present in a healthy ensemble, the provisioning multi-op
   * cannot fail for a missing parent: the log's root znode hangs under the
   * root, and each child under the log's root, which the multi-op creates
   * first.
   */
  lemma RootPresentNoNoNode(nodes: Znodes, rootPath: string, req: Request, md: LogMetaData, value: Bytes, doubleWrite: bool)
    requires req.logid != 0
    ensures var (n2, _) := CreateWithAncestorsSpec(nodes, rootPath, []);
            MultiSpec(n2, ProvisionOps(rootPath, req, md, value, doubleWrite)).1 != ZNONODE
  {
    var n2 := CreateWithAncestorsSpec(nodes, rootPath, []).0;
    NoNoNodeUnderRoot(n2, rootPath, req, md, value, doubleWrite);
  }

  lemma NoNoNodeUnderRoot(n: Znodes, rootPath: string, req: Request, md: LogMetaData, value: Bytes, doubleWrite: bool)
    requires req.logid != 0 && rootPath in n
    ensures MultiSpec(n, ProvisionOps(rootPath, req, md, value, doubleWrite)).1 != ZNONODE
  {
    ProvisionOpsShape(rootPath, req, md, value, doubleWrite);
    SubtreeNoNoNode(n, rootPath, ProvisionOps(rootPath, req, md, value, doubleWrite));
  }

  /** The provisioning multi-op creates the log's znode under the root, then children of that znode. */
  lemma ProvisionOpsShape(rootPath: string, req: Request, md: LogMetaData, value: Bytes, doubleWrite: bool)
    requires req.logid != 0
    ensures var ops := ProvisionOps(rootPath, req, md, value, doubleWrite);
            |ops| == 4 && ops[0].CreateOp? && Parent(ops[0].path) == rootPath &&
            forall i :: 1 <= i < |ops| ==> ops[i].CreateOp? && Parent(ops[i].path) == ops[0].path
  {
    var logroot := ZnodePathForLog(rootPath, req.logid);
    ParentOfChild(rootPath, Text.Decimal(DataLogId(req.logid)));
    ParentOfChild(logroot, SEQUENCER);
    ParentOfChild(logroot, LCE);
    ParentOfChild(logroot, METADATALOG_LCE);
  }

  /** A create of a child of a present znode, then creates of its own children, never fail for a missing parent. */
  lemma SubtreeNoNoNode(n: Znodes, rootPath: string, ops: seq<Op>)
    requires rootPath in n && |ops| > 0 && ops[0].CreateOp? && Parent(ops[0].path) == rootPath
    requires forall i :: 1 <= i < |ops| ==> ops[i].CreateOp? && Parent(ops[i].path) == ops[0].path
    ensures MultiSpec(n, ops).1 != ZNONODE
  {
    var logroot := ops[0].path;
    if logroot !in n {
      var n1 := n[logroot := Znode(ops[0].value, 0)];
      assert ApplyOp(n, ops[0]) == (n1, ZOK);
      ChildrenNoNoNode(n1, logroot, ops[1..]);
    }
  }

  /** Creates of children of a present znode never fail for a missing parent. */
  lemma {:induction false} ChildrenNoNoNode(n: Znodes, logroot: string, ops: seq<Op>)
    requires logroot in n
    requires forall i :: 0 <= i < |ops| ==> ops[i].CreateOp? && Parent(ops[i].path) == logroot
    ensures MultiSpec(n, ops).1 != ZNONODE
    decreases |ops|
  {
    if ops != [] {
      var (n1, rc) := ApplyOp(n, ops[0]);
      if rc == ZOK {
        ChildrenNoNoNode(n1, logroot, ops[1..]);
      }
    }
  }

  /**
   * The retry in provisionLogZnodes ends: once createWithAncestors of the
   * root has succeeded or found the root, the repeated multi-op does not
   * report NOTFOUND again.
   */
  lemma ProvisionRetryEnds(n2: Znodes, fault: int, zstate: int, cfg: Config, req: Request, md: LogMetaData,
                           value: Bytes, doubleWrite: bool)
    requires req.logid != 0 && ToStatusFacts(cfg.toStatus)
    requires fault == ZOK ==> cfg.rootPath in n2
    requires fault != ZOK ==> CompletionStatus(fault, zstate, cfg.toStatus) in {OK, EXISTS}
    ensures var ops := ProvisionOps(cfg.rootPath, req, md, value, doubleWrite);
            CompletionStatus(WithFault(n2, fault, MultiSpec(n2, ops)).1, zstate, cfg.toStatus) != NOTFOUND
    ensures ProvisionSpec(n2, fault, zstate, cfg, req, md, value, doubleWrite) ==
            var (n3, rc3) := WithFault(n2, fault, MultiSpec(n2, ProvisionOps(cfg.rootPath, req, md, value, doubleWrite)));
            (n3, CompletionStatus(rc3, zstate, cfg.toStatus))
  {
    CompletionOfOwnCodes(zstate, cfg.toStatus);
    if fault == ZOK {
      NoNoNodeUnderRoot(n2, cfg.rootPath, req, md, value, doubleWrite);
    }
  }

  /**
   * The retry of provisionLogZnodes: a multi-op that found no root, then a
   * createWithAncestors of the root that succeeded or found it, leave the
   * request to one more multi-op on the new tree, which then cannot find the
   * root missing again.
   */
  lemma ProvisionRetry(nodes: Znodes, fault: int, zstate: int, cfg: Config, req: Request, md: LogMetaData,
                       value: Bytes, doubleWrite: bool)
    requires req.logid != 0 && ToStatusFacts(cfg.toStatus) && cfg.zkCreateRootZnodes
    requires var ops := ProvisionOps(cfg.rootPath, req, md, value, doubleWrite);
             CompletionStatus(WithFault(nodes, fault, MultiSpec(nodes, ops)).1, zstate, cfg.toStatus) == NOTFOUND
    requires CompletionStatus(WithFault(nodes, fault, CreateWithAncestorsSpec(nodes, cfg.rootPath, [])).1,
                              zstate, cfg.toStatus) in {OK, EXISTS}
    ensures var n2 := WithFault(nodes, fault, CreateWithAncestorsSpec(nodes, cfg.rootPath, [])).0;
            fault == ZOK && cfg.rootPath !in nodes && cfg.rootPath in n2 &&
            ProvisionSpec(nodes, fault, zstate, cfg, req, md, value, doubleWrite) ==
            ProvisionSpec(n2, fault, zstate, cfg, req, md, value, doubleWrite)
  {
    CompletionOfOwnCodes(zstate, cfg.toStatus);
    if cfg.rootPath in nodes {
      NoNoNodeUnderRoot(nodes, cfg.rootPath, req, md, value, doubleWrite);
    }
    var n2 := WithFault(nodes, fault, CreateWithAncestorsSpec(nodes, cfg.rootPath, [])).0;
    ProvisionRetryEnds(n2, fault, zstate, cfg, req, md, value, doubleWrite);
  }

  /** Legacy and migration reads that both succeeded but disagree (one OK, one NOTFOUND) complete with INTERNAL. */
  lemma MigrationMismatchIsInternal(req: Request, md: LogMetaData, legacy: ZnodeRead, migration: ZnodeRead,
                                    doubleWrite: bool, zstate: int, toStatus: int -> Status, bufferLen: nat)
    requires ReadOk(CompletionStatus(legacy.rc, zstate, toStatus)) && ReadOk(CompletionStatus(migration.rc, zstate, toStatus))
    requires CompletionStatus(legacy.rc, zstate, toStatus) != CompletionStatus(migration.rc, zstate, toStatus)
    ensures GetZnodePlan(req, md, legacy, Some(migration), doubleWrite, zstate, toStatus, bufferLen) == ZFinish(INTERNAL, md)
  {
  }

  /**
   * A read that fails (neither OK nor NOTFOUND) completes the request with a
   * status other than OK, and nothing is written.
   */
  lemma FailedReadNeverCompletesOk(req: Request, md: LogMetaData, legacy: ZnodeRead, migration: Option<ZnodeRead>,
                                   doubleWrite: bool, zstate: int, toStatus: int -> Status, bufferLen: nat)
    requires !ReadOk(CompletionStatus(legacy.rc, zstate, toStatus)) ||
             (migration.Some? && !ReadOk(CompletionStatus(migration.value.rc, zstate, toStatus)))
    ensures var plan := GetZnodePlan(req, md, legacy, migration, doubleWrite, zstate, toStatus, bufferLen);
            plan.ZFinish? && plan.st != OK && plan.md == md
  {
  }

  /**
   * An empty migration znode that the request may not migrate is ignored:
   * the request then neither double writes nor provisions the log root with
   * serialized metadata.
   */
  lemma IgnoredMigrationDisablesDoubleWrite(req: Request, md: LogMetaData, legacy: ZnodeRead, migration: ZnodeRead,
                                            doubleWrite: bool, zstate: int, toStatus: int -> Status, bufferLen: nat)
    requires CompletionStatus(migration.rc, zstate, toStatus) == OK && migration.value == []
    requires !req.allowedToTriggerNewFormatMigration
    ensures var plan := GetZnodePlan(req, md, legacy, Some(migration), doubleWrite, zstate, toStatus, bufferLen);
            (plan.ZProvision? ==> !plan.doubleWrite) &&
            (plan.ZWrite? ==> !plan.doubleWrite && plan.migrationVersion.None?)
  {
  }

  /**
   * A write-back is a double write only when double writing is on, the
   * migration znode was read and exists, and the request did not have it
   * ignored; its two versions are the ones read.
   */
  lemma DoubleWriteOnlyWithMigrationVersion(req: Request, md: LogMetaData, legacy: ZnodeRead,
                                            migration: Option<ZnodeRead>, doubleWrite: bool, zstate: int,
                                            toStatus: int -> Status, bufferLen: nat)
    ensures var plan := GetZnodePlan(req, md, legacy, migration, doubleWrite, zstate, toStatus, bufferLen);
            plan.ZWrite? && plan.doubleWrite && plan.migrationVersion.Some? ==>
              doubleWrite && migration.Some? && plan.migrationVersion == Some(migration.value.version) &&
              plan.legacyVersion == legacy.version &&
              CompletionStatus(legacy.rc, zstate, toStatus) == CompletionStatus(migration.value.rc, zstate, toStatus) &&
              (migration.value.value != [] || req.allowedToTriggerNewFormatMigration ||
               CompletionStatus(migration.value.rc, zstate, toStatus) == NOTFOUND)
  {
  }

  /** The double write changes both znodes, each at its read version plus one, or changes nothing. */
  lemma DoubleWriteAllOrNothing(nodes: Znodes, rootPath: string, req: Request, md: LogMetaData, value: Bytes,
                                legacyVersion: nat, migrationVersion: nat)
    requires req.logid != 0
    requires ZnodePathForLog(rootPath, req.logid) != req.znodePath(rootPath)
    ensures var mig, leg := ZnodePathForLog(rootPath, req.logid), req.znodePath(rootPath);
            var (n, rc) := MultiSpec(nodes, DoubleWriteOps(rootPath, req, md, value, legacyVersion, migrationVersion));
            (rc != ZOK ==> n == nodes) &&
            (rc == ZOK <==> mig in nodes && nodes[mig].version == migrationVersion &&
                            leg in nodes && nodes[leg].version == legacyVersion) &&
            (rc == ZOK ==> n == nodes[mig := Znode(req.serialize(md), migrationVersion + 1)]
                                     [leg := Znode(value, legacyVersion + 1)])
  {
    var ops := DoubleWriteOps(rootPath, req, md, value, legacyVersion, migrationVersion);
    var (n1, rc1) := ApplyOp(nodes, ops[0]);
    if rc1 == ZOK {
      assert ops[1..][1..] == [];
      var (n2, rc2) := ApplyOp(n1, ops[1]);
      assert MultiSpec(n1, ops[1..]) == (if rc2 != ZOK then (n1, rc2) else (n2, ZOK));
    }
  }

  /** A write based on a version that is no longer current gets AGAIN and changes nothing. */
  lemma StaleWriteGetsAgain(nodes: Znodes, zstate: int, cfg: Config, req: Request, md: LogMetaData, value: Bytes,
                            legacyVersion: nat, migrationVersion: Option<nat>, doubleWrite: bool)
    requires req.logid != 0 && ToStatusFacts(cfg.toStatus)
    requires req.znodePath(cfg.rootPath) in nodes && nodes[req.znodePath(cfg.rootPath)].version != legacyVersion
    requires doubleWrite && migrationVersion.Some? ==>
               ZnodePathForLog(cfg.rootPath, req.logid) in nodes &&
               ZnodePathForLog(cfg.rootPath, req.logid) != req.znodePath(cfg.rootPath)
    ensures WriteSpec(nodes, ZOK, zstate, cfg, req, md, value, legacyVersion, migrationVersion, doubleWrite) == (nodes, AGAIN)
  {
    CompletionOfOwnCodes(zstate, cfg.toStatus);
    if doubleWrite && migrationVersion.Some? {
      var ops := DoubleWriteOps(cfg.rootPath, req, md, value, legacyVersion, migrationVersion.value);
      var (n1, rc1) := ApplyOp(nodes, ops[0]);
      if rc1 == ZOK {
        var mig := ZnodePathForLog(cfg.rootPath, req.logid);
        var leg := req.znodePath(cfg.rootPath);
        assert n1 == nodes[mig := Znode(req.serialize(md), migrationVersion.value + 1)];
        assert leg in n1 && n1[leg] == nodes[leg];
        assert ops[1..][1..] == [];
        assert MultiSpec(n1, ops[1..]).1 == ZBADVERSION;
      }
    }
  }

  /** Of two writers that read the same version, once the first has succeeded the second gets AGAIN. */
  lemma SecondWriterGetsAgain(nodes: Znodes, zstate: int, cfg: Config, req: Request, md1: LogMetaData, v1: Bytes,
                              md2: LogMetaData, v2: Bytes, legacyVersion: nat)
    requires req.logid != 0 && ToStatusFacts(cfg.toStatus)
    requires WriteSpec(nodes, ZOK, zstate, cfg, req, md1, v1, legacyVersion, None, false).1 == OK
    ensures var n1 := WriteSpec(nodes, ZOK, zstate, cfg, req, md1, v1, legacyVersion, None, false).0;
            n1[req.znodePath(cfg.rootPath)] == Znode(v1, legacyVersion + 1) &&
            WriteSpec(n1, ZOK, zstate, cfg, req, md2, v2, legacyVersion, None, false) == (n1, AGAIN)
  {
    CompletionOfOwnCodes(zstate, cfg.toStatus);
    var n1 := WriteSpec(nodes, ZOK, zstate, cfg, req, md1, v1, legacyVersion, None, false).0;
    StaleWriteGetsAgain(n1, zstate, cfg, req, md2, v2, legacyVersion, None, false);
  }

  /** The request the counterexample uses: it stops with OK at once, as a read of the last clean epoch does. */
  const StoppingRequest: Request :=
    Request(1, root => root + "/1/lce", (b, m) => (OK, m), (b, m) => (OK, m), m => [], false,
            (m, existed) => Applied(STOP, OK, m), m => Composed(0, []))

  const ExampleToStatus: int -> Status :=
    rc => if rc == ZOK then OK else if rc == ZNONODE then NOTFOUND else if rc == ZNODEEXISTS then EXISTS
          else if rc == ZBADVERSION then VERSION_MISMATCH else CONNFAILED

  /**
   * The legacy znode reads fine but the migration znode read loses the
   * connection: as written, the request completes with OK and the metadata
   * of a new log; corrected, it completes with the failure.
   */
  lemma MigrationReadFailureReportedAsOk()
    ensures var legacy, migration := ZnodeRead(ZOK, [], 3), Some(ZnodeRead(ZCONNECTIONLOSS, [], 0));
            GetZnodePlanAsWritten(StoppingRequest, ForNewLog(1), legacy, migration, true, ZOO_CONNECTED_STATE,
                                  ExampleToStatus, 100) == ZFinish(OK, ForNewLog(1)) &&
            GetZnodePlan(StoppingRequest, ForNewLog(1), legacy, migration, true, ZOO_CONNECTED_STATE,
                         ExampleToStatus, 100) == ZFinish(CONNFAILED, ForNewLog(1))
  {
  }
}
