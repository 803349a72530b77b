/**
 * The request protocol shared by the ZooKeeper and the rqlite epoch stores.
 * A request (`ZookeeperEpochStoreRequest`) names the record it works on and
 * supplies the hooks the store calls: deserialize the value read, apply the
 * request's changes, compose the value to write back. Both stores then follow
 * the same steps after reading:
 *   1. deserialize an existing value;
 *   2. let the request decide: provision a new record, modify the existing
 *      one, stop, or fail;
 *   3. touch the metadata and compose the new value, checking its size.
 * The concrete requests (epoch metadata, last clean epoch) and LogMetaData.h
 * are not part of this model: their hooks are parameters, and LogMetaData is a
 * version counter plus an uninterpreted payload.
 */
module EpochStoreRequest {
  import opened Errors
  import opened Wrappers
  import opened HexCodec

  /** `EpochMetaDataZRQ::znodeName`. */
  const SEQUENCER: string := "sequencer"
  /** `LastCleanEpochZRQ::znodeNameDataLog`. */
  const LCE: string := "lce"
  /** `LastCleanEpochZRQ::znodeNameMetaDataLog`. */
  const METADATALOG_LCE: string := "metadatalog_lce"

  /** The record a request reads and writes; `touch()` bumps `version`. */
  datatype LogMetaData = LogMetaData(version: nat, payload: Bytes)

  /** `LogMetaData::forNewLog`: the record a request starts from. */
  function ForNewLog(logid: nat): LogMetaData
  {
    LogMetaData(0, [])
  }

  /** `LogMetaData::touch()`: increments the version (and the timestamp, not modelled). */
  function Touch(md: LogMetaData): (r: LogMetaData)
    ensures r.version == md.version + 1 && r.payload == md.payload
  {
    md.(version := md.version + 1)
  }

  datatype NextStep = PROVISION | MODIFY | STOP | FAILED

  /** What `applyChanges` returns, with the thread-local `err` it sets and the metadata it updated. */
  datatype Applied = Applied(next: NextStep, err: Status, metadata: LogMetaData)

  /** What `composeZnodeValue` reports: a size, and the bytes it wrote at the start of the buffer. */
  datatype Composed = Composed(size: int, written: Bytes)

  /**
   * The first `size` bytes of the buffer once `written` is at its start;
   * bytes the request did not write read as 0.
   */
  function BufferPrefix(written: Bytes, size: nat): (r: Bytes)
    ensures |r| == size
    ensures forall i :: 0 <= i < size && i < |written| ==> r[i] == written[i]
  {
    seq(size, i requires 0 <= i < size => if i < |written| then written[i] else 0)
  }

  /** A request: the log it is for and its hooks. */
  datatype Request = Request(
    logid: nat,
    znodePath: string -> string,
    legacyDeserialize: (Bytes, LogMetaData) -> (Status, LogMetaData),
    deserialize: (Bytes, LogMetaData) -> (Status, LogMetaData),
    serialize: LogMetaData -> Bytes,
    allowedToTriggerNewFormatMigration: bool,
    applyChanges: (LogMetaData, bool) -> Applied,
    compose: LogMetaData -> Composed)

  /** Where a request goes after its read: complete now, create the record, or write it back. */
  datatype Decision =
    | Finish(st: Status, md: LogMetaData)
    | Provision(value: Bytes, md: LogMetaData)
    | Modify(value: Bytes, md: LogMetaData)

  /** The completion a request receives: `postCompletion(st, log_metadata)`. */
  datatype Completion = Completion(st: Status, metadata: LogMetaData)

  /**
   * The steps both stores take once the read status is OK or NOTFOUND: the
   * legacy value is deserialized if it existed, the request applies its
   * changes, and a value to write is composed into a buffer of `bufferLen`
   * bytes.
   */
  function AfterRead(req: Request, md: LogMetaData, valueExisted: bool, legacyValue: Bytes, bufferLen: nat): (d: Decision)
  {
    var (st, md1) := if valueExisted then req.legacyDeserialize(legacyValue, md) else (OK, md);
    if st != OK then Finish(st, md1)
    else
      var applied := req.applyChanges(md1, valueExisted);
      match applied.next
      case STOP => Finish(applied.err, applied.metadata)
      case FAILED => Finish(applied.err, applied.metadata)
      case _ =>
        var md2 := Touch(applied.metadata);
        var c := req.compose(md2);
        if c.size < 0 || c.size >= bufferLen then Finish(INTERNAL, md2)
        else
          var value := BufferPrefix(c.written, c.size);
          if applied.next == PROVISION then Provision(value, md2) else Modify(value, md2)
  }

  /**
   * `postRequestCompletion`: the completion is dropped only for SHUTDOWN
   * while the store itself is being destroyed.
   */
  function PostRequestCompletion(st: Status, md: LogMetaData, shuttingDown: bool): (posted: Option<Completion>)
    ensures posted.None? <==> st == SHUTDOWN && shuttingDown
    ensures posted.Some? ==> posted.value == Completion(st, md)
  {
    if st != SHUTDOWN || !shuttingDown then Some(Completion(st, md)) else None
  }

  /**
   * A value is written only when the request asked to provision or modify;
   * it is the first `size` bytes of the buffer the request composed from
   * the touched metadata, with `size` within the buffer.
   */
  lemma AfterReadWrites(req: Request, md: LogMetaData, existed: bool, legacy: Bytes, bufferLen: nat)
    ensures var d := AfterRead(req, md, existed, legacy, bufferLen);
            !d.Finish? ==>
              var md1 := if existed then req.legacyDeserialize(legacy, md).1 else md;
              var applied := req.applyChanges(md1, existed);
              (!existed || req.legacyDeserialize(legacy, md).0 == OK) &&
              (d.Provision? <==> applied.next == PROVISION) &&
              (d.Modify? <==> applied.next == MODIFY) &&
              d.md == Touch(applied.metadata) &&
              0 <= req.compose(d.md).size < bufferLen &&
              |d.value| == req.compose(d.md).size &&
              d.value == BufferPrefix(req.compose(d.md).written, req.compose(d.md).size)
  {
  }

  /** STOP and FAILED complete with the status the request set, and nothing is written. */
  lemma AfterReadStops(req: Request, md: LogMetaData, existed: bool, legacy: Bytes, bufferLen: nat)
    requires !existed || req.legacyDeserialize(legacy, md).0 == OK
    ensures var md1 := if existed then req.legacyDeserialize(legacy, md).1 else md;
            var applied := req.applyChanges(md1, existed);
            applied.next in {STOP, NextStep.FAILED} ==>
              AfterRead(req, md, existed, legacy, bufferLen) == Finish(applied.err, applied.metadata)
  {
  }

  /** A composed size outside the buffer is an internal error, never a write. */
  lemma AfterReadRejectsBadSize(req: Request, md: LogMetaData, existed: bool, legacy: Bytes, bufferLen: nat)
    requires !existed || req.legacyDeserialize(legacy, md).0 == OK
    ensures var md1 := if existed then req.legacyDeserialize(legacy, md).1 else md;
            var applied := req.applyChanges(md1, existed);
            var c := req.compose(Touch(applied.metadata));
            applied.next in {PROVISION, MODIFY} && (c.size < 0 || c.size >= bufferLen) ==>
              AfterRead(req, md, existed, legacy, bufferLen) == Finish(INTERNAL, Touch(applied.metadata))
  {
  }
}
