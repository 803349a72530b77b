/**
 * SyncCheckpointedReaderImpl: a reader that starts each log where its
 * checkpoint left off and records, as it reads, the last LSN of every log for
 * the next checkpoint.
 */
module SyncCheckpointedReader {
  import opened Errors
  import opened Wrappers
  import opened CheckpointedReaderBase

  /** A record as the inner reader delivers it; the payload is left out. */
  datatype DataRecord = DataRecord(logid: LogId, lsn: Lsn)

  /** A gap in a log, covering [lo, hi]. */
  datatype GapRecord = GapRecord(logid: LogId, lo: Lsn, hi: Lsn)

  /**
   * The inner reader the checkpointed reader passes its calls to (Reader is
   * not part of this model). startReading returns `startRc`, and on 0 the
   * log is read over the given range.
   */
  class Reader {
    const startRc: int
    var reading: map<LogId, (Lsn, Lsn)>

    constructor(startRc: int)
      ensures this.startRc == startRc && reading == map[]
    {
      this.startRc := startRc;
      reading := map[];
    }

    method StartReading(log: LogId, from: Lsn, until: Lsn) returns (rc: int)
      modifies this
      ensures rc == startRc
      ensures reading == if rc == 0 then old(reading)[log := (from, until)] else old(reading)
    {
      rc := startRc;
      if rc == 0 {
        reading := reading[log := (from, until)];
      }
    }
  }

  /** `++` on an `lsn_t`: the next LSN, wrapping from LSN_MAX to LSN_INVALID. */
  function NextLsn(c: Lsn): (n: Lsn)
    ensures c < LSN_MAX ==> n == c + 1
    ensures c == LSN_MAX ==> n == LSN_INVALID
  {
    (c + 1) % (LSN_MAX + 1)
  }

  /** The last-read map after the records are noted one after another. */
  function AfterRecords(m: map<LogId, Lsn>, records: seq<DataRecord>): map<LogId, Lsn>
    decreases |records|
  {
    if records == [] then m
    else AfterRecords(SetLastLsn(m, records[0].logid, records[0].lsn), records[1..])
  }

  function Logs(records: seq<DataRecord>): set<LogId>
  {
    set i | 0 <= i < |records| :: records[i].logid
  }

  /**
   * Reading only adds: the logs of the records join the map, no entry
   * decreases, and every record's LSN is at most its log's entry.
   */
  lemma {:induction false} AfterRecordsOnlyGrows(m: map<LogId, Lsn>, records: seq<DataRecord>)
    ensures var r := AfterRecords(m, records);
            r.Keys == m.Keys + Logs(records) &&
            (forall l :: l in m ==> r[l] >= m[l]) &&
            (forall i :: 0 <= i < |records| ==> r[records[i].logid] >= records[i].lsn)
    decreases |records|
  {
    if records != [] {
      var m1 := SetLastLsn(m, records[0].logid, records[0].lsn);
      var rest := records[1..];
      AfterRecordsOnlyGrows(m1, rest);
      var r := AfterRecords(m, records);
      assert r == AfterRecords(m1, rest);
      LogsCons(records);
      forall i | 0 <= i < |records| ensures r[records[i].logid] >= records[i].lsn {
        if i > 0 {
          assert rest[i - 1] == records[i];
        }
      }
    }
  }

  lemma LogsCons(records: seq<DataRecord>)
    requires records != []
    ensures Logs(records) == {records[0].logid} + Logs(records[1..])
  {
    var rest := records[1..];
    forall l | l in Logs(records) ensures l in {records[0].logid} + Logs(rest) {
      var i :| 0 <= i < |records| && records[i].logid == l;
      if i > 0 {
        assert rest[i - 1] == records[i];
      }
    }
    forall l | l in Logs(rest) ensures l in Logs(records) {
      var i :| 0 <= i < |rest| && rest[i].logid == l;
      assert records[i + 1] == rest[i];
    }
  }

  class CheckpointedSyncReader {
    const base: CheckpointedReader
    const reader: Reader

    constructor(base: CheckpointedReader, reader: Reader)
      ensures this.base == base && this.reader == reader
    {
      this.base := base;
      this.reader := reader;
    }

    /** startReading: the log's last-read entry is dropped, then the inner reader starts. */
    method StartReading(log: LogId, from: Lsn, until: Lsn) returns (rc: int)
      modifies base, reader
      ensures base.lastReadLsn == old(base.lastReadLsn) - {log}
      ensures rc == reader.startRc
      ensures reader.reading == if rc == 0 then old(reader.reading)[log := (from, until)] else old(reader.reading)
    {
      base.lastReadLsn := base.lastReadLsn - {log};
      rc := reader.StartReading(log, from, until);
    }

    /**
     * startReadingFromCheckpoint: resume one past the stored checkpoint, or
     * at `start` when the log has none; any other store error is left in
     * `err` and nothing starts.
     */
    method StartReadingFromCheckpoint(log: LogId, start: Lsn, until: Lsn) returns (rc: int, error: Option<Status>)
      modifies base, reader
      ensures var stored := base.store.Stored(base.readerName);
              var fault := base.store.readFault;
              (fault == OK && log in stored ==> Resumed(old(base.lastReadLsn), old(reader.reading), rc, error, log, NextLsn(stored[log]), until)) &&
              ((fault == OK && log !in stored) || fault == NOTFOUND ==>
                 Resumed(old(base.lastReadLsn), old(reader.reading), rc, error, log, start, until)) &&
              (fault != OK && fault != NOTFOUND ==>
                 rc == -1 && error == Some(fault) &&
                 base.lastReadLsn == old(base.lastReadLsn) && reader.reading == old(reader.reading))
    {
      var st, from := base.store.GetLsnSync(base.readerName, log);
      from := NextLsn(from);
      if st == NOTFOUND {
        from := start;
        st := OK;
      }
      if st != OK {
        return -1, Some(st);
      }
      rc := StartReading(log, from, until);
      error := None;
    }

    /** The overload without a start: a log without a checkpoint is read from LSN_INVALID. */
    method StartReadingFromCheckpointAtInvalid(log: LogId, until: Lsn) returns (rc: int, error: Option<Status>)
      modifies base, reader
      ensures var stored := base.store.Stored(base.readerName);
              var fault := base.store.readFault;
              (fault == OK && log in stored ==> Resumed(old(base.lastReadLsn), old(reader.reading), rc, error, log, NextLsn(stored[log]), until)) &&
              ((fault == OK && log !in stored) || fault == NOTFOUND ==>
                 Resumed(old(base.lastReadLsn), old(reader.reading), rc, error, log, LSN_INVALID, until)) &&
              (fault != OK && fault != NOTFOUND ==>
                 rc == -1 && error == Some(fault) &&
                 base.lastReadLsn == old(base.lastReadLsn) && reader.reading == old(reader.reading))
    {
      rc, error := StartReadingFromCheckpoint(log, LSN_INVALID, until);
    }

    /** Whether the reader was started on `log` at `from` after the store lookup, with `err` untouched. */
    ghost predicate Resumed(lastReadLsn0: map<LogId, Lsn>, reading0: map<LogId, (Lsn, Lsn)>, rc: int,
                            error: Option<Status>, log: LogId, from: Lsn, until: Lsn)
      reads this, base, reader
    {
      error.None? && rc == reader.startRc &&
      base.lastReadLsn == lastReadLsn0 - {log} &&
      reader.reading == if rc == 0 then reading0[log := (from, until)] else reading0
    }

    /**
     * read: the inner reader's result, `nread` records or (when negative) a
     * gap, passed through unchanged; every record's LSN is noted, and so is
     * a gap's upper end unless it is LSN_MAX.
     */
    method Read(nread: int, records: seq<DataRecord>, gap: GapRecord) returns (n: int)
      modifies base
      ensures n == nread
      ensures nread >= 0 ==> base.lastReadLsn == AfterRecords(old(base.lastReadLsn), records)
      ensures nread < 0 ==> base.lastReadLsn == if gap.hi != LSN_MAX then SetLastLsn(old(base.lastReadLsn), gap.logid, gap.hi)
                                               else old(base.lastReadLsn)
    {
      if nread >= 0 {
        for i := 0 to |records|
          invariant AfterRecords(old(base.lastReadLsn), records) == AfterRecords(base.lastReadLsn, records[i..])
        {
          assert records[i..][1..] == records[i + 1..];
          base.SetLastLsnInMap(records[i].logid, records[i].lsn);
        }
      } else if gap.hi != LSN_MAX {
        base.SetLastLsnInMap(gap.logid, gap.hi);
      }
      n := nread;
    }
  }
}
