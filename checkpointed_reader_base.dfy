/**
 * The bookkeeping every checkpointed reader shares (CheckpointedReaderBase):
 * the last LSN read per log, the choice of checkpoints to write, and writing
 * them to the checkpoint store with a bounded number of attempts.
 */
module CheckpointedReaderBase {
  import opened Errors
  import opened Wrappers

  /** `lsn_t`: a 64-bit unsigned sequence number. */
  const LSN_INVALID: int := 0
  const LSN_MAX: int := 0xFFFF_FFFF_FFFF_FFFF

  type Lsn = x: int | 0 <= x <= LSN_MAX

  type LogId = nat

  function Max(a: Lsn, b: Lsn): (m: Lsn)
    ensures m >= a && m >= b && (m == a || m == b)
  {
    if a < b then b else a
  }

  /**
   * The checkpoint store behind the reader (CheckpointStore is not part of
   * this model). It keeps a checkpoint per reader name and log. Its `n`-th
   * synchronous update returns `replies[n]`, and OK once the replies have run
   * out; an update that returns OK stores the given checkpoints over the
   * reader's old ones. A lookup fails with `readFault` unless that is OK.
   */
  class CheckpointStore {
    var checkpoints: map<string, map<LogId, Lsn>>
    const replies: seq<Status>
    const readFault: Status
    var calls: nat

    constructor(replies: seq<Status>, readFault: Status)
      ensures this.replies == replies && this.readFault == readFault
      ensures checkpoints == map[] && calls == 0
    {
      this.replies := replies;
      this.readFault := readFault;
      checkpoints := map[];
      calls := 0;
    }

    function Stored(readerName: string): map<LogId, Lsn>
      reads this
    {
      if readerName in checkpoints then checkpoints[readerName] else map[]
    }

    /** updateLSNSync, and the status updateLSN passes to its callback. */
    method UpdateLsnSync(readerName: string, cps: map<LogId, Lsn>) returns (st: Status)
      modifies this
      ensures st == Reply(replies, old(calls)) && calls == old(calls) + 1
      ensures checkpoints == if st == OK then old(checkpoints)[readerName := old(Stored(readerName)) + cps]
                             else old(checkpoints)
    {
      st := Reply(replies, calls);
      calls := calls + 1;
      if st == OK {
        checkpoints := checkpoints[readerName := Stored(readerName) + cps];
      }
    }

    /** getLSNSync. */
    method GetLsnSync(readerName: string, log: LogId) returns (st: Status, lsn: Lsn)
      ensures readFault != OK ==> st == readFault && lsn == LSN_INVALID
      ensures readFault == OK && log in Stored(readerName) ==> st == OK && lsn == Stored(readerName)[log]
      ensures readFault == OK && log !in Stored(readerName) ==> st == NOTFOUND && lsn == LSN_INVALID
    {
      if readFault != OK {
        return readFault, LSN_INVALID;
      }
      var stored := Stored(readerName);
      if log in stored {
        st, lsn := OK, stored[log];
      } else {
        st, lsn := NOTFOUND, LSN_INVALID;
      }
    }
  }

  /** The status of the `n`-th update. */
  function Reply(replies: seq<Status>, n: nat): Status
  {
    if n < |replies| then replies[n] else OK
  }

  /** The replies still to come once `n` updates have been made. */
  function Upcoming(replies: seq<Status>, n: nat): (rs: seq<Status>)
    ensures forall k: nat :: Reply(rs, k) == Reply(replies, n + k)
  {
    if n <= |replies| then replies[n..] else []
  }

  /**
   * Up to `retries` updates whose replies are `rs`: the status of the last
   * one made, and how many were made. No attempt at all leaves UNKNOWN.
   */
  function WithRetries(rs: seq<Status>, retries: int): (r: (Status, nat))
    ensures retries <= 0 ==> r == (UNKNOWN, 0)
    ensures retries > 0 ==> 1 <= r.1 <= retries && r.0 == Reply(rs, r.1 - 1)
    ensures forall k: nat :: k < r.1 - 1 ==> Reply(rs, k) != OK
    ensures r.0 != OK ==> r.1 == if retries <= 0 then 0 else retries
  {
    if retries <= 0 then (UNKNOWN, 0) else AttemptsFrom(rs, 0, retries)
  }

  /** The attempts from the `k`-th on, when the ones before it all failed. */
  function AttemptsFrom(rs: seq<Status>, k: nat, retries: int): (r: (Status, nat))
    requires k < retries
    ensures k + 1 <= r.1 <= retries && r.0 == Reply(rs, r.1 - 1)
    ensures forall j: nat :: k <= j < r.1 - 1 ==> Reply(rs, j) != OK
    ensures r.0 != OK ==> r.1 == retries
    decreases retries - k
  {
    if Reply(rs, k) == OK || k + 1 >= retries then (Reply(rs, k), k + 1)
    else AttemptsFrom(rs, k + 1, retries)
  }

  /** The retried write succeeds exactly when one of the first `retries` replies is OK. */
  lemma WithRetriesOk(rs: seq<Status>, retries: int)
    ensures WithRetries(rs, retries).0 == OK <==> exists k: nat :: k < retries && Reply(rs, k) == OK
  {
    var r := WithRetries(rs, retries);
    if r.0 == OK {
      assert Reply(rs, r.1 - 1) == OK;
    }
  }

  /** setLastLSNInMap: the entry becomes the larger of its old value (LSN_INVALID if absent) and `lsn`. */
  function SetLastLsn(m: map<LogId, Lsn>, log: LogId, lsn: Lsn): (r: map<LogId, Lsn>)
    ensures r.Keys == m.Keys + {log}
    ensures r[log] >= lsn && (log in m ==> r[log] >= m[log])
    ensures r[log] == lsn || (log in m && r[log] == m[log])
    ensures forall l :: l in m && l != log ==> r[l] == m[l]
  {
    m[log := Max(if log in m then m[log] else LSN_INVALID, lsn)]
  }

  /** getNewCheckpoints specified: the whole map, or exactly the listed logs, which must all be present. */
  function NewCheckpoints(m: map<LogId, Lsn>, logs: seq<LogId>): (r: Result<map<LogId, Lsn>, Status>)
    ensures logs == [] ==> r == Ok(m)
    ensures logs != [] && (exists i :: 0 <= i < |logs| && logs[i] !in m) ==> r == Err(INVALID_OPERATION)
    ensures logs != [] && (forall i :: 0 <= i < |logs| ==> logs[i] in m) ==>
              r.Ok? && r.value.Keys == (set i | 0 <= i < |logs| :: logs[i]) &&
              forall l :: l in r.value ==> r.value[l] == m[l]
  {
    if logs == [] then Ok(m)
    else if exists i :: 0 <= i < |logs| && logs[i] !in m then Err(INVALID_OPERATION)
    else Ok(map l | l in m && l in logs :: m[l])
  }

  class CheckpointedReader {
    const readerName: string
    /** `options_.num_retries`. */
    const numRetries: int
    const store: CheckpointStore
    var lastReadLsn: map<LogId, Lsn>

    constructor(readerName: string, store: CheckpointStore, numRetries: int)
      ensures this.readerName == readerName && this.store == store && this.numRetries == numRetries
      ensures lastReadLsn == map[]
    {
      this.readerName := readerName;
      this.store := store;
      this.numRetries := numRetries;
      lastReadLsn := map[];
    }

    /** setLastLSNInMap: an entry never decreases, and other logs are untouched. */
    method SetLastLsnInMap(log: LogId, lsn: Lsn)
      modifies this
      ensures lastReadLsn == SetLastLsn(old(lastReadLsn), log, lsn)
    {
      var current := if log in lastReadLsn then lastReadLsn[log] else LSN_INVALID;
      lastReadLsn := lastReadLsn[log := Max(current, lsn)];
    }

    /** getNewCheckpoints. */
    method GetNewCheckpoints(logs: seq<LogId>) returns (r: Result<map<LogId, Lsn>, Status>)
      ensures r == NewCheckpoints(lastReadLsn, logs)
    {
      if logs == [] {
        var checkpoints: map<LogId, Lsn> := map[];
        var rest := lastReadLsn.Keys;
        while rest != {}
          invariant rest <= lastReadLsn.Keys
          invariant checkpoints.Keys == lastReadLsn.Keys - rest
          invariant forall l :: l in checkpoints ==> checkpoints[l] == lastReadLsn[l]
          decreases |rest|
        {
          var l :| l in rest;
          checkpoints := checkpoints[l := lastReadLsn[l]];
          rest := rest - {l};
        }
        assert checkpoints == lastReadLsn;
        assert NewCheckpoints(lastReadLsn, logs) == Ok(lastReadLsn);
        return Ok(checkpoints);
      }
      var checkpoints: map<LogId, Lsn> := map[];
      for i := 0 to |logs|
        invariant forall j :: 0 <= j < i ==> logs[j] in lastReadLsn
        invariant checkpoints.Keys == (set j | 0 <= j < i :: logs[j])
        invariant forall l :: l in checkpoints ==> checkpoints[l] == lastReadLsn[l]
      {
        if logs[i] !in lastReadLsn {
          assert exists j :: 0 <= j < |logs| && logs[j] !in lastReadLsn;
          assert NewCheckpoints(lastReadLsn, logs) == Err(INVALID_OPERATION);
          return Err(INVALID_OPERATION);
        }
        checkpoints := checkpoints[logs[i] := lastReadLsn[logs[i]]];
      }
      var expected := NewCheckpoints(lastReadLsn, logs).value;
      assert expected.Keys == checkpoints.Keys;
      assert expected == checkpoints;
      r := Ok(checkpoints);
    }

    /** syncWriteCheckpoints(map): up to num_retries updates, stopping at the first OK. */
    method SyncWriteCheckpoints(cps: map<LogId, Lsn>) returns (st: Status)
      modifies store
      ensures (st, store.calls - old(store.calls)) == WithRetries(Upcoming(store.replies, old(store.calls)), numRetries)
      ensures store.checkpoints == if st == OK then old(store.checkpoints)[readerName := old(store.Stored(readerName)) + cps]
                                   else old(store.checkpoints)
    {
      ghost var upcoming := Upcoming(store.replies, store.calls);
      st := UNKNOWN;
      var retries := 0;
      while retries < numRetries
        invariant 0 <= retries && (numRetries > 0 ==> retries <= numRetries) && (numRetries <= 0 ==> retries == 0)
        invariant store.calls == old(store.calls) + retries
        invariant store.checkpoints == old(store.checkpoints)
        invariant retries == 0 ==> st == UNKNOWN
        invariant retries > 0 ==> st == Reply(upcoming, retries - 1)
        invariant forall k: nat :: k < retries ==> Reply(upcoming, k) != OK
        decreases numRetries - retries
      {
        st := store.UpdateLsnSync(readerName, cps);
        assert st == Reply(upcoming, retries);
        if st == OK {
          ghost var r := WithRetries(upcoming, numRetries);
          assert r.0 == OK;
          assert r.1 - 1 == retries;
          assert upcoming == Upcoming(store.replies, old(store.calls));
          assert (st, store.calls - old(store.calls)) == r;
          return;
        }
        retries := retries + 1;
      }
      if numRetries > 0 {
        ghost var r := WithRetries(upcoming, numRetries);
        assert r.0 != OK;
        assert r == (st, retries);
      }
      assert upcoming == Upcoming(store.replies, old(store.calls));
    }

    /** syncWriteCheckpoints(logs): a selection error is returned without calling the store. */
    method SyncWriteCheckpointsFor(logs: seq<LogId>) returns (st: Status)
      modifies store
      ensures NewCheckpoints(lastReadLsn, logs).Err? ==>
                st == NewCheckpoints(lastReadLsn, logs).error && store.calls == old(store.calls) &&
                store.checkpoints == old(store.checkpoints)
      ensures NewCheckpoints(lastReadLsn, logs).Ok? ==>
                var cps := NewCheckpoints(lastReadLsn, logs).value;
                (st, store.calls - old(store.calls)) == WithRetries(Upcoming(store.replies, old(store.calls)), numRetries) &&
                store.checkpoints == if st == OK then old(store.checkpoints)[readerName := old(store.Stored(readerName)) + cps]
                                     else old(store.checkpoints)
    {
      var checkpoints := GetNewCheckpoints(logs);
      if checkpoints.Err? {
        return checkpoints.error;
      }
      st := SyncWriteCheckpoints(checkpoints.value);
    }

    /**
     * asyncWriteCheckpoints(cb, logs): the status the callback receives; a
     * selection error reaches it without calling the store, otherwise one
     * update is made.
     */
    method AsyncWriteCheckpointsFor(logs: seq<LogId>) returns (cbStatus: Status)
      modifies store
      ensures NewCheckpoints(lastReadLsn, logs).Err? ==>
                cbStatus == NewCheckpoints(lastReadLsn, logs).error && store.calls == old(store.calls) &&
                store.checkpoints == old(store.checkpoints)
      ensures NewCheckpoints(lastReadLsn, logs).Ok? ==>
                var cps := NewCheckpoints(lastReadLsn, logs).value;
                cbStatus == Reply(store.replies, old(store.calls)) && store.calls == old(store.calls) + 1 &&
                store.checkpoints == if cbStatus == OK then old(store.checkpoints)[readerName := old(store.Stored(readerName)) + cps]
                                     else old(store.checkpoints)
    {
      var checkpoints := GetNewCheckpoints(logs);
      if checkpoints.Err? {
        return checkpoints.error;
      }
      cbStatus := store.UpdateLsnSync(readerName, checkpoints.value);
    }
  }

  /** With the store answering OK at once, a write of the map makes a single update. */
  lemma FirstReplyOkWritesOnce(rs: seq<Status>, retries: int)
    requires retries > 0 && Reply(rs, 0) == OK
    ensures WithRetries(rs, retries) == (OK, 1)
  {
  }

  /** A store that keeps failing is called exactly num_retries times, and its last status is returned. */
  lemma PersistentFailureExhaustsRetries(rs: seq<Status>, retries: int)
    requires retries > 0
    requires forall k: nat :: k < retries ==> Reply(rs, k) != OK
    ensures WithRetries(rs, retries) == (Reply(rs, retries - 1), retries)
  {
  }
}
