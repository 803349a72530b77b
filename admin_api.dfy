/**
 * Decision logic of the admin API handler (AdminAPIHandler.cpp): the two
 * snapshot requests, the custom-counter filter, the TTL-bounded setting
 * override, the tolerable failure domain and the server status. The state
 * machines, workers, promises and the processor are outside the model: what
 * they report (enabled flags, versions, whether the state machine has
 * replayed, the snapshot status, whether a request could be posted) comes in
 * as parameters.
 */
module AdminApi {
  import opened Wrappers
  import opened Errors

  const TWO_TO_63: int := 0x8000_0000_0000_0000
  const TWO_TO_64: int := 0x1_0000_0000_0000_0000

  /** A thrift `i64`. */
  type I64 = x: int | -TWO_TO_63 <= x < TWO_TO_63

  /** A `uint64_t`. */
  type U64 = x: int | 0 <= x < TWO_TO_64

  /** `to_unsigned`: the two's-complement reading of an i64 as a u64. */
  function ToUnsigned(x: I64): (r: U64)
    ensures x >= 0 ==> r == x
    ensures x < 0 ==> r >= TWO_TO_63
    ensures (r - x) % TWO_TO_64 == 0
  {
    if x < 0 then x + TWO_TO_64 else x
  }

  /** `static_cast<int64_t>` of a u64: the inverse of ToUnsigned. */
  function ToSigned(x: U64): (r: I64)
    ensures ToUnsigned(r) == x
  {
    if x >= TWO_TO_63 then x - TWO_TO_64 else x
  }

  /** The exceptions the thrift handlers set on their promise. */
  datatype AdminError =
    | NotSupported
    | StaleVersion(serverVersion: I64)
    | NodeNotReady
    | OperationError(st: Status)
    | InvalidRequest

  /** What the worker-side replicated state machine reports when the callback runs. */
  datatype StateMachineView = StateMachineView(version: U64, fullyLoaded: bool, snapshotStatus: Status)

  /** The requested minimum version is stale against the server's version (0 asks for no check). */
  predicate Stale(minimum: U64, current: U64)
  {
    minimum > 0 && current < minimum
  }

  // ------------------------------------------------------------- snapshots

  /**
   * semifuture_takeLogTreeSnapshot: the settings are checked on the calling
   * thread; on the LogsConfigManager worker the version is checked before
   * the replay, and both OK and UPTODATE from the snapshot count as success.
   */
  function TakeLogTreeSnapshot(enableLogsConfigManager: bool, snapshotting: bool, minVersion: I64,
                               sm: StateMachineView): (r: Option<AdminError>)
    ensures !enableLogsConfigManager || !snapshotting ==> r == Some(NotSupported)
    ensures enableLogsConfigManager && snapshotting && Stale(ToUnsigned(minVersion), sm.version) ==>
              r == Some(StaleVersion(ToSigned(sm.version)))
    ensures enableLogsConfigManager && snapshotting && !Stale(ToUnsigned(minVersion), sm.version) && !sm.fullyLoaded ==>
              r == Some(NodeNotReady)
    ensures r.None? <==> enableLogsConfigManager && snapshotting && !Stale(ToUnsigned(minVersion), sm.version) &&
                         sm.fullyLoaded && sm.snapshotStatus in {OK, UPTODATE}
    ensures r.Some? && r.value.OperationError? ==> r.value.st == sm.snapshotStatus && sm.snapshotStatus !in {OK, UPTODATE}
  {
    if !enableLogsConfigManager then Some(NotSupported)
    else if !snapshotting then Some(NotSupported)
    else
      var minimum := ToUnsigned(minVersion);
      if minimum > 0 && sm.version < minimum then Some(StaleVersion(ToSigned(sm.version)))
      else if !sm.fullyLoaded then Some(NodeNotReady)
      else if sm.snapshotStatus == OK || sm.snapshotStatus == UPTODATE then None
      else Some(OperationError(sm.snapshotStatus))
  }

  /**
   * semifuture_takeMaintenanceLogSnapshot: here the replay is checked before
   * the version, and only OK from the snapshot counts as success.
   */
  function TakeMaintenanceLogSnapshot(enableStateMachine: bool, snapshotting: bool, minVersion: I64,
                                      sm: StateMachineView): (r: Option<AdminError>)
    ensures !enableStateMachine || !snapshotting ==> r == Some(NotSupported)
    ensures enableStateMachine && snapshotting && !sm.fullyLoaded ==> r == Some(NodeNotReady)
    ensures enableStateMachine && snapshotting && sm.fullyLoaded && Stale(ToUnsigned(minVersion), sm.version) ==>
              r == Some(StaleVersion(ToSigned(sm.version)))
    ensures r.None? <==> enableStateMachine && snapshotting && sm.fullyLoaded &&
                         !Stale(ToUnsigned(minVersion), sm.version) && sm.snapshotStatus == OK
    ensures r.Some? && r.value.OperationError? ==> r.value.st == sm.snapshotStatus && sm.snapshotStatus != OK
  {
    if !enableStateMachine then Some(NotSupported)
    else if !snapshotting then Some(NotSupported)
    else if !sm.fullyLoaded then Some(NodeNotReady)
    else
      var minimum := ToUnsigned(minVersion);
      if minimum > 0 && sm.version < minimum then Some(StaleVersion(ToSigned(sm.version)))
      else if sm.snapshotStatus == OK then None
      else Some(OperationError(sm.snapshotStatus))
  }

  /** The two snapshot requests order their checks differently: a stale, not yet replayed machine. */
  lemma SnapshotCheckOrderDiffers(minVersion: I64, sm: StateMachineView)
    requires Stale(ToUnsigned(minVersion), sm.version) && !sm.fullyLoaded
    ensures TakeLogTreeSnapshot(true, true, minVersion, sm) == Some(StaleVersion(ToSigned(sm.version)))
    ensures TakeMaintenanceLogSnapshot(true, true, minVersion, sm) == Some(NodeNotReady)
  {
  }

  /** A snapshot that already exists (UPTODATE) succeeds for the log tree and fails for maintenance. */
  lemma UpToDateSnapshot(minVersion: I64, sm: StateMachineView)
    requires sm.fullyLoaded && !Stale(ToUnsigned(minVersion), sm.version) && sm.snapshotStatus == UPTODATE
    ensures TakeLogTreeSnapshot(true, true, minVersion, sm).None?
    ensures TakeMaintenanceLogSnapshot(true, true, minVersion, sm) == Some(OperationError(UPTODATE))
  {
  }

  /** min_version 0 turns the version check off: no version is stale against it. */
  lemma ZeroMinimumNeverStale(sm: StateMachineView)
    ensures TakeLogTreeSnapshot(true, true, 0, sm) != Some(StaleVersion(ToSigned(sm.version)))
    ensures TakeMaintenanceLogSnapshot(true, true, 0, sm) != Some(StaleVersion(ToSigned(sm.version)))
  {
  }

  /**
   * A negative min_version reads as a u64 of at least 2^63, so every server
   * whose version is below 2^63 reports StaleVersion.
   */
  lemma NegativeMinimumIsHuge(minVersion: I64, sm: StateMachineView)
    requires minVersion < 0 && sm.version < TWO_TO_63
    ensures TakeLogTreeSnapshot(true, true, minVersion, sm) == Some(StaleVersion(sm.version))
  {
  }

  // -------------------------------------------------------------- counters

  /** A `uint16_t`. */
  type U16 = x: int | 0 <= x < 0x1_0000

  /** `static_cast<int16_t>` of a uint16_t key. */
  function ToInt16(k: U16): (r: int)
    ensures -0x8000 <= r < 0x8000 && (r - k) % 0x1_0000 == 0
  {
    if k >= 0x8000 then k - 0x1_0000 else k
  }

  datatype Counter = Counter(key: U16, value: int)

  /** A thrift LogGroupCustomCounter. */
  datatype ThriftCounter = ThriftCounter(key: int, value: int)

  /** The counters that pass the filter, in their original order. */
  function Selected(counters: seq<Counter>, keysFilter: seq<U16>): seq<Counter>
  {
    if counters == [] then []
    else
      var rest := Selected(counters[1..], keysFilter);
      if keysFilter == [] || counters[0].key in keysFilter then [counters[0]] + rest else rest
  }

  /** The thrift counter for one entry: the key cast to int16_t. */
  function ToThrift(c: Counter): ThriftCounter
  {
    ThriftCounter(ToInt16(c.key), c.value)
  }

  function Converted(counters: seq<Counter>): (r: seq<ThriftCounter>)
    ensures |r| == |counters|
  {
    if counters == [] then [] else [ToThrift(counters[0])] + Converted(counters[1..])
  }

  /** Each converted counter is the thrift form of the counter at the same place. */
  lemma {:induction false} ConvertedElements(counters: seq<Counter>)
    ensures forall i :: 0 <= i < |counters| ==> Converted(counters)[i] == ToThrift(counters[i])
  {
    if counters != [] {
      ConvertedElements(counters[1..]);
    }
  }

  /** An empty filter keeps every counter. */
  lemma {:induction false} EmptyFilterKeepsAll(counters: seq<Counter>)
    ensures Selected(counters, []) == counters
  {
    if counters != [] {
      EmptyFilterKeepsAll(counters[1..]);
    }
  }

  /** A non-empty filter keeps exactly the counters whose key it lists, and nothing else. */
  lemma {:induction false} FilterKeepsListedKeys(counters: seq<Counter>, keysFilter: seq<U16>)
    requires keysFilter != []
    ensures forall c :: c in Selected(counters, keysFilter) <==> c in counters && c.key in keysFilter
  {
    if counters != [] {
      FilterKeepsListedKeys(counters[1..], keysFilter);
      assert counters == [counters[0]] + counters[1..];
    }
  }

  /**
   * The selected counters keep their relative order: they are the input's
   * counters at strictly increasing positions.
   */
  lemma {:induction false} SelectedIsSubsequence(counters: seq<Counter>, keysFilter: seq<U16>)
    ensures exists idx: seq<nat> :: InOrderAt(idx, counters, Selected(counters, keysFilter))
  {
    if counters == [] {
      var none: seq<nat> := [];
      assert InOrderAt(none, counters, Selected(counters, keysFilter));
    } else {
      SelectedIsSubsequence(counters[1..], keysFilter);
      var rest := Selected(counters[1..], keysFilter);
      var idx :| InOrderAt(idx, counters[1..], rest);
      var shifted := Shifted(idx);
      InOrderShifted(idx, counters, rest);
      if keysFilter == [] || counters[0].key in keysFilter {
        assert Selected(counters, keysFilter) == [counters[0]] + rest;
        InOrderCons(shifted, counters, rest);
        assert InOrderAt([0] + shifted, counters, Selected(counters, keysFilter));
      } else {
        assert Selected(counters, keysFilter) == rest;
        assert InOrderAt(shifted, counters, Selected(counters, keysFilter));
      }
    }
  }

  /** Every position one further on. */
  function Shifted(idx: seq<nat>): (r: seq<nat>)
    ensures |r| == |idx| && forall k :: 0 <= k < |idx| ==> r[k] == idx[k] + 1
  {
    seq(|idx|, k requires 0 <= k < |idx| => idx[k] + 1)
  }

  /** Positions in the tail of a list are those positions plus one in the list. */
  lemma InOrderShifted(idx: seq<nat>, counters: seq<Counter>, sel: seq<Counter>)
    requires counters != [] && InOrderAt(idx, counters[1..], sel)
    ensures InOrderAt(Shifted(idx), counters, sel)
  {
    forall k | 0 <= k < |idx| ensures Shifted(idx)[k] < |counters| && counters[Shifted(idx)[k]] == sel[k] {
      assert counters[1..][idx[k]] == counters[idx[k] + 1];
    }
  }

  /** The first counter, then positions after it. */
  lemma InOrderCons(idx: seq<nat>, counters: seq<Counter>, sel: seq<Counter>)
    requires counters != [] && InOrderAt(idx, counters, sel)
    requires forall k :: 0 <= k < |idx| ==> idx[k] > 0
    ensures InOrderAt([0] + idx, counters, [counters[0]] + sel)
  {
    var all := [0] + idx;
    forall k | 0 <= k < |all| ensures all[k] < |counters| && counters[all[k]] == ([counters[0]] + sel)[k] {
      if k > 0 {
        assert all[k] == idx[k - 1];
      }
    }
    forall k, l | 0 <= k < l < |all| ensures all[k] < all[l] {
      assert all[l] == idx[l - 1];
      if k > 0 {
        assert all[k] == idx[k - 1];
      }
    }
  }

  /** `sel` is `counters` at the strictly increasing positions `idx`. */
  predicate InOrderAt(idx: seq<nat>, counters: seq<Counter>, sel: seq<Counter>)
  {
    |idx| == |sel| &&
    (forall k :: 0 <= k < |idx| ==> idx[k] < |counters| && counters[idx[k]] == sel[k]) &&
    (forall k, l :: 0 <= k < l < |idx| ==> idx[k] < idx[l])
  }

  /** Every selected counter is one of the input's. */
  lemma {:induction false} SelectedFromInput(counters: seq<Counter>, keysFilter: seq<U16>)
    ensures forall c :: c in Selected(counters, keysFilter) ==> c in counters
  {
    if counters != [] {
      SelectedFromInput(counters[1..], keysFilter);
    }
  }

  /** The converted counters of a list that starts with `c`. */
  lemma ConvertedCons(c: Counter, cs: seq<Counter>)
    ensures Converted([c] + cs) == [ToThrift(c)] + Converted(cs)
  {
    assert ([c] + cs)[1..] == cs;
  }

  /** setLogGroupCustomCountersResponse: the loop that copies the counters that pass the filter. */
  method SetLogGroupCustomCountersResponse(counters: seq<Counter>, keysFilter: seq<U16>)
    returns (results: seq<ThriftCounter>)
    ensures results == Converted(Selected(counters, keysFilter))
  {
    results := [];
    var i := 0;
    while i < |counters|
      invariant 0 <= i <= |counters|
      invariant Converted(Selected(counters, keysFilter)) == results + Converted(Selected(counters[i..], keysFilter))
    {
      var tail := counters[i..];
      assert tail[1..] == counters[i + 1..];
      var result := counters[i];
      if keysFilter == [] || result.key in keysFilter {
        assert Selected(tail, keysFilter) == [result] + Selected(counters[i + 1..], keysFilter);
        ConvertedCons(result, Selected(counters[i + 1..], keysFilter));
        var counter := ThriftCounter(ToInt16(result.key), result.value);
        assert counter == ToThrift(result);
        results := results + [counter];
      } else {
        assert Selected(tail, keysFilter) == Selected(counters[i + 1..], keysFilter);
      }
      i := i + 1;
    }
    assert counters[i..] == [];
  }

  // ------------------------------------------------------ setting overrides

  /** A SettingOverrideTTLRequest: unset `name` after `ttlSeconds`. */
  datatype TtlRequest = TtlRequest(name: string, ttlSeconds: int)

  /**
   * The admin-override layer of the SettingsUpdater. `accepts` stands for
   * the setting's own parser: setFromAdminCmd throws where it is false.
   */
  class SettingsUpdater {
    var adminOverrides: map<string, string>
    const accepts: (string, string) -> bool

    constructor(accepts: (string, string) -> bool)
      ensures adminOverrides == map[] && this.accepts == accepts
    {
      adminOverrides := map[];
      this.accepts := accepts;
    }

    /** setFromAdminCmd: `ok` is false where the source throws. */
    method SetFromAdminCmd(name: string, value: string) returns (ok: bool)
      modifies this
      ensures ok == accepts(name, value)
      ensures ok ==> adminOverrides == old(adminOverrides)[name := value]
      ensures !ok ==> adminOverrides == old(adminOverrides)
    {
      ok := accepts(name, value);
      if ok {
        adminOverrides := adminOverrides[name := value];
      }
    }

    method UnsetFromAdminCmd(name: string)
      modifies this
      ensures adminOverrides == old(adminOverrides) - {name}
    {
      adminOverrides := adminOverrides - {name};
    }
  }

  /**
   * What applySettingOverride does to the overrides and the posted TTL
   * requests. `postError` is the error postImportant reports, or None when
   * the request was posted.
   */
  function OverrideSpec(overrides: map<string, string>, accepts: (string, string) -> bool,
                        name: string, value: string, ttlSeconds: I64, postError: Option<Status>)
    : (map<string, string>, seq<TtlRequest>, Option<AdminError>)
  {
    if ttlSeconds <= 0 then (overrides, [], Some(InvalidRequest))
    else if !accepts(name, value) then (overrides, [], Some(InvalidRequest))
    else if postError.Some? then (overrides[name := value] - {name}, [], Some(OperationError(postError.value)))
    else (overrides[name := value], [TtlRequest(name, ttlSeconds)], None)
  }

  class AdminHandler {
    const settingsUpdater: SettingsUpdater
    /** The TTL requests handed to the processor, in order. */
    var ttlRequests: seq<TtlRequest>

    constructor(settingsUpdater: SettingsUpdater)
      ensures this.settingsUpdater == settingsUpdater && ttlRequests == []
    {
      this.settingsUpdater := settingsUpdater;
      ttlRequests := [];
    }

    /** semifuture_applySettingOverride. */
    method ApplySettingOverride(name: string, value: string, ttlSeconds: I64, postError: Option<Status>)
      returns (r: Option<AdminError>)
      modifies this, settingsUpdater
      ensures var (overrides, posted, res) :=
                OverrideSpec(old(settingsUpdater.adminOverrides), settingsUpdater.accepts, name, value, ttlSeconds, postError);
              settingsUpdater.adminOverrides == overrides && ttlRequests == old(ttlRequests) + posted && r == res
    {
      if ttlSeconds <= 0 {
        return Some(InvalidRequest);
      }
      var ok := settingsUpdater.SetFromAdminCmd(name, value);
      if !ok {
        return Some(InvalidRequest);
      }
      if postError.Some? {
        settingsUpdater.UnsetFromAdminCmd(name);
        return Some(OperationError(postError.value));
      }
      ttlRequests := ttlRequests + [TtlRequest(name, ttlSeconds)];
      r := None;
    }
  }

  /** A TTL of zero or less is rejected and changes nothing. */
  lemma NonPositiveTtlChangesNothing(overrides: map<string, string>, accepts: (string, string) -> bool,
                                     name: string, value: string, ttlSeconds: I64, postError: Option<Status>)
    requires ttlSeconds <= 0
    ensures OverrideSpec(overrides, accepts, name, value, ttlSeconds, postError) == (overrides, [], Some(InvalidRequest))
  {
  }

  /**
   * An override is applied only together with the request that removes it:
   * whenever the name has a new value afterwards, a TTL request for it was
   * posted; when posting fails the name has no override at all afterwards
   * (an earlier override of the same setting is dropped as well).
   */
  lemma OverrideNeverOutlivesItsTtl(overrides: map<string, string>, accepts: (string, string) -> bool,
                                    name: string, value: string, ttlSeconds: I64, postError: Option<Status>)
    ensures var (after, posted, res) := OverrideSpec(overrides, accepts, name, value, ttlSeconds, postError);
            (res.None? <==> ttlSeconds > 0 && accepts(name, value) && postError.None?) &&
            (res.None? ==> name in after && after[name] == value && posted == [TtlRequest(name, ttlSeconds)]) &&
            (res.Some? ==> posted == []) &&
            (postError.Some? && ttlSeconds > 0 && accepts(name, value) ==> name !in after) &&
            (forall n :: n != name ==> (n in after <==> n in overrides) && (n in after ==> after[n] == overrides[n]))
  {
  }

  // ------------------------------------------------------- replication info

  /** Location scopes, from the smallest to the biggest. */
  datatype LocationScope = NODE | RACK | ROW | CLUSTER | DATA_CENTER | REGION | ROOT

  function ScopeRank(s: LocationScope): nat
  {
    match s
    case NODE => 0
    case RACK => 1
    case ROW => 2
    case CLUSTER => 3
    case DATA_CENTER => 4
    case REGION => 5
    case ROOT => 6
  }

  datatype TolerableFailureDomain = TolerableFailureDomain(domain: LocationScope, count: int)

  /** The biggest scope that carries a replication factor. */
  function BiggestScope(repl: map<LocationScope, nat>): (s: LocationScope)
    requires repl != map[]
    ensures s in repl && forall t :: t in repl ==> ScopeRank(t) <= ScopeRank(s)
  {
    if ROOT in repl then ROOT
    else if REGION in repl then REGION
    else if DATA_CENTER in repl then DATA_CENTER
    else if CLUSTER in repl then CLUSTER
    else if ROW in repl then ROW
    else if RACK in repl then RACK
    else
      assert NODE in repl by {
        assert repl.Keys != {};
        var t :| t in repl.Keys;
        assert t.NODE?;
      }
      NODE
  }

  /**
   * The tolerable failure domain of getReplicationInfo: the biggest
   * replicated scope, and one less than its replication factor.
   */
  function ToleratedFailures(repl: map<LocationScope, nat>): (r: TolerableFailureDomain)
    requires repl != map[]
    ensures r.domain in repl && forall t :: t in repl ==> ScopeRank(t) <= ScopeRank(r.domain)
    ensures r.count + 1 == repl[r.domain]
  {
    var biggest := BiggestScope(repl);
    TolerableFailureDomain(biggest, repl[biggest] as int - 1)
  }

  /**
   * Losing the tolerated number of domains at the biggest scope still leaves
   * one domain that holds a copy.
   */
  lemma ToleratedFailuresLeaveACopy(repl: map<LocationScope, nat>)
    requires repl != map[] && forall t :: t in repl ==> repl[t] >= 1
    ensures 0 <= ToleratedFailures(repl).count < repl[ToleratedFailures(repl).domain]
  {
  }

  // ------------------------------------------------------------ status

  /** fb303's service status. */
  datatype FbStatus = DEAD | STARTING | ALIVE | STOPPING | STOPPED | WARNING

  /**
   * A shard of the local store: None for a shard with no store, otherwise
   * whether it is in fail-safe mode.
   */
  type Shard = Option<bool>

  predicate InFailSafe(shard: Shard)
  {
    shard == Some(true)
  }

  /**
   * getStatus: WARNING if the sharded store exists and one of its shards is
   * in fail-safe mode, otherwise the status of the thrift handler underneath.
   */
  method GetStatus(shardedStore: Option<seq<Shard>>, baseStatus: FbStatus) returns (status: FbStatus)
    ensures var failing := shardedStore.Some? &&
                           exists i :: 0 <= i < |shardedStore.value| && InFailSafe(shardedStore.value[i]);
            (failing ==> status == WARNING) && (!failing ==> status == baseStatus)
  {
    if shardedStore.Some? {
      var shards := shardedStore.value;
      for i := 0 to |shards|
        invariant forall j :: 0 <= j < i ==> !InFailSafe(shards[j])
      {
        if shards[i].Some? && shards[i].value {
          return WARNING;
        }
      }
    }
    status := baseStatus;
  }
}
