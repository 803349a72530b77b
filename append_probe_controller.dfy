/**
 * AppendProbeController: per storage node, whether appends should first send
 * a probe. A node is HEALTHY (and then has no entry), LAST_APPEND_FAILED
 * after a failure, or RECOVERING after a success that followed a failure; a
 * RECOVERING node becomes HEALTHY on the first success at or after its
 * `healthy_at` time, and its entry is dropped. The clock is a parameter.
 */
module AppendProbeController {
  import opened Errors

  type NodeId = nat

  datatype NodeHealth = HEALTHY | LAST_APPEND_FAILED | RECOVERING

  datatype State = State(e: NodeHealth, healthyAt: int)

  type NodeStates = map<NodeId, State>

  /** Failures that say nothing about the node's health. */
  predicate Ignored(status: Status)
  {
    status == PREEMPTED || status == ACCESS || status == NOTINSERVERCONFIG
  }

  /** shouldProbe over the map. */
  function Probe(m: NodeStates, node: NodeId, now: int): (r: bool)
    ensures node !in m ==> !r
    ensures node in m ==> (r <==> m[node].e == LAST_APPEND_FAILED || (m[node].e == RECOVERING && now < m[node].healthyAt))
  {
    if node !in m then false
    else match m[node].e
      case HEALTHY => false
      case LAST_APPEND_FAILED => true
      case RECOVERING => now < m[node].healthyAt
  }

  /** The map after onSuccess. */
  function AfterSuccess(m: NodeStates, node: NodeId, now: int, recoveryInterval: int): (r: NodeStates)
    ensures forall n :: n != node ==> (n in r <==> n in m) && (n in m ==> r[n] == m[n])
    ensures node in m && m[node].e == LAST_APPEND_FAILED ==> node in r && r[node] == State(RECOVERING, now + recoveryInterval)
    ensures node in m && m[node].e == RECOVERING && now >= m[node].healthyAt ==> node !in r
    ensures node !in m || m[node].e == HEALTHY || (m[node].e == RECOVERING && now < m[node].healthyAt) ==> r == m
  {
    if node !in m then m
    else match m[node].e
      case HEALTHY => m
      case LAST_APPEND_FAILED => m[node := State(RECOVERING, now + recoveryInterval)]
      case RECOVERING => if now >= m[node].healthyAt then AfterGarbageCollect(m[node := m[node].(e := HEALTHY)], node) else m
  }

  /** The map after onFailure: an entry inserted if missing, then marked LAST_APPEND_FAILED. */
  function AfterFailure(m: NodeStates, node: NodeId, status: Status): (r: NodeStates)
    ensures Ignored(status) ==> r == m
    ensures !Ignored(status) ==> r.Keys == m.Keys + {node} && r[node].e == LAST_APPEND_FAILED
    ensures forall n :: n in m && n != node ==> r[n] == m[n]
  {
    if Ignored(status) then m
    else
      var entry := if node in m then m[node] else State(LAST_APPEND_FAILED, 0);
      m[node := entry.(e := LAST_APPEND_FAILED)]
  }

  /** The map after garbageCollectIfHealthy. */
  function AfterGarbageCollect(m: NodeStates, node: NodeId): (r: NodeStates)
    ensures node in m && m[node].e == HEALTHY ==> r == m - {node}
    ensures !(node in m && m[node].e == HEALTHY) ==> r == m
  {
    if node in m && m[node].e == HEALTHY then m - {node} else m
  }

  /** No HEALTHY node keeps an entry. */
  predicate NoHealthyEntries(m: NodeStates)
  {
    forall n :: n in m ==> m[n].e != HEALTHY
  }

  class Controller {
    const recoveryInterval: int
    var nodeStates: NodeStates

    constructor(recoveryInterval: int)
      ensures this.recoveryInterval == recoveryInterval && nodeStates == map[]
    {
      this.recoveryInterval := recoveryInterval;
      nodeStates := map[];
    }

    /** shouldProbe. */
    method ShouldProbe(node: NodeId, now: int) returns (probe: bool)
      ensures probe == Probe(nodeStates, node, now)
    {
      if node !in nodeStates {
        return false;
      }
      var state := nodeStates[node];
      match state.e {
        case HEALTHY => probe := false;
        case LAST_APPEND_FAILED => probe := true;
        case RECOVERING => probe := now < state.healthyAt;
      }
    }

    /** onSuccess; the state exchanges are taken to succeed. */
    method OnSuccess(node: NodeId, now: int)
      modifies this
      ensures nodeStates == AfterSuccess(old(nodeStates), node, now, recoveryInterval)
    {
      if node !in nodeStates {
        return;
      }
      var prev := nodeStates[node].e;
      match prev {
        case HEALTHY =>
        case LAST_APPEND_FAILED =>
          nodeStates := nodeStates[node := State(RECOVERING, nodeStates[node].healthyAt)];
          nodeStates := nodeStates[node := nodeStates[node].(healthyAt := now + recoveryInterval)];
        case RECOVERING =>
          if now >= nodeStates[node].healthyAt {
            nodeStates := nodeStates[node := nodeStates[node].(e := HEALTHY)];
            GarbageCollectIfHealthy(node);
          }
      }
    }

    /** onFailure. */
    method OnFailure(node: NodeId, status: Status)
      modifies this
      ensures nodeStates == AfterFailure(old(nodeStates), node, status)
    {
      if Ignored(status) {
        return;
      }
      ghost var m := nodeStates;
      ghost var entry := if node in m then m[node] else State(LAST_APPEND_FAILED, 0);
      if node !in nodeStates {
        nodeStates := nodeStates[node := State(LAST_APPEND_FAILED, 0)];
      }
      assert nodeStates == m[node := entry];
      nodeStates := nodeStates[node := nodeStates[node].(e := LAST_APPEND_FAILED)];
      assert nodeStates == m[node := entry.(e := LAST_APPEND_FAILED)];
    }

    /** garbageCollectIfHealthy. */
    method GarbageCollectIfHealthy(node: NodeId)
      modifies this
      ensures nodeStates == AfterGarbageCollect(old(nodeStates), node)
    {
      if node in nodeStates && nodeStates[node].e == HEALTHY {
        nodeStates := nodeStates - {node};
      }
    }
  }

  /** onSuccess and onFailure never leave an entry for a HEALTHY node behind. */
  lemma TransitionsKeepNoHealthyEntries(m: NodeStates, node: NodeId, now: int, recoveryInterval: int, status: Status)
    requires NoHealthyEntries(m)
    ensures NoHealthyEntries(AfterSuccess(m, node, now, recoveryInterval))
    ensures NoHealthyEntries(AfterFailure(m, node, status))
  {
  }

  /** After a failure that counts, the node is probed whatever the time. */
  lemma ProbedAfterFailure(m: NodeStates, node: NodeId, status: Status, now: int)
    requires !Ignored(status)
    ensures Probe(AfterFailure(m, node, status), node, now)
  {
  }

  /**
   * A node that failed and then succeeded at `t0` stays probed until the
   * recovery interval has passed, and a success at or after that makes it
   * HEALTHY: no longer probed and without an entry.
   */
  lemma RecoveryTakesTheInterval(m: NodeStates, node: NodeId, status: Status, t0: int, t: int, recoveryInterval: int)
    requires !Ignored(status)
    ensures var recovering := AfterSuccess(AfterFailure(m, node, status), node, t0, recoveryInterval);
            (t < t0 + recoveryInterval ==> Probe(recovering, node, t) &&
                                           AfterSuccess(recovering, node, t, recoveryInterval) == recovering) &&
            (t >= t0 + recoveryInterval ==> !Probe(recovering, node, t) &&
                                            node !in AfterSuccess(recovering, node, t, recoveryInterval))
  {
  }

  /** Garbage collection and probing of one node never concern another node's entry. */
  lemma GarbageCollectTouchesOnlyItsNode(m: NodeStates, node: NodeId, other: NodeId, now: int)
    requires other != node
    ensures var r := AfterGarbageCollect(m, node);
            (other in r <==> other in m) && (other in m ==> r[other] == m[other]) &&
            Probe(r, other, now) == Probe(m, other, now)
  {
  }
}
