/**
 * A ZooKeeper ensemble, as far as the epoch store uses it: a map from path to
 * znode (value and version), read with getData, written with a
 * version-conditional setData, and changed atomically by a multi-op of
 * creates and versioned sets. The client library itself is not part of this
 * model; the return codes are those of the ZooKeeper C client (zookeeper.h).
 * `fault` injects a failure: while it is not ZOK every call returns it and
 * changes nothing. `state` is what `zoo_state` reports for the session.
 */
module Zookeeper {
  import opened HexCodec

  const ZOK: int := 0
  const ZRUNTIMEINCONSISTENCY: int := -2
  const ZCONNECTIONLOSS: int := -4
  const ZBADARGUMENTS: int := -8
  const ZINVALIDSTATE: int := -9
  const ZNONODE: int := -101
  const ZBADVERSION: int := -103
  const ZNODEEXISTS: int := -110

  const ZOO_CONNECTED_STATE: int := 3
  const ZOO_EXPIRED_SESSION_STATE: int := -112
  const ZOO_AUTH_FAILED_STATE: int := -113

  datatype Znode = Znode(value: Bytes, version: nat)
  type Znodes = map<string, Znode>

  /** The two kinds of operation a multi-op carries here. */
  datatype Op =
    | CreateOp(path: string, value: Bytes)
    | SetOp(path: string, value: Bytes, version: nat)

  /** What getData delivers: the return code, the value and `stat.version`. */
  datatype ZnodeRead = ZnodeRead(rc: int, value: Bytes, version: nat)

  /** The index of the last '/' in `path`, or 0 when there is none. */
  function LastSlash(path: string): (i: nat)
    ensures i <= |path|
    ensures i < |path| ==> path[i] == '/' || i == 0
  {
    if path == [] then 0
    else if path[|path| - 1] == '/' then |path| - 1
    else LastSlash(path[..|path| - 1])
  }

  /** The parent of a znode; "" stands for the always-present root "/". */
  function Parent(path: string): string
  {
    path[..LastSlash(path)]
  }

  lemma {:induction false} LastSlashAfter(a: string, d: string)
    requires '/' !in d
    ensures LastSlash(a + "/" + d) == |a|
    decreases |d|
  {
    if d != [] {
      var p := a + "/" + d;
      assert p[..|p| - 1] == a + "/" + d[..|d| - 1];
      assert p[|p| - 1] == d[|d| - 1];
      LastSlashAfter(a, d[..|d| - 1]);
    } else {
      assert (a + "/" + d)[..|a|] == a;
    }
  }

  /** The parent of "<a>/<d>", for a last component `d`, is `a`. */
  lemma ParentOfChild(a: string, d: string)
    requires '/' !in d
    ensures Parent(a + "/" + d) == a
  {
    LastSlashAfter(a, d);
    assert (a + "/" + d)[..|a|] == a;
  }

  predicate ParentExists(nodes: Znodes, path: string)
  {
    Parent(path) == [] || Parent(path) in nodes
  }

  /** One operation on its own: a create needs a free path under an existing parent, a set the expected version. */
  function ApplyOp(nodes: Znodes, op: Op): (Znodes, int)
  {
    match op
    case CreateOp(path, value) =>
      if path in nodes then (nodes, ZNODEEXISTS)
      else if !ParentExists(nodes, path) then (nodes, ZNONODE)
      else (nodes[path := Znode(value, 0)], ZOK)
    case SetOp(path, value, version) =>
      if path !in nodes then (nodes, ZNONODE)
      else if nodes[path].version != version then (nodes, ZBADVERSION)
      else (nodes[path := Znode(value, version + 1)], ZOK)
  }

  /** A multi-op: every operation in order, and all of them or none of them. */
  function MultiSpec(nodes: Znodes, ops: seq<Op>): (r: (Znodes, int))
    ensures r.1 != ZOK ==> r.0 == nodes
    decreases |ops|
  {
    if ops == [] then (nodes, ZOK)
    else
      var (n1, rc) := ApplyOp(nodes, ops[0]);
      if rc != ZOK then (nodes, rc)
      else
        var (n2, rc2) := MultiSpec(n1, ops[1..]);
        if rc2 != ZOK then (nodes, rc2) else (n2, ZOK)
  }

  /** The proper ancestors of a path: every prefix that ends just before a '/'. */
  function Ancestors(path: string): set<string>
  {
    set i | 0 < i < |path| && path[i] == '/' :: path[..i]
  }

  /** createWithAncestors: the znode and any missing ancestor are created; an existing znode is ZNODEEXISTS. */
  function CreateWithAncestorsSpec(nodes: Znodes, path: string, value: Bytes): (r: (Znodes, int))
    ensures path in r.0
    ensures r.1 == ZOK || r.1 == ZNODEEXISTS
    ensures forall p :: p in nodes ==> p in r.0 && r.0[p] == nodes[p]
  {
    if path in nodes then (nodes, ZNODEEXISTS)
    else
      var created := map p | p in nodes.Keys + Ancestors(path) :: if p in nodes then nodes[p] else Znode([], 0);
      (created[path := Znode(value, 0)], ZOK)
  }

  class Ensemble {
    var znodes: Znodes
    var fault: int
    var state: int

    constructor(znodes: Znodes)
      ensures this.znodes == znodes && fault == ZOK && state == ZOO_CONNECTED_STATE
    {
      this.znodes := znodes;
      fault := ZOK;
      state := ZOO_CONNECTED_STATE;
    }

    /** Makes every later call fail with `rc` (or succeed again, for ZOK). */
    method SetFault(rc: int)
      modifies this
      ensures fault == rc && znodes == old(znodes) && state == old(state)
    {
      fault := rc;
    }

    method GetData(path: string) returns (r: ZnodeRead)
      ensures r == ReadSpec(znodes, fault, path)
    {
      if fault != ZOK {
        r := ZnodeRead(fault, [], 0);
      } else if path !in znodes {
        r := ZnodeRead(ZNONODE, [], 0);
      } else {
        r := ZnodeRead(ZOK, znodes[path].value, znodes[path].version);
      }
    }

    method SetData(path: string, value: Bytes, version: nat) returns (rc: int)
      modifies this
      ensures fault == old(fault) && state == old(state)
      ensures (znodes, rc) == WithFault(old(znodes), fault, ApplyOp(old(znodes), SetOp(path, value, version)))
    {
      if fault != ZOK {
        rc := fault;
      } else {
        znodes, rc := ApplyOp(znodes, SetOp(path, value, version)).0, ApplyOp(znodes, SetOp(path, value, version)).1;
      }
    }

    method Multi(ops: seq<Op>) returns (rc: int)
      modifies this
      ensures fault == old(fault) && state == old(state)
      ensures (znodes, rc) == WithFault(old(znodes), fault, MultiSpec(old(znodes), ops))
    {
      if fault != ZOK {
        rc := fault;
      } else {
        var r := MultiSpec(znodes, ops);
        znodes, rc := r.0, r.1;
      }
    }

    method CreateWithAncestors(path: string, value: Bytes) returns (rc: int)
      modifies this
      ensures fault == old(fault) && state == old(state)
      ensures (znodes, rc) == WithFault(old(znodes), fault, CreateWithAncestorsSpec(old(znodes), path, value))
    {
      if fault != ZOK {
        rc := fault;
      } else {
        var r := CreateWithAncestorsSpec(znodes, path, value);
        znodes, rc := r.0, r.1;
      }
    }
  }

  function ReadSpec(nodes: Znodes, fault: int, path: string): ZnodeRead
  {
    if fault != ZOK then ZnodeRead(fault, [], 0)
    else if path !in nodes then ZnodeRead(ZNONODE, [], 0)
    else ZnodeRead(ZOK, nodes[path].value, nodes[path].version)
  }

  /** A failing ensemble answers with its fault and changes nothing. */
  function WithFault(nodes: Znodes, fault: int, r: (Znodes, int)): (Znodes, int)
  {
    if fault != ZOK then (nodes, fault) else r
  }
}
