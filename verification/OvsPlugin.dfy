/** The plugin's operations as it runs them: lists of database operations sent as one transaction, whose
    replies are then checked one by one. */
module OvsPlugin {
  import opened Common
  import opened OvsdbTables
  import opened Ovsdb
  import opened OvsRuns

  // ---------------------------------------------------------------- transactions

  /** A row named within the transaction, or one known by its uuid. */
  datatype Ref = ByName(id: string) | ByUuid(uuid: Uuid)

  datatype Op =
    | InsertInterface(name: Name, kind: string, id: string)
    | InsertPort(name: Name, iface: Ref, id: string)
    | InsertBridge(name: Name, port: Ref, datapath: string, id: string)
    | InsertBridgeOpt(name: Name, opt: BridgeOpt)
    | MutateRoot(insert: bool, bridge: Ref)
    | MutateBridge(name: Name, insert: bool, port: Ref)
    | DeleteBridges(name: Name)
    | DeleteBridgeOpts(name: Name)
    | DeletePorts(name: Name)

  function UuidName(op: Op): string {
    if op.InsertInterface? || op.InsertPort? || op.InsertBridge? then op.id else ""
  }

  /** The row that a name stands for: the one inserted under it, wherever in the transaction. */
  function Find(id: string, ops: seq<Op>, uuids: seq<Uuid>): Uuid
    requires |ops| == |uuids|
  {
    if ops == [] then 0
    else if UuidName(ops[0]) == id then uuids[0]
    else Find(id, ops[1..], uuids[1..])
  }

  function Resolve(r: Ref, ops: seq<Op>, uuids: seq<Uuid>): Uuid
    requires |ops| == |uuids|
  {
    match r case ByUuid(u) => u case ByName(id) => Find(id, ops, uuids)
  }

  /** One operation; u is the uuid of the row it inserts, if it inserts one. */
  function Exec(d: Db, op: Op, u: Uuid, ops: seq<Op>, uuids: seq<Uuid>): Db
    requires |ops| == |uuids|
  {
    match op
    case InsertInterface(n, kind, _) => d.(ifaces := Insert(d.ifaces, u, n, {}, kind))
    case InsertPort(n, iface, _) => d.(ports := Insert(d.ports, u, n, {Resolve(iface, ops, uuids)}, ()))
    case InsertBridge(n, port, datapath, _) => d.(bridges := Insert(d.bridges, u, n, {Resolve(port, ops, uuids)}, datapath))
    case InsertBridgeOpt(n, opt) => d.(opts := Insert(d.opts, u, n, {}, opt))
    case MutateRoot(insert, b) =>
      d.(root := if insert then d.root + {Resolve(b, ops, uuids)} else d.root - {Resolve(b, ops, uuids)})
    case MutateBridge(bn, insert, p) =>
      d.(bridges := if insert then GrowNamed(d.bridges, bn, Resolve(p, ops, uuids))
                    else ShrinkNamed(d.bridges, bn, Resolve(p, ops, uuids)))
    case DeleteBridges(n) => d.(bridges := DropNamed(d.bridges, n))
    case DeleteBridgeOpts(n) => d.(opts := DropNamed(d.opts, n))
    case DeletePorts(n) => d.(ports := DropNamed(d.ports, n))
  }

  /** The first k operations in order. */
  function ExecFirst(d: Db, ops: seq<Op>, uuids: seq<Uuid>, k: nat): Db
    requires k <= |ops| == |uuids|
  {
    if k == 0 then d else Exec(ExecFirst(d, ops, uuids, k - 1), ops[k - 1], uuids[k - 1], ops, uuids)
  }

  const OK: string := ""
  const CONSTRAINT_VIOLATION: string := "constraint violation"

  /** One result per operation, one more if the commit failed, none if the connection did. */
  function Replies(staged: Db, n: nat, fate: Fate): seq<string> {
    if fate.Lost? then []
    else seq(n, _ => OK) + if Committed(staged, fate) then [] else [CONSTRAINT_VIOLATION]
  }

  predicate Committed(staged: Db, fate: Fate) { fate == Answered && Commit(staged).Some? }

  class Server {
    var db: Db

    constructor (db: Db)
      ensures this.db == db
    {
      this.db := db;
    }

    method Transact(ops: seq<Op>, uuids: seq<Uuid>, fate: Fate) returns (reply: seq<string>)
      requires |ops| == |uuids|
      modifies this
      ensures var staged := ExecFirst(old(db), ops, uuids, |ops|);
              db == Settled(old(db), staged, fate) && reply == Replies(staged, |ops|, fate)
    {
      var staged := db;
      for k := 0 to |ops|
        invariant staged == ExecFirst(old(db), ops, uuids, k)
        invariant db == old(db)
      {
        staged := Exec(staged, ops[k], uuids[k], ops, uuids);
      }
      if (fate == Answered || fate == Lost(true)) && Commit(staged).Some? {
        db := Commit(staged).value;
      }
      reply := Replies(staged, |ops|, fate);
    }

    /** `portExists`: a select, which fails if it is not answered. */
    method PortExists(n: Name, fate: Fate) returns (r: Option<bool>)
      ensures r == if fate == Answered then Some(n in db.ports.name.Values) else None
    {
      r := if fate == Answered then Some(n in db.ports.name.Values) else None;
    }
  }

  /** The loop over the replies: the first error is reported. */
  method NoErrors(reply: seq<string>) returns (ok: bool)
    ensures ok <==> forall i | 0 <= i < |reply| :: reply[i] == OK
  {
    for i := 0 to |reply|
      invariant forall j | 0 <= j < i :: reply[j] == OK
    {
      if reply[i] != OK {
        return false;
      }
    }
    ok := true;
  }

  /** What a complete and an incomplete list of replies tell. */
  lemma RepliesTell(staged: Db, n: nat, fate: Fate)
    ensures var r := Replies(staged, n, fate);
            && (|r| < n <==> fate.Lost? && n > 0)
            && (!fate.Lost? ==> ((forall i | 0 <= i < |r| :: r[i] == OK) <==> Committed(staged, fate)))
  {
    var r := Replies(staged, n, fate);
    if !fate.Lost? && !Committed(staged, fate) {
      assert r[n] == CONSTRAINT_VIOLATION;
    }
  }

  // ---------------------------------------------------------------- bridges

  /** The two letters beyond ASCII that fold to ASCII ones are the long s and the Kelvin sign. */
  function Lower(c: char): char {
    if 'A' <= c <= 'Z' then c - 'A' + 'a' else if c == '\U{017F}' then 's' else if c == '\U{212A}' then 'k' else c
  }

  /** `strings.EqualFold`, if one of the texts is ASCII. */
  predicate EqualFold(a: string, b: string) { |a| == |b| && forall i | 0 <= i < |a| :: Lower(a[i]) == Lower(b[i]) }

  function Datapath(service: string): string {
    if EqualFold(service, "pgw") || EqualFold(service, "sgw") then "netdev" else ""
  }

  function CreateOps(n: Name, service: string, network: string): seq<Op> {
    [InsertInterface(n, "internal", "intf"), InsertPort(n, ByName("intf"), "port"),
     InsertBridge(n, ByName("port"), Datapath(service), "bridge"), InsertBridgeOpt(n, BridgeOpt(service, network)),
     MutateRoot(true, ByName("bridge"))]
  }

  function CreateUuids(ids: Ids): seq<Uuid> { [ids.iface, ids.port, ids.bridge, ids.opt, 0] }

  lemma CreateNames(n: Name, service: string, network: string, ids: Ids)
    ensures var ops, us := CreateOps(n, service, network), CreateUuids(ids);
            Find("intf", ops, us) == ids.iface && Find("port", ops, us) == ids.port && Find("bridge", ops, us) == ids.bridge
  {
    var ops, us := CreateOps(n, service, network), CreateUuids(ids);
    assert Find("port", ops, us) == Find("port", ops[1..], us[1..]);
    assert Find("bridge", ops, us) == Find("bridge", ops[1..], us[1..]);
    assert ops[1..][1..] == ops[2..] && us[1..][1..] == us[2..];
    assert Find("bridge", ops[1..], us[1..]) == Find("bridge", ops[2..], us[2..]);
  }

  /** The five operations amount to the staged creation. */
  lemma CreateExec(d: Db, n: Name, service: string, network: string, ids: Ids)
    ensures ExecFirst(d, CreateOps(n, service, network), CreateUuids(ids), 5) ==
            StageCreate(d, n, Datapath(service), BridgeOpt(service, network), ids)
  {
    var ops, us := CreateOps(n, service, network), CreateUuids(ids);
    CreateNames(n, service, network, ids);
    var d1 := ExecFirst(d, ops, us, 1);
    assert ExecFirst(d, ops, us, 0) == d;
    assert d1 == Exec(d, ops[0], us[0], ops, us);
    var d2 := ExecFirst(d, ops, us, 2);
    assert d2 == Exec(d1, ops[1], us[1], ops, us);
    var d3 := ExecFirst(d, ops, us, 3);
    assert d3 == Exec(d2, ops[2], us[2], ops, us);
    var d4 := ExecFirst(d, ops, us, 4);
    assert d4 == Exec(d3, ops[3], us[3], ops, us);
  }

  /** `createOvsdbBridge`: an error unless the transaction committed and was answered. */
  method CreateOvsdbBridge(server: Server, n: Name, service: string, network: string, ids: Ids, fate: Fate) returns (ok: bool)
    modifies server
    ensures var staged := StageCreate(old(server.db), n, Datapath(service), BridgeOpt(service, network), ids);
            server.db == Settled(old(server.db), staged, fate) && (ok <==> Committed(staged, fate))
  {
    var ops := CreateOps(n, service, network);
    CreateExec(server.db, n, service, network, ids);
    ghost var staged := ExecFirst(server.db, ops, CreateUuids(ids), 5);
    var reply := server.Transact(ops, CreateUuids(ids), fate);
    RepliesTell(staged, 5, fate);
    if |reply| < |ops| {
      return false;
    }
    ok := NoErrors(reply);
  }

  /** `addBridge`: creates the bridge exactly if it learns that no port has its name, and asks again afterwards,
      since errors of the creation are dropped. Success means that a port of that name is there. */
  method AddBridge(server: Server, n: Name, service: string, network: string, ids: Ids, fates: (Fate, Fate, Fate)) returns (ok: bool)
    modifies server
    ensures fates.0 != Answered ==> !ok && server.db == old(server.db)
    ensures fates.0 == Answered && n in old(server.db).ports.name.Values ==> ok && server.db == old(server.db)
    ensures fates.0 == Answered && n !in old(server.db).ports.name.Values ==>
              && server.db == Settled(old(server.db), StageCreate(old(server.db), n, Datapath(service), BridgeOpt(service, network), ids), fates.1)
              && (ok <==> fates.2 == Answered && n in server.db.ports.name.Values)
  {
    var there := server.PortExists(n, fates.0);
    if there.None? {
      return false;
    }
    if !there.value {
      var _ := CreateOvsdbBridge(server, n, service, network, ids, fates.1);
      there := server.PortExists(n, fates.2);
      if there.None? || !there.value {
        return false;
      }
    }
    ok := true;
  }

  /** The rows of a bridge: itself, with its datapath and its own port; that port, with an internal interface; and
      the record of its network. */
  predicate HasBridge(d: Db, n: Name, datapath: string, opt: BridgeOpt, ids: Ids) {
    && Has(d.bridges, ids.bridge, n, {ids.port}, datapath) && ids.bridge in d.root
    && Has(d.ports, ids.port, n, {ids.iface}, ()) && Has(d.ifaces, ids.iface, n, {}, "internal")
    && Has(d.opts, ids.opt, n, {}, opt)
  }

  lemma CreatedRows(d: Db, n: Name, datapath: string, opt: BridgeOpt, ids: Ids)
    ensures HasBridge(StageCreate(d, n, datapath, opt, ids), n, datapath, opt, ids)
  {}

  /** On a sound database, with a free name and all three transactions answered, the bridge is there afterwards,
      and everything that was there before. */
  method CreateBridge(server: Server, n: Name, service: string, network: string, ids: Ids) returns (ok: bool)
    requires Good(server.db) && Ovsdb.Fresh(server.db, ids) && !IsVeth(n) && NameFree(server.db, n)
    modifies server
    ensures ok && Good(server.db)
    ensures HasBridge(server.db, n, Datapath(service), BridgeOpt(service, network), ids)
    ensures var d, d' := old(server.db), server.db;
            && d'.bridges.name == d.bridges.name[ids.bridge := n] && d'.ports.name == d.ports.name[ids.port := n]
            && d'.root == d.root + {ids.bridge}
  {
    CreateCommits(server.db, n, Datapath(service), BridgeOpt(service, network), ids);
    CreateGood(server.db, n, Datapath(service), BridgeOpt(service, network), ids);
    CreatedRows(server.db, n, Datapath(service), BridgeOpt(service, network), ids);
    ok := AddBridge(server, n, service, network, ids, (Answered, Answered, Answered));
  }

  /** The userspace datapath is for packet and serving gateways, however they are spelled, and for nothing else. */
  lemma DatapathExact(service: string)
    ensures Datapath(service) == (if UserSpace(service) then "netdev" else "")
  {
    if UserSpace(service) {
      var gateway := if service[0] in {'p', 'P'} then "pgw" else "sgw";
      assert forall i | 0 <= i < 3 :: Lower(service[i]) == Lower(gateway[i]);
      assert EqualFold(service, gateway);
    }
  }

  predicate UserSpace(service: string) {
    |service| == 3 && service[0] in {'p', 'P', 's', 'S', '\U{017F}'} && service[1] in {'g', 'G'} && service[2] in {'w', 'W'}
  }

  /** `getBridgeUUIDForName` and `portUUIDForName`: any cached row of that name. */
  method UuidForName(cached: map<Uuid, Name>, n: Name) returns (r: Option<Uuid>)
    ensures r.Some? ==> r.value in cached && cached[r.value] == n
    ensures r.None? ==> n !in cached.Values
  {
    var todo := cached.Keys;
    while todo != {}
      invariant todo <= cached.Keys
      invariant forall u | u in cached && u !in todo :: cached[u] != n
      decreases todo
    {
      var u :| u in todo;
      if cached[u] == n {
        return Some(u);
      }
      todo := todo - {u};
    }
    r := None;
  }

  function DeleteBridgeOps(n: Name, u: Uuid): seq<Op> {
    [DeleteBridges(n), DeleteBridgeOpts(n), MutateRoot(false, ByUuid(u))]
  }

  lemma DeleteBridgeExec(d: Db, n: Name, u: Uuid)
    ensures ExecFirst(d, DeleteBridgeOps(n, u), [0, 0, 0], 3) == StageDeleteBridge(d, n, u)
  {
    var ops, us := DeleteBridgeOps(n, u), [0, 0, 0];
    assert ExecFirst(d, ops, us, 1) == Exec(d, ops[0], 0, ops, us);
    assert ExecFirst(d, ops, us, 2) == Exec(ExecFirst(d, ops, us, 1), ops[1], 0, ops, us);
  }

  /** `deleteBridge`: nothing happens if the cache does not know the bridge. A transaction without an
      answer counts as success. */
  method DeleteBridge(server: Server, cache: Names, n: Name, fate: Fate) returns (ok: bool, u: Option<Uuid>)
    modifies server
    ensures u.None? ==> n !in cache.bridges.Values && server.db == old(server.db) && !ok
    ensures u.Some? ==> u.value in cache.bridges && cache.bridges[u.value] == n
    ensures u.Some? ==> var staged := StageDeleteBridge(old(server.db), n, u.value);
              server.db == Settled(old(server.db), staged, fate) && (ok <==> fate.Lost? || Committed(staged, fate))
  {
    u := UuidForName(cache.bridges, n);
    if u.None? {
      return false, None;
    }
    DeleteBridgeExec(server.db, n, u.value);
    ghost var staged := StageDeleteBridge(server.db, n, u.value);
    var reply := server.Transact(DeleteBridgeOps(n, u.value), [0, 0, 0], fate);
    RepliesTell(staged, 3, fate);
    ok := NoErrors(reply);
  }

  // ---------------------------------------------------------------- ports

  function AddPortOps(bn: Name, pn: Name, kind: string): seq<Op> {
    [InsertInterface(pn, kind, "intf"), InsertPort(pn, ByName("intf"), "port"), MutateBridge(bn, true, ByName("port"))]
  }

  lemma AddPortExec(d: Db, bn: Name, pn: Name, kind: string, i: Uuid, p: Uuid)
    ensures ExecFirst(d, AddPortOps(bn, pn, kind), [i, p, 0], 3) == StageAddPort(d, bn, pn, kind, i, p)
  {
    var ops, us := AddPortOps(bn, pn, kind), [i, p, 0];
    assert Find("intf", ops, us) == i;
    assert Find("port", ops, us) == Find("port", ops[1..], us[1..]) == p;
    assert ExecFirst(d, ops, us, 1) == Exec(d, ops[0], i, ops, us);
    assert ExecFirst(d, ops, us, 2) == Exec(ExecFirst(d, ops, us, 1), ops[1], p, ops, us);
  }

  /** `addOvsVethPort`: a transaction without an answer counts as success. */
  method AddOvsVethPort(server: Server, bn: Name, pn: Name, i: Uuid, p: Uuid, fate: Fate) returns (ok: bool)
    modifies server
    ensures var staged := StageAddPort(old(server.db), bn, pn, "system", i, p);
            server.db == Settled(old(server.db), staged, fate) && (ok <==> fate.Lost? || Committed(staged, fate))
  {
    AddPortExec(server.db, bn, pn, "system", i, p);
    ghost var staged := StageAddPort(server.db, bn, pn, "system", i, p);
    var reply := server.Transact(AddPortOps(bn, pn, "system"), [i, p, 0], fate);
    RepliesTell(staged, 3, fate);
    ok := NoErrors(reply);
  }

  function DeletePortOps(bn: Name, pn: Name, u: Uuid): seq<Op> { [DeletePorts(pn), MutateBridge(bn, false, ByUuid(u))] }

  lemma DeletePortExec(d: Db, bn: Name, pn: Name, u: Uuid)
    ensures ExecFirst(d, DeletePortOps(bn, pn, u), [0, 0], 2) == StageDeletePort(d, bn, pn, u)
  {
    var ops, us := DeletePortOps(bn, pn, u), [0, 0];
    assert ExecFirst(d, ops, us, 1) == Exec(d, ops[0], 0, ops, us);
  }

  /** `deletePort`: an error unless the transaction committed and was answered. */
  method DeletePort(server: Server, cache: Names, bn: Name, pn: Name, fate: Fate) returns (ok: bool, u: Option<Uuid>)
    modifies server
    ensures u.None? ==> pn !in cache.ports.Values && server.db == old(server.db) && !ok
    ensures u.Some? ==> u.value in cache.ports && cache.ports[u.value] == pn
    ensures u.Some? ==> var staged := StageDeletePort(old(server.db), bn, pn, u.value);
              server.db == Settled(old(server.db), staged, fate) && (ok <==> Committed(staged, fate))
  {
    u := UuidForName(cache.ports, pn);
    if u.None? {
      return false, None;
    }
    DeletePortExec(server.db, bn, pn, u.value);
    ghost var staged := StageDeletePort(server.db, bn, pn, u.value);
    var reply := server.Transact(DeletePortOps(bn, pn, u.value), [0, 0], fate);
    RepliesTell(staged, 2, fate);
    if |reply| < 2 {
      return false, u;
    }
    ok := NoErrors(reply);
  }
}
