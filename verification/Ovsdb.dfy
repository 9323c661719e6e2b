/** The tables the plugin works on, and what a transaction does to them: the operations in order, then,
    at commit, the check of strong references, the collection of unreferenced rows of tables that are
    not roots, and the check of unique names (RFC 7047, sections 3.2, 4.1.3 and 5.2). */
module Ovsdb {
  import opened Common
  import opened OvsdbTables

  datatype BridgeOpt = BridgeOpt(service: string, network: string)

  /** `root` is the bridges column of the one Open_vSwitch row. Bridges refer to ports and ports to
      interfaces; the rest of a row is its datapath type, nothing, or its type. BridgeOpt is a root table. */
  datatype Db = Db(root: set<Uuid>, bridges: Table<string>, ports: Table<()>, ifaces: Table<string>, opts: Table<BridgeOpt>)

  // ---------------------------------------------------------------- commit

  predicate RefsExist(d: Db) {
    d.root <= Rows(d.bridges) && Targets(d.bridges) <= Rows(d.ports) && Targets(d.ports) <= Rows(d.ifaces)
  }

  function Collect(d: Db): Db {
    var bridges := Keep(d.bridges, d.root);
    var ports := Keep(d.ports, Targets(bridges));
    Db(d.root, bridges, ports, Keep(d.ifaces, Targets(ports)), d.opts)
  }

  predicate UniqueNames(d: Db) { Unique(d.bridges) && Unique(d.ports) && Unique(d.ifaces) }

  function Commit(d: Db): Option<Db> {
    if RefsExist(d) && UniqueNames(Collect(d)) then Some(Collect(d)) else None
  }

  // ---------------------------------------------------------------- the plugin's four transactions

  /** The uuids the server gives to inserted rows. */
  datatype Ids = Ids(iface: Uuid, port: Uuid, bridge: Uuid, opt: Uuid)

  /** Rows named after the bridge in Interface, Port, Bridge and BridgeOpt, referenced from the root. */
  function StageCreate(d: Db, n: Name, datapath: string, opt: BridgeOpt, ids: Ids): Db {
    Db(d.root + {ids.bridge}, Insert(d.bridges, ids.bridge, n, {ids.port}, datapath),
       Insert(d.ports, ids.port, n, {ids.iface}, ()), Insert(d.ifaces, ids.iface, n, {}, "internal"),
       Insert(d.opts, ids.opt, n, {}, opt))
  }

  /** The bridge and its options go by name, the reference by the cached uuid u. */
  function StageDeleteBridge(d: Db, n: Name, u: Uuid): Db {
    d.(root := d.root - {u}, bridges := DropNamed(d.bridges, n), opts := DropNamed(d.opts, n))
  }

  function StageAddPort(d: Db, bn: Name, pn: Name, kind: string, i: Uuid, p: Uuid): Db {
    d.(bridges := GrowNamed(d.bridges, bn, p), ports := Insert(d.ports, p, pn, {i}, ()),
       ifaces := Insert(d.ifaces, i, pn, {}, kind))
  }

  /** The port goes by name, the reference by the cached uuid u. */
  function StageDeletePort(d: Db, bn: Name, pn: Name, u: Uuid): Db {
    d.(bridges := ShrinkNamed(d.bridges, bn, u), ports := DropNamed(d.ports, pn))
  }

  // ---------------------------------------------------------------- what every transaction keeps

  predicate WellFormed(d: Db) { WF(d.bridges) && WF(d.ports) && WF(d.ifaces) && WF(d.opts) }

  /** The root's set is the Bridge rows, every reference exists, every row is referenced, by one row only,
      and names are unique. */
  predicate Sound(d: Db) {
    && WellFormed(d) && d.root == Rows(d.bridges)
    && Targets(d.bridges) == Rows(d.ports) && Exclusive(d.bridges)
    && Targets(d.ports) == Rows(d.ifaces) && Exclusive(d.ports)
    && UniqueNames(d)
  }

  /** Bridges and their options correspond by name. */
  predicate OptsMatch(d: Db) { Unique(d.opts) && d.opts.name.Values == d.bridges.name.Values }

  const VETH: string := "ovs-veth0-"

  predicate IsVeth(n: Name) { |n| >= |VETH| && n[..|VETH|] == VETH }

  /** A bridge has an internal port of its own name; all its other ports are veth ports. */
  predicate OwnPort(n: Name, refs: set<Uuid>, ports: map<Uuid, Name>) {
    && !IsVeth(n)
    && (exists p | p in refs && p in ports :: ports[p] == n)
    && (forall p | p in refs && p in ports :: ports[p] == n || IsVeth(ports[p]))
  }

  predicate OwnPorts(d: Db) {
    forall b | b in d.bridges.name && b in d.bridges.refs :: OwnPort(d.bridges.name[b], d.bridges.refs[b], d.ports.name)
  }

  predicate Good(d: Db) { Sound(d) && OptsMatch(d) && OwnPorts(d) }

  // ---------------------------------------------------------------- commits of sound tables

  /** Rows that refer to each other exactly survive the commit as they are. */
  lemma ExactCommits(d: Db)
    requires Exact(d)
    ensures Commit(d) == if UniqueNames(d) then Some(d) else None
  {
    KeepAll(d.bridges, d.root);
    KeepAll(d.ports, Targets(d.bridges));
    KeepAll(d.ifaces, Targets(d.ports));
  }

  predicate Fresh(d: Db, ids: Ids) {
    ids.iface !in Rows(d.ifaces) && ids.port !in Rows(d.ports) && ids.bridge !in Rows(d.bridges) && ids.opt !in Rows(d.opts)
  }

  predicate NameFree(d: Db, n: Name) {
    n !in d.bridges.name.Values && n !in d.ports.name.Values && n !in d.ifaces.name.Values
  }

  predicate Exact(d: Db) {
    WellFormed(d) && d.root == Rows(d.bridges) && Targets(d.bridges) == Rows(d.ports) && Targets(d.ports) == Rows(d.ifaces)
  }

  lemma CreateExact(d: Db, n: Name, datapath: string, opt: BridgeOpt, ids: Ids)
    requires Exact(d) && Fresh(d, ids)
    ensures Exact(StageCreate(d, n, datapath, opt, ids))
  {
    InsertWF(d.bridges, ids.bridge, n, {ids.port}, datapath);
    InsertWF(d.ports, ids.port, n, {ids.iface}, ());
    InsertWF(d.ifaces, ids.iface, n, {}, "internal");
    InsertWF(d.opts, ids.opt, n, {}, opt);
    TargetsInsert(d.bridges, ids.bridge, n, ids.port, datapath);
    TargetsInsert(d.ports, ids.port, n, ids.iface, ());
  }

  lemma CreateUnique(d: Db, n: Name, datapath: string, opt: BridgeOpt, ids: Ids)
    requires WellFormed(d) && UniqueNames(d) && Fresh(d, ids)
    ensures UniqueNames(StageCreate(d, n, datapath, opt, ids)) <==> NameFree(d, n)
  {
    InsertRows(d.bridges, ids.bridge, n, {ids.port}, datapath);
    InsertRows(d.ports, ids.port, n, {ids.iface}, ());
    InsertRows(d.ifaces, ids.iface, n, {}, "internal");
  }

  /** All four rows are kept, unless the name is in use. */
  lemma CreateCommits(d: Db, n: Name, datapath: string, opt: BridgeOpt, ids: Ids)
    requires Sound(d) && Fresh(d, ids)
    ensures var s := StageCreate(d, n, datapath, opt, ids);
            && Commit(s) == (if NameFree(d, n) then Some(s) else None)
            && (NameFree(d, n) ==> Sound(s))
  {
    CreateExact(d, n, datapath, opt, ids);
    CreateUnique(d, n, datapath, opt, ids);
    ExactCommits(StageCreate(d, n, datapath, opt, ids));
    TargetsInsert(d.bridges, ids.bridge, n, ids.port, datapath);
    TargetsInsert(d.ports, ids.port, n, ids.iface, ());
  }

  lemma CreateGood(d: Db, n: Name, datapath: string, opt: BridgeOpt, ids: Ids)
    requires Good(d) && Fresh(d, ids) && !IsVeth(n) && NameFree(d, n)
    ensures Good(StageCreate(d, n, datapath, opt, ids))
  {
    CreateCommits(d, n, datapath, opt, ids);
    InsertRows(d.opts, ids.opt, n, {}, opt);
    InsertRows(d.bridges, ids.bridge, n, {ids.port}, datapath);
    CreateOwnPorts(d, n, datapath, opt, ids);
  }

  lemma OwnPortFrame(n: Name, refs: set<Uuid>, ports: map<Uuid, Name>, ports': map<Uuid, Name>)
    requires OwnPort(n, refs, ports)
    requires forall p | p in refs :: (p in ports <==> p in ports') && (p in ports ==> ports[p] == ports'[p])
    ensures OwnPort(n, refs, ports')
  {
    var p :| p in refs && p in ports && ports[p] == n;
    assert ports'[p] == n;
  }

  lemma CreateOwnPorts(d: Db, n: Name, datapath: string, opt: BridgeOpt, ids: Ids)
    requires OwnPorts(d) && Fresh(d, ids) && !IsVeth(n) && WF(d.bridges) && Targets(d.bridges) <= Rows(d.ports)
    ensures OwnPorts(StageCreate(d, n, datapath, opt, ids))
  {
    var s := StageCreate(d, n, datapath, opt, ids);
    var ports := s.ports.name;
    forall b | b in s.bridges.name && b in s.bridges.refs ensures OwnPort(s.bridges.name[b], s.bridges.refs[b], ports) {
      if b == ids.bridge {
        assert ids.port in s.bridges.refs[b] && ports[ids.port] == n;
      } else {
        forall p | p in d.bridges.refs[b] ensures p in d.ports.name {
          Target(d.bridges, b, p);
        }
        OwnPortFrame(d.bridges.name[b], d.bridges.refs[b], d.ports.name, ports);
      }
    }
  }

  // ---------------------------------------------------------------- deleting a bridge

  /** The database without bridge b: its options, its ports and their interfaces go with it. */
  function WithoutBridge(d: Db, b: Uuid): Db
    requires b in d.bridges.name && b in d.bridges.refs
  {
    var ports := Keep(d.ports, Rows(d.ports) - d.bridges.refs[b]);
    Db(d.root - {b}, Without(d.bridges, b), ports, Keep(d.ifaces, Targets(ports)), DropNamed(d.opts, d.bridges.name[b]))
  }

  lemma WithoutBridgeSound(d: Db, b: Uuid)
    requires Sound(d) && b in Rows(d.bridges)
    ensures Sound(WithoutBridge(d, b))
  {
    var keys := Rows(d.ports) - d.bridges.refs[b];
    TargetsWithout(d.bridges, b);
    KeepSome(d.bridges, Rows(d.bridges) - {b});
    KeepSome(d.ports, keys);
    KeepSome(d.ifaces, Targets(Keep(d.ports, keys)));
    KeepSome(d.opts, Rows(d.opts) - Named(d.opts, d.bridges.name[b]));
  }

  /** If there is a bridge called n, deleting it commits exactly if the cached uuid is its own. */
  lemma DeleteBridgeCommits(d: Db, n: Name, u: Uuid, b: Uuid)
    requires Sound(d) && b in Rows(d.bridges) && d.bridges.name[b] == n
    ensures Commit(StageDeleteBridge(d, n, u)) == if u == b then Some(WithoutBridge(d, b)) else None
  {
    var s := StageDeleteBridge(d, n, u);
    NamedOne(d.bridges, n, b);
    KeepRows(d.bridges, Rows(d.bridges) - {b});
    if u == b {
      TargetsWithout(d.bridges, b);
      KeepAll(s.bridges, s.root);
      WithoutBridgeSound(d, b);
    } else {
      assert b in s.root && b !in Rows(s.bridges);
    }
  }

  /** The cached uuid, if it still names a row, names one called n. */
  predicate Hint<I>(t: Table<I>, n: Name, u: Uuid) { u in t.name ==> t.name[u] == n }

  lemma HintMisses<I>(t: Table<I>, n: Name, u: Uuid)
    requires Hint(t, n, u) && n !in t.name.Values
    ensures u !in t.name
  {}

  lemma NotThere(s: set<Uuid>, u: Uuid)
    requires u !in s
    ensures s - {u} == s
  {}

  /** If there is none, it commits and changes nothing. */
  lemma DeleteNoBridge(d: Db, n: Name, u: Uuid)
    requires Exact(d) && UniqueNames(d) && OptsMatch(d) && n !in d.bridges.name.Values && Hint(d.bridges, n, u)
    ensures Commit(StageDeleteBridge(d, n, u)) == Some(d)
  {
    NamedNone(d.bridges, n, 0);
    NamedNone(d.opts, n, 0);
    HintMisses(d.bridges, n, u);
    NotThere(d.root, u);
    ExactCommits(d);
  }

  lemma WithoutBridgeOwn(d: Db, b: Uuid)
    requires WF(d.bridges) && WF(d.ports) && Exclusive(d.bridges) && OwnPorts(d) && b in Rows(d.bridges)
    ensures OwnPorts(WithoutBridge(d, b))
  {
    var w := WithoutBridge(d, b);
    forall a | a in w.bridges.name && a in w.bridges.refs ensures OwnPort(w.bridges.name[a], w.bridges.refs[a], w.ports.name) {
      assert OwnPort(d.bridges.name[a], d.bridges.refs[a], d.ports.name);
      OwnPortFrame(d.bridges.name[a], d.bridges.refs[a], d.ports.name, w.ports.name);
    }
  }

  lemma WithoutBridgeGood(d: Db, b: Uuid)
    requires Good(d) && b in Rows(d.bridges)
    ensures Good(WithoutBridge(d, b))
  {
    WithoutBridgeSound(d, b);
    NamesWithout(d.bridges, b);
    NamesDropped(d.opts, d.bridges.name[b]);
    KeepRows(d.opts, Rows(d.opts) - Named(d.opts, d.bridges.name[b]));
    WithoutBridgeOwn(d, b);
  }

  // ---------------------------------------------------------------- adding a port

  function WithPort(d: Db, b: Uuid, pn: Name, kind: string, i: Uuid, p: Uuid): Db
    requires b in d.bridges.refs
  {
    d.(bridges := Refer(d.bridges, b, d.bridges.refs[b] + {p}), ports := Insert(d.ports, p, pn, {i}, ()),
       ifaces := Insert(d.ifaces, i, pn, {}, kind))
  }

  predicate PortNameFree(d: Db, n: Name) { n !in d.ports.name.Values && n !in d.ifaces.name.Values }

  lemma WithPortExact(d: Db, b: Uuid, pn: Name, kind: string, i: Uuid, p: Uuid)
    requires Exact(d) && b in Rows(d.bridges) && i !in Rows(d.ifaces) && p !in Rows(d.ports)
    ensures Exact(WithPort(d, b, pn, kind, i, p))
  {
    InsertWF(d.ports, p, pn, {i}, ());
    InsertWF(d.ifaces, i, pn, {}, kind);
    TargetsGrow(d.bridges, b, p);
    TargetsInsert(d.ports, p, pn, i, ());
  }

  /** The port joins the one bridge of that name, unless its name is in use. */
  lemma AddPortCommits(d: Db, bn: Name, pn: Name, kind: string, i: Uuid, p: Uuid, b: Uuid)
    requires Sound(d) && i !in Rows(d.ifaces) && p !in Rows(d.ports) && b in Rows(d.bridges) && d.bridges.name[b] == bn
    ensures Commit(StageAddPort(d, bn, pn, kind, i, p)) ==
            if PortNameFree(d, pn) then Some(WithPort(d, b, pn, kind, i, p)) else None
    ensures PortNameFree(d, pn) ==> Sound(WithPort(d, b, pn, kind, i, p))
  {
    NamedOne(d.bridges, bn, b);
    GrowOne(d.bridges, bn, b, p);
    WithPortExact(d, b, pn, kind, i, p);
    ExactCommits(WithPort(d, b, pn, kind, i, p));
    InsertRows(d.ports, p, pn, {i}, ());
    InsertRows(d.ifaces, i, pn, {}, kind);
    TargetsGrow(d.bridges, b, p);
    TargetsInsert(d.ports, p, pn, i, ());
  }

  /** Without such a bridge the new rows are collected again: success is reported, nothing has changed. */
  lemma AddPortNowhere(d: Db, bn: Name, pn: Name, kind: string, i: Uuid, p: Uuid)
    requires Sound(d) && i !in Rows(d.ifaces) && p !in Rows(d.ports) && bn !in d.bridges.name.Values
    ensures Commit(StageAddPort(d, bn, pn, kind, i, p)) == Some(d)
  {
    NamedNone(d.bridges, bn, p);
    InsertWF(d.ports, p, pn, {i}, ());
    InsertWF(d.ifaces, i, pn, {}, kind);
    TargetsInsert(d.ports, p, pn, i, ());
    KeepAll(d.bridges, d.root);
    KeepOld(d.ports, p, pn, {i}, ());
    KeepOld(d.ifaces, i, pn, {}, kind);
    assert Collect(StageAddPort(d, bn, pn, kind, i, p)) == d;
  }

  lemma WithPortOwn(d: Db, b: Uuid, pn: Name, kind: string, i: Uuid, p: Uuid)
    requires WF(d.bridges) && Targets(d.bridges) <= Rows(d.ports) && OwnPorts(d) && b in Rows(d.bridges)
    requires p !in Rows(d.ports) && IsVeth(pn)
    ensures OwnPorts(WithPort(d, b, pn, kind, i, p))
  {
    var w := WithPort(d, b, pn, kind, i, p);
    forall a | a in w.bridges.name && a in w.bridges.refs ensures OwnPort(w.bridges.name[a], w.bridges.refs[a], w.ports.name) {
      assert OwnPort(d.bridges.name[a], d.bridges.refs[a], d.ports.name);
      forall q | q in d.bridges.refs[a] ensures q in d.ports.name {
        Target(d.bridges, a, q);
      }
      OwnPortFrame(d.bridges.name[a], d.bridges.refs[a], d.ports.name, w.ports.name);
      if a == b {
        OwnPortGrow(d.bridges.name[a], d.bridges.refs[a], w.ports.name, p);
      }
    }
  }

  lemma OwnPortGrow(n: Name, refs: set<Uuid>, ports: map<Uuid, Name>, p: Uuid)
    requires OwnPort(n, refs, ports) && p in ports && IsVeth(ports[p])
    ensures OwnPort(n, refs + {p}, ports)
  {
    var q :| q in refs && q in ports && ports[q] == n;
    assert q in refs + {p};
  }

  lemma WithPortGood(d: Db, b: Uuid, pn: Name, kind: string, i: Uuid, p: Uuid)
    requires Good(d) && i !in Rows(d.ifaces) && p !in Rows(d.ports) && b in Rows(d.bridges)
    requires IsVeth(pn) && PortNameFree(d, pn)
    ensures Good(WithPort(d, b, pn, kind, i, p))
  {
    AddPortCommits(d, d.bridges.name[b], pn, kind, i, p, b);
    WithPortOwn(d, b, pn, kind, i, p);
  }

  // ---------------------------------------------------------------- deleting a port

  function WithoutPort(d: Db, b: Uuid, p: Uuid): Db
    requires b in d.bridges.refs && p in d.ports.refs
  {
    d.(bridges := Refer(d.bridges, b, d.bridges.refs[b] - {p}), ports := Without(d.ports, p),
       ifaces := Keep(d.ifaces, Rows(d.ifaces) - d.ports.refs[p]))
  }

  lemma WithoutPortSound(d: Db, b: Uuid, p: Uuid)
    requires Sound(d) && b in Rows(d.bridges) && p in d.bridges.refs[b] && p in Rows(d.ports)
    ensures Sound(WithoutPort(d, b, p))
  {
    TargetsShrink(d.bridges, b, p);
    TargetsWithout(d.ports, p);
    ReferWF(d.bridges, b, d.bridges.refs[b] - {p});
    KeepSome(d.ports, Rows(d.ports) - {p});
    KeepSome(d.ifaces, Rows(d.ifaces) - d.ports.refs[p]);
  }

  /** A port called pn, held by bridge b, is deleted exactly if the cached uuid is its own and bn is the
      name of b; otherwise the transaction is refused, because b would refer to a missing row. */
  lemma DeletePortCommits(d: Db, bn: Name, pn: Name, u: Uuid, p: Uuid, b: Uuid)
    requires Sound(d) && p in Rows(d.ports) && d.ports.name[p] == pn && b in Rows(d.bridges) && p in d.bridges.refs[b]
    ensures Commit(StageDeletePort(d, bn, pn, u)) ==
            if u == p && d.bridges.name[b] == bn then Some(WithoutPort(d, b, p)) else None
  {
    NamedOne(d.ports, pn, p);
    KeepRows(d.ports, Rows(d.ports) - {p});
    if u == p && d.bridges.name[b] == bn {
      DeletePortHit(d, bn, pn, p, b);
    } else {
      DeletePortMiss(d, bn, pn, u, p, b);
    }
  }

  lemma DeletePortHit(d: Db, bn: Name, pn: Name, p: Uuid, b: Uuid)
    requires Sound(d) && p in Rows(d.ports) && b in Rows(d.bridges) && p in d.bridges.refs[b]
    requires d.bridges.name[b] == bn && DropNamed(d.ports, pn) == Without(d.ports, p)
    ensures Commit(StageDeletePort(d, bn, pn, p)) == Some(WithoutPort(d, b, p))
  {
    NamedOne(d.bridges, bn, b);
    ShrinkOne(d.bridges, bn, b, p);
    WithoutPortSound(d, b, p);
    var s, w := StageDeletePort(d, bn, pn, p), WithoutPort(d, b, p);
    ReferWF(d.bridges, b, d.bridges.refs[b] - {p});
    KeepSome(d.ports, Rows(d.ports) - {p});
    TargetsWithout(d.ports, p);
    KeepAll(s.bridges, s.root);
    KeepAll(s.ports, Targets(s.bridges));
    assert Collect(s) == w;
  }

  lemma DeletePortMiss(d: Db, bn: Name, pn: Name, u: Uuid, p: Uuid, b: Uuid)
    requires WF(d.bridges) && b in Rows(d.bridges) && p in d.bridges.refs[b] && (u != p || d.bridges.name[b] != bn)
    requires p !in Rows(DropNamed(d.ports, pn))
    ensures Commit(StageDeletePort(d, bn, pn, u)) == None
  {
    var s := StageDeletePort(d, bn, pn, u);
    assert b in s.bridges.refs && p in s.bridges.refs[b];
    Target(s.bridges, b, p);
  }

  lemma DeleteNoPort(d: Db, bn: Name, pn: Name, u: Uuid)
    requires Sound(d) && pn !in d.ports.name.Values && Hint(d.ports, pn, u)
    ensures Commit(StageDeletePort(d, bn, pn, u)) == Some(d)
  {
    NamedNone(d.ports, pn, 0);
    HintMisses(d.ports, pn, u);
    ShrinkMissing(d.bridges, bn, u);
    ExactCommits(d);
  }

  lemma ShrinkMissing<I>(t: Table<I>, n: Name, u: Uuid)
    requires u !in Targets(t)
    ensures ShrinkNamed(t, n, u) == t
  {
    forall b | b in t.refs ensures t.refs[b] - {u} == t.refs[b] {
      if u in t.refs[b] {
        Target(t, b, u);
        assert false;
      }
    }
    assert ShrinkNamed(t, n, u).refs == t.refs;
  }

  lemma WithoutPortGood(d: Db, b: Uuid, p: Uuid)
    requires Good(d) && b in Rows(d.bridges) && p in d.bridges.refs[b] && p in Rows(d.ports) && IsVeth(d.ports.name[p])
    ensures Good(WithoutPort(d, b, p))
  {
    WithoutPortSound(d, b, p);
    WithoutPortOwn(d, b, p);
  }

  lemma WithoutPortOwn(d: Db, b: Uuid, p: Uuid)
    requires WF(d.bridges) && WF(d.ports) && OwnPorts(d) && Exclusive(d.bridges) && b in Rows(d.bridges)
    requires p in d.bridges.refs[b] && p in Rows(d.ports) && IsVeth(d.ports.name[p])
    ensures OwnPorts(WithoutPort(d, b, p))
  {
    var w := WithoutPort(d, b, p);
    forall a | a in w.bridges.name && a in w.bridges.refs ensures OwnPort(w.bridges.name[a], w.bridges.refs[a], w.ports.name) {
      assert OwnPort(d.bridges.name[a], d.bridges.refs[a], d.ports.name);
      if a == b {
        OwnPortShrink(d.bridges.name[a], d.bridges.refs[a], d.ports.name, p);
      } else {
        assert p !in d.bridges.refs[a];
      }
      OwnPortFrame(d.bridges.name[a], w.bridges.refs[a], d.ports.name, w.ports.name);
    }
  }

  lemma OwnPortShrink(n: Name, refs: set<Uuid>, ports: map<Uuid, Name>, p: Uuid)
    requires OwnPort(n, refs, ports) && p in ports && IsVeth(ports[p])
    ensures OwnPort(n, refs - {p}, ports)
  {
    var q :| q in refs && q in ports && ports[q] == n;
    assert q in refs - {p};
  }

  // ---------------------------------------------------------------- create then delete

  /** Creating a bridge under a free name and deleting it with its own uuid restores the database. */
  lemma CreateDeleteBridge(d: Db, n: Name, datapath: string, opt: BridgeOpt, ids: Ids)
    requires Good(d) && Fresh(d, ids) && NameFree(d, n)
    ensures var s := StageCreate(d, n, datapath, opt, ids);
            Commit(s) == Some(s) && Commit(StageDeleteBridge(s, n, ids.bridge)) == Some(d)
  {
    var s := StageCreate(d, n, datapath, opt, ids);
    CreateCommits(d, n, datapath, opt, ids);
    DeleteBridgeCommits(s, n, ids.bridge, ids.bridge);
    UndoCreate(d, n, datapath, opt, ids);
  }

  lemma UndoCreate(d: Db, n: Name, datapath: string, opt: BridgeOpt, ids: Ids)
    requires Exact(d) && OptsMatch(d) && Fresh(d, ids) && NameFree(d, n)
    ensures WithoutBridge(StageCreate(d, n, datapath, opt, ids), ids.bridge) == d
  {
    var s := StageCreate(d, n, datapath, opt, ids);
    KeepOld(d.bridges, ids.bridge, n, {ids.port}, datapath);
    KeepOld(d.ports, ids.port, n, {ids.iface}, ());
    KeepOld(d.ifaces, ids.iface, n, {}, "internal");
    KeepOld(d.opts, ids.opt, n, {}, opt);
    assert s.bridges.refs[ids.bridge] == {ids.port} && Rows(s.ports) - {ids.port} == Rows(d.ports);
    assert d.root + {ids.bridge} - {ids.bridge} == d.root;
    InsertRows(d.opts, ids.opt, n, {}, opt);
    NamedOne(s.opts, n, ids.opt);
  }

  /** Attaching a port and removing it with its own uuid restores the database. */
  lemma AddDeletePort(d: Db, bn: Name, pn: Name, kind: string, i: Uuid, p: Uuid, b: Uuid)
    requires Sound(d) && i !in Rows(d.ifaces) && p !in Rows(d.ports) && b in Rows(d.bridges) && d.bridges.name[b] == bn
    requires PortNameFree(d, pn)
    ensures var s := WithPort(d, b, pn, kind, i, p);
            Commit(StageAddPort(d, bn, pn, kind, i, p)) == Some(s) && Commit(StageDeletePort(s, bn, pn, p)) == Some(d)
  {
    AddPortCommits(d, bn, pn, kind, i, p, b);
    DeletePortCommits(WithPort(d, b, pn, kind, i, p), bn, pn, p, p, b);
    UndoAdd(d, pn, kind, i, p, b);
  }

  lemma UndoAdd(d: Db, pn: Name, kind: string, i: Uuid, p: Uuid, b: Uuid)
    requires Exact(d) && i !in Rows(d.ifaces) && p !in Rows(d.ports) && b in Rows(d.bridges)
    ensures WithoutPort(WithPort(d, b, pn, kind, i, p), b, p) == d
  {
    var s := WithPort(d, b, pn, kind, i, p);
    if p in d.bridges.refs[b] {
      Target(d.bridges, b, p);
      assert false;
    }
    ReferBack(d.bridges, b, p);
    KeepOld(d.ports, p, pn, {i}, ());
    KeepOld(d.ifaces, i, pn, {}, kind);
    assert Rows(s.ifaces) - {i} == Rows(d.ifaces);
  }

  // ---------------------------------------------------------------- row by row

  /** Row u holds these columns. */
  predicate Has<I(==)>(t: Table<I>, u: Uuid, n: Name, s: set<Uuid>, i: I) {
    u in t.name && t.name[u] == n && u in t.refs && t.refs[u] == s && u in t.info && t.info[u] == i
  }

  /** Row u is as it was. */
  predicate SameRow<I(==)>(t: Table<I>, t': Table<I>, u: Uuid) {
    u in t.name && u in t.refs && u in t.info && Has(t', u, t.name[u], t.refs[u], t.info[u])
  }

  /** A bridge is as it was, with all its ports and their interfaces. */
  predicate SameBridge(d: Db, d': Db, b: Uuid) {
    && SameRow(d.bridges, d'.bridges, b) && (b in d.root <==> b in d'.root)
    && forall p | p in d.bridges.refs[b] :: SamePort(d, d', p)
  }

  predicate SamePort(d: Db, d': Db, p: Uuid) {
    SameRow(d.ports, d'.ports, p) && forall i | i in d.ports.refs[p] :: SameRow(d.ifaces, d'.ifaces, i)
  }

  lemma KeptRow<I>(t: Table<I>, keys: set<Uuid>, u: Uuid)
    requires WF(t) && u in Rows(t) && u in keys
    ensures SameRow(t, Keep(t, keys), u)
  {}

  lemma OtherRow<I>(t: Table<I>, u: Uuid, b: Uuid, s: set<Uuid>, n: Name, i: I)
    requires WF(t) && u in Rows(t) && u != b
    ensures SameRow(t, Refer(t, b, s), u) && SameRow(t, Insert(t, b, n, s, i), u)
  {}

  lemma NotShared<I>(t: Table<I>, p: Uuid, q: Uuid, k: Uuid)
    requires Exclusive(t) && p in t.refs && q in t.refs && p != q && k in t.refs[q]
    ensures k !in t.refs[p]
  {}

  lemma SoundParts(d: Db)
    requires Sound(d)
    ensures WF(d.bridges) && WF(d.ports) && WF(d.ifaces) && WF(d.opts) && Exclusive(d.bridges) && Exclusive(d.ports)
    ensures Targets(d.bridges) == Rows(d.ports) && Targets(d.ports) == Rows(d.ifaces) && Unique(d.bridges) && d.root == Rows(d.bridges)
  {
    hide WF, Exclusive, Targets, Rows, Unique;
  }

  /** Of a deleted bridge nothing is left: no row or record of its name and none of its ports; every other
      bridge is as it was. */
  lemma BridgeRemoved(d: Db, b: Uuid, other: Uuid)
    requires Good(d) && b in Rows(d.bridges)
    ensures var d', n := WithoutBridge(d, b), d.bridges.name[b];
            && b !in Rows(d'.bridges) && b !in d'.root && n !in d'.bridges.name.Values && n !in d'.opts.name.Values
            && (forall p | p in d.bridges.refs[b] :: p !in Rows(d'.ports))
            && (other in Rows(d.bridges) && other != b ==> SameBridge(d, d', other))
  {
    hide Good, Sound, Exclusive, Targets, SamePort, SameRow, WF;
    GoodParts(d);
    SoundParts(d);
    BridgeGone(d, b);
    if other in Rows(d.bridges) && other != b {
      OtherBridge(d, b, other);
    }
  }

  lemma GoodParts(d: Db)
    requires Good(d)
    ensures Sound(d)
  {
    hide Sound, OptsMatch, OwnPorts;
  }

  lemma BridgeGone(d: Db, b: Uuid)
    requires WF(d.bridges) && Unique(d.bridges) && b in Rows(d.bridges)
    ensures var d', n := WithoutBridge(d, b), d.bridges.name[b];
            && b !in Rows(d'.bridges) && b !in d'.root && n !in d'.bridges.name.Values && n !in d'.opts.name.Values
            && forall p | p in d.bridges.refs[b] :: p !in Rows(d'.ports)
  {
    hide Targets;
  }

  lemma OtherBridge(d: Db, b: Uuid, other: Uuid)
    requires Sound(d) && b in Rows(d.bridges) && other in Rows(d.bridges) && other != b
    ensures SameBridge(d, WithoutBridge(d, b), other)
  {
    hide Sound, Exclusive, Targets, SamePort, SameRow, WF, Keep;
    SoundParts(d);
    RefsOfRows(d.bridges);
    KeptRow(d.bridges, Rows(d.bridges) - {b}, other);
    forall p | p in d.bridges.refs[other] ensures SamePort(d, WithoutBridge(d, b), p) {
      Target(d.bridges, other, p);
      NotShared(d.bridges, b, other, p);
      KeptPort(d, WithoutBridge(d, b), Rows(d.ports) - d.bridges.refs[b], p);
    }
  }

  lemma RefsOfRows<I>(t: Table<I>)
    requires WF(t)
    ensures t.refs.Keys == Rows(t) && t.info.Keys == Rows(t)
  {}

  lemma KeptPort(d: Db, d': Db, keys: set<Uuid>, p: Uuid)
    requires WF(d.ports) && WF(d.ifaces) && Targets(d.ports) == Rows(d.ifaces) && p in Rows(d.ports) && p in keys
    requires d'.ports == Keep(d.ports, keys) && d'.ifaces == Keep(d.ifaces, Targets(d'.ports))
    ensures SamePort(d, d', p)
  {
    hide Targets, SameRow;
    var ports := Keep(d.ports, keys);
    KeptRow(d.ports, keys, p);
    forall i | i in d.ports.refs[p] ensures SameRow(d.ifaces, Keep(d.ifaces, Targets(ports)), i) {
      Target(d.ports, p, i);
      Target(ports, p, i);
      KeptRow(d.ifaces, Targets(ports), i);
    }
  }

  /** An attached port is there with its interface, in its bridge, and every other port is as it was. */
  lemma PortAttached(d: Db, b: Uuid, pn: Name, kind: string, i: Uuid, p: Uuid, other: Uuid)
    requires Sound(d) && b in Rows(d.bridges) && i !in Rows(d.ifaces) && p !in Rows(d.ports)
    ensures b in d.bridges.refs && b in d.bridges.info
    ensures var d' := WithPort(d, b, pn, kind, i, p);
            && Has(d'.ports, p, pn, {i}, ()) && Has(d'.ifaces, i, pn, {}, kind)
            && Has(d'.bridges, b, d.bridges.name[b], d.bridges.refs[b] + {p}, d.bridges.info[b])
            && (other in Rows(d.ports) ==> SamePort(d, d', other))
            && (other in Rows(d.bridges) && other != b ==> SameRow(d.bridges, d'.bridges, other))
  {
    hide Sound, Exclusive, Targets, SameRow, WF;
    SoundParts(d);
    RefsOfRows(d.bridges);
    if other in Rows(d.ports) {
      hide SamePort;
      OldPort(d, b, pn, kind, i, p, other);
    }
    if other in Rows(d.bridges) && other != b {
      OtherRow(d.bridges, other, b, d.bridges.refs[b] + {p}, pn, kind);
    }
  }

  lemma OldPort(d: Db, b: Uuid, pn: Name, kind: string, i: Uuid, p: Uuid, other: Uuid)
    requires Sound(d) && b in d.bridges.refs && i !in Rows(d.ifaces) && p !in Rows(d.ports) && other in Rows(d.ports)
    ensures SamePort(d, WithPort(d, b, pn, kind, i, p), other)
  {
    hide Sound, Exclusive, Targets, SameRow, WF, Insert;
    SoundParts(d);
    RefsOfRows(d.ports);
    OtherRow(d.ports, other, p, {i}, pn, ());
    forall k | k in d.ports.refs[other] ensures SameRow(d.ifaces, Insert(d.ifaces, i, pn, {}, kind), k) {
      Target(d.ports, other, k);
      OtherRow(d.ifaces, k, i, {}, pn, kind);
    }
  }

  /** Of a removed port nothing is left, and every other port is as it was. */
  lemma PortRemoved(d: Db, b: Uuid, p: Uuid, other: Uuid)
    requires Sound(d) && b in Rows(d.bridges) && p in Rows(d.ports) && b in d.bridges.refs && p in d.bridges.refs[b]
    ensures p in d.ports.refs
    ensures var d' := WithoutPort(d, b, p);
            && p !in Rows(d'.ports) && p !in d'.bridges.refs[b] && (forall i | i in d.ports.refs[p] :: i !in Rows(d'.ifaces))
            && (other in Rows(d.ports) && other != p ==> SamePort(d, d', other))
            && (other in Rows(d.bridges) && other != b ==> SameRow(d.bridges, d'.bridges, other))
  {
    hide Sound, Exclusive, Targets, SameRow, WF;
    SoundParts(d);
    RefsOfRows(d.ports);
    if other in Rows(d.ports) && other != p {
      OtherPort(d, b, p, other);
    }
    if other in Rows(d.bridges) && other != b {
      OtherRow(d.bridges, other, b, d.bridges.refs[b] - {p}, "", "");
    }
  }

  lemma OtherPort(d: Db, b: Uuid, p: Uuid, other: Uuid)
    requires Sound(d) && b in d.bridges.refs && p in d.ports.refs && other in Rows(d.ports) && other != p
    ensures SamePort(d, WithoutPort(d, b, p), other)
  {
    hide Sound, Exclusive, Targets, SameRow, WF, Keep;
    SoundParts(d);
    RefsOfRows(d.ports);
    KeptRow(d.ports, Rows(d.ports) - {p}, other);
    var ifaces := Keep(d.ifaces, Rows(d.ifaces) - d.ports.refs[p]);
    forall k | k in d.ports.refs[other] ensures SameRow(d.ifaces, ifaces, k) {
      Target(d.ports, other, k);
      NotShared(d.ports, p, other, k);
      KeptRow(d.ifaces, Rows(d.ifaces) - d.ports.refs[p], k);
    }
  }

  const EMPTY: Db := Db({}, Table(map[], map[], map[]), Table(map[], map[], map[]), Table(map[], map[], map[]), Table(map[], map[], map[]))

  /** The database of a new installation. */
  lemma EmptyGood()
    ensures Good(EMPTY)
  {}
}
