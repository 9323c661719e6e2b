/** Every run of the plugin's transactions, with a cache that lags behind the database. */
module OvsRuns {
  import opened Common
  import opened OvsdbTables
  import opened OvsdbCache
  import opened Ovsdb

  /** The names by which the plugin looks up uuids. */
  datatype Names = Names(bridges: map<Uuid, Name>, ports: map<Uuid, Name>)

  /** An update notification, as far as it concerns those names. */
  datatype Note = Note(bridges: map<Uuid, Option<Name>>, ports: map<Uuid, Option<Name>>)

  /** The uuids ever given out, those of bridges and ports with their names. */
  datatype Born = Born(bridges: map<Uuid, Name>, ports: map<Uuid, Name>, ifaces: set<Uuid>, opts: set<Uuid>)

  datatype State = State(db: Db, cache: Names, queue: seq<Note>, born: Born)

  function NamesOf(d: Db): Names { Names(d.bridges.name, d.ports.name) }

  function Receive(c: Names, n: Note): Names { Names(Applied(c.bridges, n.bridges), Applied(c.ports, n.ports)) }

  function Row(m: map<Uuid, Name>, u: Uuid): Option<Name> { if u in m then Some(m[u]) else None }

  function Diff(m: map<Uuid, Name>, m': map<Uuid, Name>): map<Uuid, Option<Name>> {
    map u | u in m.Keys + m'.Keys && Row(m, u) != Row(m', u) :: Row(m', u)
  }

  function Notify(c: Names, c': Names): Note { Note(Diff(c.bridges, c'.bridges), Diff(c.ports, c'.ports)) }

  // ---------------------------------------------------------------- steps

  /** The server may refuse a transaction for reasons of its own; the connection may fail before it is
      executed or after. */
  datatype Fate = Answered | Refused | Lost(executed: bool)

  datatype Step =
    | Create(n: Name, datapath: string, opt: BridgeOpt, ids: Ids, fate: Fate)
    | Delete(n: Name, u: Uuid, fate: Fate)
    | Add(bn: Name, pn: Name, kind: string, i: Uuid, p: Uuid, fate: Fate)
    | Remove(bn: Name, pn: Name, u: Uuid, fate: Fate)
    | Deliver

  /** uuids are new; names are as the driver forms them; a uuid to be deleted was found in the cache. */
  predicate Enabled(s: State, step: Step) {
    match step
    case Create(n, _, _, ids, _) =>
      !IsVeth(n) && NewIds(ids, s.born)
    case Delete(n, u, _) => u in s.cache.bridges && s.cache.bridges[u] == n
    case Add(_, pn, _, i, p, _) => IsVeth(pn) && i !in s.born.ifaces && p !in s.born.ports
    case Remove(_, pn, u, _) => IsVeth(pn) && u in s.cache.ports && s.cache.ports[u] == pn
    case Deliver => s.queue != []
  }

  function Staged(d: Db, step: Step): Db
    requires !step.Deliver?
  {
    match step
    case Create(n, datapath, opt, ids, _) => StageCreate(d, n, datapath, opt, ids)
    case Delete(n, u, _) => StageDeleteBridge(d, n, u)
    case Add(bn, pn, kind, i, p, _) => StageAddPort(d, bn, pn, kind, i, p)
    case Remove(bn, pn, u, _) => StageDeletePort(d, bn, pn, u)
  }

  /** The database after a transaction. */
  function Settled(d: Db, staged: Db, fate: Fate): Db {
    if (fate == Answered || fate == Lost(true)) && Commit(staged).Some? then Commit(staged).value else d
  }

  predicate NewIds(ids: Ids, born: Born) {
    ids.iface !in born.ifaces && ids.port !in born.ports && ids.bridge !in born.bridges && ids.opt !in born.opts
  }

  function Grown(born: Born, step: Step): Born {
    match step
    case Create(n, _, _, ids, _) =>
      Born(born.bridges[ids.bridge := n], born.ports[ids.port := n], born.ifaces + {ids.iface}, born.opts + {ids.opt})
    case Add(_, pn, _, i, p, _) => born.(ports := born.ports[p := pn], ifaces := born.ifaces + {i})
    case _ => born
  }

  function Do(s: State, step: Step): State
    requires Enabled(s, step)
  {
    if step.Deliver? then s.(cache := Receive(s.cache, s.queue[0]), queue := s.queue[1..])
    else
      var d := Settled(s.db, Staged(s.db, step), step.fate);
      State(d, s.cache, s.queue + [Notify(NamesOf(s.db), NamesOf(d))], Grown(s.born, step))
  }

  function Start(d: Db, born: Born): State { State(d, NamesOf(d), [], born) }

  function Run(s: State, steps: seq<Step>): Option<State> {
    if steps == [] then Some(s)
    else
      match Run(s, steps[..|steps| - 1])
      case None => None
      case Some(t) => if Enabled(t, steps[|steps| - 1]) then Some(Do(t, steps[|steps| - 1])) else None
  }

  // ---------------------------------------------------------------- the invariant

  predicate Faithful(m: map<Uuid, Name>, born: map<Uuid, Name>) { forall u | u in m :: u in born && born[u] == m[u] }

  predicate FaithfulChange(ch: map<Uuid, Option<Name>>, born: map<Uuid, Name>) {
    forall u | u in ch :: ch[u].Some? ==> u in born && born[u] == ch[u].value
  }

  predicate FaithfulNames(c: Names, born: Born) { Faithful(c.bridges, born.bridges) && Faithful(c.ports, born.ports) }

  predicate FaithfulNote(n: Note, born: Born) { FaithfulChange(n.bridges, born.bridges) && FaithfulChange(n.ports, born.ports) }

  /** What the cache will be once every queued notification has arrived. */
  function Play(c: Names, queue: seq<Note>): Names
    decreases |queue|
  {
    if queue == [] then c else Play(Receive(c, queue[0]), queue[1..])
  }

  // ---------------------------------------------------------------- the cache

  lemma DiffApplies(m: map<Uuid, Name>, m': map<Uuid, Name>)
    ensures Applied(m, Diff(m, m')) == m'
  {
    var a := Applied(m, Diff(m, m'));
    assert forall u :: u in a <==> u in m';
    assert forall u | u in a :: a[u] == m'[u];
  }

  lemma {:induction false} PlayAppend(c: Names, queue: seq<Note>, n: Note)
    ensures Play(c, queue + [n]) == Receive(Play(c, queue), n)
    decreases |queue|
  {
    if queue == [] {
      assert (queue + [n])[1..] == [];
      assert Play(Receive(c, n), []) == Receive(c, n);
    } else {
      assert (queue + [n])[1..] == queue[1..] + [n];
      PlayAppend(Receive(c, queue[0]), queue[1..], n);
    }
  }

  lemma ReceiveFaithful(c: Names, n: Note, born: Born)
    requires FaithfulNames(c, born) && FaithfulNote(n, born)
    ensures FaithfulNames(Receive(c, n), born)
  {}

  lemma NotifyFaithful(c: Names, c': Names, born: Born)
    requires FaithfulNames(c', born)
    ensures FaithfulNote(Notify(c, c'), born)
  {}

  /** Every uuid known before is still known, under the same name. */
  predicate Extends(born: Born, born': Born) {
    && Faithful(born.bridges, born'.bridges) && Faithful(born.ports, born'.ports)
    && born.ifaces <= born'.ifaces && born.opts <= born'.opts
  }

  lemma BornExtends(s: State, step: Step)
    requires Enabled(s, step)
    ensures Extends(s.born, Grown(s.born, step))
  {}

  // ---------------------------------------------------------------- the database

  /** A uuid found in the cache under a name has that name in the database, if it is there at all. */
  lemma CachedHint<I>(t: Table<I>, cached: map<Uuid, Name>, born: map<Uuid, Name>, u: Uuid)
    requires Faithful(t.name, born) && Faithful(cached, born) && u in cached
    ensures Hint(t, cached[u], u)
  {}

  /** d' has no rows that d has not. */
  predicate Shrunk(d: Db, d': Db) {
    && Faithful(d'.bridges.name, d.bridges.name) && Faithful(d'.ports.name, d.ports.name)
    && Rows(d'.ifaces) <= Rows(d.ifaces) && Rows(d'.opts) <= Rows(d.opts)
  }

  lemma KeepFaithful<I>(t: Table<I>, keys: set<Uuid>)
    ensures Faithful(Keep(t, keys).name, t.name) && Rows(Keep(t, keys)) <= Rows(t)
  {}

  lemma WithoutBridgeShrunk(d: Db, b: Uuid)
    requires b in d.bridges.name && b in d.bridges.refs
    ensures Shrunk(d, WithoutBridge(d, b))
  {
    var keys := Rows(d.ports) - d.bridges.refs[b];
    KeepFaithful(d.bridges, Rows(d.bridges) - {b});
    KeepFaithful(d.ports, keys);
    KeepFaithful(d.ifaces, Targets(Keep(d.ports, keys)));
    KeepFaithful(d.opts, Rows(d.opts) - Named(d.opts, d.bridges.name[b]));
  }

  lemma DeleteBridgeOutcome(d: Db, n: Name, u: Uuid)
    requires Good(d) && Hint(d.bridges, n, u)
    ensures var r := Commit(StageDeleteBridge(d, n, u)); r.Some? ==> Good(r.value) && Shrunk(d, r.value)
  {
    if n in d.bridges.name.Values {
      var b := FindNamed(d.bridges, n);
      DeleteBridgeCommits(d, n, u, b);
      WithoutBridgeGood(d, b);
      WithoutBridgeShrunk(d, b);
    } else {
      DeleteNoBridge(d, n, u);
    }
  }

  lemma WithoutPortShrunk(d: Db, b: Uuid, p: Uuid)
    requires b in d.bridges.refs && p in d.ports.refs
    ensures Shrunk(d, WithoutPort(d, b, p))
  {
    KeepFaithful(d.ports, Rows(d.ports) - {p});
    KeepFaithful(d.ifaces, Rows(d.ifaces) - d.ports.refs[p]);
  }

  lemma DeletePortOutcome(d: Db, bn: Name, pn: Name, u: Uuid)
    requires Good(d) && Hint(d.ports, pn, u) && IsVeth(pn)
    ensures var r := Commit(StageDeletePort(d, bn, pn, u)); r.Some? ==> Good(r.value) && Shrunk(d, r.value)
  {
    if pn in d.ports.name.Values {
      var p := FindNamed(d.ports, pn);
      var b := FindOwner(d.bridges, p);
      DeletePortCommits(d, bn, pn, u, p, b);
      WithoutPortGood(d, b, p);
      WithoutPortShrunk(d, b, p);
    } else {
      DeleteNoPort(d, bn, pn, u);
    }
  }

  lemma CreateOutcome(d: Db, n: Name, datapath: string, opt: BridgeOpt, ids: Ids)
    requires Good(d) && Fresh(d, ids) && !IsVeth(n)
    ensures var s := StageCreate(d, n, datapath, opt, ids); Commit(s).Some? ==> Commit(s).value == s && Good(s)
  {
    CreateCommits(d, n, datapath, opt, ids);
    if NameFree(d, n) {
      CreateGood(d, n, datapath, opt, ids);
    }
  }

  /** The names and rows after adding a port: as before, or with the two new rows. */
  predicate PortAdded(d: Db, d': Db, pn: Name, i: Uuid, p: Uuid) {
    d' == d || (d'.bridges.name == d.bridges.name && d'.ports.name == d.ports.name[p := pn]
                && Rows(d'.ifaces) == Rows(d.ifaces) + {i} && d'.opts == d.opts)
  }

  lemma WithPortAdded(d: Db, b: Uuid, pn: Name, kind: string, i: Uuid, p: Uuid)
    requires b in d.bridges.refs && WF(d.ifaces)
    ensures PortAdded(d, WithPort(d, b, pn, kind, i, p), pn, i, p)
  {
    InsertWF(d.ifaces, i, pn, {}, kind);
  }

  lemma AddPortOutcome(d: Db, bn: Name, pn: Name, kind: string, i: Uuid, p: Uuid)
    requires Good(d) && IsVeth(pn) && i !in Rows(d.ifaces) && p !in Rows(d.ports)
    ensures var r := Commit(StageAddPort(d, bn, pn, kind, i, p)); r.Some? ==> Good(r.value) && PortAdded(d, r.value, pn, i, p)
  {
    if bn in d.bridges.name.Values {
      var b := FindNamed(d.bridges, bn);
      AddPortCommits(d, bn, pn, kind, i, p, b);
      WithPortAdded(d, b, pn, kind, i, p);
      if PortNameFree(d, pn) {
        WithPortGood(d, b, pn, kind, i, p);
      }
    } else {
      AddPortNowhere(d, bn, pn, kind, i, p);
    }
  }

  predicate Covered(d: Db, born: Born) {
    FaithfulNames(NamesOf(d), born) && Rows(d.ifaces) <= born.ifaces && Rows(d.opts) <= born.opts
  }

  lemma ShrunkCovered(d: Db, d': Db, born: Born)
    requires Shrunk(d, d') && Covered(d, born)
    ensures Covered(d', born)
  {}

  lemma CoveredGrows(d: Db, born: Born, born': Born)
    requires Covered(d, born) && Extends(born, born')
    ensures Covered(d, born')
  {}

  lemma CreateCovered(d: Db, n: Name, datapath: string, opt: BridgeOpt, ids: Ids, born: Born)
    requires Covered(d, born) && ids.iface in born.ifaces && ids.opt in born.opts
    requires Row(born.ports, ids.port) == Some(n) && Row(born.bridges, ids.bridge) == Some(n)
    ensures Covered(StageCreate(d, n, datapath, opt, ids), born)
  {}

  lemma AddCovered(d: Db, d': Db, pn: Name, i: Uuid, p: Uuid, born: Born)
    requires Covered(d, born) && PortAdded(d, d', pn, i, p) && i in born.ifaces && Row(born.ports, p) == Some(pn)
    ensures Covered(d', born)
  {}

  lemma NewUuids(d: Db, ids: Ids, born: Born)
    requires Covered(d, born) && NewIds(ids, born)
    ensures Fresh(d, ids)
  {}

  /** Good and Covered hold of the database after a transaction if they hold of its outcome. */
  lemma Settles(d: Db, staged: Db, fate: Fate, born: Born)
    requires Good(d) && Covered(d, born)
    requires Commit(staged).Some? ==> Good(Commit(staged).value) && Covered(Commit(staged).value, born)
    ensures Good(Settled(d, staged, fate)) && Covered(Settled(d, staged, fate), born)
  {
    hide Good, Covered, Commit;
  }

  lemma CreateSettles(d: Db, born: Born, n: Name, datapath: string, opt: BridgeOpt, ids: Ids)
    requires Good(d) && Covered(d, born) && !IsVeth(n) && Fresh(d, ids) && ids.iface in born.ifaces && ids.opt in born.opts
    requires Row(born.ports, ids.port) == Some(n) && Row(born.bridges, ids.bridge) == Some(n)
    ensures var r := Commit(StageCreate(d, n, datapath, opt, ids)); r.Some? ==> Good(r.value) && Covered(r.value, born)
  {
    hide *;
    CreateOutcome(d, n, datapath, opt, ids);
    CreateCovered(d, n, datapath, opt, ids, born);
  }

  lemma CreateStep(s: State, step: Step)
    requires step.Create? && Enabled(s, step) && Good(s.db) && Covered(s.db, s.born)
    ensures var d := Settled(s.db, Staged(s.db, step), step.fate); Good(d) && Covered(d, Grown(s.born, step))
  {
    hide Good, Covered, Commit, StageCreate, Settled, Fresh, Extends;
    BornExtends(s, step);
    CoveredGrows(s.db, s.born, Grown(s.born, step));
    NewUuids(s.db, step.ids, s.born);
    CreateSettles(s.db, Grown(s.born, step), step.n, step.datapath, step.opt, step.ids);
    Settles(s.db, Staged(s.db, step), step.fate, Grown(s.born, step));
  }

  lemma DeleteStep(s: State, step: Step)
    requires step.Delete? && Enabled(s, step) && Good(s.db) && Covered(s.db, s.born) && FaithfulNames(s.cache, s.born)
    ensures var d := Settled(s.db, Staged(s.db, step), step.fate); Good(d) && Covered(d, s.born)
  {
    hide Good, Commit, StageDeleteBridge, Settled, Shrunk;
    CachedHint(s.db.bridges, s.cache.bridges, s.born.bridges, step.u);
    DeleteBridgeOutcome(s.db, step.n, step.u);
    var r := Commit(Staged(s.db, step));
    if r.Some? {
      ShrunkCovered(s.db, r.value, s.born);
    }
    Settles(s.db, Staged(s.db, step), step.fate, s.born);
  }

  lemma AddSettles(d: Db, born: Born, bn: Name, pn: Name, kind: string, i: Uuid, p: Uuid)
    requires Good(d) && Covered(d, born) && IsVeth(pn) && i in born.ifaces && Row(born.ports, p) == Some(pn)
    requires i !in Rows(d.ifaces) && p !in Rows(d.ports)
    ensures var r := Commit(StageAddPort(d, bn, pn, kind, i, p)); r.Some? ==> Good(r.value) && Covered(r.value, born)
  {
    AddPortOutcome(d, bn, pn, kind, i, p);
    var r := Commit(StageAddPort(d, bn, pn, kind, i, p));
    if r.Some? {
      AddCovered(d, r.value, pn, i, p, born);
    }
  }

  lemma AddStep(s: State, step: Step)
    requires step.Add? && Enabled(s, step) && Good(s.db) && Covered(s.db, s.born)
    ensures var d := Settled(s.db, Staged(s.db, step), step.fate); Good(d) && Covered(d, Grown(s.born, step))
  {
    hide Good, Covered, Commit, StageAddPort, Settled, Extends;
    BornExtends(s, step);
    NewRows(s.db, step.i, step.p, s.born);
    CoveredGrows(s.db, s.born, Grown(s.born, step));
    AddSettles(s.db, Grown(s.born, step), step.bn, step.pn, step.kind, step.i, step.p);
    Settles(s.db, Staged(s.db, step), step.fate, Grown(s.born, step));
  }

  lemma RemoveStep(s: State, step: Step)
    requires step.Remove? && Enabled(s, step) && Good(s.db) && Covered(s.db, s.born) && FaithfulNames(s.cache, s.born)
    ensures var d := Settled(s.db, Staged(s.db, step), step.fate); Good(d) && Covered(d, s.born)
  {
    hide Good, Commit, StageDeletePort, Settled, Shrunk;
    CachedHint(s.db.ports, s.cache.ports, s.born.ports, step.u);
    DeletePortOutcome(s.db, step.bn, step.pn, step.u);
    var r := Commit(Staged(s.db, step));
    if r.Some? {
      ShrunkCovered(s.db, r.value, s.born);
    }
    Settles(s.db, Staged(s.db, step), step.fate, s.born);
  }

  lemma DbStep(s: State, step: Step)
    requires !step.Deliver? && Enabled(s, step) && Good(s.db) && Covered(s.db, s.born) && FaithfulNames(s.cache, s.born)
    ensures Good(Do(s, step).db) && Covered(Do(s, step).db, Do(s, step).born)
  {
    match step
    case Create(_, _, _, _, _) => CreateStep(s, step);
    case Delete(_, _, _) => DeleteStep(s, step);
    case Add(_, _, _, _, _, _) => AddStep(s, step);
    case Remove(_, _, _, _) => RemoveStep(s, step);
  }

  // ---------------------------------------------------------------- runs

  predicate QueueFaithful(queue: seq<Note>, born: Born) {
    forall i | 0 <= i < |queue| :: FaithfulNote(queue[i], born)
  }

  /** Cache and queue stay true to what was ever given out, and together amount to the database. */
  predicate CacheOk(s: State) {
    FaithfulNames(s.cache, s.born) && QueueFaithful(s.queue, s.born) && Play(s.cache, s.queue) == NamesOf(s.db)
  }

  lemma NoteKept(c: Names, queue: seq<Note>, born: Born, born': Born)
    requires FaithfulNames(c, born) && QueueFaithful(queue, born) && Extends(born, born')
    ensures FaithfulNames(c, born') && QueueFaithful(queue, born')
  {
    forall i | 0 <= i < |queue| ensures FaithfulNote(queue[i], born') {
      assert FaithfulNote(queue[i], born);
    }
  }

  lemma CacheStep(s: State, step: Step)
    requires !step.Deliver? && Enabled(s, step) && CacheOk(s) && FaithfulNames(NamesOf(Do(s, step).db), Do(s, step).born)
    ensures CacheOk(Do(s, step))
  {
    hide FaithfulNames, QueueFaithful, Play, Settled, Staged, Grown, NamesOf, Enabled, Notify;
    var s' := Do(s, step);
    var c, c' := NamesOf(s.db), NamesOf(s'.db);
    BornExtends(s, step);
    NoteKept(s.cache, s.queue, s.born, s'.born);
    NotifyFaithful(c, c', s'.born);
    QueueGrows(s.queue, Notify(c, c'), s'.born);
    PlayAppend(s.cache, s.queue, Notify(c, c'));
    NotifyApplies(c, c');
  }

  lemma NotifyApplies(c: Names, c': Names)
    ensures Receive(c, Notify(c, c')) == c'
  {
    hide Applied, Diff;
    DiffApplies(c.bridges, c'.bridges);
    DiffApplies(c.ports, c'.ports);
  }

  lemma QueueGrows(queue: seq<Note>, note: Note, born: Born)
    requires QueueFaithful(queue, born) && FaithfulNote(note, born)
    ensures QueueFaithful(queue + [note], born)
  {
    hide FaithfulNote;
  }

  lemma DeliverStep(s: State)
    requires CacheOk(s) && s.queue != []
    ensures CacheOk(Do(s, Deliver))
  {
    assert FaithfulNote(s.queue[0], s.born);
    ReceiveFaithful(s.cache, s.queue[0], s.born);
  }

  predicate Inv(s: State) { Good(s.db) && Covered(s.db, s.born) && CacheOk(s) }

  lemma StepInv(s: State, step: Step)
    requires Inv(s) && Enabled(s, step)
    ensures Inv(Do(s, step))
  {
    if step.Deliver? {
      DeliverStep(s);
    } else {
      DbStep(s, step);
      CacheStep(s, step);
    }
  }

  lemma {:induction false} RunInv(s: State, steps: seq<Step>)
    requires Inv(s)
    ensures Run(s, steps).Some? ==> Inv(Run(s, steps).value)
  {
    if steps != [] {
      var front, last := steps[..|steps| - 1], steps[|steps| - 1];
      RunInv(s, front);
      if Run(s, front).Some? && Enabled(Run(s, front).value, last) {
        StepInv(Run(s, front).value, last);
      }
    }
  }

  /** In every run of create, delete, attach and remove steps, however stale the cache, refused, lost or
      committed: the root refers to exactly the Bridge rows, every port set to existing ports, no port is
      in two bridges, Bridge and BridgeOpt rows correspond by name, and a port that is not a veth port is
      there exactly if the bridge of that name is. */
  lemma PluginSafety(d: Db, born: Born, steps: seq<Step>)
    requires Good(d) && Covered(d, born) && Run(Start(d, born), steps).Some?
    ensures var d' := Run(Start(d, born), steps).value.db;
            && d'.root == Rows(d'.bridges)
            && Targets(d'.bridges) <= Rows(d'.ports) && Targets(d'.ports) <= Rows(d'.ifaces)
            && Exclusive(d'.bridges)
            && OptsMatch(d')
            && forall n: Name | !IsVeth(n) :: n in d'.ports.name.Values <==> n in d'.bridges.name.Values
  {
    RunInv(Start(d, born), steps);
    var d' := Run(Start(d, born), steps).value.db;
    forall n: Name | !IsVeth(n) ensures n in d'.ports.name.Values <==> n in d'.bridges.name.Values {
      OwnPortMeansBridge(d', n);
    }
  }

  /** The premise of `addBridge`: a bridge has been created if a port of its name exists. */
  lemma OwnPortMeansBridge(d: Db, n: Name)
    requires Good(d) && !IsVeth(n)
    ensures n in d.ports.name.Values <==> n in d.bridges.name.Values
  {
    if n in d.ports.name.Values {
      var p := FindNamed(d.ports, n);
      var b := FindOwner(d.bridges, p);
      assert OwnPort(d.bridges.name[b], d.bridges.refs[b], d.ports.name);
      assert d.bridges.name[b] == n;
    }
    if n in d.bridges.name.Values {
      var b := FindNamed(d.bridges, n);
      assert OwnPort(d.bridges.name[b], d.bridges.refs[b], d.ports.name);
      OwnPortThere(n, d.bridges.refs[b], d.ports.name);
    }
  }

  lemma OwnPortThere(n: Name, refs: set<Uuid>, ports: map<Uuid, Name>)
    requires OwnPort(n, refs, ports)
    ensures n in ports.Values
  {
    var p :| p in refs && p in ports && ports[p] == n;
  }

  /** Once every notification has arrived, lookups by name in the cache are lookups in the database. */
  lemma CacheCatchesUp(d: Db, born: Born, steps: seq<Step>)
    requires Good(d) && Covered(d, born) && Run(Start(d, born), steps).Some?
    ensures var s := Run(Start(d, born), steps).value; s.queue == [] ==> s.cache == NamesOf(s.db)
  {
    RunInv(Start(d, born), steps);
  }

  // ---------------------------------------------------------------- create then delete

  /** A transaction followed by the arrival of its notification. */
  function Synced(s: State, step: Step): State
    requires Enabled(s, step) && !step.Deliver?
  {
    Do(Do(s, step), Deliver)
  }

  lemma CatchUp(s: State, step: Step)
    requires Inv(s) && s.queue == [] && Enabled(s, step) && !step.Deliver?
    ensures var s2 := Synced(s, step); s2.db == Do(s, step).db && s2.cache == NamesOf(s2.db)
  {
    StepInv(s, step);
    DeliverStep(Do(s, step));
    assert Do(s, step).queue[1..] == [];
  }

  lemma AnsweredDb(s: State, step: Step, staged: Db)
    requires Enabled(s, step) && !step.Deliver? && step.fate == Answered && staged == Staged(s.db, step)
    ensures Commit(staged).Some? ==> Do(s, step).db == Commit(staged).value
  {}

  lemma NamedInCache(m: map<Uuid, Name>, u: Uuid, b: Uuid)
    requires Injective(m) && u in m && b in m && m[u] == m[b]
    ensures u == b
  {}

  lemma DeleteFound(s: State, d: Db, n: Name, b: Uuid, u: Uuid)
    requires s.cache == NamesOf(s.db) && Injective(s.db.bridges.name) && b in s.db.bridges.name && s.db.bridges.name[b] == n
    requires Commit(StageDeleteBridge(s.db, n, b)) == Some(d)
    ensures Enabled(s, Delete(n, b, Answered))
    ensures Enabled(s, Delete(n, u, Answered)) ==> Do(s, Delete(n, u, Answered)).db == d
  {
    if Enabled(s, Delete(n, u, Answered)) {
      NamedInCache(s.cache.bridges, u, b);
    }
  }

  lemma RemoveFound(s: State, d: Db, bn: Name, pn: Name, p: Uuid, u: Uuid)
    requires s.cache == NamesOf(s.db) && Injective(s.db.ports.name) && p in s.db.ports.name && s.db.ports.name[p] == pn
    requires IsVeth(pn) && Commit(StageDeletePort(s.db, bn, pn, p)) == Some(d)
    ensures Enabled(s, Remove(bn, pn, p, Answered))
    ensures Enabled(s, Remove(bn, pn, u, Answered)) ==> Do(s, Remove(bn, pn, u, Answered)).db == d
  {
    if Enabled(s, Remove(bn, pn, u, Answered)) {
      NamedInCache(s.cache.ports, u, p);
    }
  }

  /** With the cache in sync, creating a bridge under a free name and deleting it once its notification
      has arrived finds one uuid only, succeeds, and restores the database exactly. */
  lemma CreateThenDelete(s: State, n: Name, datapath: string, opt: BridgeOpt, ids: Ids, u: Uuid)
    requires Inv(s) && s.queue == [] && NameFree(s.db, n) && Enabled(s, Create(n, datapath, opt, ids, Answered))
    ensures var s2 := Synced(s, Create(n, datapath, opt, ids, Answered));
            && Enabled(s2, Delete(n, ids.bridge, Answered))
            && (Enabled(s2, Delete(n, u, Answered)) ==> Do(s2, Delete(n, u, Answered)).db == s.db)
  {
    CreateSynced(s, n, datapath, opt, ids);
    DeleteFound(Synced(s, Create(n, datapath, opt, ids, Answered)), s.db, n, ids.bridge, u);
  }

  lemma CreateSynced(s: State, n: Name, datapath: string, opt: BridgeOpt, ids: Ids)
    requires Inv(s) && s.queue == [] && NameFree(s.db, n) && Enabled(s, Create(n, datapath, opt, ids, Answered))
    ensures var s2 := Synced(s, Create(n, datapath, opt, ids, Answered));
            && s2.cache == NamesOf(s2.db) && Commit(StageDeleteBridge(s2.db, n, ids.bridge)) == Some(s.db)
            && Injective(s2.db.bridges.name) && ids.bridge in s2.db.bridges.name && s2.db.bridges.name[ids.bridge] == n
  {
    var step := Create(n, datapath, opt, ids, Answered);
    CatchUp(s, step);
    AnsweredDb(s, step, StageCreate(s.db, n, datapath, opt, ids));
    CreatedDb(s.db, s.born, n, datapath, opt, ids);
  }

  lemma CreatedDb(d: Db, born: Born, n: Name, datapath: string, opt: BridgeOpt, ids: Ids)
    requires Good(d) && Covered(d, born) && NewIds(ids, born) && NameFree(d, n)
    ensures var s := StageCreate(d, n, datapath, opt, ids);
            && Commit(s) == Some(s) && Commit(StageDeleteBridge(s, n, ids.bridge)) == Some(d)
            && Injective(s.bridges.name) && ids.bridge in s.bridges.name && s.bridges.name[ids.bridge] == n
  {
    NewUuids(d, ids, born);
    CreateUndone(d, n, datapath, opt, ids);
  }

  lemma CreateUndone(d: Db, n: Name, datapath: string, opt: BridgeOpt, ids: Ids)
    requires Good(d) && Fresh(d, ids) && NameFree(d, n)
    ensures var s := StageCreate(d, n, datapath, opt, ids);
            && Commit(s) == Some(s) && Commit(StageDeleteBridge(s, n, ids.bridge)) == Some(d)
            && Injective(s.bridges.name) && ids.bridge in s.bridges.name && s.bridges.name[ids.bridge] == n
  {
    CreateDeleteBridge(d, n, datapath, opt, ids);
    CreateCommits(d, n, datapath, opt, ids);
  }

  lemma AttachUndone(d: Db, bn: Name, pn: Name, kind: string, i: Uuid, p: Uuid, b: Uuid)
    requires Sound(d) && i !in Rows(d.ifaces) && p !in Rows(d.ports) && b in Rows(d.bridges) && d.bridges.name[b] == bn
    requires PortNameFree(d, pn)
    ensures var s := WithPort(d, b, pn, kind, i, p);
            && Commit(StageAddPort(d, bn, pn, kind, i, p)) == Some(s) && Commit(StageDeletePort(s, bn, pn, p)) == Some(d)
            && Injective(s.ports.name) && p in s.ports.name && s.ports.name[p] == pn
  {
    AddDeletePort(d, bn, pn, kind, i, p, b);
    AddPortCommits(d, bn, pn, kind, i, p, b);
  }

  /** So does attaching a veth port to a bridge and removing it. */
  lemma AttachThenRemove(s: State, bn: Name, pn: Name, kind: string, i: Uuid, p: Uuid, u: Uuid)
    requires Inv(s) && s.queue == [] && PortNameFree(s.db, pn) && bn in s.db.bridges.name.Values
    requires Enabled(s, Add(bn, pn, kind, i, p, Answered))
    ensures var s2 := Synced(s, Add(bn, pn, kind, i, p, Answered));
            && Enabled(s2, Remove(bn, pn, p, Answered))
            && (Enabled(s2, Remove(bn, pn, u, Answered)) ==> Do(s2, Remove(bn, pn, u, Answered)).db == s.db)
  {
    AttachSynced(s, bn, pn, kind, i, p);
    RemoveFound(Synced(s, Add(bn, pn, kind, i, p, Answered)), s.db, bn, pn, p, u);
  }

  lemma AttachSynced(s: State, bn: Name, pn: Name, kind: string, i: Uuid, p: Uuid)
    requires Inv(s) && s.queue == [] && PortNameFree(s.db, pn) && bn in s.db.bridges.name.Values
    requires Enabled(s, Add(bn, pn, kind, i, p, Answered))
    ensures var s2 := Synced(s, Add(bn, pn, kind, i, p, Answered));
            && s2.cache == NamesOf(s2.db) && Commit(StageDeletePort(s2.db, bn, pn, p)) == Some(s.db)
            && Injective(s2.db.ports.name) && p in s2.db.ports.name && s2.db.ports.name[p] == pn
  {
    var step := Add(bn, pn, kind, i, p, Answered);
    CatchUp(s, step);
    AnsweredDb(s, step, StageAddPort(s.db, bn, pn, kind, i, p));
    AttachedDb(s.db, s.born, bn, pn, kind, i, p);
  }

  lemma AttachedDb(d: Db, born: Born, bn: Name, pn: Name, kind: string, i: Uuid, p: Uuid)
    requires Good(d) && Covered(d, born) && i !in born.ifaces && p !in born.ports
    requires PortNameFree(d, pn) && bn in d.bridges.name.Values
    ensures var r := Commit(StageAddPort(d, bn, pn, kind, i, p));
            && r.Some? && Commit(StageDeletePort(r.value, bn, pn, p)) == Some(d)
            && Injective(r.value.ports.name) && p in r.value.ports.name && r.value.ports.name[p] == pn
  {
    NewRows(d, i, p, born);
    var b := FindNamed(d.bridges, bn);
    AttachUndone(d, bn, pn, kind, i, p, b);
  }

  lemma NewRows(d: Db, i: Uuid, p: Uuid, born: Born)
    requires Covered(d, born) && i !in born.ifaces && p !in born.ports
    ensures i !in Rows(d.ifaces) && p !in Rows(d.ports)
  {}
}
