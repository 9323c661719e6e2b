/** Networks over runs (driver.go): each is created under a bridge name chosen for it, and found again by
    its id through the BridgeOpt table. */
module OvsNetworks {
  import opened Common
  import opened OvsdbTables
  import opened Ovsdb
  import opened OvsRuns

  type Id = string

  // ---------------------------------------------------------------- names

  /** `truncateID`: the slice panics on shorter ids. */
  function TruncateId(id: Id): Option<string> { if |id| < 5 then None else Some(id[..5]) }

  /** `getBridgeName`: an explicit option wins, then the network's name with the truncated id, then a prefix. */
  function BridgeName(id: Id, network: string, option: Option<Name>): Option<Name> {
    if TruncateId(id).None? then None
    else if option.Some? then option
    else if |network| > 0 then Some(network + "-" + TruncateId(id).value)
    else Some("ovsbr-" + TruncateId(id).value)
  }

  /** Without an option, two networks of one name share a bridge name exactly if their ids agree in the
      first five characters. */
  lemma SameBridgeName(a: Id, b: Id, network: string)
    requires |a| >= 5 && |b| >= 5
    ensures BridgeName(a, network, None) == BridgeName(b, network, None) <==> a[..5] == b[..5]
  {
    var p := if |network| > 0 then network + "-" else "ovsbr-";
    assert BridgeName(a, network, None).value == p + a[..5] && BridgeName(b, network, None).value == p + b[..5];
    assert (p + a[..5])[|p|..] == a[..5] && (p + b[..5])[|p|..] == b[..5];
  }

  /** The last five characters of a default name are the truncated id. */
  lemma DefaultSuffix(id: Id, network: string)
    requires |id| >= 5
    ensures var n := BridgeName(id, network, None); n.Some? && |n.value| >= 5 && n.value[|n.value| - 5..] == id[..5]
  {
    var p := if |network| > 0 then network + "-" else "ovsbr-";
    assert BridgeName(id, network, None).value == p + id[..5];
    assert (p + id[..5])[|p|..] == id[..5];
  }

  // ---------------------------------------------------------------- lookups

  /** The bridge names recorded for a network: `getBridgeNameByNetworkId` returns one of them, or reports
      that there is no record. */
  function Records(d: Db, id: Id): set<Name> {
    set o | o in d.opts.name && o in d.opts.info && d.opts.info[o].network == id :: d.opts.name[o]
  }

  // ---------------------------------------------------------------- steps

  /** Where CreateNetwork or DeleteNetwork stands for a network, or how it ended. */
  datatype Phase =
    | Absent
    | Making                             // addBridge has seen no port of the bridge's name
    | Made                               // the creation has been sent
    | Live                               // CreateNetwork succeeded
    | Failed                             // CreateNetwork reported an error
    | Dropping(n: Name, was: Phase)      // DeleteNetwork has looked up the bridge
    | Gone(fate: Fate, dropped: bool)    // DeleteNetwork succeeded; `dropped` if its transaction was executed

  /** `maker` records which network made the bridge of a name, until that bridge is deleted. */
  datatype Net = Net(ovs: State, phases: map<Id, Phase>, maker: map<Name, Id>)

  datatype NetStep =
    | Ask(id: Id, fate: Fate, rest: bool)                // the first select of addBridge; `rest`: the rest of initBridge
    | Make(id: Id, datapath: string, service: string, ids: Ids, fate: Fate)
    | AskAgain(id: Id, fate: Fate, rest: bool)           // the second select, and the rest of initBridge
    | LookUp(id: Id, n: Name, fate: Fate)
    | Drop(id: Id, u: Uuid, fate: Fate)
    | DropUnknown(id: Id)                                // the cache does not know the bridge
    | Other(step: Step)                                  // Join, Leave and notifications

  function PhaseOf(s: Net, id: Id): Phase { if id in s.phases then s.phases[id] else Absent }

  /** The transaction a step sends, if any. */
  function Sends(naming: Id -> Name, s: Net, step: NetStep): Option<Step> {
    match step
    case Make(id, datapath, service, ids, fate) => Some(Create(naming(id), datapath, BridgeOpt(service, id), ids, fate))
    case Drop(id, u, fate) => if PhaseOf(s, id).Dropping? then Some(Delete(PhaseOf(s, id).n, u, fate)) else None
    case Other(o) => Some(o)
    case _ => None
  }

  /** Creation may be tried again after a failure or a deletion, and deletion after a failure or a deletion. */
  predicate NetEnabled(naming: Id -> Name, s: Net, step: NetStep) {
    && (Sends(naming, s, step).Some? ==> Enabled(s.ovs, Sends(naming, s, step).value))
    && match step
       case Ask(id, _, _) => var p := PhaseOf(s, id); p.Absent? || p.Failed? || p.Gone?
       case Make(id, _, _, _, _) => PhaseOf(s, id) == Making
       case AskAgain(id, _, _) => PhaseOf(s, id) == Made
       case LookUp(id, n, _) =>
         var p := PhaseOf(s, id);
         (p.Live? || p.Failed? || p.Gone?) && (n in Records(s.ovs.db, id) || Records(s.ovs.db, id) == {})
       case Drop(id, _, _) => PhaseOf(s, id).Dropping?
       case DropUnknown(id) => PhaseOf(s, id).Dropping?
       case Other(o) => o.Add? || o.Remove? || o.Deliver?
  }

  function Ovs(naming: Id -> Name, s: Net, step: NetStep): State
    requires NetEnabled(naming, s, step)
  {
    if Sends(naming, s, step).Some? then Do(s.ovs, Sends(naming, s, step).value) else s.ovs
  }

  predicate HasPort(d: Db, n: Name) { n in d.ports.name.Values }

  /** The transaction was executed and committed, whether or not an answer arrived. */
  predicate Happened(staged: Db, fate: Fate) { (fate == Answered || fate == Lost(true)) && Commit(staged).Some? }

  function Next(naming: Id -> Name, s: Net, step: NetStep): Phase
    requires NetEnabled(naming, s, step) && !step.Other?
  {
    var p := PhaseOf(s, step.id);
    match step
    case Ask(id, fate, rest) =>
      if fate != Answered then Failed
      else if !HasPort(s.ovs.db, naming(id)) then Making
      else if rest then Live else Failed
    case Make(_, _, _, _, _) => Made
    case AskAgain(id, fate, rest) => if fate == Answered && HasPort(s.ovs.db, naming(id)) && rest then Live else Failed
    case LookUp(id, n, fate) => if fate == Answered && n in Records(s.ovs.db, id) then Dropping(n, p) else p
    case Drop(_, u, fate) =>
      var happened := Happened(StageDeleteBridge(s.ovs.db, p.n, u), fate);
      if fate.Lost? || happened then Gone(fate, happened) else p.was
    case DropUnknown(_) => p.was
  }

  function NextMaker(naming: Id -> Name, s: Net, step: NetStep): map<Name, Id>
    requires NetEnabled(naming, s, step)
  {
    match step
    case Make(id, datapath, service, ids, fate) =>
      if Happened(StageCreate(s.ovs.db, naming(id), datapath, BridgeOpt(service, id), ids), fate) then s.maker[naming(id) := id]
      else s.maker
    case Drop(id, u, fate) =>
      if Happened(StageDeleteBridge(s.ovs.db, PhaseOf(s, id).n, u), fate) then s.maker - {PhaseOf(s, id).n} else s.maker
    case _ => s.maker
  }

  function NetDo(naming: Id -> Name, s: Net, step: NetStep): Net
    requires NetEnabled(naming, s, step)
  {
    Net(Ovs(naming, s, step), if step.Other? then s.phases else s.phases[step.id := Next(naming, s, step)], NextMaker(naming, s, step))
  }

  function NetRun(naming: Id -> Name, s: Net, steps: seq<NetStep>): Option<Net> {
    if steps == [] then Some(s)
    else
      match NetRun(naming, s, steps[..|steps| - 1])
      case None => None
      case Some(t) => if NetEnabled(naming, t, steps[|steps| - 1]) then Some(NetDo(naming, t, steps[|steps| - 1])) else None
  }

  function Networks(opts: Table<BridgeOpt>): set<Id> { set o | o in opts.info :: opts.info[o].network }

  /** A plugin that starts on database d: the networks recorded there are live. */
  function NetStart(d: Db, born: Born, maker: map<Name, Id>): Net {
    Net(Start(d, born), map id | id in Networks(d.opts) :: Live, maker)
  }

  // ---------------------------------------------------------------- who made a bridge

  /** Every record is the one that the maker of its bridge left. */
  predicate MakerOk(maker: map<Name, Id>, opts: Table<BridgeOpt>) {
    && maker.Keys == opts.name.Values
    && forall o | o in opts.name && o in opts.info :: MakerRow(maker, opts, o)
  }

  predicate MakerRow(maker: map<Name, Id>, opts: Table<BridgeOpt>, o: Uuid)
    requires o in opts.name && o in opts.info
  {
    opts.name[o] in maker && maker[opts.name[o]] == opts.info[o].network
  }

  /** Every record pairs a network with the name chosen for it. */
  predicate Paired(naming: Id -> Name, opts: Table<BridgeOpt>) {
    forall o | o in opts.name && o in opts.info :: opts.name[o] == naming(opts.info[o].network)
  }

  predicate BaseInv(naming: Id -> Name, s: Net) {
    Inv(s.ovs) && Paired(naming, s.ovs.db.opts) && MakerOk(s.maker, s.ovs.db.opts)
  }

  lemma CommitKeepsOpts(d: Db, staged: Db, fate: Fate)
    ensures Settled(d, staged, fate).opts == if Happened(staged, fate) then staged.opts else d.opts
  {
    hide RefsExist, UniqueNames;
  }

  lemma InsertMaker(naming: Id -> Name, maker: map<Name, Id>, opts: Table<BridgeOpt>, o: Uuid, id: Id, service: string)
    requires WF(opts) && Unique(opts) && o !in Rows(opts) && MakerOk(maker, opts) && Paired(naming, opts)
    requires naming(id) !in opts.name.Values
    ensures var opts' := Insert(opts, o, naming(id), {}, BridgeOpt(service, id));
            MakerOk(maker[naming(id) := id], opts') && Paired(naming, opts')
  {
    hide Unique, Injective;
    var opts' := Insert(opts, o, naming(id), {}, BridgeOpt(service, id));
    InsertRows(opts, o, naming(id), {}, BridgeOpt(service, id));
    assert maker[naming(id) := id].Keys == maker.Keys + {naming(id)};
    forall p | p in opts'.name && p in opts'.info ensures MakerRow(maker[naming(id) := id], opts', p) {
      if p != o {
        OldRow(maker, opts, p, naming(id));
      }
    }
  }

  lemma OldRow(maker: map<Name, Id>, opts: Table<BridgeOpt>, p: Uuid, n: Name)
    requires MakerOk(maker, opts) && n !in opts.name.Values && p in opts.name && p in opts.info
    ensures MakerRow(maker, opts, p) && opts.name[p] != n
  {
    assert opts.name[p] in opts.name.Values;
  }

  lemma DropMaker(naming: Id -> Name, maker: map<Name, Id>, opts: Table<BridgeOpt>, n: Name)
    requires WF(opts) && MakerOk(maker, opts) && Paired(naming, opts)
    ensures MakerOk(maker - {n}, DropNamed(opts, n)) && Paired(naming, DropNamed(opts, n))
  {
    NamesDropped(opts, n);
  }

  lemma NewOpt(d: Db, o: Uuid, born: Born)
    requires Covered(d, born) && o !in born.opts
    ensures o !in Rows(d.opts)
  {}

  /** A creation that happened found its name free of records. */
  lemma CreatedFresh(d: Db, n: Name, datapath: string, opt: BridgeOpt, ids: Ids, fate: Fate)
    requires Good(d) && Fresh(d, ids) && Happened(StageCreate(d, n, datapath, opt, ids), fate)
    ensures n !in d.opts.name.Values
  {
    CreateCommits(d, n, datapath, opt, ids);
  }

  lemma MakeBase(naming: Id -> Name, s: Net, step: NetStep)
    requires BaseInv(naming, s) && NetEnabled(naming, s, step) && step.Make?
    ensures var s' := NetDo(naming, s, step); MakerOk(s'.maker, s'.ovs.db.opts) && Paired(naming, s'.ovs.db.opts)
  {
    hide *;
    var d, n, opt := s.ovs.db, naming(step.id), BridgeOpt(step.service, step.id);
    MakeParts(naming, s, step);
    MakeForm(naming, s, step);
    if Happened(StageCreate(d, n, step.datapath, opt, step.ids), step.fate) {
      CreatedFresh(d, n, step.datapath, opt, step.ids, step.fate);
      InsertMaker(naming, s.maker, d.opts, step.ids.opt, step.id, step.service);
    }
  }

  lemma MakeParts(naming: Id -> Name, s: Net, step: NetStep)
    requires BaseInv(naming, s) && NetEnabled(naming, s, step) && step.Make?
    ensures Good(s.ovs.db) && Fresh(s.ovs.db, step.ids)
    ensures var opts := s.ovs.db.opts;
            WF(opts) && Unique(opts) && step.ids.opt !in Rows(opts) && MakerOk(s.maker, opts) && Paired(naming, opts)
  {
    hide OwnPorts, CacheOk, Covered, MakerOk, Paired, Fresh, Rows;
    NewUuids(s.ovs.db, step.ids, s.ovs.born);
    NewOpt(s.ovs.db, step.ids.opt, s.ovs.born);
  }

  lemma MakeForm(naming: Id -> Name, s: Net, step: NetStep)
    requires NetEnabled(naming, s, step) && step.Make?
    ensures var d, n, opt := s.ovs.db, naming(step.id), BridgeOpt(step.service, step.id);
            var happened := Happened(StageCreate(d, n, step.datapath, opt, step.ids), step.fate);
            var s' := NetDo(naming, s, step);
            && s'.maker == (if happened then s.maker[n := step.id] else s.maker)
            && s'.ovs.db.opts == if happened then Insert(d.opts, step.ids.opt, n, {}, opt) else d.opts
  {
    hide Happened, Settled;
    var d, n, opt := s.ovs.db, naming(step.id), BridgeOpt(step.service, step.id);
    CommitKeepsOpts(d, StageCreate(d, n, step.datapath, opt, step.ids), step.fate);
  }

  lemma DropBase(naming: Id -> Name, s: Net, step: NetStep)
    requires BaseInv(naming, s) && NetEnabled(naming, s, step) && step.Drop?
    ensures var s' := NetDo(naming, s, step); MakerOk(s'.maker, s'.ovs.db.opts) && Paired(naming, s'.ovs.db.opts)
  {
    var d, n := s.ovs.db, PhaseOf(s, step.id).n;
    CommitKeepsOpts(d, StageDeleteBridge(d, n, step.u), step.fate);
    DropMaker(naming, s.maker, d.opts, n);
  }

  lemma BaseStep(naming: Id -> Name, s: Net, step: NetStep)
    requires BaseInv(naming, s) && NetEnabled(naming, s, step)
    ensures BaseInv(naming, NetDo(naming, s, step))
  {
    if Sends(naming, s, step).Some? {
      StepInv(s.ovs, Sends(naming, s, step).value);
    }
    if step.Make? {
      MakeBase(naming, s, step);
    } else if step.Drop? {
      DropBase(naming, s, step);
    } else if step.Other? && !step.step.Deliver? {
      CommitKeepsOpts(s.ovs.db, Staged(s.ovs.db, step.step), step.step.fate);
    }
  }

  lemma {:induction false} BaseRun(naming: Id -> Name, s: Net, steps: seq<NetStep>)
    requires BaseInv(naming, s)
    ensures NetRun(naming, s, steps).Some? ==> BaseInv(naming, NetRun(naming, s, steps).value)
  {
    if steps != [] {
      var front, last := steps[..|steps| - 1], steps[|steps| - 1];
      BaseRun(naming, s, front);
      if NetRun(naming, s, front).Some? && NetEnabled(naming, NetRun(naming, s, front).value, last) {
        BaseStep(naming, NetRun(naming, s, front).value, last);
      }
    }
  }

  /** The records of a network, by who made the bridge of its name. */
  lemma RecordsByMaker(naming: Id -> Name, maker: map<Name, Id>, d: Db, id: Id)
    requires WF(d.opts) && Paired(naming, d.opts) && MakerOk(maker, d.opts)
    ensures var n := naming(id); Records(d, id) == if n in maker && maker[n] == id then {n} else {}
  {
    var n := naming(id);
    if n in maker && maker[n] == id {
      var o := FindNamed(d.opts, n);
      assert d.opts.name[o] in Records(d, id);
    }
  }

  /** In every run, whatever the names chosen: a network is found exactly if it made the bridge of its name
      and no network of that name has deleted it since, and then under that name. */
  lemma RecordIffMade(naming: Id -> Name, d: Db, born: Born, maker: map<Name, Id>, steps: seq<NetStep>, id: Id)
    requires Good(d) && Covered(d, born) && Paired(naming, d.opts) && MakerOk(maker, d.opts)
    requires NetRun(naming, NetStart(d, born, maker), steps).Some?
    ensures var s := NetRun(naming, NetStart(d, born, maker), steps).value; var n := naming(id);
            Records(s.ovs.db, id) == if n in s.maker && s.maker[n] == id then {n} else {}
  {
    BaseRun(naming, NetStart(d, born, maker), steps);
    var s := NetRun(naming, NetStart(d, born, maker), steps).value;
    RecordsByMaker(naming, s.maker, s.ovs.db, id);
  }

  // ---------------------------------------------------------------- names chosen apart

  /** Among these networks, names are chosen apart, and apart from veth ports. */
  ghost predicate Apart(naming: Id -> Name, ids: set<Id>) {
    (forall a, b | a in ids && b in ids :: naming(a) == naming(b) ==> a == b) && forall a | a in ids :: !IsVeth(naming(a))
  }

  /** The networks that a step concerns. */
  predicate Within(step: NetStep, ids: set<Id>) { step.Other? || step.id in ids }

  /** What the phase of a network says about its record. */
  predicate PhaseOk(recorded: bool, n: Name, p: Phase) {
    && (p.Live? ==> recorded)
    && (p.Dropping? ==> recorded && p.n == n && PhaseOk(recorded, n, p.was))
    && (p.Gone? ==> (p.dropped <==> !recorded) && (p.fate == Answered ==> p.dropped))
  }

  predicate Recorded(naming: Id -> Name, d: Db, id: Id) { naming(id) in d.opts.name.Values }

  predicate PhasesOk(naming: Id -> Name, s: Net, ids: set<Id>) {
    forall id | id in s.phases :: id in ids && PhaseOk(Recorded(naming, s.ovs.db, id), naming(id), s.phases[id])
  }

  predicate NetInv(naming: Id -> Name, s: Net, ids: set<Id>) {
    BaseInv(naming, s) && Networks(s.ovs.db.opts) <= ids && PhasesOk(naming, s, ids)
  }

  lemma NetBase(naming: Id -> Name, s: Net, ids: set<Id>)
    requires NetInv(naming, s, ids)
    ensures BaseInv(naming, s) && Networks(s.ovs.db.opts) <= ids
  {
    hide BaseInv, PhasesOk, Networks;
  }

  lemma NetPhase(naming: Id -> Name, s: Net, ids: set<Id>, id: Id)
    requires NetInv(naming, s, ids) && id in s.phases
    ensures id in ids && PhaseOk(Recorded(naming, s.ovs.db, id), naming(id), s.phases[id])
  {
    hide BaseInv, Networks, PhaseOk, Recorded;
  }

  lemma BaseParts(naming: Id -> Name, s: Net)
    requires BaseInv(naming, s)
    ensures Good(s.ovs.db) && WF(s.ovs.db.opts) && Paired(naming, s.ovs.db.opts) && MakerOk(s.maker, s.ovs.db.opts)
    ensures s.ovs.db.opts.name.Values == s.maker.Keys
  {
    hide OptsMatch, OwnPorts, UniqueNames, Exclusive, Covered, CacheOk;
  }

  /** The names in the table after a step. */
  lemma OptNamesAfter(naming: Id -> Name, s: Net, step: NetStep)
    requires BaseInv(naming, s) && NetEnabled(naming, s, step)
    ensures NetDo(naming, s, step).ovs.db.opts.name.Values == NetDo(naming, s, step).maker.Keys
    ensures s.ovs.db.opts.name.Values == s.maker.Keys
  {
    hide BaseInv, NetEnabled, NetDo;
    BaseStep(naming, s, step);
    BaseParts(naming, s);
    BaseParts(naming, NetDo(naming, s, step));
  }

  lemma NetworksWithin(naming: Id -> Name, s: Net, step: NetStep, ids: set<Id>)
    requires BaseInv(naming, s) && NetEnabled(naming, s, step) && Within(step, ids) && Networks(s.ovs.db.opts) <= ids
    ensures Networks(NetDo(naming, s, step).ovs.db.opts) <= ids
  {
    hide *;
    var s' := NetDo(naming, s, step);
    BaseStep(naming, s, step);
    BaseParts(naming, s);
    BaseParts(naming, s');
    MakersRecorded(naming, s.maker, s.ovs.db.opts);
    MakersRecorded(naming, s'.maker, s'.ovs.db.opts);
    MakersWithin(naming, s, step, ids);
  }

  lemma MakersWithin(naming: Id -> Name, s: Net, step: NetStep, ids: set<Id>)
    requires NetEnabled(naming, s, step) && Within(step, ids) && s.maker.Values <= ids
    ensures NetDo(naming, s, step).maker.Values <= ids
  {
    hide NetEnabled, Ovs, Happened, Next;
  }

  /** The networks in the table are the makers. */
  lemma MakersRecorded(naming: Id -> Name, maker: map<Name, Id>, opts: Table<BridgeOpt>)
    requires WF(opts) && MakerOk(maker, opts)
    ensures Networks(opts) == maker.Values
  {
    forall id | id in maker.Values ensures id in Networks(opts) {
      var n :| n in maker && maker[n] == id;
      var o := FindNamed(opts, n);
      assert opts.info[o].network == id;
    }
  }

  lemma OtherPhase(naming: Id -> Name, s: Net, step: NetStep, ids: set<Id>, id: Id)
    requires Apart(naming, ids) && NetInv(naming, s, ids) && NetEnabled(naming, s, step) && Within(step, ids)
    requires id in ids && (step.Other? || step.id != id)
    ensures Recorded(naming, NetDo(naming, s, step).ovs.db, id) == Recorded(naming, s.ovs.db, id)
  {
    hide NetInv, BaseInv, Happened, NetEnabled, Ovs, IsVeth;
    NetBase(naming, s, ids);
    OptNamesAfter(naming, s, step);
    if step.Drop? {
      DropIsEnabled(naming, s, step);
      DroppingName(naming, s, step.id, ids);
    }
  }

  lemma DropIsEnabled(naming: Id -> Name, s: Net, step: NetStep)
    requires NetEnabled(naming, s, step) && step.Drop?
    ensures PhaseOf(s, step.id).Dropping?
  {
    hide Enabled;
  }

  lemma DroppingName(naming: Id -> Name, s: Net, id: Id, ids: set<Id>)
    requires NetInv(naming, s, ids) && PhaseOf(s, id).Dropping?
    ensures PhaseOf(s, id).n == naming(id) && id in ids
    ensures PhaseOk(Recorded(naming, s.ovs.db, id), naming(id), PhaseOf(s, id))
  {
    hide NetInv, Recorded;
    NetPhase(naming, s, ids, id);
  }

  lemma PortMeansRecord(naming: Id -> Name, d: Db, id: Id)
    requires Good(d) && HasPort(d, naming(id)) && !IsVeth(naming(id))
    ensures Recorded(naming, d, id)
  {
    OwnPortMeansBridge(d, naming(id));
  }

  lemma DropPhase(naming: Id -> Name, s: Net, step: NetStep, ids: set<Id>)
    requires NetInv(naming, s, ids) && NetEnabled(naming, s, step) && step.Drop?
    ensures PhaseOk(Recorded(naming, NetDo(naming, s, step).ovs.db, step.id), naming(step.id), Next(naming, s, step))
  {
    hide NetInv, BaseInv, Happened, NetEnabled, Ovs;
    NetBase(naming, s, ids);
    DropIsEnabled(naming, s, step);
    OptNamesAfter(naming, s, step);
    DroppingName(naming, s, step.id, ids);
  }

  /** The acting network, in the steps that only look at the database. */
  lemma LookPhase(naming: Id -> Name, s: Net, step: NetStep, ids: set<Id>)
    requires Apart(naming, ids) && NetInv(naming, s, ids) && NetEnabled(naming, s, step) && Within(step, ids)
    requires !step.Other? && !step.Drop? && !step.Make?
    ensures PhaseOk(Recorded(naming, s.ovs.db, step.id), naming(step.id), Next(naming, s, step))
  {
    hide NetInv, BaseInv, Records, HasPort, Good, MakerOk, Paired, WF, Enabled, IsVeth;
    var d, id := s.ovs.db, step.id;
    NetBase(naming, s, ids);
    BaseParts(naming, s);
    if HasPort(d, naming(id)) {
      PortMeansRecord(naming, d, id);
    }
    RecordsByMaker(naming, s.maker, d, id);
    if id in s.phases {
      NetPhase(naming, s, ids, id);
    }
  }

  lemma OwnPhase(naming: Id -> Name, s: Net, step: NetStep, ids: set<Id>)
    requires Apart(naming, ids) && NetInv(naming, s, ids) && NetEnabled(naming, s, step) && Within(step, ids) && !step.Other?
    ensures PhaseOk(Recorded(naming, NetDo(naming, s, step).ovs.db, step.id), naming(step.id), Next(naming, s, step))
  {
    hide NetInv, Apart, PhaseOk, Recorded;
    if step.Drop? {
      DropPhase(naming, s, step, ids);
    } else if step.Make? {
      MadeSaysNothing(Recorded(naming, NetDo(naming, s, step).ovs.db, step.id), naming(step.id));
    } else {
      LookPhase(naming, s, step, ids);
    }
  }

  lemma MadeSaysNothing(recorded: bool, n: Name)
    ensures PhaseOk(recorded, n, Made)
  {}

  lemma NetStepInv(naming: Id -> Name, s: Net, step: NetStep, ids: set<Id>)
    requires Apart(naming, ids) && NetInv(naming, s, ids) && NetEnabled(naming, s, step) && Within(step, ids)
    ensures NetInv(naming, NetDo(naming, s, step), ids)
  {
    hide NetInv, BaseInv, Apart, NetEnabled, PhaseOk, Recorded, Ovs, Next, NextMaker, Networks;
    var s' := NetDo(naming, s, step);
    NetBase(naming, s, ids);
    BaseStep(naming, s, step);
    NetworksWithin(naming, s, step, ids);
    forall id | id in s'.phases
      ensures id in ids && PhaseOk(Recorded(naming, s'.ovs.db, id), naming(id), s'.phases[id])
    {
      if !step.Other? && step.id == id {
        OwnPhase(naming, s, step, ids);
      } else {
        NetPhase(naming, s, ids, id);
        OtherPhase(naming, s, step, ids, id);
      }
    }
    NetAssemble(naming, s', ids);
  }

  lemma NetAssemble(naming: Id -> Name, s: Net, ids: set<Id>)
    requires BaseInv(naming, s) && Networks(s.ovs.db.opts) <= ids
    requires forall id | id in s.phases :: id in ids && PhaseOk(Recorded(naming, s.ovs.db, id), naming(id), s.phases[id])
    ensures NetInv(naming, s, ids)
  {
    hide BaseInv, Networks, PhaseOk, Recorded;
  }

  lemma {:induction false} NetRunInv(naming: Id -> Name, s: Net, steps: seq<NetStep>, ids: set<Id>)
    requires Apart(naming, ids) && NetInv(naming, s, ids) && forall i | 0 <= i < |steps| :: Within(steps[i], ids)
    ensures NetRun(naming, s, steps).Some? ==> NetInv(naming, NetRun(naming, s, steps).value, ids)
  {
    if steps != [] {
      var front, last := steps[..|steps| - 1], steps[|steps| - 1];
      NetRunInv(naming, s, front, ids);
      hide Apart, NetInv, Within;
      if NetRun(naming, s, front).Some? && NetEnabled(naming, NetRun(naming, s, front).value, last) {
        NetStepInv(naming, NetRun(naming, s, front).value, last, ids);
      }
    }
  }

  lemma StartInv(naming: Id -> Name, d: Db, born: Born, maker: map<Name, Id>, ids: set<Id>)
    requires Good(d) && Covered(d, born) && Paired(naming, d.opts) && MakerOk(maker, d.opts) && Networks(d.opts) <= ids
    ensures NetInv(naming, NetStart(d, born, maker), ids)
  {
    hide Good, Covered, Paired, MakerOk, Networks, Recorded, CacheOk;
    StartCache(d, born);
    forall id | id in Networks(d.opts) ensures Recorded(naming, d, id) {
      StartRecorded(naming, d, id);
    }
  }

  lemma StartCache(d: Db, born: Born)
    requires Covered(d, born)
    ensures CacheOk(Start(d, born))
  {}

  lemma StartRecorded(naming: Id -> Name, d: Db, id: Id)
    requires Good(d) && Paired(naming, d.opts) && id in Networks(d.opts)
    ensures Recorded(naming, d, id)
  {
    hide OwnPorts, OptsMatch, UniqueNames, Exclusive;
    var o :| o in d.opts.info && d.opts.info[o].network == id;
    assert d.opts.name[o] in d.opts.name.Values;
  }

  /** In every run, with names chosen apart for the networks of the run and those recorded before it:
      looking up a live network gives the name chosen for it, no lookup gives another network's bridge, and
      after a deletion the record is left exactly if the transaction was not executed; if it was answered, it was. */
  lemma NetworkLookup(naming: Id -> Name, d: Db, born: Born, maker: map<Name, Id>, steps: seq<NetStep>, ids: set<Id>, id: Id)
    requires Good(d) && Covered(d, born) && Paired(naming, d.opts) && MakerOk(maker, d.opts) && Networks(d.opts) <= ids
    requires Apart(naming, ids) && forall i | 0 <= i < |steps| :: Within(steps[i], ids)
    requires NetRun(naming, NetStart(d, born, maker), steps).Some?
    ensures var s := NetRun(naming, NetStart(d, born, maker), steps).value;
            var found, p := Records(s.ovs.db, id), PhaseOf(s, id);
            && found <= {naming(id)}
            && (p.Live? ==> found == {naming(id)})
            && (p.Gone? ==> (found == {} <==> p.dropped) && (p.fate == Answered ==> p.dropped))
  {
    var s0 := NetStart(d, born, maker);
    StartInv(naming, d, born, maker, ids);
    NetRunInv(naming, s0, steps, ids);
    hide NetInv, Good, Covered, Paired, MakerOk, Networks, Apart, NetRun, Records, Within, Recorded;
    RecordIffMade(naming, d, born, maker, steps, id);
    if id in NetRun(naming, s0, steps).value.phases {
      LookupForm(naming, NetRun(naming, s0, steps).value, ids, id);
    }
  }

  lemma LookupForm(naming: Id -> Name, s: Net, ids: set<Id>, id: Id)
    requires Apart(naming, ids) && NetInv(naming, s, ids) && id in s.phases
    ensures Records(s.ovs.db, id) == if Recorded(naming, s.ovs.db, id) then {naming(id)} else {}
    ensures PhaseOk(Recorded(naming, s.ovs.db, id), naming(id), s.phases[id])
  {
    hide NetInv, BaseInv, Good, MakerOk, Paired, WF, Records, PhaseOk, Networks, IsVeth;
    NetBase(naming, s, ids);
    BaseParts(naming, s);
    NetPhase(naming, s, ids, id);
    RecordsByMaker(naming, s.maker, s.ovs.db, id);
    var n := naming(id);
    if n in s.maker {
      MakerNamed(naming, s.maker, s.ovs.db.opts, n);
      assert s.maker[n] in ids;
    }
  }

  /** A bridge carries the name chosen for its maker. */
  lemma MakerNamed(naming: Id -> Name, maker: map<Name, Id>, opts: Table<BridgeOpt>, n: Name)
    requires WF(opts) && MakerOk(maker, opts) && Paired(naming, opts) && n in maker
    ensures naming(maker[n]) == n && maker[n] in Networks(opts)
  {
    var o := FindNamed(opts, n);
  }

  // ---------------------------------------------------------------- the driver's own names

  /** Without explicit names, and whatever the networks are called, ids that differ in their first five
      characters get bridge names chosen apart. */
  lemma DefaultNamesApart(naming: Id -> Name, network: Id -> string, ids: set<Id>)
    requires forall a | a in ids :: |a| >= 5 && BridgeName(a, network(a), None) == Some(naming(a)) && !IsVeth(naming(a))
    requires forall a, b | a in ids && b in ids :: a[..5] == b[..5] ==> a == b
    ensures Apart(naming, ids)
  {
    forall a, b | a in ids && b in ids && naming(a) == naming(b) ensures a == b {
      DefaultSuffix(a, network(a));
      DefaultSuffix(b, network(b));
    }
  }

  // ---------------------------------------------------------------- why names must be apart

  /** From an empty database, two networks with one bridge name: both are created, one has a record. */
  lemma SharedName(naming: Id -> Name, a: Id, b: Id, datapath: string, service: string, ids: Ids)
    requires a != b && naming(a) == naming(b) && !IsVeth(naming(a))
    ensures var s0 := NetStart(EMPTY, Born(map[], map[], {}, {}), map[]);
            var r := NetRun(naming, s0, [Ask(a, Answered, true)] + [Make(a, datapath, service, ids, Answered)]
                                        + [AskAgain(a, Answered, true)] + [Ask(b, Answered, true)]);
            && r.Some? && PhaseOf(r.value, a) == Live && PhaseOf(r.value, b) == Live
            && Records(r.value.ovs.db, a) == {naming(a)} && Records(r.value.ovs.db, b) == {}
  {
    hide *;
    var s0 := NetStart(EMPTY, Born(map[], map[], {}, {}), map[]);
    var make := Make(a, datapath, service, ids, Answered);
    StartEmpty(naming(a), a, b);
    AskStep(naming, s0, a, b);
    var s1 := NetDo(naming, s0, Ask(a, Answered, true));
    MakeStep(naming, s1, a, b, datapath, service, ids);
    var s2 := NetDo(naming, s1, make);
    AskAgainStep(naming, s2, a, b);
    var s3 := NetDo(naming, s2, AskAgain(a, Answered, true));
    AskStep(naming, s3, b, a);
    FourSteps(naming, s0, Ask(a, Answered, true), make, AskAgain(a, Answered, true), Ask(b, Answered, true));
  }

  lemma StartEmpty(n: Name, a: Id, b: Id)
    ensures var s0 := NetStart(EMPTY, Born(map[], map[], {}, {}), map[]);
            && s0.ovs == Start(EMPTY, Born(map[], map[], {}, {})) && s0.ovs.db == EMPTY && !HasPort(s0.ovs.db, n)
            && PhaseOf(s0, a) == Absent && PhaseOf(s0, b) == Absent
  {}

  lemma AskStep(naming: Id -> Name, s: Net, id: Id, other: Id)
    requires PhaseOf(s, id) == Absent && id != other
    ensures var step := Ask(id, Answered, true);
            && NetEnabled(naming, s, step)
            && var s' := NetDo(naming, s, step);
               && s'.ovs == s.ovs && PhaseOf(s', other) == PhaseOf(s, other)
               && PhaseOf(s', id) == if HasPort(s.ovs.db, naming(id)) then Live else Making
  {
    hide HasPort, Records;
  }

  lemma AskAgainStep(naming: Id -> Name, s: Net, id: Id, other: Id)
    requires PhaseOf(s, id) == Made && id != other && HasPort(s.ovs.db, naming(id))
    ensures var step := AskAgain(id, Answered, true);
            && NetEnabled(naming, s, step)
            && var s' := NetDo(naming, s, step);
               s'.ovs == s.ovs && PhaseOf(s', other) == PhaseOf(s, other) && PhaseOf(s', id) == Live
  {
    hide HasPort, Records;
  }

  lemma MakeStep(naming: Id -> Name, s: Net, id: Id, other: Id, datapath: string, service: string, ids: Ids)
    requires PhaseOf(s, id) == Making && id != other && !IsVeth(naming(id))
    requires s.ovs == Start(EMPTY, Born(map[], map[], {}, {}))
    ensures var step := Make(id, datapath, service, ids, Answered);
            && NetEnabled(naming, s, step)
            && var s' := NetDo(naming, s, step);
               && PhaseOf(s', other) == PhaseOf(s, other) && PhaseOf(s', id) == Made && HasPort(s'.ovs.db, naming(id))
               && Records(s'.ovs.db, id) == {naming(id)} && Records(s'.ovs.db, other) == {}
  {
    var n, opt := naming(id), BridgeOpt(service, id);
    hide Commit, IsVeth, Notify, StageCreate, HasPort, Records;
    EmptyCreates(n, datapath, opt, ids);
    assert Enabled(s.ovs, Create(n, datapath, opt, ids, Answered));
    FirstBridge(n, datapath, opt, ids, other);
  }

  lemma EmptyCreates(n: Name, datapath: string, opt: BridgeOpt, ids: Ids)
    ensures var d := StageCreate(EMPTY, n, datapath, opt, ids); Commit(d) == Some(d)
  {
    EmptyGood();
    CreateCommits(EMPTY, n, datapath, opt, ids);
  }

  lemma FirstBridge(n: Name, datapath: string, opt: BridgeOpt, ids: Ids, other: Id)
    requires opt.network != other
    ensures var d := StageCreate(EMPTY, n, datapath, opt, ids);
            HasPort(d, n) && Records(d, opt.network) == {n} && Records(d, other) == {}
  {
    var d := StageCreate(EMPTY, n, datapath, opt, ids);
    assert d.ports.name[ids.port] == n;
    assert d.opts.name == map[ids.opt := n] && d.opts.info == map[ids.opt := opt];
    assert d.opts.name[ids.opt] in Records(d, opt.network);
  }

  lemma FourSteps(naming: Id -> Name, s: Net, a: NetStep, b: NetStep, c: NetStep, d: NetStep)
    requires NetEnabled(naming, s, a)
    requires var s1 := NetDo(naming, s, a); NetEnabled(naming, s1, b)
    requires var s2 := NetDo(naming, NetDo(naming, s, a), b); NetEnabled(naming, s2, c)
    requires var s3 := NetDo(naming, NetDo(naming, NetDo(naming, s, a), b), c); NetEnabled(naming, s3, d)
    ensures NetRun(naming, s, [a] + [b] + [c] + [d]) ==
            Some(NetDo(naming, NetDo(naming, NetDo(naming, NetDo(naming, s, a), b), c), d))
  {
    hide NetDo, NetEnabled;
    OneMore(naming, s, [], a);
    assert [] + [a] == [a];
    OneMore(naming, s, [a], b);
    OneMore(naming, s, [a] + [b], c);
    OneMore(naming, s, [a] + [b] + [c], d);
  }

  lemma OneMore(naming: Id -> Name, s: Net, steps: seq<NetStep>, step: NetStep)
    requires NetRun(naming, s, steps).Some? && NetEnabled(naming, NetRun(naming, s, steps).value, step)
    ensures NetRun(naming, s, steps + [step]) == Some(NetDo(naming, NetRun(naming, s, steps).value, step))
  {
    hide NetDo, NetEnabled;
    assert (steps + [step])[..|steps|] == steps;
  }
}
