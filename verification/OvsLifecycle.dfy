/** Networks come and go: after any run, creating a network under a free name makes it live, and deleting a network
    that is found removes its bridge, its ports and its record, when the server answers. */
module OvsLifecycle {
  import opened Common
  import opened OvsdbTables
  import opened Ovsdb
  import opened OvsRuns
  import opened OvsNetworks

  // ---------------------------------------------------------------- names

  /** With or without explicit names: names are chosen apart if explicit names differ from each other and from the
      default names, and ids without an explicit name differ in their first five characters. */
  lemma NamesApart(naming: Id -> Name, network: Id -> string, option: Id -> Option<Name>, ids: set<Id>)
    requires forall a | a in ids :: |a| >= 5 && BridgeName(a, network(a), option(a)) == Some(naming(a)) && !IsVeth(naming(a))
    requires forall a, b | a in ids && b in ids && option(a).Some? && option(b).Some? :: option(a) == option(b) ==> a == b
    requires forall a, b | a in ids && b in ids && option(a).Some? && option(b).None? :: option(a) != BridgeName(b, network(b), None)
    requires forall a, b | a in ids && b in ids && option(a).None? && option(b).None? :: a[..5] == b[..5] ==> a == b
    ensures Apart(naming, ids)
    ensures forall a | a in ids && option(a).Some? :: naming(a) == option(a).value
  {
    forall a, b | a in ids && b in ids && naming(a) == naming(b) ensures a == b {
      DefaultSuffix(a, network(a));
      DefaultSuffix(b, network(b));
    }
  }

  // ---------------------------------------------------------------- creation

  predicate Idle(p: Phase) { p.Absent? || p.Failed? || p.Gone? }

  lemma AskFree(naming: Id -> Name, s: Net, id: Id)
    requires Idle(PhaseOf(s, id)) && !HasPort(s.ovs.db, naming(id))
    ensures var step := Ask(id, Answered, true);
            NetEnabled(naming, s, step) && NetDo(naming, s, step) == s.(phases := s.phases[id := Making])
  {
    hide HasPort, Records;
  }

  lemma MakeFree(naming: Id -> Name, s: Net, id: Id, datapath: string, service: string, ids: Ids)
    requires BaseInv(naming, s) && PhaseOf(s, id) == Making && NameFree(s.ovs.db, naming(id)) && !IsVeth(naming(id)) && NewIds(ids, s.ovs.born)
    ensures var step, n, opt := Make(id, datapath, service, ids, Answered), naming(id), BridgeOpt(service, id);
            && NetEnabled(naming, s, step)
            && var s' := NetDo(naming, s, step);
               && s'.ovs.db == StageCreate(s.ovs.db, n, datapath, opt, ids) && PhaseOf(s', id) == Made
               && s'.maker == s.maker[n := id] && BaseInv(naming, s')
  {
    hide BaseInv, StageCreate, Commit, NameFree, IsVeth, Notify, Grown, Records, Good, Fresh;
    var step, n, opt := Make(id, datapath, service, ids, Answered), naming(id), BridgeOpt(service, id);
    assert NetEnabled(naming, s, step);
    MakeParts(naming, s, step);
    GoodSound(s.ovs.db);
    CreateCommits(s.ovs.db, n, datapath, opt, ids);
    BaseStep(naming, s, step);
  }

  lemma GoodSound(d: Db)
    requires Good(d)
    ensures Sound(d)
  {
    hide Sound;
  }

  lemma AskMade(naming: Id -> Name, s: Net, id: Id)
    requires PhaseOf(s, id) == Made && HasPort(s.ovs.db, naming(id))
    ensures var step := AskAgain(id, Answered, true);
            NetEnabled(naming, s, step) && NetDo(naming, s, step) == s.(phases := s.phases[id := Live])
  {
    hide HasPort, Records;
  }

  lemma CreatedPort(d: Db, n: Name, datapath: string, opt: BridgeOpt, ids: Ids)
    ensures HasPort(StageCreate(d, n, datapath, opt, ids), n)
  {
    assert StageCreate(d, n, datapath, opt, ids).ports.name[ids.port] == n;
  }

  lemma FreeHasNoPort(d: Db, n: Name)
    requires NameFree(d, n)
    ensures !HasPort(d, n)
  {}

  lemma PhasesOnly(naming: Id -> Name, s: Net, phases: map<Id, Phase>)
    requires BaseInv(naming, s)
    ensures BaseInv(naming, s.(phases := phases))
  {
    hide Inv, Paired, MakerOk;
  }

  lemma FoundByMaker(naming: Id -> Name, s: Net, id: Id)
    requires BaseInv(naming, s)
    ensures var n := naming(id); Records(s.ovs.db, id) == if n in s.maker && s.maker[n] == id then {n} else {}
  {
    hide BaseInv, Good, MakerOk, Paired, WF, Records;
    BaseParts(naming, s);
    RecordsByMaker(naming, s.maker, s.ovs.db, id);
  }

  /** After any run: a network that is not there, whose name is free, is created when the server answers; it is then
      live and found under its name, and the database has gained exactly its rows. */
  lemma CreateSucceeds(naming: Id -> Name, s0: Net, steps: seq<NetStep>, id: Id, datapath: string, service: string, ids: Ids)
    requires BaseInv(naming, s0) && NetRun(naming, s0, steps).Some?
    requires var s := NetRun(naming, s0, steps).value;
             Idle(PhaseOf(s, id)) && NameFree(s.ovs.db, naming(id)) && !IsVeth(naming(id)) && NewIds(ids, s.ovs.born)
    ensures var s := NetRun(naming, s0, steps).value;
            var r := NetRun(naming, s0, steps + [Ask(id, Answered, true)] + [Make(id, datapath, service, ids, Answered)]
                                        + [AskAgain(id, Answered, true)]);
            && r.Some? && PhaseOf(r.value, id) == Live && Records(r.value.ovs.db, id) == {naming(id)}
            && r.value.ovs.db == StageCreate(s.ovs.db, naming(id), datapath, BridgeOpt(service, id), ids)
  {
    hide *;
    BaseRun(naming, s0, steps);
    var s := NetRun(naming, s0, steps).value;
    FreeHasNoPort(s.ovs.db, naming(id));
    AskFree(naming, s, id);
    OneMore(naming, s0, steps, Ask(id, Answered, true));
    var s1 := s.(phases := s.phases[id := Making]);
    PhasesOnly(naming, s, s1.phases);
    PhaseSet(s, id, Making);
    var make := Make(id, datapath, service, ids, Answered);
    MakeFree(naming, s1, id, datapath, service, ids);
    OneMore(naming, s0, steps + [Ask(id, Answered, true)], make);
    var s2 := NetDo(naming, s1, make);
    CreatedPort(s.ovs.db, naming(id), datapath, BridgeOpt(service, id), ids);
    AskMade(naming, s2, id);
    OneMore(naming, s0, steps + [Ask(id, Answered, true)] + [make], AskAgain(id, Answered, true));
    PhasesOnly(naming, s2, s2.phases[id := Live]);
    PhaseSet(s2, id, Live);
    FoundByMaker(naming, s2.(phases := s2.phases[id := Live]), id);
  }

  lemma PhaseSet(s: Net, id: Id, p: Phase)
    ensures PhaseOf(s.(phases := s.phases[id := p]), id) == p
  {}

  // ---------------------------------------------------------------- deletion

  predicate Deletable(p: Phase) { p.Live? || p.Failed? || p.Gone? }

  lemma LookUpFound(naming: Id -> Name, s: Net, id: Id, n: Name)
    requires Deletable(PhaseOf(s, id)) && n in Records(s.ovs.db, id)
    ensures var step := LookUp(id, n, Answered);
            NetEnabled(naming, s, step) && NetDo(naming, s, step) == s.(phases := s.phases[id := Dropping(n, PhaseOf(s, id))])
  {
    hide Records;
  }

  lemma DropFound(naming: Id -> Name, s: Net, id: Id, b: Uuid)
    requires BaseInv(naming, s) && PhaseOf(s, id).Dropping?
    requires var n := PhaseOf(s, id).n;
             b in s.ovs.db.bridges.name && s.ovs.db.bridges.name[b] == n && b in s.ovs.cache.bridges && s.ovs.cache.bridges[b] == n
    ensures b in s.ovs.db.bridges.refs
    ensures var step := Drop(id, b, Answered);
            && NetEnabled(naming, s, step)
            && var s' := NetDo(naming, s, step);
               && s'.ovs.db == WithoutBridge(s.ovs.db, b) && PhaseOf(s', id) == Gone(Answered, true)
               && s'.maker == s.maker - {PhaseOf(s, id).n} && BaseInv(naming, s')
  {
    hide BaseInv, StageDeleteBridge, Commit, WithoutBridge, Notify, Records, Good, Sound;
    BaseParts(naming, s);
    GoodSound(s.ovs.db);
    SoundRefs(s.ovs.db, b);
    DeleteBridgeCommits(s.ovs.db, PhaseOf(s, id).n, b, b);
    BaseStep(naming, s, Drop(id, b, Answered));
  }

  lemma SoundRefs(d: Db, b: Uuid)
    requires Sound(d) && b in d.bridges.name
    ensures b in d.bridges.refs && b in Rows(d.bridges)
  {
    hide UniqueNames, Exclusive, Targets;
  }

  /** After any run: a network that is found, and whose bridge the cache knows, is deleted when the server answers; it
      is then gone and no longer found, and the database has lost exactly its bridge with all that belongs to it. */
  lemma DeleteSucceeds(naming: Id -> Name, s0: Net, steps: seq<NetStep>, id: Id, b: Uuid)
    requires BaseInv(naming, s0) && NetRun(naming, s0, steps).Some?
    requires var s := NetRun(naming, s0, steps).value; var n := naming(id);
             && Deletable(PhaseOf(s, id)) && Records(s.ovs.db, id) != {}
             && b in s.ovs.db.bridges.name && s.ovs.db.bridges.name[b] == n && b in s.ovs.cache.bridges && s.ovs.cache.bridges[b] == n
    ensures var s := NetRun(naming, s0, steps).value;
            var r := NetRun(naming, s0, steps + [LookUp(id, naming(id), Answered)] + [Drop(id, b, Answered)]);
            && b in s.ovs.db.bridges.refs
            && r.Some? && PhaseOf(r.value, id) == Gone(Answered, true) && Records(r.value.ovs.db, id) == {}
            && r.value.ovs.db == WithoutBridge(s.ovs.db, b)
  {
    hide *;
    BaseRun(naming, s0, steps);
    var s, n := NetRun(naming, s0, steps).value, naming(id);
    FoundByMaker(naming, s, id);
    LookUpFound(naming, s, id, n);
    OneMore(naming, s0, steps, LookUp(id, n, Answered));
    var s1 := s.(phases := s.phases[id := Dropping(n, PhaseOf(s, id))]);
    PhasesOnly(naming, s, s1.phases);
    PhaseSet(s, id, Dropping(n, PhaseOf(s, id)));
    DropFound(naming, s1, id, b);
    OneMore(naming, s0, steps + [LookUp(id, n, Answered)], Drop(id, b, Answered));
    FoundByMaker(naming, NetDo(naming, s1, Drop(id, b, Answered)), id);
  }
}
