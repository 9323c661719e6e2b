/** What the client did in a run, told by the steps of the run: which requests it wrote and in which order,
    whom it refused, which responses it served, and why each call was completed. */
module Rpc2History {
  import opened Common
  import opened Rpc2Client

  // ---------------------------------------------------------------- counting steps

  /** How often in the run a step was taken in a state such that f. */
  ghost function Times(steps: seq<Step>, f: (State, Step) -> bool): nat {
    if steps == [] then 0
    else
      var front, last := steps[..|steps| - 1], steps[|steps| - 1];
      Times(front, f) + One(Run(front).Some? && f(Run(front).value, last))
  }

  lemma LastStep(steps: seq<Step>)
    requires steps != [] && Run(steps).Some?
    ensures var front, last := steps[..|steps| - 1], steps[|steps| - 1];
            && Run(front).Some? && Inv(Run(front).value) && Enabled(Run(front).value, last)
            && Run(steps).value == Do(Run(front).value, last)
  {
    hide Do, Inv, Enabled;
    RunInv(steps[..|steps| - 1]);
  }

  /** The goroutine t takes a step at pc. */
  predicate Moves(t: Id, s: State, step: Step) { step.Goroutine? && step.t == t && t in s.pc }

  // ---------------------------------------------------------------- requests on the wire

  /** The request that a step writes, if any. */
  function Written(s: State, step: Step): seq<Request> {
    if !step.Goroutine? || step.t !in s.pc || !step.luck.reached then []
    else
      match s.pc[step.t]
      case Writing(k) => [Request(k, step.t)]
      case NotifyWrite => [Request(0, step.t)]
      case _ => []
  }

  ghost function Writes(steps: seq<Step>): seq<Request> {
    if steps == [] then []
    else
      var front, last := steps[..|steps| - 1], steps[|steps| - 1];
      Writes(front) + if Run(front).Some? then Written(Run(front).value, last) else []
  }

  lemma InvLocal(s: State, t: Id)
    requires Inv(s) && t in s.pc
    ensures Local(t, s.pc[t], s.sh)
  {
    hide Local, CallOk, ReaderOk, Table, Logs;
  }

  lemma InvParts(s: State)
    requires Inv(s)
    ensures ReaderOk(s.sh) && Table(s.sh)
  {
    hide Local, CallOk, ReaderOk, Table, Logs;
  }

  lemma WireStep(s: State, step: Step)
    requires Inv(s) && Enabled(s, step)
    ensures Do(s, step).sh.wire == s.sh.wire + Written(s, step)
  {
    hide Inv, Act, Next, ReaderAct, ReaderCan, Can;
    if step.Goroutine? {
      InvLocal(s, step.t);
      GoroutineWire(step.t, s.pc[step.t], s.sh, step.luck);
    } else if step.Reader? {
      ReaderCanStep(s, step);
      ReaderWire(s.sh, step.input);
    }
  }

  lemma ReaderWire(sh: Shared, input: Input)
    requires ReaderCan(sh, input)
    ensures ReaderAct(sh, input).wire == sh.wire
  {
    hide Complete, Lookup;
    match sh.reader
    case RespDone(k, found) =>
      if found.Some? {
        CompleteAdds(sh, found.value, Response(k));
      }
    case Ending(todo) =>
      if todo != {} {
        CompleteAdds(sh, sh.pending[input.k], LoopError);
      }
    case _ =>
  }

  lemma CompleteAdds(sh: Shared, c: Id, cause: Cause)
    ensures var sh' := Complete(sh, c, cause);
            && sh'.wire == sh.wire && sh'.completed == sh.completed + [Event(c, cause)] && sh'.reader == sh.reader
            && sh'.pending == sh.pending && sh'.shutdown == sh.shutdown && sh'.closing == sh.closing && sh'.received == sh.received
  {}

  lemma GoroutineWire(t: Id, pc: PC, sh: Shared, luck: Luck)
    requires Local(t, pc, sh)
    ensures Act(t, pc, sh, luck).wire ==
            if luck.reached && pc.Writing? then sh.wire + [Request(pc.k, t)]
            else if luck.reached && pc.NotifyWrite? then sh.wire + [Request(0, t)] else sh.wire
  {}

  /** What is on the wire is what the steps wrote, in that order. */
  lemma {:induction false} WireExact(steps: seq<Step>)
    requires Run(steps).Some?
    ensures Run(steps).value.sh.wire == Writes(steps)
  {
    if steps != [] {
      LastStep(steps);
      var front, last := steps[..|steps| - 1], steps[|steps| - 1];
      WireExact(front);
      hide Run, Do, Written;
      WireStep(Run(front).value, last);
    }
  }

  /** t has not yet come to write its request. */
  predicate Unwritten(pc: PC) {
    Undecided(pc) || pc.Preparing? || pc.Writing? || Notifying(pc) || pc.CloseWant? || pc.CloseHold? || pc.Refused?
  }

  predicate Absent(wire: seq<Request>, t: Id) { forall r | r in wire :: r.caller != t }

  /** Nobody is on the wire before writing, and who is about to write was the last to register. */
  predicate Fresh(s: State, t: Id) {
    && (t !in s.pc || Unwritten(s.pc[t]) ==> Absent(s.sh.wire, t))
    && (t in s.pc && (s.pc[t].Preparing? || s.pc[t].Writing?) ==> t in s.sh.order && s.sh.order[t] == s.sh.issued - 1)
  }

  /** The calls on the wire are in the order of their registration. */
  predicate Sorted(s: State) {
    forall i, j | 0 <= i < j < |s.sh.wire| :: s.sh.wire[i].caller in s.sh.order && s.sh.wire[j].caller in s.sh.order ==>
      s.sh.order[s.sh.wire[i].caller] < s.sh.order[s.sh.wire[j].caller]
  }

  ghost predicate OrderInv(s: State) { Sorted(s) && forall t: Id :: Fresh(s, t) }

  /** t registers. */
  predicate Registers(t: Id, s: State, step: Step) {
    Moves(t, s, step) && s.pc[t] == Registering && !s.sh.shutdown && !s.sh.closing
  }

  lemma OrderStep(s: State, step: Step)
    requires Enabled(s, step)
    ensures var sh, sh' := s.sh, Do(s, step).sh;
            if step.Goroutine? && Registers(step.t, s, step) then sh'.order == sh.order[step.t := sh.issued] && sh'.issued == sh.issued + 1
            else sh'.order == sh.order && sh'.issued == sh.issued
  {
    hide ReaderCan, ReaderAct, Act, Next, Can;
    if step.Goroutine? {
      GoroutineOrder(step.t, s.pc[step.t], s.sh, step.luck);
    } else if step.Reader? {
      ReaderCanStep(s, step);
      ReaderShrinks(s.sh, step.input);
    }
  }

  lemma ReaderCanStep(s: State, step: Step)
    requires Enabled(s, step) && step.Reader?
    ensures ReaderCan(s.sh, step.input) && Do(s, step) == s.(sh := ReaderAct(s.sh, step.input))
  {
    hide ReaderCan, ReaderAct, Act, Next, Can;
  }

  lemma GoroutineOrder(t: Id, pc: PC, sh: Shared, luck: Luck)
    ensures var sh' := Act(t, pc, sh, luck);
            if pc == Registering && !sh.shutdown && !sh.closing then sh'.order == sh.order[t := sh.issued] && sh'.issued == sh.issued + 1
            else sh'.order == sh.order && sh'.issued == sh.issued
  {}

  lemma PcStep(s: State, step: Step, u: Id)
    requires Enabled(s, step)
    ensures PcOf(Do(s, step), u) ==
            if Moves(u, s, step) then Some(Next(u, s.pc[u], s.sh, step.luck))
            else if step.Begin? && step.t == u then Some(step.first) else PcOf(s, u)
  {
    hide Act, Next, ReaderAct, ReaderCan, Can, Entered;
  }

  lemma NextUnwritten(t: Id, pc: PC, sh: Shared, luck: Luck)
    ensures Unwritten(Next(t, pc, sh, luck)) ==> Unwritten(pc) && !pc.Writing? && !pc.NotifyWrite?
  {}

  lemma AbsentStep(s: State, step: Step, u: Id)
    requires Inv(s) && Enabled(s, step) && Fresh(s, u)
    ensures var s' := Do(s, step); u !in s'.pc || Unwritten(s'.pc[u]) ==> Absent(s'.sh.wire, u)
  {
    hide Inv, Enabled, Do, Next, Unwritten;
    WireStep(s, step);
    PcStep(s, step, u);
    if Moves(u, s, step) {
      NextUnwritten(u, s.pc[u], s.sh, step.luck);
    }
    if step.Begin? {
      FirstUnwritten(s, step);
    }
  }

  lemma FirstUnwritten(s: State, step: Step)
    requires Enabled(s, step) && step.Begin?
    ensures step.t !in s.pc
  {}

  /** Only one goroutine at a time is between registering and writing. */
  lemma OneSender(s: State, t: Id, u: Id)
    requires Inv(s) && t in s.pc && u in s.pc && HoldsSending(s.pc[t]) && HoldsSending(s.pc[u])
    ensures t == u
  {
    hide Inv, HoldsSending;
    InvLocal(s, t);
    InvLocal(s, u);
  }

  predicate Sending(pc: PC) { pc.Preparing? || pc.Writing? }

  lemma NextSending(t: Id, pc: PC, sh: Shared, luck: Luck)
    ensures Sending(Next(t, pc, sh, luck)) ==> pc.Preparing? || (pc.Registering? && !sh.shutdown && !sh.closing)
    ensures Sending(pc) ==> HoldsSending(pc)
  {}

  lemma LatestStep(s: State, step: Step, u: Id)
    requires Inv(s) && Enabled(s, step) && Fresh(s, u)
    ensures var s' := Do(s, step);
            u in s'.pc && Sending(s'.pc[u]) ==> u in s'.sh.order && s'.sh.order[u] == s'.sh.issued - 1
  {
    hide Inv, Enabled, Do, Next, Absent, Unwritten, HoldsSending;
    PcStep(s, step, u);
    OrderStep(s, step);
    if u in s.pc {
      NextSending(u, s.pc[u], s.sh, if step.Goroutine? then step.luck else Luck(false, false));
      if step.Goroutine? && Registers(step.t, s, step) && Sending(s.pc[u]) {
        RegisteringHolds(s.pc[step.t]);
        OneSender(s, step.t, u);
      }
    }
    BeginNotSending(s, step);
  }

  lemma RegisteringHolds(pc: PC)
    ensures pc.Registering? ==> HoldsSending(pc)
  {}

  lemma BeginNotSending(s: State, step: Step)
    requires Enabled(s, step)
    ensures step.Begin? ==> !Sending(step.first)
  {}

  lemma FreshStep(s: State, step: Step, u: Id)
    requires Inv(s) && Enabled(s, step) && Fresh(s, u)
    ensures Fresh(Do(s, step), u)
  {
    hide Inv, Enabled, Do, Absent, Unwritten;
    AbsentStep(s, step, u);
    LatestStep(s, step, u);
  }

  lemma NotifierUnregistered(s: State, t: Id)
    requires Inv(s) && t in s.pc && s.pc[t].NotifyWrite?
    ensures t !in s.sh.order
  {
    InvLocal(s, t);
    assert CallOk(t, PcOf(s, t), s.sh);
  }

  /** A call on the wire registered before one that is about to write. */
  lemma EarlierCall(s: State, t: Id, c: Id)
    requires Table(s.sh) && Fresh(s, t) && t in s.pc && s.pc[t].Writing? && c != t && c in s.sh.order
    ensures s.sh.order[c] < s.sh.order[t]
  {}

  lemma SortedStep(s: State, step: Step)
    requires Inv(s) && Enabled(s, step) && OrderInv(s)
    ensures Sorted(Do(s, step))
  {
    hide Inv, Enabled, Do, Fresh;
    var s' := Do(s, step);
    WireStep(s, step);
    OrderStep(s, step);
    if step.Goroutine? && Registers(step.t, s, step) {
      RegistersAbsent(s, step.t);
    }
    forall i, j | 0 <= i < j < |s'.sh.wire| && s'.sh.wire[i].caller in s'.sh.order && s'.sh.wire[j].caller in s'.sh.order
      ensures s'.sh.order[s'.sh.wire[i].caller] < s'.sh.order[s'.sh.wire[j].caller]
    {
      assert s'.sh.wire[i] == s.sh.wire[i] && s.sh.wire[i] in s.sh.wire;
      if j < |s.sh.wire| {
        assert s'.sh.wire[j] == s.sh.wire[j] && s.sh.wire[j] in s.sh.wire;
      } else {
        LastWritten(s, step, s.sh.wire[i].caller);
      }
    }
  }

  lemma RegistersAbsent(s: State, t: Id)
    requires OrderInv(s) && t in s.pc && s.pc[t].Registering?
    ensures Absent(s.sh.wire, t)
  {
    assert Fresh(s, t);
  }

  lemma LastWritten(s: State, step: Step, c: Id)
    requires Inv(s) && Enabled(s, step) && OrderInv(s) && Written(s, step) != [] && !Absent(s.sh.wire, c)
    ensures Do(s, step).sh.order == s.sh.order
    ensures c in s.sh.order && step.t in s.sh.order ==> s.sh.order[c] < s.sh.order[step.t]
  {
    hide Inv, Enabled, Do, Sorted;
    OrderStep(s, step);
    InvParts(s);
    assert Fresh(s, step.t);
    if s.pc[step.t].NotifyWrite? {
      NotifierUnregistered(s, step.t);
    } else if c in s.sh.order {
      EarlierCall(s, step.t, c);
    }
  }

  lemma StartOrder()
    ensures OrderInv(Start())
  {}

  lemma {:induction false} OrderRun(steps: seq<Step>)
    requires Run(steps).Some?
    ensures OrderInv(Run(steps).value)
  {
    if steps == [] {
      StartOrder();
    } else {
      LastStep(steps);
      var front, last := steps[..|steps| - 1], steps[|steps| - 1];
      OrderRun(front);
      hide Run, Do, Inv, Enabled, Fresh, Sorted;
      SortedStep(Run(front).value, last);
      forall t: Id ensures Fresh(Do(Run(front).value, last), t) {
        FreshStep(Run(front).value, last, t);
      }
    }
  }

  /** The requests of calls are written in the order in which the calls were registered. */
  lemma RegistrationOrder(steps: seq<Step>, i: nat, j: nat)
    requires Run(steps).Some? && i < j < |Run(steps).value.sh.wire|
    ensures var sh := Run(steps).value.sh;
            sh.wire[i].caller in sh.calls && sh.wire[j].caller in sh.calls ==>
            && sh.wire[i].caller in sh.order && sh.wire[j].caller in sh.order
            && sh.order[sh.wire[i].caller] < sh.order[sh.wire[j].caller]
  {
    OrderRun(steps);
    var sh := Run(steps).value.sh;
    hide Run;
    RequestsAreGenuine(steps, sh.wire[i]);
    RequestsAreGenuine(steps, sh.wire[j]);
  }

  // ---------------------------------------------------------------- one request each

  predicate WritesBy(t: Id, s: State, step: Step) { Moves(t, s, step) && Written(s, step) != [] }

  function By(wire: seq<Request>, t: Id): seq<Request> {
    if wire == [] then []
    else By(wire[..|wire| - 1], t) + if wire[|wire| - 1].caller == t then [wire[|wire| - 1]] else []
  }

  lemma ByAppend(wire: seq<Request>, r: Request, t: Id)
    ensures By(wire + [r], t) == By(wire, t) + if r.caller == t then [r] else []
  {
    assert (wire + [r])[..|wire|] == wire;
  }

  lemma {:induction false} ByAbsent(wire: seq<Request>, t: Id)
    ensures Absent(wire, t) <==> By(wire, t) == []
  {
    if wire != [] {
      var front, last := wire[..|wire| - 1], wire[|wire| - 1];
      ByAbsent(front, t);
      assert wire == front + [last];
    }
  }

  /** A goroutine has exactly as many requests on the wire as steps that wrote one, and that is at most one;
      the request carries its caller's own number, or 0 for a notification. */
  lemma {:induction false} RequestOnce(steps: seq<Step>, t: Id)
    requires Run(steps).Some?
    ensures var sh := Run(steps).value.sh; var n := Times(steps, (s, step) => WritesBy(t, s, step));
            && n <= 1 && |By(sh.wire, t)| == n
            && forall r | r in By(sh.wire, t) :: r.caller == t && if t in sh.calls then KeyOf(sh, t, r.number) else r.number == 0
  {
    var f := (s, step) => WritesBy(t, s, step);
    CountWrites(steps, t, f);
    WritesOnce(steps, t, f);
    var sh := Run(steps).value.sh;
    hide Run;
    ByIn(sh.wire, t);
    forall r | r in By(sh.wire, t) ensures r.caller == t && if t in sh.calls then KeyOf(sh, t, r.number) else r.number == 0 {
      RequestsAreGenuine(steps, r);
    }
  }

  lemma {:induction false} ByIn(wire: seq<Request>, t: Id)
    ensures forall r | r in By(wire, t) :: r in wire && r.caller == t
  {
    if wire != [] {
      ByIn(wire[..|wire| - 1], t);
    }
  }

  lemma {:induction false} CountWrites(steps: seq<Step>, t: Id, f: (State, Step) -> bool)
    requires Run(steps).Some? && forall s, step :: f(s, step) == WritesBy(t, s, step)
    ensures |By(Run(steps).value.sh.wire, t)| == Times(steps, f)
  {
    if steps != [] {
      LastStep(steps);
      var front, last := steps[..|steps| - 1], steps[|steps| - 1];
      CountWrites(front, t, f);
      hide Run, Do, Inv, Enabled;
      var s := Run(front).value;
      WireStep(s, last);
      assert f(s, last) == WritesBy(t, s, last);
      if Written(s, last) != [] {
        ByAppend(s.sh.wire, Written(s, last)[0], t);
        assert s.sh.wire + Written(s, last) == s.sh.wire + [Written(s, last)[0]];
      } else {
        assert s.sh.wire + [] == s.sh.wire;
      }
    }
  }

  lemma {:induction false} WritesOnce(steps: seq<Step>, t: Id, f: (State, Step) -> bool)
    requires Run(steps).Some? && forall s, step :: f(s, step) == WritesBy(t, s, step)
    ensures Times(steps, f) <= 1
  {
    if steps != [] {
      LastStep(steps);
      var front, last := steps[..|steps| - 1], steps[|steps| - 1];
      WritesOnce(front, t, f);
      OrderRun(front);
      CountWrites(front, t, f);
      hide Run, Do, Inv, Enabled;
      var s := Run(front).value;
      assert f(s, last) == WritesBy(t, s, last);
      if WritesBy(t, s, last) {
        assert Fresh(s, t);
        ByAbsent(s.sh.wire, t);
      }
    }
  }

  // ---------------------------------------------------------------- facts that steps bring about

  /** f brings g about, and nothing else does or undoes it. */
  ghost predicate Brings(f: (State, Step) -> bool, g: State -> bool) {
    !g(Start()) && forall s, step | Inv(s) && Enabled(s, step) :: g(Do(s, step)) <==> g(s) || f(s, step)
  }

  lemma {:induction false} BroughtAbout(steps: seq<Step>, f: (State, Step) -> bool, g: State -> bool)
    requires Run(steps).Some? && Brings(f, g)
    ensures g(Run(steps).value) <==> Times(steps, f) > 0
  {
    if steps != [] {
      LastStep(steps);
      BroughtAbout(steps[..|steps| - 1], f, g);
    }
  }

  /** f enters g, and h leaves it. */
  ghost predicate Passes(f: (State, Step) -> bool, g: State -> bool, h: (State, Step) -> bool) {
    !g(Start()) && forall s, step | Inv(s) && Enabled(s, step) :: One(g(Do(s, step))) + One(h(s, step)) == One(g(s)) + One(f(s, step))
  }

  lemma {:induction false} PassedThrough(steps: seq<Step>, f: (State, Step) -> bool, g: State -> bool, h: (State, Step) -> bool)
    requires Run(steps).Some? && Passes(f, g, h)
    ensures Times(steps, f) == Times(steps, h) + One(g(Run(steps).value))
  {
    if steps != [] {
      LastStep(steps);
      PassedThrough(steps[..|steps| - 1], f, g, h);
    }
  }

  /** The completions that a step makes. */
  function Completions(s: State, step: Step): seq<Event<Cause>> {
    if step.Goroutine? && step.t in s.pc then
      match s.pc[step.t]
      case Refused => [Event(step.t, ErrShutdown)]
      case Returning(found) => if found.Some? then [Event(step.t, WriteError)] else []
      case _ => []
    else if step.Reader? then
      match s.sh.reader
      case RespDone(k, found) => if found.Some? then [Event(found.value, Response(k))] else []
      case Ending(todo) =>
        if todo != {} && step.input.Visit? && step.input.k in s.sh.pending then [Event(s.sh.pending[step.input.k], LoopError)] else []
      case _ => []
    else []
  }

  lemma GoroutineCompletes(t: Id, pc: PC, sh: Shared, luck: Luck)
    requires Local(t, pc, sh)
    ensures Act(t, pc, sh, luck).completed ==
            if pc.Refused? then sh.completed + [Event(t, ErrShutdown)]
            else if pc.Returning? && pc.found.Some? then sh.completed + [Event(t, WriteError)] else sh.completed
    ensures Act(t, pc, sh, luck).reader == sh.reader
  {}

  lemma ReaderCompletes(s: State, step: Step)
    requires step.Reader? && ReaderCan(s.sh, step.input)
    ensures ReaderAct(s.sh, step.input).completed == s.sh.completed + Completions(s, step)
  {
    hide Complete, Lookup;
    var sh := s.sh;
    match sh.reader
    case RespDone(k, found) =>
      if found.Some? {
        CompleteAdds(sh, found.value, Response(k));
      }
    case Ending(todo) =>
      if todo != {} {
        CompleteAdds(sh, sh.pending[step.input.k], LoopError);
      }
    case _ =>
  }

  lemma CompletedStep(s: State, step: Step)
    requires Inv(s) && Enabled(s, step)
    ensures Do(s, step).sh.completed == s.sh.completed + Completions(s, step)
    ensures !step.Reader? ==> Do(s, step).sh.reader == s.sh.reader
  {
    hide Inv, Act, Next, ReaderAct, ReaderCan, Can;
    if step.Goroutine? {
      InvLocal(s, step.t);
      GoroutineCompletes(step.t, s.pc[step.t], s.sh, step.luck);
    } else if step.Reader? {
      ReaderCanStep(s, step);
      ReaderCompletes(s, step);
    }
  }

  // ---------------------------------------------------------------- refusals

  /** t comes to register after the client was closed or its read loop ended. */
  predicate Refuses(t: Id, s: State, step: Step) {
    Moves(t, s, step) && s.pc[t] == Registering && (s.sh.shutdown || s.sh.closing)
  }

  predicate IsRefused(t: Id, s: State) { Event(t, ErrShutdown) in s.sh.completed || PcOf(s, t) == Some(Refused) }

  lemma RefusesStep(t: Id, s: State, step: Step)
    requires Inv(s) && Enabled(s, step)
    ensures IsRefused(t, Do(s, step)) <==> IsRefused(t, s) || Refuses(t, s, step)
  {
    hide Inv, Enabled, Do;
    CompletedStep(s, step);
    PcStep(s, step, t);
    if step.Begin? {
      BeginsPlainly(s, step);
    }
  }

  lemma BeginsPlainly(s: State, step: Step)
    requires Enabled(s, step) && step.Begin?
    ensures step.t !in s.pc && (step.first.WantSending? || step.first.NotifyWant? || step.first.CloseWant?)
  {}

  /** A call is completed with ErrShutdown, or about to be, exactly if it came to register too late; it is
      registered exactly if it came in time. */
  lemma RefusedExactly(steps: seq<Step>, t: Id)
    requires Run(steps).Some?
    ensures IsRefused(t, Run(steps).value) <==> Times(steps, (s, step) => Refuses(t, s, step)) > 0
    ensures t in Run(steps).value.sh.order <==> Times(steps, (s, step) => Registers(t, s, step)) > 0
  {
    var f, g := (s, step) => Refuses(t, s, step), s => IsRefused(t, s);
    var f', g' := (s, step) => Registers(t, s, step), (s: State) => t in s.sh.order;
    hide Run, Inv, Enabled, Do, Refuses, IsRefused, Registers;
    assert Brings(f, g) by {
      NobodyAtStart(t);
      forall s, step | Inv(s) && Enabled(s, step) ensures g(Do(s, step)) <==> g(s) || f(s, step) {
        RefusesStep(t, s, step);
      }
    }
    BroughtAbout(steps, f, g);
    assert Brings(f', g') by {
      NobodyAtStart(t);
      forall s, step | Inv(s) && Enabled(s, step) ensures g'(Do(s, step)) <==> g'(s) || f'(s, step) {
        RegistersStep(t, s, step);
      }
    }
    BroughtAbout(steps, f', g');
  }

  lemma NobodyAtStart(t: Id)
    ensures !IsRefused(t, Start()) && t !in Start().sh.order
  {}

  lemma RegistersStep(t: Id, s: State, step: Step)
    requires Inv(s) && Enabled(s, step)
    ensures t in Do(s, step).sh.order <==> t in s.sh.order || Registers(t, s, step)
  {
    hide Inv, Enabled, Do;
    OrderStep(s, step);
  }

  // ---------------------------------------------------------------- closing, and the end of the read loop

  predicate Closes(s: State, step: Step) { step.Goroutine? && step.t in s.pc && s.pc[step.t] == CloseHold && !s.sh.shutdown }

  /** The codec reports an error, or a request cannot be handled. */
  predicate EndsLoop(s: State, step: Step) {
    step.Reader? && s.sh.reader == Reading && (step.input == ReadError || step.input == Incoming(true))
  }

  predicate LoopOver(s: State) {
    !(s.sh.reader.Reading? || s.sh.reader.RespWant? || s.sh.reader.RespHold? || s.sh.reader.RespDone?)
  }

  lemma GoroutineCloses(t: Id, pc: PC, sh: Shared, luck: Luck)
    ensures Act(t, pc, sh, luck).closing == (sh.closing || (pc == CloseHold && !sh.shutdown))
  {}

  lemma ReaderMoves(sh: Shared, input: Input)
    requires ReaderCan(sh, input)
    ensures var r, r' := sh.reader, ReaderAct(sh, input).reader;
            && (r == Reading ==> r' == if input.Reply? then RespWant(input.k) else if input == Incoming(false) then Reading else EndWantSending)
            && (r.RespWant? ==> r' == RespHold(r.k)) && (r.RespHold? ==> r' == RespDone(r.k, Lookup(sh, r.k)))
            && (r.RespDone? ==> r' == Reading)
            && (!(r.Reading? || r.RespWant? || r.RespHold? || r.RespDone?) ==>
                  !(r'.Reading? || r'.RespWant? || r'.RespHold? || r'.RespDone?))
    ensures ReaderAct(sh, input).closing == sh.closing
  {
    hide Complete, Lookup;
    match sh.reader
    case RespDone(k, found) =>
      if found.Some? {
        CompleteAdds(sh, found.value, Response(k));
      }
    case Ending(todo) =>
      if todo != {} {
        CompleteAdds(sh, sh.pending[input.k], LoopError);
      }
    case _ =>
  }

  lemma ClosesStep(s: State, step: Step)
    requires Inv(s) && Enabled(s, step)
    ensures Do(s, step).sh.closing <==> s.sh.closing || Closes(s, step)
  {
    hide Inv, Act, Next, ReaderAct, ReaderCan, Can;
    if step.Goroutine? {
      GoroutineCloses(step.t, s.pc[step.t], s.sh, step.luck);
    } else if step.Reader? {
      ReaderCanStep(s, step);
      ReaderMoves(s.sh, step.input);
    }
  }

  lemma LoopStep(s: State, step: Step)
    requires Inv(s) && Enabled(s, step)
    ensures LoopOver(Do(s, step)) <==> LoopOver(s) || EndsLoop(s, step)
  {
    hide Inv, Enabled, Do;
    CompletedStep(s, step);
    if step.Reader? {
      ReaderCanStep(s, step);
      ReadingCan(s.sh, step.input);
      hide ReaderAct, ReaderCan;
      ReaderMoves(s.sh, step.input);
    }
  }

  lemma ReadingCan(sh: Shared, input: Input)
    requires ReaderCan(sh, input)
    ensures sh.reader == Reading ==> input.Reply? || input.Incoming? || input == ReadError
  {}

  /** The client is closing exactly if Close took hold before the end; the read loop is over exactly if an
      error was read or a request could not be handled, and only then is the client shut down. */
  lemma EndsExactly(steps: seq<Step>)
    requires Run(steps).Some?
    ensures var s := Run(steps).value;
            && (s.sh.closing <==> Times(steps, Closes) > 0)
            && (LoopOver(s) <==> Times(steps, EndsLoop) > 0)
            && (s.sh.shutdown ==> LoopOver(s))
  {
    RunInv(steps);
    InvParts(Run(steps).value);
    var g, h := (s: State) => s.sh.closing, LoopOver;
    hide Run, Inv, Enabled, Do, Closes, EndsLoop;
    assert Brings(Closes, g) by {
      forall s, step | Inv(s) && Enabled(s, step) ensures g(Do(s, step)) <==> g(s) || Closes(s, step) {
        ClosesStep(s, step);
      }
    }
    BroughtAbout(steps, Closes, g);
    assert Brings(EndsLoop, h) by {
      forall s, step | Inv(s) && Enabled(s, step) ensures h(Do(s, step)) <==> h(s) || EndsLoop(s, step) {
        LoopStep(s, step);
      }
    }
    BroughtAbout(steps, EndsLoop, h);
  }

  // ---------------------------------------------------------------- responses

  predicate ReadsReply(k: nat, s: State, step: Step) { step == Reader(Reply(k)) && s.sh.reader == Reading }

  /** The read loop looks up number k in the table. */
  predicate LooksUp(k: nat, s: State, step: Step) { step.Reader? && s.sh.reader == RespHold(k) }

  /** ... and finds call c. */
  predicate Finds(c: Id, k: nat, s: State, step: Step) { LooksUp(k, s, step) && k in s.sh.pending && s.sh.pending[k] == c }

  predicate Fetching(k: nat, s: State) { s.sh.reader == RespWant(k) || s.sh.reader == RespHold(k) }

  predicate Served(c: Id, k: nat, s: State) { Event(c, Response(k)) in s.sh.completed || s.sh.reader == RespDone(k, Some(c)) }

  lemma FetchStep(k: nat, s: State, step: Step)
    requires Inv(s) && Enabled(s, step)
    ensures One(Fetching(k, Do(s, step))) + One(LooksUp(k, s, step)) == One(Fetching(k, s)) + One(ReadsReply(k, s, step))
  {
    hide Inv, Enabled, Do;
    CompletedStep(s, step);
    if step.Reader? {
      ReaderCanStep(s, step);
      hide ReaderAct, ReaderCan, Lookup;
      ReaderMoves(s.sh, step.input);
    }
  }

  lemma ServeStep(c: Id, k: nat, s: State, step: Step)
    requires Inv(s) && Enabled(s, step)
    ensures Served(c, k, Do(s, step)) <==> Served(c, k, s) || Finds(c, k, s, step)
  {
    hide Inv, Enabled, Do;
    CompletedStep(s, step);
    if step.Reader? {
      ReaderCanStep(s, step);
      hide ReaderAct, ReaderCan;
      ReaderMoves(s.sh, step.input);
    }
  }

  /** Every response that was read has been looked up, or is about to be, exactly once; and a call is completed
      with the response numbered k, or about to be, exactly if such a lookup found it. */
  lemma RepliesServed(steps: seq<Step>, c: Id, k: nat)
    requires Run(steps).Some?
    ensures var s := Run(steps).value;
            && Times(steps, (s, step) => ReadsReply(k, s, step)) == Times(steps, (s, step) => LooksUp(k, s, step)) + One(Fetching(k, s))
            && (Served(c, k, s) <==> Times(steps, (s, step) => Finds(c, k, s, step)) > 0)
  {
    var f, g, h := (s, step) => ReadsReply(k, s, step), s => Fetching(k, s), (s, step) => LooksUp(k, s, step);
    var f', g' := (s, step) => Finds(c, k, s, step), s => Served(c, k, s);
    hide Run, Inv, Enabled, Do, LooksUp, ReadsReply, Finds;
    assert Passes(f, g, h) by {
      forall s, step | Inv(s) && Enabled(s, step) ensures One(g(Do(s, step))) + One(h(s, step)) == One(g(s)) + One(f(s, step)) {
        FetchStep(k, s, step);
      }
    }
    PassedThrough(steps, f, g, h);
    assert Brings(f', g') by {
      forall s, step | Inv(s) && Enabled(s, step) ensures g'(Do(s, step)) <==> g'(s) || f'(s, step) {
        ServeStep(c, k, s, step);
      }
    }
    BroughtAbout(steps, f', g');
  }

  // ---------------------------------------------------------------- failed writes and the final loop

  predicate FailsWrite(t: Id, s: State, step: Step) { Moves(t, s, step) && s.pc[t].Writing? && step.luck.fails }

  predicate LooksBack(t: Id, s: State, step: Step) { Moves(t, s, step) && s.pc[t].TakingBack? }

  /** ... and finds its own call still pending. */
  predicate TakesBack(t: Id, s: State, step: Step) {
    LooksBack(t, s, step) && s.pc[t].k in s.sh.pending && s.sh.pending[s.pc[t].k] == t
  }

  predicate Backing(t: Id, s: State) { t in s.pc && (s.pc[t].WantMutexBack? || s.pc[t].TakingBack?) }

  predicate GaveUp(t: Id, s: State) { Event(t, WriteError) in s.sh.completed || PcOf(s, t) == Some(Returning(Some(t))) }

  lemma BackStep(t: Id, s: State, step: Step)
    requires Inv(s) && Enabled(s, step)
    ensures One(Backing(t, Do(s, step))) + One(LooksBack(t, s, step)) == One(Backing(t, s)) + One(FailsWrite(t, s, step))
  {
    hide Inv, Enabled, Do;
    PcStep(s, step, t);
    if step.Begin? {
      BeginsPlainly(s, step);
    }
  }

  lemma GaveUpStep(t: Id, s: State, step: Step)
    requires Inv(s) && Enabled(s, step)
    ensures GaveUp(t, Do(s, step)) <==> GaveUp(t, s) || TakesBack(t, s, step)
  {
    hide Inv, Enabled, Do;
    CompletedStep(s, step);
    PcStep(s, step, t);
    if step.Begin? {
      BeginsPlainly(s, step);
    }
    if t in s.pc {
      InvLocal(s, t);
    }
  }

  /** Every failed write looks the call up again exactly once, and the call is completed with the write's error,
      or about to be, exactly if it was still pending then. */
  lemma FailuresReported(steps: seq<Step>, t: Id)
    requires Run(steps).Some?
    ensures var s := Run(steps).value;
            && Times(steps, (s, step) => FailsWrite(t, s, step)) == Times(steps, (s, step) => LooksBack(t, s, step)) + One(Backing(t, s))
            && (GaveUp(t, s) <==> Times(steps, (s, step) => TakesBack(t, s, step)) > 0)
  {
    var f, g, h := (s, step) => FailsWrite(t, s, step), s => Backing(t, s), (s, step) => LooksBack(t, s, step);
    var f', g' := (s, step) => TakesBack(t, s, step), s => GaveUp(t, s);
    hide Run, Inv, Enabled, Do, FailsWrite, LooksBack, TakesBack;
    assert Passes(f, g, h) by {
      forall s, step | Inv(s) && Enabled(s, step) ensures One(g(Do(s, step))) + One(h(s, step)) == One(g(s)) + One(f(s, step)) {
        BackStep(t, s, step);
      }
    }
    PassedThrough(steps, f, g, h);
    assert Brings(f', g') by {
      forall s, step | Inv(s) && Enabled(s, step) ensures g'(Do(s, step)) <==> g'(s) || f'(s, step) {
        GaveUpStep(t, s, step);
      }
    }
    BroughtAbout(steps, f', g');
  }

  /** A call is completed with the loop's error only if the loop is over. */
  predicate Blamed(s: State, c: Id) { Event(c, LoopError) in s.sh.completed ==> s.sh.shutdown }

  lemma BlamedStep(s: State, step: Step, c: Id)
    requires Inv(s) && Enabled(s, step) && Blamed(s, c)
    ensures Blamed(Do(s, step), c)
  {
    hide Inv, Enabled, Do;
    CompletedStep(s, step);
    InvParts(s);
    ShutdownStays(s, step);
  }

  lemma ShutdownStays(s: State, step: Step)
    requires Enabled(s, step)
    ensures s.sh.shutdown ==> Do(s, step).sh.shutdown
  {
    hide Complete, Lookup;
    if step.Goroutine? {
      ActShutdown(step.t, s.pc[step.t], s.sh, step.luck);
    } else if step.Reader? {
      ReaderShutdown(s.sh, step.input);
    }
  }

  lemma ActShutdown(t: Id, pc: PC, sh: Shared, luck: Luck)
    ensures Act(t, pc, sh, luck).shutdown == sh.shutdown
  {}

  lemma ReaderShutdown(sh: Shared, input: Input)
    requires ReaderCan(sh, input)
    ensures sh.shutdown ==> ReaderAct(sh, input).shutdown
  {
    hide Complete, Lookup;
    match sh.reader
    case RespDone(k, found) =>
      if found.Some? {
        CompleteAdds(sh, found.value, Response(k));
      }
    case Ending(todo) =>
      if todo != {} {
        CompleteAdds(sh, sh.pending[input.k], LoopError);
      }
    case _ =>
  }

  lemma LoopBlamed(steps: seq<Step>, c: Id)
    requires Run(steps).Some? && Event(c, LoopError) in Run(steps).value.sh.completed
    ensures Run(steps).value.sh.shutdown && Times(steps, EndsLoop) > 0
  {
    BlamedRun(steps, c);
    EndsExactly(steps);
  }

  lemma {:induction false} BlamedRun(steps: seq<Step>, c: Id)
    requires Run(steps).Some?
    ensures Blamed(Run(steps).value, c)
  {
    if steps != [] {
      LastStep(steps);
      BlamedRun(steps[..|steps| - 1], c);
      hide Run, Do, Inv, Enabled;
      BlamedStep(Run(steps[..|steps| - 1]).value, steps[|steps| - 1], c);
    }
  }

  // ---------------------------------------------------------------- no stage is skipped

  predicate Enters(t: Id, first: PC, step: Step) { step == Begin(t, first) }

  /** t takes the step at which it registers or is refused. */
  predicate Decides(t: Id, s: State, step: Step) { Moves(t, s, step) && s.pc[t] == Registering }

  /** t hands its request to the codec. */
  predicate Attempts(t: Id, s: State, step: Step) { Moves(t, s, step) && s.pc[t].Writing? }

  predicate Checks(t: Id, s: State, step: Step) { Moves(t, s, step) && s.pc[t] == NotifyCheck }

  predicate MayNotify(t: Id, s: State, step: Step) { Checks(t, s, step) && !s.sh.shutdown && !s.sh.closing }

  predicate AttemptsNotify(t: Id, s: State, step: Step) { Moves(t, s, step) && s.pc[t] == NotifyWrite }

  predicate Undone(t: Id, s: State) { t in s.pc && Undecided(s.pc[t]) }
  predicate ToSend(t: Id, s: State) { t in s.pc && Sending(s.pc[t]) }
  predicate ToCheck(t: Id, s: State) { t in s.pc && (s.pc[t].NotifyWant? || s.pc[t].NotifyCheck?) }
  predicate ToNotify(t: Id, s: State) { t in s.pc && (s.pc[t].NotifyPrepare? || s.pc[t].NotifyWrite?) }

  lemma SendStage(t: Id, s: State, step: Step)
    requires Inv(s) && Enabled(s, step)
    ensures One(Undone(t, Do(s, step))) + One(Decides(t, s, step)) == One(Undone(t, s)) + One(Enters(t, WantSending, step))
    ensures One(ToSend(t, Do(s, step))) + One(Attempts(t, s, step)) == One(ToSend(t, s)) + One(Registers(t, s, step))
  {
    hide Inv, Enabled, Do;
    PcStep(s, step, t);
    if step.Begin? {
      BeginsPlainly(s, step);
    }
  }

  lemma NotifyStage(t: Id, s: State, step: Step)
    requires Inv(s) && Enabled(s, step)
    ensures One(ToCheck(t, Do(s, step))) + One(Checks(t, s, step)) == One(ToCheck(t, s)) + One(Enters(t, NotifyWant, step))
    ensures One(ToNotify(t, Do(s, step))) + One(AttemptsNotify(t, s, step)) == One(ToNotify(t, s)) + One(MayNotify(t, s, step))
  {
    hide Inv, Enabled, Do;
    PcStep(s, step, t);
    if step.Begin? {
      BeginsPlainly(s, step);
    }
  }

  /** Every call that was sent is registered or refused, and every call that is registered is handed to the codec,
      exactly once, unless it is still on its way there. */
  lemma CallsAttempted(steps: seq<Step>, t: Id)
    requires Run(steps).Some?
    ensures var s := Run(steps).value;
            && Times(steps, (s, step) => Enters(t, WantSending, step)) == Times(steps, (s, step) => Decides(t, s, step)) + One(Undone(t, s))
            && Times(steps, (s, step) => Registers(t, s, step)) == Times(steps, (s, step) => Attempts(t, s, step)) + One(ToSend(t, s))
  {
    hide Run, Inv, Enabled, Do, Registers, Decides, Attempts, Enters;
    var f, g, h := (s: State, step: Step) => Enters(t, WantSending, step), s => Undone(t, s), (s, step) => Decides(t, s, step);
    assert Passes(f, g, h) by {
      forall s, step | Inv(s) && Enabled(s, step) ensures One(g(Do(s, step))) + One(h(s, step)) == One(g(s)) + One(f(s, step)) {
        SendStage(t, s, step);
      }
    }
    PassedThrough(steps, f, g, h);
    RegisteredAttempted(steps, t);
  }

  lemma RegisteredAttempted(steps: seq<Step>, t: Id)
    requires Run(steps).Some?
    ensures Times(steps, (s, step) => Registers(t, s, step)) ==
            Times(steps, (s, step) => Attempts(t, s, step)) + One(ToSend(t, Run(steps).value))
  {
    hide Run, Inv, Enabled, Do, Registers, Attempts;
    var f, g, h := (s, step) => Registers(t, s, step), s => ToSend(t, s), (s, step) => Attempts(t, s, step);
    assert Passes(f, g, h) by {
      forall s, step | Inv(s) && Enabled(s, step) ensures One(g(Do(s, step))) + One(h(s, step)) == One(g(s)) + One(f(s, step)) {
        SendStage(t, s, step);
      }
    }
    PassedThrough(steps, f, g, h);
  }

  /** The same for notifications, which are dropped only if the client is closing or shut down. */
  lemma NotificationsAttempted(steps: seq<Step>, t: Id)
    requires Run(steps).Some?
    ensures var s := Run(steps).value;
            && Times(steps, (s, step) => Enters(t, NotifyWant, step)) == Times(steps, (s, step) => Checks(t, s, step)) + One(ToCheck(t, s))
            && Times(steps, (s, step) => MayNotify(t, s, step)) == Times(steps, (s, step) => AttemptsNotify(t, s, step)) + One(ToNotify(t, s))
  {
    hide Run, Inv, Enabled, Do, Checks, MayNotify, AttemptsNotify, Enters;
    var f, g, h := (s: State, step: Step) => Enters(t, NotifyWant, step), s => ToCheck(t, s), (s, step) => Checks(t, s, step);
    assert Passes(f, g, h) by {
      forall s, step | Inv(s) && Enabled(s, step) ensures One(g(Do(s, step))) + One(h(s, step)) == One(g(s)) + One(f(s, step)) {
        NotifyStage(t, s, step);
      }
    }
    PassedThrough(steps, f, g, h);
    CheckedAttempted(steps, t);
  }

  lemma CheckedAttempted(steps: seq<Step>, t: Id)
    requires Run(steps).Some?
    ensures Times(steps, (s, step) => MayNotify(t, s, step)) ==
            Times(steps, (s, step) => AttemptsNotify(t, s, step)) + One(ToNotify(t, Run(steps).value))
  {
    hide Run, Inv, Enabled, Do, MayNotify, AttemptsNotify;
    var f, g, h := (s, step) => MayNotify(t, s, step), s => ToNotify(t, s), (s, step) => AttemptsNotify(t, s, step);
    assert Passes(f, g, h) by {
      forall s, step | Inv(s) && Enabled(s, step) ensures One(g(Do(s, step))) + One(h(s, step)) == One(g(s)) + One(f(s, step)) {
        NotifyStage(t, s, step);
      }
    }
    PassedThrough(steps, f, g, h);
  }

  // ---------------------------------------------------------------- replies taken from the channel

  lemma ReceivesStep(t: Id, s: State, step: Step)
    requires Enabled(s, step)
    ensures t in Do(s, step).sh.received <==> t in s.sh.received || step == Receive(t)
  {
    hide Act, Next, ReaderAct, ReaderCan, Can;
    if step.Goroutine? {
      ActReceived(step.t, s.pc[step.t], s.sh, step.luck);
    } else if step.Reader? {
      ReaderCanStep(s, step);
      ReaderReceived(s.sh, step.input);
    }
  }

  lemma ActReceived(t: Id, pc: PC, sh: Shared, luck: Luck)
    ensures Act(t, pc, sh, luck).received == sh.received
  {}

  lemma ReaderReceived(sh: Shared, input: Input)
    requires ReaderCan(sh, input)
    ensures ReaderAct(sh, input).received == sh.received
  {
    hide Complete, Lookup;
    match sh.reader
    case RespDone(k, found) =>
      if found.Some? {
        CompleteAdds(sh, found.value, Response(k));
      }
    case Ending(todo) =>
      if todo != {} {
        CompleteAdds(sh, sh.pending[input.k], LoopError);
      }
    case _ =>
  }

  /** A reply has been taken out of its channel exactly if its caller took it. */
  lemma ReceivedExactly(steps: seq<Step>, t: Id)
    requires Run(steps).Some?
    ensures t in Run(steps).value.sh.received <==> Times(steps, (s, step) => step == Receive(t)) > 0
  {
    var f, g := (s: State, step: Step) => step == Receive(t), (s: State) => t in s.sh.received;
    hide Run, Inv, Enabled, Do;
    assert Brings(f, g) by {
      forall s, step | Inv(s) && Enabled(s, step) ensures g(Do(s, step)) <==> g(s) || f(s, step) {
        ReceivesStep(t, s, step);
      }
    }
    BroughtAbout(steps, f, g);
  }
}
