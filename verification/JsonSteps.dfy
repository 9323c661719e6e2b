/** What became of each incoming request, told by the steps of the run: how far it was processed, whether it was
    answered, and why the read loop ended. */
module JsonRpcHistory {
  import opened Common
  import opened JsonRpcIds

  // ---------------------------------------------------------------- counting steps

  /** How often in the run a step was taken in a state such that f. */
  ghost function Times(steps: seq<Step>, f: (State, Step) -> bool): nat {
    if steps == [] then 0
    else
      var front, last := steps[..|steps| - 1], steps[|steps| - 1];
      Times(front, f) + One(Run(front).Some? && f(Run(front).value, last))
  }

  lemma LastStep(steps: seq<Step>)
    requires steps != [] && Run(steps).Some?
    ensures var front, last := steps[..|steps| - 1], steps[|steps| - 1];
            && Run(front).Some? && Inv(Run(front).value) && Enabled(Run(front).value, last)
            && Run(steps).value == Do(Run(front).value, last)
  {
    hide Do, Inv, Enabled;
    RunInv(steps[..|steps| - 1]);
  }

  /** f brings g about, and nothing else does or undoes it. */
  ghost predicate Brings(f: (State, Step) -> bool, g: State -> bool) {
    !g(Start()) && forall s, step | Inv(s) && Enabled(s, step) :: g(Do(s, step)) <==> g(s) || f(s, step)
  }

  lemma {:induction false} BroughtAbout(steps: seq<Step>, f: (State, Step) -> bool, g: State -> bool)
    requires Run(steps).Some? && Brings(f, g)
    ensures g(Run(steps).value) <==> Times(steps, f) > 0
  {
    if steps != [] {
      LastStep(steps);
      BroughtAbout(steps[..|steps| - 1], f, g);
    }
  }

  /** f enters g, and h leaves it. */
  ghost predicate Passes(f: (State, Step) -> bool, g: State -> bool, h: (State, Step) -> bool) {
    !g(Start()) && forall s, step | Inv(s) && Enabled(s, step) :: One(g(Do(s, step))) + One(h(s, step)) == One(g(s)) + One(f(s, step))
  }

  lemma {:induction false} PassedThrough(steps: seq<Step>, f: (State, Step) -> bool, g: State -> bool, h: (State, Step) -> bool)
    requires Run(steps).Some? && Passes(f, g, h)
    ensures Times(steps, f) == Times(steps, h) + One(g(Run(steps).value))
  {
    if steps != [] {
      LastStep(steps);
      PassedThrough(steps[..|steps| - 1], f, g, h);
    }
  }

  /** A step that needs no state to be recognised. */
  lemma {:induction false} TimesIn(steps: seq<Step>, step: Step, f: (State, Step) -> bool)
    requires Run(steps).Some? && forall s, x :: f(s, x) == (x == step)
    ensures Times(steps, f) > 0 <==> step in steps
  {
    if steps != [] {
      LastStep(steps);
      var front, last := steps[..|steps| - 1], steps[|steps| - 1];
      TimesIn(front, step, f);
      assert steps == front + [last];
      assert f(Run(front).value, last) == (last == step);
    }
  }

  // ---------------------------------------------------------------- what was received

  /** The headers read in the run. */
  function Headers(steps: seq<Step>): (r: seq<Step>)
    ensures forall i | 0 <= i < |r| :: r[i].Header?
  {
    if steps == [] then []
    else Headers(steps[..|steps| - 1]) + if steps[|steps| - 1].Header? then [steps[|steps| - 1]] else []
  }

  /** How many of them have an id. */
  function WithId(headers: seq<Step>): nat
    requires forall i | 0 <= i < |headers| :: headers[i].Header?
  {
    if headers == [] then 0 else WithId(headers[..|headers| - 1]) + One(headers[|headers| - 1].id.Some?)
  }

  /** The number of a request after `rank` others with an id. */
  function SeqNumber(rank: nat): nat { (rank + 1) % 0x1_0000_0000_0000_0000 }

  /** Requests with an id are numbered from 1 on, modulo 2^64; notifications are numbered 0. */
  function Numbered(headers: seq<Step>): seq<Request>
    requires forall i | 0 <= i < |headers| :: headers[i].Header?
  {
    if headers == [] then []
    else
      var front, last := headers[..|headers| - 1], headers[|headers| - 1];
      Numbered(front) +
      [Request(last.id, last.known, if last.id.Some? then SeqNumber(WithId(front)) else 0, WithId(front))]
  }

  lemma HeaderStep(s: State, step: Step)
    requires Inv(s) && Enabled(s, step)
    ensures var s' := Do(s, step);
            if step.Header? then
              && s'.requests == s.requests + [Request(step.id, step.known, if step.id.Some? then SeqNumber(s.issued) else 0, s.issued)]
              && s'.issued == s.issued + One(step.id.Some?)
            else s'.requests == s.requests && s'.issued == s.issued
  {
    TableNext(s);
    hide Inv;
    NextNumber(s.issued);
  }

  lemma TableNext(s: State)
    requires Inv(s)
    ensures s.table.next == s.issued % TWO64
  {
    hide RequestOk, EntryOk, TakerOk, SentOk, SentOnce;
  }

  /** In every run the requests are those whose headers were read, in that order, with the ids they came with. */
  lemma {:induction false} RequestsRead(steps: seq<Step>)
    requires Run(steps).Some?
    ensures Run(steps).value.requests == Numbered(Headers(steps)) && Run(steps).value.issued == WithId(Headers(steps))
  {
    if steps != [] {
      LastStep(steps);
      var front, last := steps[..|steps| - 1], steps[|steps| - 1];
      RequestsRead(front);
      hide Run, Do, Inv, Enabled, Headers, Numbered, WithId, SeqNumber;
      HeaderStep(Run(front).value, last);
      HeadersMore(steps);
      if last.Header? {
        NumberedMore(Headers(front), last);
        WithIdMore(Headers(front), last);
      }
    } else {
      assert Numbered([]) == [] && WithId([]) == 0;
    }
  }

  lemma HeadersMore(steps: seq<Step>)
    requires steps != []
    ensures var front, last := steps[..|steps| - 1], steps[|steps| - 1];
            Headers(steps) == if last.Header? then Headers(front) + [last] else Headers(front)
  {
    assert Headers(steps[..|steps| - 1]) + [] == Headers(steps[..|steps| - 1]);
  }

  lemma NumberedMore(headers: seq<Step>, last: Step)
    requires last.Header? && forall i | 0 <= i < |headers| :: headers[i].Header?
    ensures var number := if last.id.Some? then SeqNumber(WithId(headers)) else 0;
            Numbered(headers + [last]) == Numbered(headers) + [Request(last.id, last.known, number, WithId(headers))]
  {
    hide WithId, SeqNumber;
    assert (headers + [last])[..|headers|] == headers;
  }

  lemma WithIdMore(headers: seq<Step>, last: Step)
    requires last.Header? && forall i | 0 <= i < |headers| :: headers[i].Header?
    ensures WithId(headers + [last]) == WithId(headers) + One(last.id.Some?)
  {
    assert (headers + [last])[..|headers|] == headers;
  }

  // ---------------------------------------------------------------- steps and phases

  predicate Arrives(i: nat, s: State, step: Step) { step.Header? && |s.requests| == i }

  /** The read loop has read the parameters of request i, or failed to, or found no handler. */
  predicate Dispatches(i: nat, s: State, step: Step) { step.Dispatch? && s.loop == Busy(i) && i < |s.requests| }

  predicate BodyFails(i: nat, s: State, step: Step) {
    Dispatches(i, s, step) && !step.bodyOk && s.requests[i].known
  }

  predicate GoesOn(i: nat, s: State, step: Step) { Dispatches(i, s, step) && !BodyFails(i, s, step) }

  predicate Responds(i: nat, s: State, step: Step) { step == Write(i) }

  /** A response for request i finds an id under its number; none is sought for a handled request numbered 0. */
  predicate FindsId(i: nat, s: State, step: Step) {
    step == Write(i) && i < |s.requests| && s.requests[i].number in s.table.pending && (s.requests[i].number != 0 || !s.requests[i].known)
  }

  predicate Encodes(i: nat, s: State, step: Step) { step == Encode(i, false) || step == Encode(i, true) }

  predicate Dispatching(i: nat, s: State) { Is(s, i, Phase.Dispatching) }
  predicate Responding(i: nat, s: State) { Is(s, i, Running) || Is(s, i, Refusing) }
  predicate Encoding(i: nat, s: State) { i < |s.phases| && s.phases[i].Encoding? }
  predicate BadlyFormed(i: nat, s: State) { Is(s, i, Silent(BadBody)) }
  predicate IsAnswered(i: nat, s: State) { i < |s.phases| && s.phases[i].Answered? }
  predicate IsUnsent(i: nat, s: State) { i < |s.phases| && s.phases[i].Silent? && s.phases[i].why.WriteFailed? }

  /** The phase of request i after a step. */
  function PhaseAfter(s: State, step: Step, i: nat): Option<Phase>
    requires |s.phases| == |s.requests|
  {
    if i >= |s.phases| then (if step.Header? && i == |s.phases| then Some(Phase.Dispatching) else None)
    else
      var p, r := s.phases[i], s.requests[i];
      match step
      case Dispatch(ok) =>
        if s.loop != Busy(i) then Some(p) else Some(if !r.known then Refusing else if ok then Running else Silent(BadBody))
      case Write(j) =>
        if j != i then Some(p)
        else if p.Running? && r.number == 0 then Some(Silent(Notification))
        else if r.number in s.table.pending then Some(Phase.Encoding(s.table.pending[r.number], OwnerOf(s, r.number), p.Refusing?))
        else Some(Silent(InvalidNumber))
      case Encode(j, fails) =>
        if j != i || !p.Encoding? then Some(p) else Some(if fails then Silent(WriteFailed(p.of)) else Answered(p.of))
      case _ => Some(p)
  }

  function PhaseOf(s: State, i: nat): Option<Phase> { if i < |s.phases| then Some(s.phases[i]) else None }

  lemma PhaseStep(s: State, step: Step, i: nat)
    requires Enabled(s, step)
    ensures PhaseOf(Do(s, step), i) == PhaseAfter(s, step, i)
  {}

  lemma InvRequest(s: State, i: nat)
    requires Inv(s) && i < |s.requests|
    ensures |s.phases| == |s.requests| && RequestOk(s, i)
  {
    hide RequestOk, EntryOk, TakerOk, SentOk, SentOnce;
  }

  lemma SameSize(s: State)
    requires Inv(s)
    ensures |s.phases| == |s.requests|
  {
    hide RequestOk, EntryOk, TakerOk, SentOk, SentOnce;
  }

  lemma EnabledForm(s: State, step: Step)
    requires Enabled(s, step)
    ensures |s.phases| == |s.requests|
    ensures step.Dispatch? ==> s.loop.Busy? && Dispatching(s.loop.i, s)
    ensures step.Write? ==> Responding(step.i, s)
    ensures step.Encode? ==> Encoding(step.i, s)
  {}

  /** What a request's phase says about it. */
  lemma PhaseFacts(s: State, i: nat)
    requires Inv(s) && i < |s.requests|
    ensures |s.phases| == |s.requests|
    ensures (Is(s, i, Running) ==> s.requests[i].known) && (Is(s, i, Refusing) ==> !s.requests[i].known)
    ensures ByLoop(s.phases[i]) ==> s.loop == Busy(i)
  {
    hide EntryOk, TakerOk, SentOk, SentOnce, NumberOk;
    assert RequestOk(s, i);
  }

  lemma DispatchStage(i: nat, s: State, step: Step)
    requires Inv(s) && Enabled(s, step)
    ensures One(Dispatching(i, Do(s, step))) + One(Dispatches(i, s, step)) == One(Dispatching(i, s)) + One(Arrives(i, s, step))
    ensures BadlyFormed(i, Do(s, step)) <==> BadlyFormed(i, s) || BodyFails(i, s, step)
  {
    hide Inv, Enabled, Do;
    EnabledForm(s, step);
    PhaseStep(s, step, i);
    if i < |s.requests| {
      PhaseFacts(s, i);
    }
  }

  lemma RespondStage(i: nat, s: State, step: Step)
    requires Inv(s) && Enabled(s, step)
    ensures One(Responding(i, Do(s, step))) + One(Responds(i, s, step)) == One(Responding(i, s)) + One(GoesOn(i, s, step))
  {
    hide Inv, Enabled, Do;
    EnabledForm(s, step);
    PhaseStep(s, step, i);
    if i < |s.requests| {
      PhaseFacts(s, i);
    }
  }

  lemma EncodeStage(i: nat, s: State, step: Step)
    requires Inv(s) && Enabled(s, step)
    ensures One(Encoding(i, Do(s, step))) + One(Encodes(i, s, step)) == One(Encoding(i, s)) + One(FindsId(i, s, step))
  {
    hide Inv, Enabled, Do;
    EnabledForm(s, step);
    PhaseStep(s, step, i);
    if i < |s.requests| {
      PhaseFacts(s, i);
    }
  }

  lemma OutcomeStep(i: nat, s: State, step: Step)
    requires Inv(s) && Enabled(s, step)
    ensures IsAnswered(i, Do(s, step)) <==> IsAnswered(i, s) || step == Encode(i, false)
    ensures IsUnsent(i, Do(s, step)) <==> IsUnsent(i, s) || step == Encode(i, true)
  {
    hide Inv, Enabled, Do;
    EnabledForm(s, step);
    PhaseStep(s, step, i);
  }

  /** No stage is skipped: a request that has arrived has been dispatched or is about to be, exactly once; one whose
      parameters were read, or that has no handler, gets its response, or is about to; and a response that found
      an id is encoded, or is about to be. */
  lemma RequestStages(steps: seq<Step>, i: nat)
    requires Run(steps).Some?
    ensures var s := Run(steps).value;
            && Times(steps, (s, step) => Arrives(i, s, step)) == Times(steps, (s, step) => Dispatches(i, s, step)) + One(Dispatching(i, s))
            && Times(steps, (s, step) => GoesOn(i, s, step)) == Times(steps, (s, step) => Responds(i, s, step)) + One(Responding(i, s))
            && Times(steps, (s, step) => FindsId(i, s, step)) == Times(steps, (s, step) => Encodes(i, s, step)) + One(Encoding(i, s))
  {
    hide Run, Inv, Enabled, Do, Arrives, Dispatches, GoesOn, Responds, FindsId, Encodes;
    var f, g, h := (s, step) => Arrives(i, s, step), s => Dispatching(i, s), (s, step) => Dispatches(i, s, step);
    assert Passes(f, g, h) by {
      forall s, step | Inv(s) && Enabled(s, step) ensures One(g(Do(s, step))) + One(h(s, step)) == One(g(s)) + One(f(s, step)) {
        DispatchStage(i, s, step);
      }
    }
    PassedThrough(steps, f, g, h);
    ResponsesGiven(steps, i);
    ResponsesEncoded(steps, i);
  }

  lemma ResponsesGiven(steps: seq<Step>, i: nat)
    requires Run(steps).Some?
    ensures Times(steps, (s, step) => GoesOn(i, s, step)) ==
            Times(steps, (s, step) => Responds(i, s, step)) + One(Responding(i, Run(steps).value))
  {
    hide Run, Inv, Enabled, Do, GoesOn, Responds;
    var f, g, h := (s, step) => GoesOn(i, s, step), s => Responding(i, s), (s, step) => Responds(i, s, step);
    assert Passes(f, g, h) by {
      forall s, step | Inv(s) && Enabled(s, step) ensures One(g(Do(s, step))) + One(h(s, step)) == One(g(s)) + One(f(s, step)) {
        RespondStage(i, s, step);
      }
    }
    PassedThrough(steps, f, g, h);
  }

  lemma ResponsesEncoded(steps: seq<Step>, i: nat)
    requires Run(steps).Some?
    ensures Times(steps, (s, step) => FindsId(i, s, step)) ==
            Times(steps, (s, step) => Encodes(i, s, step)) + One(Encoding(i, Run(steps).value))
  {
    hide Run, Inv, Enabled, Do, FindsId, Encodes;
    var f, g, h := (s, step) => FindsId(i, s, step), s => Encoding(i, s), (s, step) => Encodes(i, s, step);
    assert Passes(f, g, h) by {
      forall s, step | Inv(s) && Enabled(s, step) ensures One(g(Do(s, step))) + One(h(s, step)) == One(g(s)) + One(f(s, step)) {
        EncodeStage(i, s, step);
      }
    }
    PassedThrough(steps, f, g, h);
  }

  /** The parameters of request i could not be read. */
  ghost predicate BodyFailed(steps: seq<Step>, i: nat) { Times(steps, (s, step) => BodyFails(i, s, step)) > 0 }

  /** How the processing of a request ended is decided by the steps alone. */
  lemma OutcomeExactly(steps: seq<Step>, i: nat)
    requires Run(steps).Some?
    ensures var s := Run(steps).value;
            && (BadlyFormed(i, s) <==> BodyFailed(steps, i))
            && (IsAnswered(i, s) <==> Encode(i, false) in steps)
            && (IsUnsent(i, s) <==> Encode(i, true) in steps)
  {
    hide Run, Inv, Enabled, Do, BodyFails;
    var f, g := (s, step) => BodyFails(i, s, step), s => BadlyFormed(i, s);
    assert Brings(f, g) by {
      forall s, step | Inv(s) && Enabled(s, step) ensures g(Do(s, step)) <==> g(s) || f(s, step) {
        DispatchStage(i, s, step);
      }
    }
    BroughtAbout(steps, f, g);
    WritingOutcome(steps, i);
  }

  lemma WritingOutcome(steps: seq<Step>, i: nat)
    requires Run(steps).Some?
    ensures IsAnswered(i, Run(steps).value) <==> Encode(i, false) in steps
    ensures IsUnsent(i, Run(steps).value) <==> Encode(i, true) in steps
  {
    hide Run, Inv, Enabled, Do;
    var f, g := (s: State, step: Step) => step == Encode(i, false), s => IsAnswered(i, s);
    assert Brings(f, g) by {
      forall s, step | Inv(s) && Enabled(s, step) ensures g(Do(s, step)) <==> g(s) || f(s, step) {
        OutcomeStep(i, s, step);
      }
    }
    BroughtAbout(steps, f, g);
    TimesIn(steps, Encode(i, false), f);
    var f', g' := (s: State, step: Step) => step == Encode(i, true), s => IsUnsent(i, s);
    assert Brings(f', g') by {
      forall s, step | Inv(s) && Enabled(s, step) ensures g'(Do(s, step)) <==> g'(s) || f'(s, step) {
        OutcomeStep(i, s, step);
      }
    }
    BroughtAbout(steps, f', g');
    TimesIn(steps, Encode(i, true), f');
  }

  // ---------------------------------------------------------------- what peers rely on

  /** In every run, of any length: a request whose processing is over was answered by it with its own id
      exactly if it has an id, its entry was neither overwritten nor taken by another request of its number,
      it is not a handled request numbered 0, its parameters could be read and the write of its response did not fail. */
  lemma AnsweredExactly(steps: seq<Step>, i: nat)
    requires Run(steps).Some? && i < |Run(steps).value.requests|
    requires var s := Run(steps).value; i < |s.phases| && Over(s.phases[i])
    ensures var s := Run(steps).value; var r := s.requests[i];
            OwnAnswer(s, i) <==>
            && r.id.Some? && i !in s.overwritten && !Robbed(s, i) && (r.number != 0 || !r.known)
            && !BodyFailed(steps, i) && Encode(i, true) !in steps
  {
    AnsweredByPhase(steps, i);
    hide Run, OwnAnswer, Robbed, BodyFailed;
    OutcomeExactly(steps, i);
  }

  /** Before the numbers wrap, in whatever order handlers finish: a response carries the id of the request it
      answers, no request is answered twice and a notification never; a request with an id is answered exactly
      once its response is written; and one whose processing is over was answered exactly if it has an id, its
      parameters could be read and the write of its response did not fail. */
  lemma OwnIdOnce(steps: seq<Step>, i: nat)
    requires Run(steps).Some? && Run(steps).value.issued < TWO64 && i < |Run(steps).value.requests|
    ensures var s := Run(steps).value; var r := s.requests[i];
            && |s.phases| == |s.requests|
            && (forall e | e in s.sent && e.what.to == i :: e.of == i && r.id == Some(e.what.id))
            && Count(s.sent, i) <= 1
            && (OwnAnswer(s, i) <==> Encode(i, false) in steps)
            && (Over(s.phases[i]) ==> (OwnAnswer(s, i) <==> r.id.Some? && !BodyFailed(steps, i) && Encode(i, true) !in steps))
  {
    RunInv(steps);
    var s := Run(steps).value;
    SameSize(s);
    NoIdTwice(steps, i);
    NoClash(s, i);
    forall e | e in s.sent && e.what.to == i ensures e.of == i && s.requests[i].id == Some(e.what.id) {
      SentBySelf(s, e);
    }
    hide Run, Inv, OwnAnswer, Robbed, BodyFailed;
    OutcomeExactly(steps, i);
    AnswerIsOwn(s, i);
    if Over(s.phases[i]) {
      AnsweredExactly(steps, i);
    }
  }

  lemma SentBySelf(s: State, e: Event<Response>)
    requires Inv(s) && s.issued < TWO64 && e in s.sent
    ensures e.of == e.what.to && e.of < |s.requests| && s.requests[e.of].id == Some(e.what.id)
  {
    hide RequestOk, EntryOk, TakerOk, SentOnce, NumberOk;
    assert SentOk(s, e);
    NoClash(s, e.of);
  }

  /** Before the numbers wrap, an answer is always one's own. */
  lemma AnswerIsOwn(s: State, i: nat)
    requires Inv(s) && s.issued < TWO64 && i < |s.requests|
    ensures OwnAnswer(s, i) <==> IsAnswered(i, s)
  {
    AnsweredForm(s, i);
    SameSize(s);
    hide EntryOk, SentOk, SentOnce, NumberOk, OwnAnswer;
    assert RequestOk(s, i);
    if s.phases[i].Answered? {
      var of := s.phases[i].of;
      assert of in s.taker && TakerOk(s, of);
      NoClash(s, of);
    }
  }

  // ---------------------------------------------------------------- the read loop

  /** The loop is occupied by request i exactly while it dispatches it or refuses it. */
  ghost predicate BusyOk(s: State) { forall i: nat :: s.loop == Busy(i) <==> i < |s.phases| && ByLoop(s.phases[i]) }

  /** An error is read; parameters cannot be read; there is no id to refuse a request with; or a refusal cannot be written. */
  predicate Stops(s: State, step: Step) {
    match step
    case ReadError => true
    case Dispatch(ok) => s.loop.Busy? && s.loop.i < |s.requests| && s.requests[s.loop.i].known && !ok
    case Write(i) => i < |s.requests| && Is(s, i, Refusing) && s.requests[i].number !in s.table.pending
    case Encode(i, fails) => fails && i < |s.phases| && s.phases[i].Encoding? && s.phases[i].byLoop
    case _ => false
  }

  lemma StopStep(s: State, step: Step)
    requires Inv(s) && Enabled(s, step)
    ensures Do(s, step).loop == Ended <==> s.loop == Ended || Stops(s, step)
  {
    hide Inv;
    EnabledForm(s, step);
    if step.Write? || step.Encode? {
      PhaseFacts(s, step.i);
    }
  }

  lemma BusyStep(s: State, step: Step, i: nat)
    requires Inv(s) && Enabled(s, step) && (s.loop == Busy(i) <==> i < |s.phases| && ByLoop(s.phases[i]))
    ensures var s' := Do(s, step); s'.loop == Busy(i) <==> i < |s'.phases| && ByLoop(s'.phases[i])
  {
    hide Inv;
    EnabledForm(s, step);
    if step.Write? || step.Encode? {
      PhaseFacts(s, step.i);
    }
    if i < |s.requests| {
      PhaseFacts(s, i);
    }
  }

  lemma {:induction false} BusyRun(steps: seq<Step>)
    requires Run(steps).Some?
    ensures BusyOk(Run(steps).value)
  {
    if steps != [] {
      LastStep(steps);
      BusyRun(steps[..|steps| - 1]);
      var s, step := Run(steps[..|steps| - 1]).value, steps[|steps| - 1];
      hide Run, Do, Inv, Enabled;
      forall i: nat ensures Do(s, step).loop == Busy(i) <==> i < |Do(s, step).phases| && ByLoop(Do(s, step).phases[i]) {
        BusyStep(s, step, i);
      }
    }
  }

  /** The read loop has ended exactly if one of these happened; otherwise it is busy with the request it dispatches
      or refuses, and free to read exactly if there is none. */
  lemma LoopEndsExactly(steps: seq<Step>)
    requires Run(steps).Some?
    ensures Run(steps).value.loop == Ended <==> Times(steps, Stops) > 0
    ensures BusyOk(Run(steps).value)
  {
    BusyRun(steps);
    var g := (s: State) => s.loop == Ended;
    hide Run, Inv, Enabled, Do, Stops;
    assert Brings(Stops, g) by {
      forall s, step | Inv(s) && Enabled(s, step) ensures g(Do(s, step)) <==> g(s) || Stops(s, step) {
        StopStep(s, step);
      }
    }
    BroughtAbout(steps, Stops, g);
  }
}
