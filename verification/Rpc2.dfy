/** The rpc2 client: any number of goroutines calling, notifying and closing, and one read loop, over
    the locks `sending` and `mutex`. Every step is one action of one goroutine between two points where
    another could run; the peer and the transport may do anything. */
module Rpc2Client {
  import opened Common

  type Id = nat                       // a goroutine; one that sends a call also names that call

  datatype Holder = Free | Held(id: Id) | ReadLoop
  datatype Request = Request(number: nat, caller: Id)

  datatype PC =
    // send
    | WantSending | WantMutex | Registering | Refused
    | Preparing(k: nat) | Writing(k: nat) | WantMutexBack(k: nat) | TakingBack(k: nat)
    | Returning(found: Option<Id>)
    // Notify
    | NotifyWant | NotifyCheck | NotifyPrepare | NotifyWrite
    // Close
    | CloseWant | CloseHold
    // the deferred Unlock of send and Notify, and the end of all three
    | Unlocking | Finished

  datatype ReaderPC =
    | Reading
    | RespWant(k: nat) | RespHold(k: nat) | RespDone(k: nat, found: Option<Id>)
    | EndWantSending | EndWantMutex | EndHold | Ending(todo: set<nat>) | EndUnlock | Ended

  datatype Cause = ErrShutdown | WriteError | LoopError | Response(k: nat)

  /** The client's fields, its locks, its read loop and the calls' channels; and, from `calls` on, the
      history of the run. */
  datatype Shared = Shared(
    next: nat, pending: map<nat, Id>, closing: bool, shutdown: bool, request: Request,
    sending: Holder, mutex: Holder, reader: ReaderPC,
    queued: set<Id>, received: set<Id>,           // calls in their one-slot channel, and taken out of it
    calls: set<Id>, others: set<Id>,              // goroutines that entered send, and Notify or Close
    order: map<Id, nat>, issued: nat,             // the how-manieth registration each call was
    refused: set<Id>,
    lost: set<Id>,                                // calls whose entry another registration overwrote
    completed: seq<Event<Cause>>, dropped: set<Id>, // runs of `done`, and replies it discarded
    wire: seq<Request>)

  datatype State = State(pc: map<Id, PC>, sh: Shared)

  function Start(): State {
    State(map[], Shared(1, map[], false, false, Request(0, 0), Free, Free, Reading, {}, {},
                        {}, {}, map[], 0, {}, {}, [], {}, []))
  }

  /** The sequence number of the i-th registration. */
  function Key(i: nat): nat { (1 + i) % TWO64 }

  // ---------------------------------------------------------------- what a goroutine does next

  predicate Can(pc: PC, sh: Shared) {
    match pc
    case WantSending => sh.sending == Free
    case NotifyWant => sh.sending == Free
    case WantMutex => sh.mutex == Free
    case WantMutexBack(_) => sh.mutex == Free
    case CloseWant => sh.mutex == Free
    case Finished => false
    case _ => true
  }

  /** How a write goes: whether it fails, and whether the request reached the peer anyway. */
  datatype Luck = Luck(fails: bool, reached: bool)

  function Lookup(sh: Shared, k: nat): Option<Id> {
    if k in sh.pending then Some(sh.pending[k]) else None
  }

  /** `done`: a non-blocking send on the call's channel, which has room for one. */
  function Complete(sh: Shared, c: Id, cause: Cause): Shared {
    sh.(completed := sh.completed + [Event(c, cause)],
        dropped := if c in sh.queued then sh.dropped + {c} else sh.dropped,
        queued := sh.queued + {c})
  }

  function Register(sh: Shared, t: Id): Shared {
    sh.(next := (sh.next + 1) % TWO64,
        pending := sh.pending[sh.next := t],
        order := sh.order[t := sh.issued], issued := sh.issued + 1,
        lost := if sh.next in sh.pending then sh.lost + {sh.pending[sh.next]} else sh.lost,
        mutex := Free)
  }

  function Transmit(sh: Shared, luck: Luck): Shared {
    if luck.reached then sh.(wire := sh.wire + [sh.request]) else sh
  }

  function Next(t: Id, pc: PC, sh: Shared, luck: Luck): PC {
    match pc
    case WantSending => WantMutex
    case WantMutex => Registering
    case Registering => if sh.shutdown || sh.closing then Refused else Preparing(sh.next)
    case Refused => Unlocking
    case Preparing(k) => Writing(k)
    case Writing(k) => if luck.fails then WantMutexBack(k) else Unlocking
    case WantMutexBack(k) => TakingBack(k)
    case TakingBack(k) => Returning(Lookup(sh, k))
    case Returning(_) => Unlocking
    case NotifyWant => NotifyCheck
    case NotifyCheck => if sh.shutdown || sh.closing then Unlocking else NotifyPrepare
    case NotifyPrepare => NotifyWrite
    case NotifyWrite => Unlocking
    case CloseWant => CloseHold
    case CloseHold => Finished
    case Unlocking => Finished
    case Finished => Finished
  }

  function Act(t: Id, pc: PC, sh: Shared, luck: Luck): Shared {
    match pc
    case WantSending => sh.(sending := Held(t))
    case NotifyWant => sh.(sending := Held(t))
    case WantMutex => sh.(mutex := Held(t))
    case WantMutexBack(_) => sh.(mutex := Held(t))
    case CloseWant => sh.(mutex := Held(t))
    case Registering =>
      if sh.shutdown || sh.closing then sh.(mutex := Free, refused := sh.refused + {t}) else Register(sh, t)
    case Refused => Complete(sh, t, ErrShutdown)
    case Preparing(k) => sh.(request := Request(k, t))
    case NotifyPrepare => sh.(request := Request(0, t))
    case Writing(_) => Transmit(sh, luck)
    case NotifyWrite => Transmit(sh, luck)
    case TakingBack(k) => sh.(pending := sh.pending - {k}, mutex := Free)
    case Returning(found) => if found.Some? then Complete(sh, found.value, WriteError) else sh
    case NotifyCheck => sh
    case CloseHold => sh.(closing := sh.closing || !sh.shutdown, mutex := Free)
    case Unlocking => sh.(sending := Free)
    case Finished => sh
  }

  // ---------------------------------------------------------------- what the read loop does next

  /** What the codec delivers, or which pending call the loop at the end visits next. */
  datatype Input = Reply(k: nat) | Incoming(fails: bool) | ReadError | Visit(k: nat) | Silent

  predicate ReaderCan(sh: Shared, input: Input) {
    match sh.reader
    case Reading => (input.Reply? && input.k < TWO64) || input.Incoming? || input.ReadError?
    case RespWant(_) => sh.mutex == Free
    case EndWantSending => sh.sending == Free
    case EndWantMutex => sh.mutex == Free
    case Ending(todo) => todo == {} || (input.Visit? && input.k in todo && input.k in sh.pending)
    case Ended => false
    case _ => true
  }

  /** A response never ends the loop, not even one whose body cannot be read. */
  function ReaderAct(sh: Shared, input: Input): Shared
    requires ReaderCan(sh, input)
  {
    match sh.reader
    case Reading =>
      if input.Reply? then sh.(reader := RespWant(input.k))
      else if input == Incoming(false) then sh
      else sh.(reader := EndWantSending)
    case RespWant(k) => sh.(reader := RespHold(k), mutex := ReadLoop)
    case RespHold(k) => sh.(reader := RespDone(k, Lookup(sh, k)), pending := sh.pending - {k}, mutex := Free)
    case RespDone(k, found) =>
      if found.Some? then Complete(sh, found.value, Response(k)).(reader := Reading) else sh.(reader := Reading)
    case EndWantSending => sh.(reader := EndWantMutex, sending := ReadLoop)
    case EndWantMutex => sh.(reader := EndHold, mutex := ReadLoop)
    case EndHold => sh.(shutdown := true, reader := Ending(sh.pending.Keys))
    case Ending(todo) =>
      if todo == {} then sh.(reader := EndUnlock, mutex := Free)
      else Complete(sh, sh.pending[input.k], LoopError).(reader := Ending(todo - {input.k}))
    case EndUnlock => sh.(reader := Ended, sending := Free)
    case Ended => sh
  }

  // ---------------------------------------------------------------- runs

  datatype Step =
    | Begin(t: Id, first: PC)             // enter send, Notify or Close
    | Goroutine(t: Id, luck: Luck)
    | Reader(input: Input)
    | Receive(t: Id)                      // Call takes the reply from its channel

  predicate Enabled(s: State, step: Step) {
    match step
    case Begin(t, first) => t !in s.pc && (first.WantSending? || first.NotifyWant? || first.CloseWant?)
    case Goroutine(t, _) => t in s.pc && Can(s.pc[t], s.sh)
    case Reader(input) => ReaderCan(s.sh, input)
    case Receive(t) => t in s.sh.queued
  }

  function Do(s: State, step: Step): State
    requires Enabled(s, step)
  {
    match step
    case Begin(t, first) => State(s.pc[t := first], Entered(s.sh, t, first))
    case Goroutine(t, luck) => State(s.pc[t := Next(t, s.pc[t], s.sh, luck)], Act(t, s.pc[t], s.sh, luck))
    case Reader(input) => s.(sh := ReaderAct(s.sh, input))
    case Receive(t) => s.(sh := Taken(s.sh, t))
  }

  function Entered(sh: Shared, t: Id, first: PC): Shared {
    if first.WantSending? then sh.(calls := sh.calls + {t}) else sh.(others := sh.others + {t})
  }

  function Taken(sh: Shared, c: Id): Shared { sh.(queued := sh.queued - {c}, received := sh.received + {c}) }

  /** The state after a run, if every step of it was possible. */
  function Run(steps: seq<Step>): Option<State> {
    if steps == [] then Some(Start())
    else
      match Run(steps[..|steps| - 1])
      case None => None
      case Some(s) => if Enabled(s, steps[|steps| - 1]) then Some(Do(s, steps[|steps| - 1])) else None
  }

  // ---------------------------------------------------------------- the invariant

  predicate HoldsSending(pc: PC) {
    !(pc.WantSending? || pc.NotifyWant? || pc.CloseWant? || pc.CloseHold? || pc.Finished?)
  }

  predicate HoldsMutex(pc: PC) { pc.Registering? || pc.TakingBack? || pc.CloseHold? }

  predicate ReaderHoldsSending(r: ReaderPC) { r.EndWantMutex? || r.EndHold? || r.Ending? || r.EndUnlock? }
  predicate ReaderHoldsMutex(r: ReaderPC) { r.RespHold? || r.EndHold? || r.Ending? }
  predicate Terminated(r: ReaderPC) { r.EndUnlock? || r.Ended? }

  predicate Undecided(pc: PC) { pc.WantSending? || pc.WantMutex? || pc.Registering? }

  /** Between registration and the end of the write, with the number that was assigned. */
  predicate Midway(pc: PC) { pc.Preparing? || pc.Writing? || pc.WantMutexBack? || pc.TakingBack? }

  predicate Notifying(pc: PC) { pc.NotifyWant? || pc.NotifyCheck? || pc.NotifyPrepare? || pc.NotifyWrite? }

  predicate Decided(sh: Shared, t: Id) { t in sh.order || t in sh.refused }

  /** What holds of a goroutine at each point: the locks it holds, how far its call has come, and what it
      has put into the shared request. */
  predicate Local(t: Id, pc: PC, sh: Shared) {
    && (HoldsSending(pc) <==> sh.sending == Held(t))
    && (HoldsMutex(pc) <==> sh.mutex == Held(t))
    && (Undecided(pc) ==> t in sh.calls && !Decided(sh, t))
    && (pc.Refused? ==> t in sh.refused)
    && (Midway(pc) ==> t in sh.order && pc.k == Key(sh.order[t]) && !sh.shutdown)
    && (Midway(pc) ==> pc.k in sh.pending ==> sh.pending[pc.k] == t)
    && (pc.Returning? ==> t in sh.order && (pc.found.Some? ==> pc.found.value == t))
    && (Notifying(pc) || pc.CloseWant? || pc.CloseHold? ==> t in sh.others && t !in sh.calls)
    && (t in sh.calls ==> Undecided(pc) || Decided(sh, t))
    && (pc.Writing? ==> sh.request == Request(pc.k, t))
    && (pc.NotifyWrite? ==> sh.request == Request(0, t))
  }

  /** What holds of the read loop. */
  predicate ReaderOk(sh: Shared) {
    && (ReaderHoldsSending(sh.reader) <==> sh.sending == ReadLoop)
    && (ReaderHoldsMutex(sh.reader) <==> sh.mutex == ReadLoop)
    && (sh.shutdown <==> sh.reader.Ending? || Terminated(sh.reader))
    && (sh.reader.Ending? ==> sh.reader.todo <= sh.pending.Keys)
    && (sh.reader.RespDone? && sh.reader.found.Some? ==> KeyOf(sh, sh.reader.found.value, sh.reader.k))
  }

  /** Call c was registered under number k. */
  predicate KeyOf(sh: Shared, c: Id, k: nat) { c in sh.order && Key(sh.order[c]) == k }

  /** The table maps numbers to the calls registered under them, each counted once. */
  predicate Table(sh: Shared) {
    && sh.next == Key(sh.issued)
    && (forall c | c in sh.order :: sh.order[c] < sh.issued)
    && (forall c, d | c in sh.order && d in sh.order && sh.order[c] == sh.order[d] :: c == d)
    && (forall k | k in sh.pending :: KeyOf(sh, sh.pending[k], k))
    && (sh.lost != {} ==> sh.issued > TWO64)
  }

  /** Responses completed calls registered under their number; requests carried their caller's number. */
  predicate Logs(sh: Shared) {
    && (forall e | e in sh.completed && e.what.Response? :: KeyOf(sh, e.of, e.what.k))
    && (forall r | r in sh.wire :: KeyOf(sh, r.caller, r.number) || (r.number == 0 && r.caller in sh.others))
  }

  /** c waits in the table for a response or for the end of the read loop. */
  predicate Waiting(sh: Shared, c: Id) {
    && c in sh.order && Key(sh.order[c]) in sh.pending && sh.pending[Key(sh.order[c])] == c
    && !Terminated(sh.reader) && (sh.reader.Ending? ==> Key(sh.order[c]) in sh.reader.todo)
  }

  predicate OwedByReader(sh: Shared, c: Id) { sh.reader.RespDone? && sh.reader.found == Some(c) }
  predicate OwedBySender(c: Id, pc: Option<PC>) { pc == Some(Refused) || pc == Some(Returning(Some(c))) }

  /** The places where a call's completion can be: done, due, or lost. */
  function Tokens(c: Id, pc: Option<PC>, sh: Shared): nat {
    Count(sh.completed, c) + One(Waiting(sh, c)) + One(OwedByReader(sh, c)) + One(OwedBySender(c, pc)) + One(c in sh.lost)
  }

  /** Conservation: a call that send has decided about is in exactly one place, any other in none; and
      what was done once is in its channel or was taken from it. */
  predicate CallOk(c: Id, pc: Option<PC>, sh: Shared) {
    && Tokens(c, pc, sh) == One(Decided(sh, c))
    && (c in sh.queued || c in sh.received <==> Count(sh.completed, c) > 0)
    && !(c in sh.queued && c in sh.received)
    && c !in sh.dropped
    && (c in sh.order ==> c !in sh.refused)
    && (Decided(sh, c) ==> c in sh.calls)
    && (c in sh.calls || c in sh.others ==> pc.Some?) && !(c in sh.calls && c in sh.others)
  }

  function PcOf(s: State, c: Id): Option<PC> { if c in s.pc then Some(s.pc[c]) else None }

  ghost predicate Inv(s: State) {
    && ReaderOk(s.sh) && Table(s.sh) && Logs(s.sh)
    && (forall t | t in s.pc :: Local(t, s.pc[t], s.sh))
    && (forall c: Id :: CallOk(c, PcOf(s, c), s.sh))
    && (s.sh.sending.Held? ==> s.sh.sending.id in s.pc)
    && (s.sh.mutex.Held? ==> s.sh.mutex.id in s.pc)
  }

  // ---------------------------------------------------------------- each step keeps it

  /** The goroutine that moves keeps its own assertions. */
  lemma OwnLocal(t: Id, pc: PC, sh: Shared, luck: Luck)
    requires Can(pc, sh) && Local(t, pc, sh) && ReaderOk(sh) && Table(sh)
    ensures Local(t, Next(t, pc, sh, luck), Act(t, pc, sh, luck))
  {
    hide Complete, Register, Table, ReaderOk;
    if Owes(pc) {
      OwedLocal(sh, t, pc);
    } else if pc.Registering? && !sh.shutdown && !sh.closing {
      RegisterOwnLocal(sh, t);
    }
  }

  lemma OwedLocal(sh: Shared, t: Id, pc: PC)
    requires Local(t, pc, sh) && Owes(pc)
    ensures Local(t, Unlocking, Complete(sh, t, if pc.Refused? then ErrShutdown else WriteError))
  {
    assert Local(t, Unlocking, sh);
  }

  lemma RegisterOwnLocal(sh: Shared, t: Id)
    requires Local(t, Registering, sh) && Table(sh) && !sh.shutdown
    ensures Local(t, Preparing(sh.next), Register(sh, t))
  {}

  /** Another goroutine's assertions are not disturbed. */
  lemma OtherLocal(t: Id, pc: PC, sh: Shared, luck: Luck, u: Id, at: PC)
    requires Can(pc, sh) && Local(t, pc, sh) && Local(u, at, sh) && t != u && ReaderOk(sh) && Table(sh)
    ensures Local(u, at, Act(t, pc, sh, luck))
  {
    hide ReaderOk, Complete, Register, Table;
    if pc.Refused? {
      CompleteLocal(sh, t, ErrShutdown, u, at);
    } else if pc.Returning? && pc.found.Some? {
      CompleteLocal(sh, pc.found.value, WriteError, u, at);
    } else if pc.Registering? && !sh.shutdown && !sh.closing {
      RegisterLocal(sh, t, u, at);
    }
  }

  lemma CompleteLocal(sh: Shared, c: Id, cause: Cause, u: Id, at: PC)
    requires Local(u, at, sh)
    ensures Local(u, at, Complete(sh, c, cause))
  {}

  lemma RegisterLocal(sh: Shared, t: Id, u: Id, at: PC)
    requires Local(u, at, sh) && t != u && sh.sending == Held(t) && sh.mutex == Held(t)
    ensures Local(u, at, Register(sh, t))
  {}

  lemma GoroutineReader(t: Id, pc: PC, sh: Shared, luck: Luck)
    requires Can(pc, sh) && Local(t, pc, sh) && ReaderOk(sh) && Table(sh)
    ensures ReaderOk(Act(t, pc, sh, luck))
  {}

  lemma KeyClash(i: nat, j: nat)
    requires i < j && Key(i) == Key(j)
    ensures j >= i + TWO64
  {
    var p, q := (1 + i) / TWO64, (1 + j) / TWO64;
    assert 1 + i == p * TWO64 + Key(i) && 1 + j == q * TWO64 + Key(j);
  }

  lemma KeyNext(i: nat)
    ensures (Key(i) + 1) % TWO64 == Key(i + 1)
  {
    var q := (1 + i) / TWO64;
    assert 1 + i == q * TWO64 + Key(i);
    if Key(i) + 1 < TWO64 {
      assert 2 + i == q * TWO64 + (Key(i) + 1);
    } else {
      assert 2 + i == (q + 1) * TWO64;
    }
  }

  lemma RegisterTable(sh: Shared, t: Id)
    requires Table(sh) && t !in sh.order
    ensures Table(Register(sh, t))
  {
    KeyNext(sh.issued);
    if sh.next in sh.pending {
      KeyClash(sh.order[sh.pending[sh.next]], sh.issued);
    }
  }

  lemma GoroutineTable(t: Id, pc: PC, sh: Shared, luck: Luck)
    requires Can(pc, sh) && Local(t, pc, sh) && ReaderOk(sh) && Table(sh)
    ensures Table(Act(t, pc, sh, luck))
  {
    if pc.Registering? {
      RegisterTable(sh, t);
    }
  }

  lemma GoroutineLogs(t: Id, pc: PC, sh: Shared, luck: Luck)
    requires Can(pc, sh) && Local(t, pc, sh) && ReaderOk(sh) && Table(sh) && Logs(sh)
    ensures Logs(Act(t, pc, sh, luck))
  {
    hide ReaderOk, Complete, Register, Table, Transmit;
    match pc
    case Refused => CompleteLogs(sh, t, ErrShutdown, sh.reader);
    case Returning(found) =>
      if found.Some? {
        CompleteLogs(sh, found.value, WriteError, sh.reader);
      }
    case Registering => RegisterLogs(sh, t);
    case Writing(k) => TransmitLogs(sh, luck);
    case NotifyWrite => TransmitLogs(sh, luck);
    case _ =>
  }

  lemma RegisterLogs(sh: Shared, t: Id)
    requires Logs(sh) && t !in sh.order
    ensures Logs(Register(sh, t))
  {}

  lemma TransmitLogs(sh: Shared, luck: Luck)
    requires Logs(sh)
    requires KeyOf(sh, sh.request.caller, sh.request.number) || (sh.request.number == 0 && sh.request.caller in sh.others)
    ensures Logs(Transmit(sh, luck))
  {}

  /** Running `done` for a call that was due turns one token into another. */
  lemma CompleteCall(sh: Shared, d: Id, cause: Cause, c: Id)
    requires c in sh.queued || c in sh.received <==> Count(sh.completed, c) > 0
    requires Count(sh.completed, d) == 0
    requires d in sh.queued || d in sh.received <==> Count(sh.completed, d) > 0
    ensures var sh' := Complete(sh, d, cause);
            && Count(sh'.completed, c) == Count(sh.completed, c) + One(c == d)
            && (c in sh'.queued || c in sh'.received <==> Count(sh'.completed, c) > 0)
            && sh'.dropped == sh.dropped
  {
    CountAdd(sh.completed, Event(d, cause), c);
  }

  lemma RegisterOwn(sh: Shared, t: Id)
    requires Table(sh) && !sh.shutdown && ReaderOk(sh) && !Decided(sh, t) && t in sh.calls
    requires CallOk(t, Some(Registering), sh)
    ensures CallOk(t, Some(Preparing(sh.next)), Register(sh, t))
  {}

  lemma TakeOwn(sh: Shared, t: Id, k: nat)
    requires KeyOf(sh, t, k) && ReaderOk(sh) && !sh.shutdown && (k in sh.pending ==> sh.pending[k] == t)
    requires CallOk(t, Some(TakingBack(k)), sh)
    ensures CallOk(t, Some(Returning(Lookup(sh, k))), sh.(pending := sh.pending - {k}, mutex := Free))
  {}

  lemma DoneOwn(sh: Shared, t: Id, cause: Cause, pc: PC)
    requires OwedBySender(t, Some(pc)) && CallOk(t, Some(pc), sh)
    ensures CallOk(t, Some(Unlocking), Complete(sh, t, cause))
  {
    CompleteCall(sh, t, cause, t);
  }

  lemma OwnCall(t: Id, pc: PC, sh: Shared, luck: Luck)
    requires Can(pc, sh) && Local(t, pc, sh) && ReaderOk(sh) && Table(sh) && CallOk(t, Some(pc), sh)
    ensures CallOk(t, Some(Next(t, pc, sh, luck)), Act(t, pc, sh, luck))
  {
    hide Register, Complete;
    match pc
    case Refused => DoneOwn(sh, t, ErrShutdown, pc);
    case Returning(found) =>
      if found.Some? {
        DoneOwn(sh, t, WriteError, pc);
      }
    case Registering =>
      if !sh.shutdown && !sh.closing {
        RegisterOwn(sh, t);
      }
    case TakingBack(k) => TakeOwn(sh, t, k);
    case _ =>
  }

  /** A registration leaves every other call where it was, except one whose entry it overwrites. */
  lemma RegisterOther(sh: Shared, t: Id, c: Id, at: Option<PC>)
    requires Table(sh) && !sh.shutdown && ReaderOk(sh) && t !in sh.order && c != t && CallOk(c, at, sh)
    ensures CallOk(c, at, Register(sh, t))
  {
    hide Count;
    if sh.next in sh.pending && sh.pending[sh.next] == c {
      assert Waiting(sh, c);
    }
  }

  lemma TakeOther(sh: Shared, k: nat, c: Id, at: Option<PC>)
    requires CallOk(c, at, sh) && (k in sh.pending ==> sh.pending[k] != c)
    ensures CallOk(c, at, sh.(pending := sh.pending - {k}, mutex := Free))
  {
    hide Count;
  }

  lemma DoneOther(sh: Shared, d: Id, cause: Cause, c: Id, at: Option<PC>)
    requires CallOk(c, at, sh) && c != d && Count(sh.completed, d) == 0
    requires d in sh.queued || d in sh.received <==> Count(sh.completed, d) > 0
    ensures CallOk(c, at, Complete(sh, d, cause))
  {
    CompleteCall(sh, d, cause, c);
  }

  lemma OtherCall(t: Id, pc: PC, sh: Shared, luck: Luck, c: Id, at: Option<PC>)
    requires Can(pc, sh) && Local(t, pc, sh) && ReaderOk(sh) && Table(sh) && CallOk(t, Some(pc), sh)
    requires c != t && CallOk(c, at, sh)
    ensures CallOk(c, at, Act(t, pc, sh, luck))
  {
    hide CallOk, Register, Complete, Table, ReaderOk;
    if Owes(pc) {
      OwedNotDone(sh, t, pc);
      DoneOther(sh, t, if pc.Refused? then ErrShutdown else WriteError, c, at);
    } else if pc.Registering? && !sh.shutdown && !sh.closing {
      RegisterOther(sh, t, c, at);
    } else if pc.TakingBack? {
      TakeOther(sh, pc.k, c, at);
    } else {
      QuietOther(t, pc, sh, luck, c, at);
    }
  }

  predicate Owes(pc: PC) { pc.Refused? || (pc.Returning? && pc.found.Some?) }

  lemma OwedNotDone(sh: Shared, t: Id, pc: PC)
    requires Local(t, pc, sh) && CallOk(t, Some(pc), sh) && Owes(pc)
    ensures Count(sh.completed, t) == 0 && t !in sh.queued && t !in sh.received
  {
    assert OwedBySender(t, Some(pc));
  }

  /** A step that completes, registers and takes back nothing. */
  lemma QuietOther(t: Id, pc: PC, sh: Shared, luck: Luck, c: Id, at: Option<PC>)
    requires !Owes(pc) && !pc.TakingBack? && (pc.Registering? ==> sh.shutdown || sh.closing)
    requires c != t && CallOk(c, at, sh)
    ensures CallOk(c, at, Act(t, pc, sh, luck))
  {
    hide Count;
  }

  // ---------------------------------------------------------------- the read loop keeps it

  lemma ReaderSelf(sh: Shared, input: Input)
    requires ReaderCan(sh, input) && ReaderOk(sh) && Table(sh)
    ensures ReaderOk(ReaderAct(sh, input))
  {}

  /** What the read loop does to the table: at most take entries out of it. */
  predicate Shrunk(sh: Shared, sh': Shared) {
    && sh'.next == sh.next && sh'.issued == sh.issued && sh'.order == sh.order && sh'.lost == sh.lost
    && sh'.calls == sh.calls && sh'.others == sh.others && sh'.refused == sh.refused && sh'.request == sh.request
    && sh'.pending.Keys <= sh.pending.Keys && forall k | k in sh'.pending :: sh'.pending[k] == sh.pending[k]
  }

  lemma CompleteShrinks(sh: Shared, c: Id, cause: Cause, r: ReaderPC)
    ensures Shrunk(sh, Complete(sh, c, cause).(reader := r))
  {}

  lemma ReaderShrinks(sh: Shared, input: Input)
    requires ReaderCan(sh, input)
    ensures Shrunk(sh, ReaderAct(sh, input))
  {
    hide Complete, Lookup, Shrunk;
    KeepShrinks(sh, ReaderAct(sh, input));
    match sh.reader
    case RespHold(k) => TakeShrinks(sh, k);
    case RespDone(k, found) =>
      if found.Some? {
        CompleteShrinks(sh, found.value, Response(k), Reading);
      }
    case Ending(todo) =>
      if todo != {} {
        CompleteShrinks(sh, sh.pending[input.k], LoopError, Ending(todo - {input.k}));
      }
    case _ =>
  }

  lemma TakeShrinks(sh: Shared, k: nat)
    ensures Shrunk(sh, sh.(reader := RespDone(k, Lookup(sh, k)), pending := sh.pending - {k}, mutex := Free))
  {}

  lemma KeepShrinks(sh: Shared, sh': Shared)
    ensures sh' == sh.(reader := sh'.reader, shutdown := sh'.shutdown, sending := sh'.sending, mutex := sh'.mutex) ==> Shrunk(sh, sh')
  {}

  lemma TableShrunk(sh: Shared, sh': Shared)
    requires Shrunk(sh, sh') && Table(sh)
    ensures Table(sh')
  {}

  lemma LocalShrunk(sh: Shared, sh': Shared, u: Id, at: PC)
    requires Shrunk(sh, sh') && Local(u, at, sh)
    requires sh'.sending == Held(u) <==> sh.sending == Held(u)
    requires sh'.mutex == Held(u) <==> sh.mutex == Held(u)
    requires Midway(at) ==> !sh'.shutdown
    ensures Local(u, at, sh')
  {}

  lemma CompleteLogs(sh: Shared, c: Id, cause: Cause, r: ReaderPC)
    requires Logs(sh) && (cause.Response? ==> KeyOf(sh, c, cause.k))
    ensures Logs(Complete(sh, c, cause).(reader := r)) && Logs(Complete(sh, c, cause))
  {}

  lemma ReaderLogs(sh: Shared, input: Input)
    requires ReaderCan(sh, input) && ReaderOk(sh) && Table(sh) && Logs(sh)
    ensures Logs(ReaderAct(sh, input))
  {
    match sh.reader
    case RespDone(k, found) =>
      if found.Some? {
        CompleteLogs(sh, found.value, Response(k), Reading);
      }
    case Ending(todo) =>
      if todo != {} {
        CompleteLogs(sh, sh.pending[input.k], LoopError, Ending(todo - {input.k}));
      }
    case _ =>
  }

  lemma ReaderLocal(sh: Shared, input: Input, u: Id, at: PC)
    requires ReaderCan(sh, input) && ReaderOk(sh) && Local(u, at, sh)
    ensures Local(u, at, ReaderAct(sh, input))
  {
    hide Shrunk;
    ReaderShrinks(sh, input);
    LocalShrunk(sh, ReaderAct(sh, input), u, at);
  }

  lemma ReaderTake(sh: Shared, k: nat, c: Id, at: Option<PC>)
    requires sh.reader == RespHold(k) && Table(sh) && CallOk(c, at, sh)
    ensures CallOk(c, at, sh.(reader := RespDone(k, Lookup(sh, k)), pending := sh.pending - {k}, mutex := Free))
  {}

  lemma ReaderDone(sh: Shared, k: nat, d: Id, c: Id, at: Option<PC>, at': Option<PC>)
    requires sh.reader == RespDone(k, Some(d)) && CallOk(c, at, sh) && CallOk(d, at', sh)
    ensures CallOk(c, at, Complete(sh, d, Response(k)).(reader := Reading))
  {
    var sh' := Complete(sh, d, Response(k)).(reader := Reading);
    CompleteCall(sh, d, Response(k), c);
    assert Waiting(sh', c) == Waiting(sh, c) && OwedByReader(sh, c) == (c == d);
  }

  lemma ReaderVisit(sh: Shared, k: nat, c: Id, at: Option<PC>, at': Option<PC>)
    requires sh.reader.Ending? && k in sh.reader.todo && k in sh.pending && Table(sh)
    requires CallOk(c, at, sh) && CallOk(sh.pending[k], at', sh)
    ensures CallOk(c, at, Complete(sh, sh.pending[k], LoopError).(reader := Ending(sh.reader.todo - {k})))
  {
    var d := sh.pending[k];
    var sh' := Complete(sh, d, LoopError).(reader := Ending(sh.reader.todo - {k}));
    assert KeyOf(sh, d, k) && Waiting(sh, d);
    CompleteCall(sh, d, LoopError, c);
    assert Waiting(sh', c) == (Waiting(sh, c) && c != d);
  }

  /** The read loop is about to complete a call. */
  predicate Completing(sh: Shared) {
    (sh.reader.RespDone? && sh.reader.found.Some?) || (sh.reader.Ending? && sh.reader.todo != {})
  }

  /** Waiting for a message or for a lock. */
  lemma ReaderWaits(sh: Shared, input: Input, c: Id, at: Option<PC>)
    requires ReaderCan(sh, input) && CallOk(c, at, sh)
    requires sh.reader.Reading? || sh.reader.RespWant? || sh.reader.EndWantSending? || sh.reader.EndWantMutex?
    ensures CallOk(c, at, ReaderAct(sh, input))
  {
    hide Count;
  }

  /** Moving through the end without completing a call. */
  lemma ReaderCloses(sh: Shared, input: Input, c: Id, at: Option<PC>)
    requires ReaderCan(sh, input) && CallOk(c, at, sh) && !Completing(sh)
    requires sh.reader.RespDone? || sh.reader.EndHold? || sh.reader.Ending? || sh.reader.EndUnlock?
    ensures CallOk(c, at, ReaderAct(sh, input))
  {
    hide Count;
  }

  lemma ReaderCall(s: State, input: Input, c: Id)
    requires ReaderCan(s.sh, input) && Inv(s)
    ensures CallOk(c, PcOf(s, c), ReaderAct(s.sh, input))
  {
    var sh, at := s.sh, PcOf(s, c);
    assert CallOk(c, at, sh);
    if sh.reader.RespHold? {
      ReaderTake(sh, sh.reader.k, c, at);
    } else if sh.reader.Reading? || sh.reader.RespWant? || sh.reader.EndWantSending? || sh.reader.EndWantMutex? {
      ReaderWaits(sh, input, c, at);
    } else if !Completing(sh) {
      ReaderCloses(sh, input, c, at);
    } else if sh.reader.RespDone? {
      var d := sh.reader.found.value;
      assert CallOk(d, PcOf(s, d), sh);
      ReaderDone(sh, sh.reader.k, d, c, at, PcOf(s, d));
    } else {
      var d := sh.pending[input.k];
      assert CallOk(d, PcOf(s, d), sh);
      ReaderVisit(sh, input.k, c, at, PcOf(s, d));
    }
  }

  // ---------------------------------------------------------------- runs keep it

  /** A lock that is held afterwards is held by the goroutine itself or was held before. */
  lemma GoroutineLocks(t: Id, pc: PC, sh: Shared, luck: Luck)
    ensures var sh' := Act(t, pc, sh, luck);
            && (sh'.sending == sh.sending || sh'.sending == Held(t) || sh'.sending == Free)
            && (sh'.mutex == sh.mutex || sh'.mutex == Held(t) || sh'.mutex == Free)
  {}

  lemma GoroutineInv(s: State, t: Id, luck: Luck)
    requires Inv(s) && Enabled(s, Goroutine(t, luck))
    ensures Inv(Do(s, Goroutine(t, luck)))
  {
    hide Local, CallOk, ReaderOk, Table, Logs, Act, Next, Can;
    GoroutineLocks(t, s.pc[t], s.sh, luck);
    var s', pc, sh := Do(s, Goroutine(t, luck)), s.pc[t], s.sh;
    GoroutineReader(t, pc, sh, luck);
    GoroutineTable(t, pc, sh, luck);
    GoroutineLogs(t, pc, sh, luck);
    assert CallOk(t, PcOf(s, t), sh);
    forall u | u in s'.pc ensures Local(u, s'.pc[u], s'.sh) {
      if u == t {
        OwnLocal(t, pc, sh, luck);
      } else {
        OtherLocal(t, pc, sh, luck, u, s.pc[u]);
      }
    }
    forall c: Id ensures CallOk(c, PcOf(s', c), s'.sh) {
      if c == t {
        OwnCall(t, pc, sh, luck);
      } else {
        assert CallOk(c, PcOf(s, c), sh);
        OtherCall(t, pc, sh, luck, c, PcOf(s, c));
      }
    }
  }

  lemma ReaderInv(s: State, input: Input)
    requires Inv(s) && Enabled(s, Reader(input))
    ensures Inv(Do(s, Reader(input)))
  {
    hide Local, CallOk, Table, Logs, Shrunk, Lookup;
    var s' := Do(s, Reader(input));
    ReaderSelf(s.sh, input);
    ReaderShrinks(s.sh, input);
    TableShrunk(s.sh, s'.sh);
    ReaderLogs(s.sh, input);
    forall u | u in s'.pc ensures Local(u, s'.pc[u], s'.sh) {
      ReaderLocal(s.sh, input, u, s.pc[u]);
    }
    forall c: Id ensures CallOk(c, PcOf(s', c), s'.sh) {
      ReaderCall(s, input, c);
    }
  }

  lemma BeginLocal(sh: Shared, t: Id, first: PC, u: Id, at: PC)
    requires t != u && Local(u, at, sh)
    ensures Local(u, at, Entered(sh, t, first))
  {}

  lemma BeginOwn(sh: Shared, t: Id, first: PC)
    requires first.WantSending? || first.NotifyWant? || first.CloseWant?
    requires CallOk(t, None, sh) && sh.sending != Held(t) && sh.mutex != Held(t)
    ensures Local(t, first, Entered(sh, t, first)) && CallOk(t, Some(first), Entered(sh, t, first))
  {}

  lemma BeginCall(sh: Shared, t: Id, first: PC, c: Id, at: Option<PC>)
    requires t != c && CallOk(c, at, sh)
    ensures CallOk(c, at, Entered(sh, t, first))
  {}

  lemma BeginInv(s: State, t: Id, first: PC)
    requires Inv(s) && Enabled(s, Begin(t, first))
    ensures Inv(Do(s, Begin(t, first)))
  {
    hide Local, CallOk;
    var s' := Do(s, Begin(t, first));
    assert CallOk(t, PcOf(s, t), s.sh);
    BeginOwn(s.sh, t, first);
    forall u | u in s'.pc ensures Local(u, s'.pc[u], s'.sh) {
      if u != t {
        BeginLocal(s.sh, t, first, u, s.pc[u]);
      }
    }
    forall c: Id ensures CallOk(c, PcOf(s', c), s'.sh) {
      if c != t {
        assert CallOk(c, PcOf(s, c), s.sh);
        BeginCall(s.sh, t, first, c, PcOf(s, c));
      }
    }
  }

  lemma ReceiveInv(s: State, t: Id)
    requires Inv(s) && Enabled(s, Receive(t))
    ensures Inv(Do(s, Receive(t)))
  {
    hide Local, CallOk, ReaderOk, Table, Logs, Taken;
    var s' := Do(s, Receive(t));
    TakenKeeps(s.sh, t);
    forall u | u in s'.pc ensures Local(u, s'.pc[u], s'.sh) {
      assert Local(u, s.pc[u], s.sh);
    }
    forall c: Id ensures CallOk(c, PcOf(s', c), s'.sh) {
      assert CallOk(c, PcOf(s, c), s.sh);
      TakenCall(s.sh, t, c, PcOf(s, c));
    }
  }

  lemma TakenKeeps(sh: Shared, t: Id)
    ensures var sh' := Taken(sh, t);
            && ReaderOk(sh') == ReaderOk(sh) && Table(sh') == Table(sh) && Logs(sh') == Logs(sh)
            && (forall u, at :: Local(u, at, sh') == Local(u, at, sh)) && sh'.sending == sh.sending && sh'.mutex == sh.mutex
  {}

  lemma TakenCall(sh: Shared, t: Id, c: Id, at: Option<PC>)
    requires t in sh.queued && CallOk(c, at, sh)
    ensures CallOk(c, at, Taken(sh, t))
  {}

  lemma {:induction false} RunInv(steps: seq<Step>)
    ensures Run(steps).Some? ==> Inv(Run(steps).value)
  {
    if steps == [] {
    } else {
      var front, last := steps[..|steps| - 1], steps[|steps| - 1];
      RunInv(front);
      if Run(front).Some? && Enabled(Run(front).value, last) {
        match last
        case Begin(t, first) => BeginInv(Run(front).value, t, first);
        case Goroutine(t, luck) => GoroutineInv(Run(front).value, t, luck);
        case Reader(input) => ReaderInv(Run(front).value, input);
        case Receive(t) => ReceiveInv(Run(front).value, t);
      }
    }
  }

  // ---------------------------------------------------------------- what callers rely on

  /** In every run no call's `done` runs twice, and so the one-slot channel never drops a reply. */
  lemma DoneAtMostOnce(steps: seq<Step>, c: Id)
    requires Run(steps).Some?
    ensures var sh := Run(steps).value.sh; Count(sh.completed, c) <= 1 && c !in sh.dropped
  {
    RunInv(steps);
    assert CallOk(c, PcOf(Run(steps).value, c), Run(steps).value.sh);
  }

  /** The read loop has ended and no send is in progress. */
  predicate Quiet(s: State) {
    s.sh.reader == Ended && forall c | c in s.sh.calls :: c in s.pc && s.pc[c] == Finished
  }

  /** Then `done` has run exactly once for every call ever sent, unless its table entry was overwritten,
      and its reply is in the channel or has been taken; before 2^64 registrations none is overwritten. */
  lemma DoneExactlyOnce(steps: seq<Step>, c: Id)
    requires Run(steps).Some? && Quiet(Run(steps).value) && c in Run(steps).value.sh.calls
    ensures var sh := Run(steps).value.sh;
            && (Count(sh.completed, c) == 1 <==> c !in sh.lost)
            && (c !in sh.lost <==> c in sh.queued || c in sh.received)
            && (sh.issued <= TWO64 ==> sh.lost == {})
  {
    RunInv(steps);
    var s := Run(steps).value;
    assert CallOk(c, PcOf(s, c), s.sh) && Local(c, s.pc[c], s.sh);
  }

  /** Before the numbers wrap, a number names one call, and 0 names none. */
  lemma OneCallPerNumber(sh: Shared, c: Id, d: Id, k: nat)
    requires Table(sh) && KeyOf(sh, c, k) && KeyOf(sh, d, k)
    ensures sh.issued <= TWO64 ==> c == d
    ensures sh.issued < TWO64 ==> k != 0
  {
    var i, j := sh.order[c], sh.order[d];
    if i < j {
      KeyClash(i, j);
    } else if j < i {
      KeyClash(j, i);
    }
  }

  /** A response numbered k completes only a call registered as k: the one and only call with that
      number, before the numbers wrap. */
  lemma ReplyMatching(steps: seq<Step>, e: Event<Cause>, d: Id)
    requires Run(steps).Some? && e in Run(steps).value.sh.completed && e.what.Response?
    ensures var sh := Run(steps).value.sh;
            KeyOf(sh, e.of, e.what.k) && (KeyOf(sh, d, e.what.k) && sh.issued <= TWO64 ==> d == e.of)
  {
    RunInv(steps);
    var sh := Run(steps).value.sh;
    if KeyOf(sh, d, e.what.k) {
      OneCallPerNumber(sh, e.of, d, e.what.k);
    }
  }

  /** Number 0, which marks notifications, names no pending call before the numbers wrap. */
  lemma ZeroNeverPending(steps: seq<Step>)
    requires Run(steps).Some? && Run(steps).value.sh.issued < TWO64
    ensures 0 !in Run(steps).value.sh.pending
  {
    RunInv(steps);
    var sh := Run(steps).value.sh;
    if 0 in sh.pending {
      OneCallPerNumber(sh, sh.pending[0], sh.pending[0], 0);
    }
  }

  /** A request on the wire carries the number under which its own caller is registered, or 0 if it is
      a notification, although all of them pass through the one shared request. */
  lemma RequestsAreGenuine(steps: seq<Step>, r: Request)
    requires Run(steps).Some? && r in Run(steps).value.sh.wire
    ensures var sh := Run(steps).value.sh;
            if r.caller in sh.calls then KeyOf(sh, r.caller, r.number) else r.number == 0 && r.caller in sh.others
  {
    RunInv(steps);
    var s := Run(steps).value;
    assert CallOk(r.caller, PcOf(s, r.caller), s.sh);
  }

  /** Whoever holds the mutex can go on, and so can whoever holds `sending` once the mutex is free. */
  lemma NoDeadlock(steps: seq<Step>)
    requires Run(steps).Some?
    ensures var s := Run(steps).value; var sh := s.sh;
            && (sh.mutex.Held? ==> Enabled(s, Goroutine(sh.mutex.id, Luck(false, true))))
            && (sh.mutex == ReadLoop ==> exists input :: Enabled(s, Reader(input)))
            && (sh.mutex == Free && sh.sending.Held? ==> Enabled(s, Goroutine(sh.sending.id, Luck(false, true))))
            && (sh.mutex == Free && sh.sending == ReadLoop ==> exists input :: Enabled(s, Reader(input)))
  {
    RunInv(steps);
    var s := Run(steps).value;
    if s.sh.reader.Ending? && s.sh.reader.todo != {} {
      var k :| k in s.sh.reader.todo;
      assert Enabled(s, Reader(Visit(k)));
    } else {
      assert ReaderHoldsMutex(s.sh.reader) || (ReaderHoldsSending(s.sh.reader) && s.sh.mutex == Free) ==> Enabled(s, Reader(Silent));
    }
  }
}
