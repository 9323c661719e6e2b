/** Incoming JSON-RPC requests: the codec replaces their ids by numbers, handlers finish in any order,
    and each response should carry the id of its own request. */
module JsonRpcIds {
  import opened Common

  type Json = string

  // ---------------------------------------------------------------- the codec

  /** The id table of the codec. */
  datatype Table = Table(next: nat, pending: map<nat, Json>)

  /** A request without an id is a notification and is numbered 0. */
  function Number(c: Table, id: Option<Json>): nat { if id.None? then 0 else (c.next + 1) % TWO64 }

  function Accepted(c: Table, id: Option<Json>): Table {
    if id.None? then c else Table(Number(c, id), c.pending[Number(c, id) := id.value])
  }

  function Saved(c: Table, k: nat): Option<Json> { if k in c.pending then Some(c.pending[k]) else None }

  function Forget(c: Table, k: nat): Table { c.(pending := c.pending - {k}) }

  class JsonCodec {
    var next: nat
    var pending: map<nat, Json>

    constructor ()
      ensures Value() == Table(0, map[])
    {
      next := 0;
      pending := map[];
    }

    function Value(): Table
      reads this
    {
      Table(next, pending)
    }

    /** `ReadHeader`, for a request. */
    method ReadHeader(id: Option<Json>) returns (k: nat)
      modifies this
      ensures k == Number(old(Value()), id) && Value() == Accepted(old(Value()), id)
    {
      k := 0;
      if id.Some? {
        next := (next + 1) % TWO64;
        pending := pending[next := id.value];
        k := next;
      }
    }

    /** The first half of `WriteResponse`: the id to answer with, or None for an invalid number. */
    method TakeId(k: nat) returns (id: Option<Json>)
      modifies this
      ensures id == Saved(old(Value()), k) && Value() == Forget(old(Value()), k)
    {
      id := None;
      if k in pending {
        id := Some(pending[k]);
        pending := pending - {k};
      }
      assert k !in old(pending) ==> old(pending) - {k} == pending;
    }
  }

  // ---------------------------------------------------------------- the read loop and the handlers

  /** `rank` counts the requests with an id before this one. */
  datatype Request = Request(id: Option<Json>, known: bool, number: nat, rank: nat)

  /** Where the processing of one request stands; `of` is the request whose id was taken from the table. */
  datatype Phase =
    | Dispatching            // readRequest, in the read loop
    | Running                // its handler
    | Refusing               // readRequest found no handler
    | Encoding(id: Json, of: nat, byLoop: bool)
    | Answered(of: nat)
    | Silent(why: Reason)
  datatype Reason = Notification | BadBody | InvalidNumber | WriteFailed(of: nat)

  datatype Loop = Reading | Busy(i: nat) | Ended
  datatype Response = Response(to: nat, id: Json)

  /** From `owner` on, the history of the run: whose id each entry of the table is, whose entry another
      request overwrote, and which request took whose id. */
  datatype State = State(
    table: Table, loop: Loop, requests: seq<Request>, phases: seq<Phase>, issued: nat, sent: seq<Event<Response>>,
    owner: map<nat, nat>, overwritten: set<nat>, taker: map<nat, nat>)

  function Start(): State { State(Table(0, map[]), Reading, [], [], 0, [], map[], {}, map[]) }

  datatype Step =
    | Header(id: Option<Json>, known: bool) | ReadError
    | Dispatch(bodyOk: bool)
    | Write(i: nat)
    | Encode(i: nat, fails: bool)

  predicate Is(s: State, i: nat, p: Phase) { i < |s.phases| && s.phases[i] == p }

  predicate Enabled(s: State, step: Step) {
    && |s.phases| == |s.requests|
    && match step
       case Header(_, _) => s.loop == Reading
       case ReadError => s.loop == Reading
       case Dispatch(_) => s.loop.Busy? && Is(s, s.loop.i, Dispatching)
       case Write(i) => Is(s, i, Running) || Is(s, i, Refusing)
       case Encode(i, _) => i < |s.phases| && s.phases[i].Encoding?
  }

  function Goto(s: State, i: nat, p: Phase, loop: Loop): State
    requires i < |s.phases|
  {
    s.(phases := s.phases[i := p], loop := loop)
  }

  function Arrive(s: State, id: Option<Json>, known: bool): State {
    var i, k := |s.requests|, Number(s.table, id);
    s.(table := Accepted(s.table, id), loop := Busy(i),
       requests := s.requests + [Request(id, known, k, s.issued)], phases := s.phases + [Dispatching],
       issued := if id.None? then s.issued else s.issued + 1,
       owner := if id.None? then s.owner else s.owner[k := i],
       overwritten := if id.Some? && k in s.owner then s.overwritten + {s.owner[k]} else s.overwritten)
  }

  function OwnerOf(s: State, k: nat): nat { if k in s.owner then s.owner[k] else 0 }

  /** The entry numbered k goes to request i. */
  function Take(s: State, i: nat, k: nat, id: Json, byLoop: bool): State
    requires i < |s.phases|
  {
    Goto(s, i, Encoding(id, OwnerOf(s, k), byLoop), s.loop)
      .(table := Forget(s.table, k), owner := s.owner - {k}, taker := s.taker[OwnerOf(s, k) := i])
  }

  /** `WriteResponse` up to the encoding; a handler does not call it for number 0. */
  function Respond(s: State, i: nat): State
    requires i < |s.phases| == |s.requests|
  {
    var k := s.requests[i].number;
    var byLoop := s.phases[i].Refusing?;
    if !byLoop && k == 0 then Goto(s, i, Silent(Notification), s.loop)
    else
      match Saved(s.table, k)
      case None => Goto(s, i, Silent(InvalidNumber), if byLoop then Ended else s.loop)
      case Some(id) => Take(s, i, k, id, byLoop)
  }

  function Do(s: State, step: Step): State
    requires Enabled(s, step)
  {
    match step
    case Header(id, known) => Arrive(s, id, known)
    case ReadError => s.(loop := Ended)
    case Dispatch(bodyOk) =>
      var i := s.loop.i;
      if !s.requests[i].known then Goto(s, i, Refusing, s.loop)
      else if bodyOk then Goto(s, i, Running, Reading)
      else Goto(s, i, Silent(BadBody), Ended)
    case Write(i) => Respond(s, i)
    case Encode(i, fails) =>
      var p := s.phases[i];
      var loop := if !p.byLoop then s.loop else if fails then Ended else Reading;
      if fails then Goto(s, i, Silent(WriteFailed(p.of)), loop)
      else Goto(s, i, Answered(p.of), loop).(sent := s.sent + [Event(p.of, Response(i, p.id))])
  }

  function Run(steps: seq<Step>): Option<State> {
    if steps == [] then Some(Start())
    else
      match Run(steps[..|steps| - 1])
      case None => None
      case Some(s) => if Enabled(s, steps[|steps| - 1]) then Some(Do(s, steps[|steps| - 1])) else None
  }

  // ---------------------------------------------------------------- the invariant

  predicate Open(p: Phase) { p.Dispatching? || p.Running? || p.Refusing? }

  /** The request in phase p took the id of `of`. */
  predicate Took(p: Phase, of: nat) {
    (p.Encoding? && p.of == of) || p == Answered(of) || p == Silent(WriteFailed(of))
  }

  predicate TookSome(p: Phase) { p.Encoding? || p.Answered? || (p.Silent? && p.why.WriteFailed?) }

  predicate ByLoop(p: Phase) { p.Dispatching? || p.Refusing? || (p.Encoding? && p.byLoop) }

  /** The table still holds the id of request i. */
  predicate HasEntry(s: State, i: nat)
    requires i < |s.requests|
  {
    s.requests[i].number in s.owner && s.owner[s.requests[i].number] == i
  }

  /** How a number was assigned. */
  predicate NumberOk(r: Request, issued: nat) {
    if r.id.None? then r.number == 0 else r.number == (r.rank + 1) % TWO64 && r.rank < issued
  }

  /** Conservation: the id of a request is in the table, overwritten or taken; and a request that asked the
      table for its entry has none there any more. */
  predicate RequestOk(s: State, i: nat)
    requires i < |s.requests| == |s.phases|
  {
    var r, p := s.requests[i], s.phases[i];
    && NumberOk(r, s.issued)
    && One(HasEntry(s, i)) + One(i in s.overwritten) + One(i in s.taker) == One(r.id.Some?)
    && (TookSome(p) || p == Silent(InvalidNumber) ==> !HasEntry(s, i) && (r.number != 0 || !r.known))
    && (p == Silent(Notification) ==> r.number == 0 && r.known)
    && (p.Running? ==> r.known) && (p.Refusing? ==> !r.known)
    && (ByLoop(p) ==> s.loop == Busy(i))
    && (TookSome(p) ==> TookOf(p) in s.taker && s.taker[TookOf(p)] == i)
  }

  function TookOf(p: Phase): nat
    requires TookSome(p)
  {
    if p.Silent? then p.why.of else p.of
  }

  /** An entry of the table is the id of the request that owns it. */
  predicate EntryOk(s: State, k: nat)
    requires k in s.owner
  {
    s.owner[k] < |s.requests| && s.requests[s.owner[k]].number == k && Saved(s.table, k) == s.requests[s.owner[k]].id
  }

  /** An id was taken by a request of the same number, and sent if that request was answered. */
  predicate TakerOk(s: State, of: nat)
    requires of in s.taker
  {
    var t := s.taker[of];
    && of < |s.requests| && t < |s.requests| == |s.phases|
    && s.requests[t].number == s.requests[of].number && Took(s.phases[t], of)
    && (s.phases[t].Encoding? ==> Some(s.phases[t].id) == s.requests[of].id)
  }

  predicate SentOk(s: State, e: Event<Response>) {
    && e.of in s.taker && s.taker[e.of] == e.what.to
    && e.of < |s.requests| && s.requests[e.of].id == Some(e.what.id)
  }

  predicate SentOnce(s: State, of: nat) {
    Count(s.sent, of) == One(of in s.taker && Is(s, s.taker[of], Answered(of)))
  }

  ghost predicate Inv(s: State) {
    && |s.phases| == |s.requests| && s.table.next == s.issued % TWO64 && s.owner.Keys == s.table.pending.Keys
    && (forall i | 0 <= i < |s.requests| :: RequestOk(s, i))
    && (forall k | k in s.owner :: EntryOk(s, k))
    && (forall of | of in s.taker :: TakerOk(s, of))
    && (forall e | e in s.sent :: SentOk(s, e))
    && (forall of: nat :: SentOnce(s, of))
    && (forall i, j | 0 <= i < j < |s.requests| && s.requests[i].id.Some? && s.requests[j].id.Some? :: s.requests[i].rank < s.requests[j].rank)
    && (s.overwritten != {} ==> s.issued > TWO64)
    && (forall i | i in s.overwritten :: i < |s.requests|)
  }

  // ---------------------------------------------------------------- numbers

  lemma NextNumber(n: nat)
    ensures (n % TWO64 + 1) % TWO64 == (n + 1) % TWO64
  {
    var q := n / TWO64;
    assert n == q * TWO64 + n % TWO64;
    if n % TWO64 + 1 == TWO64 {
      assert n + 1 == (q + 1) * TWO64;
    } else {
      assert n + 1 == q * TWO64 + (n % TWO64 + 1);
    }
  }

  lemma SameNumber(a: nat, b: nat)
    requires a < b && (a + 1) % TWO64 == (b + 1) % TWO64
    ensures b >= a + TWO64
  {
    var p, q := (a + 1) / TWO64, (b + 1) / TWO64;
    assert a + 1 == p * TWO64 + (a + 1) % TWO64 && b + 1 == q * TWO64 + (b + 1) % TWO64;
  }

  // ---------------------------------------------------------------- every step keeps it

  lemma ArriveOld(s: State, id: Option<Json>, known: bool, i: nat)
    requires Inv(s) && i < |s.requests| && s.loop == Reading
    ensures RequestOk(Arrive(s, id, known), i)
  {
    hide Number, TakerOk, SentOk, SentOnce;
    assert RequestOk(s, i);
    var k := Number(s.table, id);
    assert k in s.owner ==> EntryOk(s, k);
  }

  lemma ArriveNew(s: State, id: Option<Json>, known: bool)
    requires Inv(s)
    ensures RequestOk(Arrive(s, id, known), |s.requests|)
  {
    hide EntryOk, SentOk, SentOnce;
    NextNumber(s.issued);
    var n := |s.requests|;
    assert n !in s.overwritten;
    forall of | of in s.taker ensures of < n {
      assert TakerOk(s, of);
    }
    assert forall k | k in s.owner :: EntryOk(s, k);
    if Number(s.table, id) in s.owner {
      EntryBound(s, Number(s.table, id));
    }
    if 0 in s.owner {
      EntryBound(s, 0);
    }
  }

  lemma EntryBound(s: State, k: nat)
    requires k in s.owner && EntryOk(s, k)
    ensures s.owner[k] < |s.requests|
  {}

  lemma ArriveOverwrites(s: State, id: Option<Json>, known: bool)
    requires Inv(s)
    ensures var s' := Arrive(s, id, known); s'.overwritten != {} ==> s'.issued > TWO64
  {
    hide TakerOk, SentOk, SentOnce;
    var k := Number(s.table, id);
    if id.Some? && k in s.owner {
      NextNumber(s.issued);
      assert EntryOk(s, k);
      var o := s.owner[k];
      assert RequestOk(s, o);
      SameNumber(s.requests[o].rank, s.issued);
    }
  }

  lemma ArriveInv(s: State, id: Option<Json>, known: bool)
    requires Inv(s) && s.loop == Reading
    ensures Inv(Arrive(s, id, known))
  {
    hide RequestOk, EntryOk, TakerOk, SentOk, SentOnce;
    var s' := Arrive(s, id, known);
    NextNumber(s.issued);
    ArriveOverwrites(s, id, known);
    ArriveRanks(s, id, known);
    ArriveRest(s, id, known);
    forall i | 0 <= i < |s'.requests| ensures RequestOk(s', i) {
      if i < |s.requests| {
        ArriveOld(s, id, known, i);
      } else {
        ArriveNew(s, id, known);
      }
    }
  }

  lemma ArriveRanks(s: State, id: Option<Json>, known: bool)
    requires Inv(s)
    ensures var s' := Arrive(s, id, known);
            forall i, j | 0 <= i < j < |s'.requests| && s'.requests[i].id.Some? && s'.requests[j].id.Some? ::
              s'.requests[i].rank < s'.requests[j].rank
  {
    hide EntryOk, TakerOk, SentOk, SentOnce;
    var s' := Arrive(s, id, known);
    forall i, j | 0 <= i < j < |s'.requests| && s'.requests[i].id.Some? && s'.requests[j].id.Some?
      ensures s'.requests[i].rank < s'.requests[j].rank
    {
      assert RequestOk(s, i);
    }
  }

  lemma ArriveEntries(s: State, id: Option<Json>, known: bool)
    requires Inv(s)
    ensures var s' := Arrive(s, id, known);
            (forall k | k in s'.owner :: EntryOk(s', k)) && (forall i | i in s'.overwritten :: i < |s'.requests|)
  {
    hide RequestOk, TakerOk, SentOk, SentOnce, Number;
    var s' := Arrive(s, id, known);
    forall k | k in s'.owner ensures EntryOk(s', k) {
      if k in s.owner {
        assert EntryOk(s, k);
      }
    }
    if id.Some? && Number(s.table, id) in s.owner {
      assert EntryOk(s, Number(s.table, id));
    }
  }

  /** Entries, takers and responses that were there are still right. */
  lemma ArriveRest(s: State, id: Option<Json>, known: bool)
    requires Inv(s)
    ensures var s' := Arrive(s, id, known);
            && (forall k | k in s'.owner :: EntryOk(s', k)) && (forall of | of in s'.taker :: TakerOk(s', of))
            && (forall e | e in s'.sent :: SentOk(s', e)) && (forall of: nat :: SentOnce(s', of))
            && (forall i | i in s'.overwritten :: i < |s'.requests|)
  {
    ArriveEntries(s, id, known);
    hide RequestOk, EntryOk, Number, Accepted;
    var s' := Arrive(s, id, known);
    forall of | of in s'.taker ensures TakerOk(s', of) {
      assert TakerOk(s, of);
    }
    forall e | e in s'.sent ensures SentOk(s', e) {
      assert SentOk(s, e);
    }
    forall of: nat ensures SentOnce(s', of) {
      assert SentOnce(s, of);
      if of in s.taker {
        assert TakerOk(s, of);
      }
    }
  }

  /** A phase that neither takes an id nor gives one back. */
  predicate Plain(s: State, i: nat, p: Phase, loop: Loop)
    requires i < |s.requests| == |s.phases|
  {
    && !TookSome(s.phases[i]) && !TookSome(p)
    && (loop == s.loop || ByLoop(s.phases[i])) && (ByLoop(p) ==> loop == Busy(i))
    && (p == Silent(InvalidNumber) ==> !HasEntry(s, i) && (s.requests[i].number != 0 || !s.requests[i].known))
    && (p == Silent(Notification) ==> s.requests[i].number == 0 && s.requests[i].known)
    && (p.Running? ==> s.requests[i].known) && (p.Refusing? ==> !s.requests[i].known)
  }

  lemma MoveOne(s: State, i: nat, p: Phase, loop: Loop, j: nat)
    requires Inv(s) && i < |s.requests| && Plain(s, i, p, loop) && j < |s.requests|
    ensures RequestOk(Goto(s, i, p, loop), j)
  {
    hide EntryOk, TakerOk, SentOk, SentOnce, NumberOk;
    assert RequestOk(s, j) && RequestOk(s, i);
  }

  lemma MoveInv(s: State, i: nat, p: Phase, loop: Loop)
    requires Inv(s) && i < |s.requests| && Plain(s, i, p, loop)
    ensures Inv(Goto(s, i, p, loop))
  {
    var s' := Goto(s, i, p, loop);
    forall j | 0 <= j < |s'.requests| ensures RequestOk(s', j) {
      MoveOne(s, i, p, loop, j);
    }
    hide RequestOk;
    forall k | k in s'.owner ensures EntryOk(s', k) {
      assert EntryOk(s, k);
    }
    forall of | of in s'.taker ensures TakerOk(s', of) {
      assert TakerOk(s, of);
    }
    forall e | e in s'.sent ensures SentOk(s', e) {
      assert SentOk(s, e);
    }
    forall of: nat ensures SentOnce(s', of) {
      assert SentOnce(s, of);
      assert of in s.taker ==> TakerOk(s, of);
    }
  }

  predicate CanTake(s: State, i: nat, k: nat, byLoop: bool) {
    && i < |s.requests| == |s.phases| && k == s.requests[i].number && k in s.owner && (k != 0 || !s.requests[i].known)
    && (if byLoop then s.phases[i].Refusing? else s.phases[i].Running?)
  }

  /** The entry to be taken belongs to a request whose id nobody has, and request i has nobody's. */
  lemma TakeFacts(s: State, i: nat, k: nat, byLoop: bool)
    requires Inv(s) && CanTake(s, i, k, byLoop)
    ensures var of := s.owner[k];
            && of < |s.requests| && of !in s.taker && of !in s.overwritten
            && s.requests[of].number == k && s.requests[of].id.Some? && Saved(s.table, k) == s.requests[of].id
    ensures forall of | of in s.taker :: s.taker[of] != i
  {
    hide TakerOk, SentOk, SentOnce, NumberOk;
    assert EntryOk(s, k) && RequestOk(s, s.owner[k]);
    forall of | of in s.taker ensures s.taker[of] != i {
      TakersMoved(s, of);
    }
  }

  lemma TakersMoved(s: State, of: nat)
    requires Inv(s) && of in s.taker
    ensures s.taker[of] < |s.phases| && TookSome(s.phases[s.taker[of]])
  {
    hide RequestOk, EntryOk, SentOk, SentOnce;
    assert TakerOk(s, of);
  }

  lemma TakeRequest(s: State, i: nat, k: nat, id: Json, byLoop: bool, j: nat)
    requires Inv(s) && CanTake(s, i, k, byLoop) && j < |s.requests|
    ensures RequestOk(Take(s, i, k, id, byLoop), j)
  {
    hide EntryOk, TakerOk, SentOk, SentOnce, NumberOk, Forget;
    TakeFacts(s, i, k, byLoop);
    assert RequestOk(s, j) && RequestOk(s, i);
  }

  lemma TakeTaker(s: State, i: nat, k: nat, byLoop: bool, of: nat)
    requires Inv(s) && CanTake(s, i, k, byLoop) && Saved(s.table, k).Some?
    ensures var s' := Take(s, i, k, Saved(s.table, k).value, byLoop); of in s'.taker ==> TakerOk(s', of)
  {
    hide RequestOk, EntryOk, SentOk, SentOnce, Forget;
    TakeFacts(s, i, k, byLoop);
    assert of in s.taker ==> TakerOk(s, of);
  }

  lemma TakeCounts(s: State, i: nat, k: nat, id: Json, byLoop: bool, of: nat)
    requires Inv(s) && CanTake(s, i, k, byLoop)
    ensures SentOnce(Take(s, i, k, id, byLoop), of)
  {
    hide RequestOk, EntryOk, SentOk, TakerOk, Forget, Count;
    TakeFacts(s, i, k, byLoop);
    assert SentOnce(s, of);
  }

  lemma TakeEntry(s: State, i: nat, k: nat, id: Json, byLoop: bool, q: nat)
    requires Inv(s) && CanTake(s, i, k, byLoop) && q in s.owner && q != k
    ensures EntryOk(Take(s, i, k, id, byLoop), q)
  {
    hide RequestOk, SentOnce, SentOk, TakerOk;
    assert EntryOk(s, q);
  }

  lemma TakeSent(s: State, i: nat, k: nat, id: Json, byLoop: bool, e: Event<Response>)
    requires Inv(s) && CanTake(s, i, k, byLoop) && e in s.sent
    ensures SentOk(Take(s, i, k, id, byLoop), e)
  {
    hide RequestOk, SentOnce, EntryOk, TakerOk, Forget;
    TakeFacts(s, i, k, byLoop);
    assert SentOk(s, e);
  }

  lemma TakeInv(s: State, i: nat, k: nat, byLoop: bool)
    requires Inv(s) && CanTake(s, i, k, byLoop) && Saved(s.table, k).Some?
    ensures Inv(Take(s, i, k, Saved(s.table, k).value, byLoop))
  {
    hide RequestOk, EntryOk, TakerOk, SentOk, SentOnce;
    var id := Saved(s.table, k).value;
    var s' := Take(s, i, k, id, byLoop);
    forall j | 0 <= j < |s'.requests| ensures RequestOk(s', j) {
      TakeRequest(s, i, k, id, byLoop, j);
    }
    forall of | of in s'.taker ensures TakerOk(s', of) {
      TakeTaker(s, i, k, byLoop, of);
    }
    forall of: nat ensures SentOnce(s', of) {
      TakeCounts(s, i, k, id, byLoop, of);
    }
    forall q | q in s'.owner ensures EntryOk(s', q) {
      TakeEntry(s, i, k, id, byLoop, q);
    }
    forall e | e in s'.sent ensures SentOk(s', e) {
      TakeSent(s, i, k, id, byLoop, e);
    }
  }

  /** The response has been written, or not. */
  function Encoded(s: State, i: nat, fails: bool): State
    requires i < |s.phases| && s.phases[i].Encoding?
  {
    var p := s.phases[i];
    var loop := if !p.byLoop then s.loop else if fails then Ended else Reading;
    if fails then Goto(s, i, Silent(WriteFailed(p.of)), loop)
    else Goto(s, i, Answered(p.of), loop).(sent := s.sent + [Event(p.of, Response(i, p.id))])
  }

  lemma EncodedRequest(s: State, i: nat, fails: bool, j: nat)
    requires Inv(s) && i < |s.requests| && s.phases[i].Encoding? && j < |s.requests|
    ensures RequestOk(Encoded(s, i, fails), j)
  {
    hide EntryOk, TakerOk, SentOk, SentOnce, NumberOk;
    assert RequestOk(s, j) && RequestOk(s, i);
  }

  lemma EncodedTaker(s: State, i: nat, fails: bool, of: nat)
    requires Inv(s) && i < |s.requests| && s.phases[i].Encoding?
    ensures of in s.taker ==> TakerOk(Encoded(s, i, fails), of)
    ensures SentOnce(Encoded(s, i, fails), of)
  {
    hide EntryOk, SentOk, NumberOk;
    assert RequestOk(s, i) && SentOnce(s, of);
    assert of in s.taker ==> TakerOk(s, of);
    var p := s.phases[i];
    assert TakerOk(s, p.of);
    CountAdd(s.sent, Event(p.of, Response(i, p.id)), of);
  }

  lemma EncodedInv(s: State, i: nat, fails: bool)
    requires Inv(s) && i < |s.requests| && s.phases[i].Encoding?
    ensures Inv(Encoded(s, i, fails))
  {
    var s' := Encoded(s, i, fails);
    forall j | 0 <= j < |s'.requests| ensures RequestOk(s', j) {
      EncodedRequest(s, i, fails, j);
    }
    forall of | of in s'.taker ensures TakerOk(s', of) {
      EncodedTaker(s, i, fails, of);
    }
    forall of: nat ensures SentOnce(s', of) {
      EncodedTaker(s, i, fails, of);
    }
    hide SentOnce;
    forall k | k in s'.owner ensures EntryOk(s', k) {
      assert EntryOk(s, k);
    }
    assert RequestOk(s, i) && TakerOk(s, s.phases[i].of);
    hide RequestOk, EntryOk;
    forall e | e in s'.sent ensures SentOk(s', e) {
      assert e in s.sent ==> SentOk(s, e);
    }
  }

  lemma DispatchInv(s: State, bodyOk: bool)
    requires Inv(s) && Enabled(s, Dispatch(bodyOk))
    ensures Inv(Do(s, Dispatch(bodyOk)))
  {
    hide Inv;
    var i := s.loop.i;
    if !s.requests[i].known {
      MoveInv(s, i, Refusing, s.loop);
    } else if bodyOk {
      MoveInv(s, i, Running, Reading);
    } else {
      MoveInv(s, i, Silent(BadBody), Ended);
    }
  }

  lemma OwnerHasId(s: State, k: nat)
    requires Inv(s) && k in s.owner
    ensures Saved(s.table, k).Some?
  {}

  lemma RespondInv(s: State, i: nat)
    requires Inv(s) && (Is(s, i, Running) || Is(s, i, Refusing))
    ensures Inv(Respond(s, i))
  {
    var k, byLoop := s.requests[i].number, s.phases[i].Refusing?;
    assert RequestOk(s, i) && s.owner.Keys == s.table.pending.Keys && |s.phases| == |s.requests|;
    hide Inv;
    if !byLoop && k == 0 {
      MoveInv(s, i, Silent(Notification), s.loop);
    } else if k in s.owner {
      OwnerHasId(s, k);
      TakeInv(s, i, k, byLoop);
    } else {
      MoveInv(s, i, Silent(InvalidNumber), if byLoop then Ended else s.loop);
    }
  }

  lemma ReadErrorInv(s: State)
    requires Inv(s) && s.loop == Reading
    ensures Inv(s.(loop := Ended))
  {
    var s' := s.(loop := Ended);
    forall j | 0 <= j < |s'.requests| ensures RequestOk(s', j) {
      assert RequestOk(s, j);
    }
    hide RequestOk;
    forall k | k in s'.owner ensures EntryOk(s', k) {
      assert EntryOk(s, k);
    }
    forall of | of in s'.taker ensures TakerOk(s', of) {
      assert TakerOk(s, of);
    }
    forall e | e in s'.sent ensures SentOk(s', e) {
      assert SentOk(s, e);
    }
    forall of: nat ensures SentOnce(s', of) {
      assert SentOnce(s, of);
    }
  }

  lemma StepInv(s: State, step: Step)
    requires Inv(s) && Enabled(s, step)
    ensures Inv(Do(s, step))
  {
    assert |s.requests| == |s.phases|;
    hide Inv;
    match step
    case Header(id, known) => ArriveInv(s, id, known);
    case ReadError => ReadErrorInv(s);
    case Dispatch(bodyOk) => DispatchInv(s, bodyOk);
    case Write(i) => RespondInv(s, i);
    case Encode(i, fails) => EncodedInv(s, i, fails);
  }

  lemma {:induction false} RunInv(steps: seq<Step>)
    requires Run(steps).Some?
    ensures Inv(Run(steps).value)
  {
    if steps != [] {
      RunInv(steps[..|steps| - 1]);
      StepInv(Run(steps[..|steps| - 1]).value, steps[|steps| - 1]);
    }
  }

  // ---------------------------------------------------------------- what peers rely on

  /** Request i was answered by its own processing, with its own id. */
  predicate OwnAnswer(s: State, i: nat) { exists e | e in s.sent :: e.of == i && e.what.to == i }

  /** In every run, of any length: no id is sent twice, and every response carries the id of a request. */
  lemma NoIdTwice(steps: seq<Step>, i: nat)
    requires Run(steps).Some?
    ensures var s := Run(steps).value;
            && Count(s.sent, i) <= 1
            && (forall e | e in s.sent :: e.of < |s.requests| && s.requests[e.of].id == Some(e.what.id))
  {
    RunInv(steps);
    var s := Run(steps).value;
    assert SentOnce(s, i);
    forall e | e in s.sent ensures e.of < |s.requests| && s.requests[e.of].id == Some(e.what.id) {
      assert SentOk(s, e);
    }
  }

  /** Another request of the same number took the id of request i. */
  predicate Robbed(s: State, i: nat) { i in s.taker && s.taker[i] != i }

  lemma {:induction false} CountFound(sent: seq<Event<Response>>, i: nat)
    requires Count(sent, i) > 0
    ensures exists e | e in sent :: e.of == i
  {
    var n := |sent| - 1;
    if sent[n].of == i {
      assert sent[n] in sent;
    } else {
      CountFound(sent[..n], i);
      var e :| e in sent[..n] && e.of == i;
      assert e in sent;
    }
  }

  lemma AnsweredForm(s: State, i: nat)
    requires Inv(s) && i < |s.requests|
    ensures OwnAnswer(s, i) <==> s.phases[i] == Answered(i) && i in s.taker && s.taker[i] == i
  {
    assert SentOnce(s, i) && RequestOk(s, i);
    if OwnAnswer(s, i) {
      var e :| e in s.sent && e.of == i && e.what.to == i;
      assert SentOk(s, e) && TakerOk(s, i);
      CountPositive(s.sent, e);
    }
    if s.phases[i] == Answered(i) && i in s.taker && s.taker[i] == i {
      CountFound(s.sent, i);
      var e :| e in s.sent && e.of == i;
      assert SentOk(s, e);
    }
  }

  lemma {:induction false} CountPositive(sent: seq<Event<Response>>, e: Event<Response>)
    requires e in sent
    ensures Count(sent, e.of) > 0
  {
    var n := |sent| - 1;
    if sent[n] != e {
      assert sent == sent[..n] + [sent[n]];
      CountPositive(sent[..n], e);
    }
  }

  predicate Over(p: Phase) { !Open(p) && !p.Encoding? }

  /** In every run, of any length: the phase of a request whose processing is over tells whether it was answered
      with its own id. */
  lemma AnsweredByPhase(steps: seq<Step>, i: nat)
    requires Run(steps).Some? && i < |Run(steps).value.requests|
    requires var s := Run(steps).value; i < |s.phases| && Over(s.phases[i])
    ensures var s := Run(steps).value; var r, p := s.requests[i], s.phases[i];
            OwnAnswer(s, i) <==>
            && r.id.Some? && i !in s.overwritten && !Robbed(s, i) && (r.number != 0 || !r.known)
            && p != Silent(BadBody) && !(p.Silent? && p.why.WriteFailed?)
  {
    RunInv(steps);
    var s := Run(steps).value;
    AnsweredForm(s, i);
    assert RequestOk(s, i);
    if i in s.taker {
      assert TakerOk(s, i);
    }
  }

  /** Before the numbers wrap, no entry is overwritten, none is taken by another request, none is numbered 0. */
  lemma NoClash(s: State, i: nat)
    requires Inv(s) && s.issued < TWO64 && i < |s.requests|
    ensures s.overwritten == {} && !Robbed(s, i) && (s.requests[i].id.Some? ==> s.requests[i].number != 0)
  {
    hide EntryOk, SentOk, SentOnce;
    assert RequestOk(s, i);
    if Robbed(s, i) {
      var t := s.taker[i];
      assert TakerOk(s, i) && RequestOk(s, t);
      if s.requests[t].id.Some? {
        var a, b := s.requests[i].rank, s.requests[t].rank;
        if a < b {
          SameNumber(a, b);
        } else {
          SameNumber(b, a);
        }
      }
    }
  }

  /** A refused request ends the read loop, when its answer is looked up, exactly if its number has no entry:
      before the numbers wrap, exactly if it is a notification. */
  lemma RefusalEnds(steps: seq<Step>, i: nat)
    requires Run(steps).Some? && Is(Run(steps).value, i, Refusing) && i < |Run(steps).value.requests|
    ensures var s := Run(steps).value;
            && Enabled(s, Write(i))
            && (Do(s, Write(i)).loop == Ended <==> s.requests[i].number !in s.owner)
            && (s.issued < TWO64 ==> (Do(s, Write(i)).loop == Ended <==> s.requests[i].id.None?))
  {
    RunInv(steps);
    var s := Run(steps).value;
    assert RequestOk(s, i);
    if s.issued < TWO64 {
      NoClash(s, i);
      if s.requests[i].number in s.owner {
        var o := s.owner[s.requests[i].number];
        assert EntryOk(s, s.requests[i].number) && RequestOk(s, o);
        NoClash(s, o);
      }
    }
  }

  // ---------------------------------------------------------------- the wrap is reached

  /** n requests, each handled and answered before the next. */
  function Rounds(n: nat): seq<Step> {
    if n == 0 then []
    else Rounds(n - 1) + [Header(Some("id"), true)] + [Dispatch(true)] + [Write(n - 1)] + [Encode(n - 1, false)]
  }

  lemma RunMore(steps: seq<Step>, step: Step)
    requires Run(steps).Some? && Enabled(Run(steps).value, step)
    ensures Run(steps + [step]) == Some(Do(Run(steps).value, step))
  {
    assert (steps + [step])[..|steps|] == steps;
  }

  predicate Rested(s: State, n: nat) {
    |s.requests| == |s.phases| == n && s.loop == Reading && s.issued == n && s.table == Table(n % TWO64, map[])
  }

  lemma {:induction false} RoundsRun(n: nat)
    requires n < TWO64
    ensures Run(Rounds(n)).Some? && Rested(Run(Rounds(n)).value, n)
  {
    if n > 0 {
      var m := n - 1;
      RoundsRun(m);
      var r0 := Rounds(m);
      var s0 := Run(r0).value;
      OneRound(s0, m);
      hide Run, Do;
      RunMore(r0, Header(Some("id"), true));
      var r1 := r0 + [Header(Some("id"), true)];
      RunMore(r1, Dispatch(true));
      var r2 := r1 + [Dispatch(true)];
      RunMore(r2, Write(m));
      var r3 := r2 + [Write(m)];
      RunMore(r3, Encode(m, false));
    }
  }

  lemma OneRound(s: State, m: nat)
    requires Rested(s, m) && m + 1 < TWO64
    ensures Enabled(s, Header(Some("id"), true))
    ensures var s1 := Do(s, Header(Some("id"), true)); Enabled(s1, Dispatch(true))
    ensures var s2 := Do(Do(s, Header(Some("id"), true)), Dispatch(true)); Enabled(s2, Write(m))
    ensures var s3 := Do(Do(Do(s, Header(Some("id"), true)), Dispatch(true)), Write(m)); Enabled(s3, Encode(m, false))
    ensures Rested(Do(Do(Do(Do(s, Header(Some("id"), true)), Dispatch(true)), Write(m)), Encode(m, false)), m + 1)
  {
    var s1 := Do(s, Header(Some("id"), true));
    assert s1.phases[m] == Dispatching && s1.requests[m].number == m + 1 && s1.table == Table(m + 1, map[m + 1 := "id"]);
    var s2 := Do(s1, Dispatch(true));
    assert s2.phases[m] == Running && s2.table == s1.table;
    var s3 := Do(s2, Write(m));
    assert s3.phases[m].Encoding? && !s3.phases[m].byLoop && s3.table == Table(m + 1, map[]);
  }

  /** The 2^64th request with an id is numbered 0; it is handled and never answered. */
  lemma WrappedRequestUnanswered(id: Json)
    ensures var n := TWO64 - 1;
            var r := Run(Rounds(n) + [Header(Some(id), true)] + [Dispatch(true)] + [Write(n)]);
            && r.Some? && |r.value.requests| == |r.value.phases| == n + 1
            && r.value.requests[n].id == Some(id) && r.value.phases[n] == Silent(Notification)
  {
    var n := TWO64 - 1;
    RoundsRun(n);
    var r0 := Rounds(n);
    LastRound(Run(r0).value, n, id);
    hide Run, Do, Rounds;
    RunMore(r0, Header(Some(id), true));
    var r1 := r0 + [Header(Some(id), true)];
    RunMore(r1, Dispatch(true));
    var r2 := r1 + [Dispatch(true)];
    RunMore(r2, Write(n));
  }

  lemma LastRound(s: State, n: nat, id: Json)
    requires Rested(s, n) && n == TWO64 - 1
    ensures Enabled(s, Header(Some(id), true))
    ensures Enabled(Do(s, Header(Some(id), true)), Dispatch(true))
    ensures var s2 := Do(Do(s, Header(Some(id), true)), Dispatch(true)); Enabled(s2, Write(n))
    ensures var s3 := Do(Do(Do(s, Header(Some(id), true)), Dispatch(true)), Write(n));
            |s3.requests| == |s3.phases| == n + 1 && s3.requests[n].id == Some(id) && s3.phases[n] == Silent(Notification)
  {
    var s1 := Do(s, Header(Some(id), true));
    assert s1.phases[n] == Dispatching && s1.requests[n] == Request(Some(id), true, 0, n);
  }
}
