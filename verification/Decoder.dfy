/** The decoder of decoder.go: a reader, a position, and a signature string that is sliced as it goes. */
module DBusDecoder {
  import opened Common
  import opened ByteOrder
  import opened DBusType
  import opened DBusSignature
  import opened DBusWire
  import opened DBusEncoder

  /** Endless: the loop at decoder.go:196 never advances. */
  datatype Step<+A> = Done(value: A) | Failed | Endless

  /** A step of the decoder from (in0, pos0) to (in1, pos1) does what the type-directed reader says. */
  ghost predicate Agrees<A>(r: Step<A>, spec: Outcome<A>, in0: seq<byte>, pos0: nat, in1: seq<byte>, pos1: nat) {
    match spec
    case Ok(v, n) => n <= |in0| && r == Done(v) && in1 == in0[n..] && pos1 == pos0 + n
    case Err => r == Failed
    case Stuck => r == Endless
  }

  lemma AgreesAfter<A>(k: nat, r: Step<A>, spec: Outcome<A>, in0: seq<byte>, pos0: nat, in1: seq<byte>, pos1: nat)
    requires k <= |in0| && Agrees(r, spec, in0[k..], pos0 + k, in1, pos1)
    ensures Agrees(r, After(k, spec), in0, pos0, in1, pos1)
  {
    if spec.Ok? {
      assert in0[k..][spec.n..] == in0[k + spec.n..];
    }
  }

  lemma Drop2<A>(s: seq<A>, a: nat, b: nat)
    requires a + b <= |s|
    ensures s[a..][b..] == s[a + b..]
  {}

  function AsList(r: Step<seq<Value>>): Step<Value> {
    match r case Done(vs) => Done(List(vs)) case Failed => Failed case Endless => Endless
  }

  function AsMap(r: Step<seq<Entry>>): Step<Value> {
    match r case Done(es) => Done(Map(es)) case Failed => Failed case Endless => Endless
  }

  lemma BoolForm(o: Order, depth: nat, buf: seq<byte>, pos: nat)
    requires depth <= MAX_DEPTH
    ensures var pad := Padding(pos, 4);
            Unmarshal(o, Leaf(B), depth, buf, pos) == if |buf| < pad then Err else After(pad, GetBool(o, buf[pad..]))
  {}

  lemma ArrayAgrees(o: Order, e: Ty, depth: nat, in0: seq<byte>, pos0: nat, start: nat, length: nat,
                    r: Step<seq<Value>>, in1: seq<byte>, pos1: nat)
    requires depth <= MAX_DEPTH && start <= |in0|
    requires Agrees(r, GetItems(o, e, depth, in0[start..], pos0 + start, length), in0[start..], pos0 + start, in1, pos1)
    ensures Agrees(AsList(r), FramedItems(o, e, depth, in0, pos0, start, length), in0, pos0, in1, pos1)
  {
    var spec := GetItems(o, e, depth, in0[start..], pos0 + start, length);
    if spec.Ok? {
      Drop2(in0, start, spec.n);
    }
  }

  lemma DictAgrees(o: Order, k: Prim, e: Ty, depth: nat, in0: seq<byte>, pos0: nat, start: nat, length: nat,
                   r: Step<seq<Entry>>, in1: seq<byte>, pos1: nat)
    requires depth <= MAX_DEPTH && start <= |in0|
    requires Agrees(r, GetEntries(o, k, e, depth, in0[start..], pos0 + start, length, []), in0[start..], pos0 + start, in1, pos1)
    ensures Agrees(AsMap(r), FramedEntries(o, k, e, depth, in0, pos0, start, length), in0, pos0, in1, pos1)
  {
    var spec := GetEntries(o, k, e, depth, in0[start..], pos0 + start, length, []);
    if spec.Ok? {
      Drop2(in0, start, spec.n);
    }
  }

  /** The outcome of a loop that has already read vs, in n bytes. */
  function Prepend(vs: seq<Value>, n: nat, r: Outcome<seq<Value>>): Outcome<seq<Value>> {
    match r case Ok(ws, m) => Ok(vs + ws, n + m) case bad => bad
  }

  lemma PrependNone(r: Outcome<seq<Value>>)
    ensures Prepend([], 0, r) == r
  {
    if r.Ok? {
      assert [] + r.value == r.value;
    }
  }

  lemma PrependOne(vs: seq<Value>, v: Value, n: nat, k: nat, r: Outcome<seq<Value>>)
    ensures Prepend(vs, n, Prepend([v], k, r)) == Prepend(vs + [v], n + k, r)
  {
    if r.Ok? {
      Assoc(vs, [v], r.value);
    }
  }

  // ---------------------------------------------------------------- loop invariants

  /** n bytes of in0 have been read; in1 and pos1 are what is left. */
  ghost predicate Advanced(in0: seq<byte>, pos0: nat, n: nat, in1: seq<byte>, pos1: nat) {
    n <= |in0| && in1 == in0[n..] && pos1 == pos0 + n
  }

  lemma AdvancedBy(in0: seq<byte>, pos0: nat, n: nat, in1: seq<byte>, pos1: nat, k: nat, in2: seq<byte>, pos2: nat)
    requires Advanced(in0, pos0, n, in1, pos1) && Advanced(in1, pos1, k, in2, pos2)
    ensures Advanced(in0, pos0, n + k, in2, pos2)
  {
    Drop2(in0, n, k);
  }

  /** Having read vs in n bytes, whatever the rest of the loop yields decides the whole. */
  ghost predicate ItemsSoFar(o: Order, e: Ty, depth: nat, in0: seq<byte>, pos0: nat, length: nat,
                             vs: seq<Value>, n: nat, in1: seq<byte>, pos1: nat) {
    && depth <= MAX_DEPTH && Advanced(in0, pos0, n, in1, pos1)
    && forall r | GetItems(o, e, depth, in1, pos1, length - n) == r ::
         GetItems(o, e, depth, in0, pos0, length) == Prepend(vs, n, r)
  }

  lemma ItemsStart(o: Order, e: Ty, depth: nat, in0: seq<byte>, pos0: nat, length: nat)
    requires depth <= MAX_DEPTH
    ensures ItemsSoFar(o, e, depth, in0, pos0, length, [], 0, in0, pos0)
  {
    PrependNone(GetItems(o, e, depth, in0, pos0, length));
  }

  lemma ItemsStep(o: Order, e: Ty, depth: nat, buf: seq<byte>, pos: nat, left: int, v: Value, k: nat, buf': seq<byte>, pos': nat)
    requires depth <= MAX_DEPTH && left > 0 && k > 0 && Unmarshal(o, e, depth, buf, pos) == Ok(v, k)
    requires Advanced(buf, pos, k, buf', pos')
    ensures GetItems(o, e, depth, buf, pos, left) == Prepend([v], k, GetItems(o, e, depth, buf', pos', left - k))
  {}

  lemma ItemsTurn(o: Order, e: Ty, depth: nat, in0: seq<byte>, pos0: nat, length: nat, vs: seq<Value>, n: nat,
                  in1: seq<byte>, pos1: nat, v: Value, k: nat, in2: seq<byte>, pos2: nat)
    requires ItemsSoFar(o, e, depth, in0, pos0, length, vs, n, in1, pos1) && n < length && k > 0
    requires Unmarshal(o, e, depth, in1, pos1) == Ok(v, k) && Advanced(in1, pos1, k, in2, pos2)
    ensures ItemsSoFar(o, e, depth, in0, pos0, length, vs + [v], n + k, in2, pos2)
  {
    AdvancedBy(in0, pos0, n, in1, pos1, k, in2, pos2);
    ItemsStep(o, e, depth, in1, pos1, length - n, v, k, in2, pos2);
    PrependOne(vs, v, n, k, GetItems(o, e, depth, in2, pos2, length - n - k));
  }

  lemma ItemsStop(o: Order, e: Ty, depth: nat, in0: seq<byte>, pos0: nat, length: nat, vs: seq<Value>, n: nat,
                  in1: seq<byte>, pos1: nat)
    requires ItemsSoFar(o, e, depth, in0, pos0, length, vs, n, in1, pos1) && n < length
    requires var spec := Unmarshal(o, e, depth, in1, pos1); spec.Ok? ==> spec.n == 0
    ensures GetItems(o, e, depth, in0, pos0, length) == if Unmarshal(o, e, depth, in1, pos1).Err? then Err else Stuck
  {
    hide Unmarshal;
    var here := GetItems(o, e, depth, in1, pos1, length - n);
    assert GetItems(o, e, depth, in0, pos0, length) == Prepend(vs, n, here);
  }

  lemma ItemsEnd(o: Order, e: Ty, depth: nat, in0: seq<byte>, pos0: nat, length: nat, vs: seq<Value>, n: nat,
                 in1: seq<byte>, pos1: nat)
    requires ItemsSoFar(o, e, depth, in0, pos0, length, vs, n, in1, pos1) && n >= length
    ensures Agrees(Done(vs), GetItems(o, e, depth, in0, pos0, length), in0, pos0, in1, pos1)
  {
    assert GetItems(o, e, depth, in0, pos0, length) == Prepend(vs, n, Ok([], 0));
    assert vs + [] == vs;
  }

  lemma ItemsNext(o: Order, e: Ty, depth: nat, in0: seq<byte>, pos0: nat, length: nat, vs: seq<Value>,
                  in1: seq<byte>, pos1: nat, v: Step<Value>, in2: seq<byte>, pos2: nat)
    requires pos0 <= pos1 < pos0 + length && ItemsSoFar(o, e, depth, in0, pos0, length, vs, pos1 - pos0, in1, pos1)
    requires Agrees(v, Unmarshal(o, e, depth, in1, pos1), in1, pos1, in2, pos2)
    ensures !v.Done? || pos2 == pos1 ==>
              Agrees(if v.Failed? then Failed else Endless, GetItems(o, e, depth, in0, pos0, length), in0, pos0, in2, pos2)
    ensures v.Done? && pos2 != pos1 ==>
              pos1 < pos2 && |in2| < |in1| && ItemsSoFar(o, e, depth, in0, pos0, length, vs + [v.value], pos2 - pos0, in2, pos2)
  {
    hide Unmarshal, GetItems, ItemsSoFar;
    if !v.Done? || pos2 == pos1 {
      ItemsStop(o, e, depth, in0, pos0, length, vs, pos1 - pos0, in1, pos1);
    } else {
      ItemsTurn(o, e, depth, in0, pos0, length, vs, pos1 - pos0, in1, pos1, v.value, pos2 - pos1, in2, pos2);
    }
  }

  ghost predicate MembersSoFar(o: Order, ts: seq<Ty>, depth: nat, in0: seq<byte>, pos0: nat,
                               i: nat, vs: seq<Value>, n: nat, in1: seq<byte>, pos1: nat) {
    && depth <= MAX_DEPTH && i <= |ts| && Advanced(in0, pos0, n, in1, pos1)
    && forall r | GetMembers(o, ts[i..], depth, in1, pos1) == r ::
         GetMembers(o, ts, depth, in0, pos0) == Prepend(vs, n, r)
  }

  lemma MembersStart(o: Order, ts: seq<Ty>, depth: nat, in0: seq<byte>, pos0: nat)
    requires depth <= MAX_DEPTH
    ensures MembersSoFar(o, ts, depth, in0, pos0, 0, [], 0, in0, pos0)
  {
    assert ts[0..] == ts;
    PrependNone(GetMembers(o, ts, depth, in0, pos0));
  }

  lemma MembersStep(o: Order, ts: seq<Ty>, i: nat, depth: nat, buf: seq<byte>, pos: nat, v: Value, k: nat, buf': seq<byte>, pos': nat)
    requires depth <= MAX_DEPTH && i < |ts| && Unmarshal(o, ts[i], depth, buf, pos) == Ok(v, k)
    requires Advanced(buf, pos, k, buf', pos')
    ensures GetMembers(o, ts[i..], depth, buf, pos) == Prepend([v], k, GetMembers(o, ts[i + 1..], depth, buf', pos'))
  {
    assert ts[i..][0] == ts[i] && ts[i..][1..] == ts[i + 1..];
  }

  lemma MembersTurn(o: Order, ts: seq<Ty>, depth: nat, in0: seq<byte>, pos0: nat, i: nat, vs: seq<Value>, n: nat,
                    in1: seq<byte>, pos1: nat, v: Value, k: nat, in2: seq<byte>, pos2: nat)
    requires MembersSoFar(o, ts, depth, in0, pos0, i, vs, n, in1, pos1) && i < |ts|
    requires Unmarshal(o, ts[i], depth, in1, pos1) == Ok(v, k) && Advanced(in1, pos1, k, in2, pos2)
    ensures MembersSoFar(o, ts, depth, in0, pos0, i + 1, vs + [v], n + k, in2, pos2)
  {
    AdvancedBy(in0, pos0, n, in1, pos1, k, in2, pos2);
    MembersStep(o, ts, i, depth, in1, pos1, v, k, in2, pos2);
    PrependOne(vs, v, n, k, GetMembers(o, ts[i + 1..], depth, in2, pos2));
  }

  lemma MembersStop(o: Order, ts: seq<Ty>, depth: nat, in0: seq<byte>, pos0: nat, i: nat, vs: seq<Value>, n: nat,
                    in1: seq<byte>, pos1: nat)
    requires MembersSoFar(o, ts, depth, in0, pos0, i, vs, n, in1, pos1) && i < |ts|
    requires !Unmarshal(o, ts[i], depth, in1, pos1).Ok?
    ensures GetMembers(o, ts, depth, in0, pos0) == if Unmarshal(o, ts[i], depth, in1, pos1).Err? then Err else Stuck
  {
    hide Unmarshal;
    var here := GetMembers(o, ts[i..], depth, in1, pos1);
    assert GetMembers(o, ts, depth, in0, pos0) == Prepend(vs, n, here);
    assert ts[i..][0] == ts[i];
  }

  lemma MembersEnd(o: Order, ts: seq<Ty>, depth: nat, in0: seq<byte>, pos0: nat, vs: seq<Value>, n: nat, in1: seq<byte>, pos1: nat)
    requires MembersSoFar(o, ts, depth, in0, pos0, |ts|, vs, n, in1, pos1)
    ensures Agrees(Done(vs), GetMembers(o, ts, depth, in0, pos0), in0, pos0, in1, pos1)
  {
    assert ts[|ts|..] == [];
    assert GetMembers(o, ts, depth, in0, pos0) == Prepend(vs, n, Ok([], 0));
    assert vs + [] == vs;
  }

  lemma MembersNext(o: Order, ts: seq<Ty>, depth: nat, in0: seq<byte>, pos0: nat, i: nat, vs: seq<Value>,
                    in1: seq<byte>, pos1: nat, v: Step<Value>, in2: seq<byte>, pos2: nat)
    requires pos0 <= pos1 && i < |ts| && MembersSoFar(o, ts, depth, in0, pos0, i, vs, pos1 - pos0, in1, pos1)
    requires Agrees(v, Unmarshal(o, ts[i], depth, in1, pos1), in1, pos1, in2, pos2)
    ensures !v.Done? ==>
              Agrees(if v.Failed? then Failed else Endless, GetMembers(o, ts, depth, in0, pos0), in0, pos0, in2, pos2)
    ensures v.Done? ==> pos1 <= pos2 && MembersSoFar(o, ts, depth, in0, pos0, i + 1, vs + [v.value], pos2 - pos0, in2, pos2)
  {
    hide Unmarshal, GetMembers, MembersSoFar;
    if v.Done? {
      MembersTurn(o, ts, depth, in0, pos0, i, vs, pos1 - pos0, in1, pos1, v.value, pos2 - pos1, in2, pos2);
    } else {
      MembersStop(o, ts, depth, in0, pos0, i, vs, pos1 - pos0, in1, pos1);
    }
  }

  ghost predicate EntriesSoFar(o: Order, k: Prim, e: Ty, depth: nat, in0: seq<byte>, pos0: nat, length: nat,
                               es: seq<Entry>, n: nat, in1: seq<byte>, pos1: nat) {
    && depth <= MAX_DEPTH && Advanced(in0, pos0, n, in1, pos1)
    && forall r | GetEntries(o, k, e, depth, in1, pos1, length - n, es) == r ::
         GetEntries(o, k, e, depth, in0, pos0, length, []) == After(n, r)
  }

  lemma EntriesStart(o: Order, k: Prim, e: Ty, depth: nat, in0: seq<byte>, pos0: nat, length: nat)
    requires depth <= MAX_DEPTH
    ensures EntriesSoFar(o, k, e, depth, in0, pos0, length, [], 0, in0, pos0)
  {}

  lemma EntriesStep(o: Order, k: Prim, e: Ty, depth: nat, buf: seq<byte>, pos: nat, left: int, es: seq<Entry>,
                    entry: Entry, m: nat, buf': seq<byte>, pos': nat)
    requires depth <= MAX_DEPTH && left > 0 && GetEntry(o, k, e, depth, buf, pos) == Ok(entry, m)
    requires Advanced(buf, pos, m, buf', pos')
    ensures GetEntries(o, k, e, depth, buf, pos, left, es) ==
            After(m, GetEntries(o, k, e, depth, buf', pos', left - m, Upsert(k, es, entry)))
  {}

  lemma EntriesTurn(o: Order, k: Prim, e: Ty, depth: nat, in0: seq<byte>, pos0: nat, length: nat, es: seq<Entry>, n: nat,
                    in1: seq<byte>, pos1: nat, entry: Entry, m: nat, in2: seq<byte>, pos2: nat)
    requires EntriesSoFar(o, k, e, depth, in0, pos0, length, es, n, in1, pos1) && n < length
    requires GetEntry(o, k, e, depth, in1, pos1) == Ok(entry, m) && Advanced(in1, pos1, m, in2, pos2)
    ensures EntriesSoFar(o, k, e, depth, in0, pos0, length, Upsert(k, es, entry), n + m, in2, pos2)
  {
    AdvancedBy(in0, pos0, n, in1, pos1, m, in2, pos2);
    EntriesStep(o, k, e, depth, in1, pos1, length - n, es, entry, m, in2, pos2);
    var r := GetEntries(o, k, e, depth, in2, pos2, length - n - m, Upsert(k, es, entry));
    assert After(n, After(m, r)) == After(n + m, r);
  }

  lemma EntriesStop(o: Order, k: Prim, e: Ty, depth: nat, in0: seq<byte>, pos0: nat, length: nat, es: seq<Entry>, n: nat,
                    in1: seq<byte>, pos1: nat)
    requires EntriesSoFar(o, k, e, depth, in0, pos0, length, es, n, in1, pos1) && n < length
    requires !GetEntry(o, k, e, depth, in1, pos1).Ok?
    ensures GetEntries(o, k, e, depth, in0, pos0, length, []) == if GetEntry(o, k, e, depth, in1, pos1).Err? then Err else Stuck
  {
    var here := GetEntries(o, k, e, depth, in1, pos1, length - n, es);
    assert GetEntries(o, k, e, depth, in0, pos0, length, []) == After(n, here);
  }

  lemma EntriesEnd(o: Order, k: Prim, e: Ty, depth: nat, in0: seq<byte>, pos0: nat, length: nat, es: seq<Entry>, n: nat,
                   in1: seq<byte>, pos1: nat)
    requires EntriesSoFar(o, k, e, depth, in0, pos0, length, es, n, in1, pos1) && n >= length
    ensures Agrees(Done(es), GetEntries(o, k, e, depth, in0, pos0, length, []), in0, pos0, in1, pos1)
  {
    assert GetEntries(o, k, e, depth, in0, pos0, length, []) == After(n, Ok(es, 0));
  }

  lemma EntriesNext(o: Order, k: Prim, e: Ty, depth: nat, in0: seq<byte>, pos0: nat, length: nat, es: seq<Entry>,
                    in1: seq<byte>, pos1: nat, entry: Step<Entry>, in2: seq<byte>, pos2: nat)
    requires pos0 <= pos1 < pos0 + length && EntriesSoFar(o, k, e, depth, in0, pos0, length, es, pos1 - pos0, in1, pos1)
    requires Agrees(entry, GetEntry(o, k, e, depth, in1, pos1), in1, pos1, in2, pos2)
    ensures !entry.Done? ==>
              Agrees(if entry.Failed? then Failed else Endless, GetEntries(o, k, e, depth, in0, pos0, length, []), in0, pos0, in2, pos2)
    ensures entry.Done? ==> pos1 < pos2 && |in2| < |in1|
    ensures entry.Done? ==> EntriesSoFar(o, k, e, depth, in0, pos0, length, Upsert(k, es, entry.value), pos2 - pos0, in2, pos2)
  {
    hide GetEntries, GetEntry, EntriesSoFar, Upsert;
    if entry.Done? {
      EntriesTurn(o, k, e, depth, in0, pos0, length, es, pos1 - pos0, in1, pos1, entry.value, pos2 - pos1, in2, pos2);
    } else {
      EntriesStop(o, k, e, depth, in0, pos0, length, es, pos1 - pos0, in1, pos1);
    }
  }

  // ---------------------------------------------------------------- slicing signatures

  lemma ArraySlices(e: Ty)
    ensures Print(Array(e))[1..] == Print(e) && |Print(Array(e))| > 1 && Print(Array(e))[1] != LBRACE
  {
    PrintHead(e);
  }

  lemma DictSlices(k: Prim, e: Ty)
    ensures var s := Print(Dict(k, e));
            && |s| > 3 && s[1] == LBRACE
            && s[2..3] == Print(Leaf(k)) && s[3..|s| - 1] == Print(e)
  {
    var s := Print(Dict(k, e));
    Assoc([ARRAY, LBRACE, k], Print(e), [RBRACE]);
    Cut([ARRAY, LBRACE, k], Print(e) + [RBRACE]);
    assert s[2..3] == [k];
    assert s[3..|s| - 1] == s[3..][..|Print(e)|] == Print(e);
  }

  lemma StructSlices(fs: seq<Ty>)
    ensures var s := Print(Struct(fs)); s[1..|s| - 1] == PrintAll(fs)
  {
    var s := Print(Struct(fs));
    Assoc([LPAREN], PrintAll(fs), [RPAREN]);
    Cut([LPAREN], PrintAll(fs) + [RPAREN]);
    assert s[1..|s| - 1] == s[1..][..|PrintAll(fs)|] == PrintAll(fs);
  }

  lemma MemberSlices(ts: seq<Ty>, i: nat)
    requires i < |ts| && Nest(ts[i]) <= MAX_DEPTH
    ensures var s := PrintAll(ts[i..]); var rem := PrintAll(ts[i + 1..]);
            s != [] && Valid(s, 0) == Accept(rem) && s[..|s| - |rem|] == Print(ts[i])
  {
    assert ts[i..][1..] == ts[i + 1..];
    ValidPrint(ts[i], PrintAll(ts[i + 1..]), 0);
    Cut(Print(ts[i]), PrintAll(ts[i + 1..]));
  }

  lemma MoreMembers(ts: seq<Ty>, i: nat)
    requires i <= |ts| && PrintAll(ts[i..]) != []
    ensures i < |ts|
  {}

  lemma LeafSlice(k: Prim)
    ensures Print(Leaf(k)) == [k]
  {}

  lemma MaxNestAt(ts: seq<Ty>, i: nat)
    requires i < |ts|
    ensures Nest(ts[i]) <= MaxNest(ts)
  {
    if i > 0 {
      MaxNestAt(ts[1..], i - 1);
    }
  }

  lemma TypeForExact(t: Ty)
    requires Nest(t) <= MAX_DEPTH
    ensures TypeFor(Print(t)) == Some(t)
  {
    assert Print(t) + [] == Print(t);
    TypeForPrint(t, []);
  }

  // ---------------------------------------------------------------- the decoder

  class Decoder {
    var input: seq<byte>
    var pos: nat
    const order: Order

    constructor (input: seq<byte>, order: Order)
      ensures this.input == input && pos == 0 && this.order == order
    {
      this.input := input;
      this.pos := 0;
      this.order := order;
    }

    /** `io.ReadFull` of n bytes; on a short read the decoder panics. */
    method Read(n: nat) returns (ok: bool, bytes: seq<byte>)
      modifies this
      ensures ok <==> n <= |old(input)|
      ensures ok ==> bytes == old(input)[..n] && input == old(input)[n..] && pos == old(pos) + n
    {
      ok := n <= |input|;
      if ok {
        bytes := input[..n];
        input := input[n..];
        pos := pos + n;
      } else {
        bytes := [];
      }
    }

    method AlignTo(n: Alignment) returns (ok: bool)
      modifies this
      ensures ok <==> Padding(old(pos), n) <= |old(input)|
      ensures ok ==> input == old(input)[Padding(old(pos), n)..] && pos == old(pos) + Padding(old(pos), n)
      ensures ok ==> Padding(pos, n) == 0
    {
      Aligned(pos, n);
      var newpos := RoundUp(pos, n);
      if newpos == pos {
        ok := true;
      } else {
        var skipped;
        ok, skipped := Read(newpos - pos);
      }
    }

    /** decode("u"). */
    method ReadUint32() returns (ok: bool, n: nat)
      modifies this
      ensures var pad := Padding(old(pos), 4);
              && (ok <==> pad + 4 <= |old(input)|)
              && (ok ==> n == GetUint(order, old(input)[pad..][..4]))
              && (ok ==> input == old(input)[pad + 4..] && pos == old(pos) + pad + 4)
    {
      n := 0;
      ok := AlignTo(4);
      if ok {
        var bytes;
        ok, bytes := Read(4);
        if ok {
          n := GetUint(order, bytes);
        }
      }
    }

    method DecodeNum(p: Prim) returns (r: Step<Value>)
      modifies this
      ensures Agrees(r, GetNum(order, p, old(input)), old(input), old(pos), input, pos)
    {
      var ok, bytes := Read(Width(p));
      if !ok {
        return Failed;
      }
      return Done(Num(FromWord(p, GetUint(order, bytes))));
    }

    method DecodeText() returns (r: Step<Value>)
      requires Padding(pos, 4) == 0
      modifies this
      ensures Agrees(r, GetText(order, old(input)), old(input), old(pos), input, pos)
    {
      var ok, length := ReadUint32();
      if !ok {
        return Failed;
      }
      var bytes;
      ok, bytes := Read(length + 1);
      if !ok {
        return Failed;
      }
      assert bytes[..length] == old(input)[4..length + 4];
      return Done(Text(bytes[..length]));
    }

    method DecodeSig() returns (r: Step<Value>)
      modifies this
      ensures Agrees(r, GetSig(old(input)), old(input), old(pos), input, pos)
    {
      var ok, head := Read(1);
      if !ok {
        return Failed;
      }
      var length: nat := head[0];
      var bytes;
      ok, bytes := Read(length + 1);
      if !ok {
        return Failed;
      }
      var s := bytes[..length];
      assert s == old(input)[1..length + 1];
      var verdict := ParseSignature(s);
      if !verdict.Accept? {
        return Failed;
      }
      return Done(Text(s));
    }

    method DecodeBool() returns (r: Step<Value>)
      modifies this
      ensures var pad := Padding(old(pos), 4);
              if |old(input)| < pad then r == Failed
              else Agrees(r, After(pad, GetBool(order, old(input)[pad..])), old(input), old(pos), input, pos)
    {
      var ok, i := ReadUint32();
      if !ok {
        return Failed;
      }
      if i == 0 {
        return Done(Bool(false));
      } else if i == 1 {
        return Done(Bool(true));
      } else {
        return Failed;
      }
    }

    method DecodeBoolean(ghost depth: nat) returns (r: Step<Value>)
      requires depth <= MAX_DEPTH
      modifies this
      ensures Agrees(r, Unmarshal(order, Leaf(B), depth, old(input), old(pos)), old(input), old(pos), input, pos)
    {
      r := DecodeBool();
      BoolForm(order, depth, old(input), old(pos));
    }

    /** `decode`: driven by the signature string, it reads exactly what the type it denotes demands. */
    method Decode(s: seq<byte>, ghost t: Ty, depth: nat) returns (r: Step<Value>)
      requires s == Print(t) && Nest(t) <= MAX_DEPTH && depth <= MAX_DEPTH
      modifies this
      ensures Agrees(r, Unmarshal(order, t, depth, old(input), old(pos)), old(input), old(pos), input, pos)
      decreases MAX_DEPTH - depth, 2, 0
    {
      hide GetItems, GetEntries, GetMembers, Contents, Nest, Valid, GetUint;
      PrintHead(t);
      if s[0] == B {
        r := DecodeBoolean(depth);
        return;
      }
      var align := AlignOf(s, t);
      var ok := AlignTo(align);
      if !ok {
        return Failed;
      }
      ghost var pad := Padding(old(pos), Align(t));
      r := DecodeContents(s, t, depth);
      AgreesAfter(pad, r, Contents(order, t, depth, old(input)[pad..], old(pos) + pad), old(input), old(pos), input, pos);
    }

    method DecodeContents(s: seq<byte>, ghost t: Ty, depth: nat) returns (r: Step<Value>)
      requires s == Print(t) && Nest(t) <= MAX_DEPTH && depth <= MAX_DEPTH
      requires t != Leaf(B) && (Align(t) == 4 ==> Padding(pos, 4) == 0)
      modifies this
      ensures Agrees(r, Contents(order, t, depth, old(input), old(pos)), old(input), old(pos), input, pos)
      decreases MAX_DEPTH - depth, 1
    {
      PrintHead(t);
      if IsPrim(s[0]) {
        if s[0] == V {
          r := DecodeVariant(depth);
        } else if s[0] == G {
          r := DecodeSig();
        } else if s[0] == S || s[0] == O {
          r := DecodeText();
        } else {
          r := DecodeNum(s[0]);
        }
      } else if s[0] == ARRAY {
        if |s| > 1 && s[1] == LBRACE {
          DictCase(t);
          r := DecodeDict(s[2..3], s[3..|s| - 1], t.key, t.val, depth);
        } else {
          ArrayCase(t);
          r := DecodeArray(s[1..], t.elem, depth);
        }
      } else {
        StructSlices(t.fields);
        forall i | 0 <= i < |t.fields| ensures Nest(t.fields[i]) <= MAX_DEPTH {
          MaxNestAt(t.fields, i);
        }
        r := DecodeStruct(s[1..|s| - 1], t.fields, depth);
      }
    }

    method DecodeVariant(depth: nat) returns (r: Step<Value>)
      requires depth <= MAX_DEPTH
      modifies this
      ensures Agrees(r, GetVariant(order, depth, old(input), old(pos)), old(input), old(pos), input, pos)
      decreases MAX_DEPTH - depth, 0
    {
      if depth >= MAX_DEPTH {
        return Failed;
      }
      var sig := DecodeSig();
      if !sig.Done? {
        return Failed;
      }
      ghost var k := GetSig(old(input)).n;
      ghost var in1, pos1 := input, pos;
      r := DecodeCarried(sig.value.s, depth + 1);
      AgreesAfter(k, r, GetCarried(order, sig.value.s, depth + 1, in1, pos1), old(input), old(pos), input, pos);
    }

    method DecodeCarried(sig: seq<byte>, depth: nat) returns (r: Step<Value>)
      requires depth <= MAX_DEPTH
      modifies this
      ensures Agrees(r, GetCarried(order, sig, depth, old(input), old(pos)), old(input), old(pos), input, pos)
      decreases MAX_DEPTH - depth, 3, 0
    {
      if sig == [] {
        return Failed;
      }
      var verdict := ValidSingle(sig, 0);
      if verdict != Accept([]) {
        return Failed;
      }
      ghost var t := CarriedType(sig);
      var v := Decode(sig, t, depth);
      match v
      case Done(value) => r := Done(Variant(TypeFor(sig).value, value));
      case Failed => r := Failed;
      case Endless => r := Endless;
    }

    /** The length of an array or map, and the padding before its first element. */
    method ReadFrame(n: Alignment, ghost align: Alignment) returns (ok: bool, length: nat)
      requires Padding(pos, 4) == 0 && (n == align || (n == 1 && align == 4))
      modifies this
      ensures var start := 4 + Padding(old(pos) + 4, align);
              && (ok <==> start <= |old(input)|)
              && (ok ==> length == GetUint(order, old(input)[..4]))
              && (ok ==> input == old(input)[start..] && pos == old(pos) + start)
    {
      ok, length := ReadUint32();
      if ok {
        ok := AlignTo(n);
        if ok {
          Drop2(old(input), 4, Padding(old(pos) + 4, align));
        }
      }
    }

    /** alignment(typeFor(s)). */
    static method AlignOf(esig: seq<byte>, ghost e: Ty) returns (n: Alignment)
      requires esig == Print(e) && Nest(e) <= MAX_DEPTH
      ensures n == TypeAlign(e)
    {
      TypeForExact(e);
      n := TypeAlign(TypeFor(esig).value);
    }

    method DecodeArray(esig: seq<byte>, ghost e: Ty, depth: nat) returns (r: Step<Value>)
      requires esig == Print(e) && Nest(e) <= MAX_DEPTH && depth <= MAX_DEPTH && Padding(pos, 4) == 0
      modifies this
      ensures Agrees(r, GetArray(order, e, depth, old(input), old(pos)), old(input), old(pos), input, pos)
      decreases MAX_DEPTH - depth, 0
    {
      hide Unmarshal, GetItems, GetEntries, GetEntry, GetMembers, Contents, Print, Nest, GetUint, Valid;
      if depth >= MAX_DEPTH {
        return Failed;
      }
      var align := AlignOf(esig, e);
      var ok, length := ReadFrame(align, Align(e));
      if !ok {
        return Failed;
      }
      r := DecodeFramed(esig, e, depth + 1, length, old(input), old(pos), 4 + Padding(old(pos) + 4, Align(e)));
    }

    /** The elements, once the frame has been read. */
    method DecodeFramed(esig: seq<byte>, ghost e: Ty, depth: nat, length: nat, ghost in0: seq<byte>, ghost pos0: nat, ghost start: nat)
      returns (r: Step<Value>)
      requires esig == Print(e) && Nest(e) <= MAX_DEPTH && depth <= MAX_DEPTH
      requires start <= |in0| && input == in0[start..] && pos == pos0 + start
      modifies this
      ensures Agrees(r, FramedItems(order, e, depth, in0, pos0, start, length), in0, pos0, input, pos)
      decreases MAX_DEPTH - depth, 4
    {
      var items := DecodeItems(esig, e, depth, length);
      ArrayAgrees(order, e, depth, in0, pos0, start, length, items, input, pos);
      r := AsList(items);
    }

    /** The loop of decoder.go:196-199. */
    method DecodeItems(esig: seq<byte>, ghost e: Ty, depth: nat, length: nat) returns (r: Step<seq<Value>>)
      requires esig == Print(e) && Nest(e) <= MAX_DEPTH && depth <= MAX_DEPTH
      modifies this
      ensures Agrees(r, GetItems(order, e, depth, old(input), old(pos), length), old(input), old(pos), input, pos)
      decreases MAX_DEPTH - depth, 3
    {
      hide *;
      var spos := pos;
      var vs := [];
      ItemsStart(order, e, depth, input, pos, length);
      while pos < spos + length
        invariant spos <= pos && ItemsSoFar(order, e, depth, old(input), spos, length, vs, pos - spos, input, pos)
        decreases |input|
      {
        ghost var in1 := input;
        var before := pos;
        var v := Decode(esig, e, depth);
        ItemsNext(order, e, depth, old(input), spos, length, vs, in1, before, v, input, pos);
        if !v.Done? || pos == before {
          return if v.Failed? then Failed else Endless;
        }
        vs := vs + [v.value];
      }
      ItemsEnd(order, e, depth, old(input), spos, length, vs, pos - spos, input, pos);
      r := Done(vs);
    }

    method DecodeDict(ksig: seq<byte>, vsig: seq<byte>, ghost k: Prim, ghost e: Ty, depth: nat) returns (r: Step<Value>)
      requires ksig == Print(Leaf(k)) && vsig == Print(e) && Nest(e) <= MAX_DEPTH && depth <= MAX_DEPTH && Padding(pos, 4) == 0
      modifies this
      ensures Agrees(r, GetDict(order, k, e, depth, old(input), old(pos)), old(input), old(pos), input, pos)
      decreases MAX_DEPTH - depth, 0
    {
      hide Unmarshal, GetItems, GetEntries, GetEntry, GetMembers, Contents, Print, Nest, Padding, GetUint, Valid;
      if depth >= MAX_DEPTH - 1 {
        return Failed;
      }
      var ok, length := ReadFrame(8, 8);
      if !ok {
        return Failed;
      }
      var entries := DecodeEntries(ksig, vsig, k, e, depth + 2, length);
      DictAgrees(order, k, e, depth + 2, old(input), old(pos), 4 + Padding(old(pos) + 4, 8), length, entries, input, pos);
      r := AsMap(entries);
    }

    /** The loop of decoder.go:177-185. */
    method DecodeEntries(ksig: seq<byte>, vsig: seq<byte>, ghost k: Prim, ghost e: Ty, depth: nat, length: nat)
      returns (r: Step<seq<Entry>>)
      requires ksig == Print(Leaf(k)) && vsig == Print(e) && Nest(e) <= MAX_DEPTH && depth <= MAX_DEPTH
      modifies this
      ensures Agrees(r, GetEntries(order, k, e, depth, old(input), old(pos), length, []), old(input), old(pos), input, pos)
      decreases MAX_DEPTH - depth, 5
    {
      hide *;
      var spos := pos;
      var es := [];
      LeafSlice(k);
      EntriesStart(order, k, e, depth, input, pos, length);
      while pos < spos + length
        invariant spos <= pos && EntriesSoFar(order, k, e, depth, old(input), spos, length, es, pos - spos, input, pos)
        decreases |input|
      {
        ghost var in1, pos1 := input, pos;
        var entry := DecodeEntry(ksig, vsig, k, e, depth);
        EntriesNext(order, k, e, depth, old(input), spos, length, es, in1, pos1, entry, input, pos);
        if !entry.Done? {
          return if entry.Failed? then Failed else Endless;
        }
        es := Upsert(ksig[0], es, entry.value);
      }
      EntriesEnd(order, k, e, depth, old(input), spos, length, es, pos - spos, input, pos);
      r := Done(es);
    }

    method DecodeEntry(ksig: seq<byte>, vsig: seq<byte>, ghost k: Prim, ghost e: Ty, depth: nat) returns (r: Step<Entry>)
      requires ksig == Print(Leaf(k)) && vsig == Print(e) && Nest(e) <= MAX_DEPTH && depth <= MAX_DEPTH
      modifies this
      ensures Agrees(r, GetEntry(order, k, e, depth, old(input), old(pos)), old(input), old(pos), input, pos)
      decreases MAX_DEPTH - depth, 4
    {
      ghost var pad := Padding(pos, 8);
      var ok := AlignTo(8);
      if !ok {
        return Failed;
      }
      if !IsKey(ksig[0]) {
        return Failed;
      }
      r := DecodePair(ksig, vsig, k, e, depth);
      AgreesAfter(pad, r, GetPair(order, k, e, depth, old(input)[pad..], old(pos) + pad), old(input), old(pos), input, pos);
    }

    method DecodePair(ksig: seq<byte>, vsig: seq<byte>, ghost k: Prim, ghost e: Ty, depth: nat) returns (r: Step<Entry>)
      requires ksig == Print(Leaf(k)) && vsig == Print(e) && Nest(e) <= MAX_DEPTH && depth <= MAX_DEPTH
      modifies this
      ensures Agrees(r, GetPair(order, k, e, depth, old(input), old(pos)), old(input), old(pos), input, pos)
      decreases MAX_DEPTH - depth, 3
    {
      hide Unmarshal, GetItems, GetEntries, GetMembers, Contents, Valid, GetUint;
      var key := Decode(ksig, Leaf(k), depth);
      if !key.Done? {
        return if key.Failed? then Failed else Endless;
      }
      ghost var n := pos - old(pos);
      var val := Decode(vsig, e, depth);
      if !val.Done? {
        return if val.Failed? then Failed else Endless;
      }
      Drop2(old(input), n, pos - old(pos) - n);
      r := Done(Entry(key.value, val.value));
    }

    method DecodeStruct(members: seq<byte>, ghost fs: seq<Ty>, depth: nat) returns (r: Step<Value>)
      requires members == PrintAll(fs) && depth <= MAX_DEPTH
      requires forall i | 0 <= i < |fs| :: Nest(fs[i]) <= MAX_DEPTH
      modifies this
      ensures Agrees(r, GetStruct(order, fs, depth, old(input), old(pos)), old(input), old(pos), input, pos)
      decreases MAX_DEPTH - depth, 0
    {
      hide Unmarshal, GetItems, GetEntries, GetMembers, Contents, Nest, Valid, GetUint;
      if depth >= MAX_DEPTH {
        return Failed;
      }
      var ms := DecodeMembers(members, fs, depth + 1);
      match ms
      case Done(vs) => r := Done(Tuple(vs));
      case Failed => r := Failed;
      case Endless => r := Endless;
    }

    /** One turn of the loop: the first type of s, the rest of s, and a value of that type. */
    method DecodeMember(s: seq<byte>, ghost t: Ty, ghost rest: seq<byte>, depth: nat) returns (rem: seq<byte>, v: Step<Value>)
      requires Valid(s, 0) == Accept(rest) && |rest| <= |s| && s[..|s| - |rest|] == Print(t)
      requires Nest(t) <= MAX_DEPTH && depth <= MAX_DEPTH
      modifies this
      ensures rem == rest
      ensures Agrees(v, Unmarshal(order, t, depth, old(input), old(pos)), old(input), old(pos), input, pos)
      decreases MAX_DEPTH - depth, 2, 1
    {
      var verdict := ValidSingle(s, 0);
      rem := verdict.rem;
      v := Decode(s[..|s| - |rem|], t, depth);
    }

    /** The loops of decoder.go:55-63 and 208-216: cut off one type, decode it, go on with the rest. */
    method DecodeMembers(sig: seq<byte>, ghost ts: seq<Ty>, depth: nat) returns (r: Step<seq<Value>>)
      requires sig == PrintAll(ts) && depth <= MAX_DEPTH
      requires forall i | 0 <= i < |ts| :: Nest(ts[i]) <= MAX_DEPTH
      modifies this
      ensures Agrees(r, GetMembers(order, ts, depth, old(input), old(pos)), old(input), old(pos), input, pos)
      decreases MAX_DEPTH - depth, 3
    {
      hide *;
      var s := sig;
      var vs := [];
      ghost var i := 0;
      ghost var spos := pos;
      MembersStart(order, ts, depth, input, pos);
      while s != []
        invariant i <= |ts| && s == PrintAll(ts[i..])
        invariant spos <= pos && MembersSoFar(order, ts, depth, old(input), spos, i, vs, pos - spos, input, pos)
        decreases |s|
      {
        ghost var in1, pos1 := input, pos;
        MoreMembers(ts, i);
        MemberSlices(ts, i);
        var rem, v := DecodeMember(s, ts[i], PrintAll(ts[i + 1..]), depth);
        MembersNext(order, ts, depth, old(input), spos, i, vs, in1, pos1, v, input, pos);
        if !v.Done? {
          return if v.Failed? then Failed else Endless;
        }
        vs := vs + [v.value];
        s := rem;
        i := i + 1;
      }
      NoMoreMembers(ts, i);
      MembersEnd(order, ts, depth, old(input), spos, vs, pos - spos, input, pos);
      r := Done(vs);
    }
  }

  lemma NoMoreMembers(ts: seq<Ty>, i: nat)
    requires i <= |ts| && PrintAll(ts[i..]) == []
    ensures i == |ts|
  {}

  lemma DictCase(t: Ty)
    requires Print(t)[0] == ARRAY && |Print(t)| > 1 && Print(t)[1] == LBRACE
    ensures t.Dict?
    ensures var s := Print(t); |s| > 3 && s[2..3] == Print(Leaf(t.key)) && s[3..|s| - 1] == Print(t.val)
  {
    PrintHead(t);
    if t.Array? {
      ArraySlices(t.elem);
    } else {
      DictSlices(t.key, t.val);
    }
  }

  lemma ArrayCase(t: Ty)
    requires Print(t)[0] == ARRAY && !(|Print(t)| > 1 && Print(t)[1] == LBRACE)
    ensures t.Array? && Print(t)[1..] == Print(t.elem)
  {
    PrintHead(t);
    if t.Array? {
      ArraySlices(t.elem);
    }
  }

  /** The type of an accepted variant signature. */
  lemma CarriedType(sig: seq<byte>) returns (t: Ty)
    requires Valid(sig, 0) == Accept([])
    ensures sig == Print(t) && Nest(t) <= MAX_DEPTH && TypeFor(sig) == Some(t)
  {
    t := ValidSound(sig, 0);
    assert Print(t) + [] == Print(t);
    TypeForPrint(t, []);
  }
}
