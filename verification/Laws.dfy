/** Further laws of the wire format: positions matter only modulo 8, the nesting checks of both sides
    agree, and when the array loop can fail to end. */
module DBusLaws {
  import opened Common
  import opened ByteOrder
  import opened DBusType
  import opened DBusSignature
  import opened DBusWire
  import opened DBusRoundTrip
  import opened DBusEncoder
  import opened DBusDecoder

  // ---------------------------------------------------------------- positions modulo 8

  lemma ShiftMod8(p: nat, q: nat, k: nat)
    requires p % 8 == q % 8
    ensures (p + k) % 8 == (q + k) % 8
  {}

  /** A value's bytes depend on where it is written only modulo 8. */
  lemma {:induction false} MarshalMod8(o: Order, t: Ty, v: Value, p: nat, q: nat)
    requires p % 8 == q % 8
    ensures Marshal(o, t, v, p) == Marshal(o, t, v, q)
    decreases v, 1
  {
    var pad := Padding(p, Align(t));
    PaddingMod8(p, q, Align(t));
    ShiftMod8(p, q, pad);
    BodyMod8(o, t, v, p + pad, q + pad);
  }

  lemma {:induction false} BodyMod8(o: Order, t: Ty, v: Value, p: nat, q: nat)
    requires p % 8 == q % 8
    ensures Body(o, t, v, p) == Body(o, t, v, q)
    decreases v, 0
  {
    match (t, v)
    case (Leaf(_), Variant(ty, val)) =>
      var k := |SigBytes(Print(ty))|;
      ShiftMod8(p, q, k);
      MarshalMod8(o, ty, val, p + k, q + k);
    case (Array(e), List(vs)) =>
      FrameMod8(p, q, Align(e));
      ItemsMod8(o, e, vs, FirstAt(p, Align(e)), FirstAt(q, Align(e)));
    case (Dict(k, e), Map(es)) =>
      FrameMod8(p, q, 8);
      EntriesMod8(o, k, e, es, FirstAt(p, 8), FirstAt(q, 8));
    case (Struct(fs), Tuple(vs)) => MembersMod8(o, fs, vs, p, q);
    case _ =>
  }

  lemma FrameMod8(p: nat, q: nat, n: Alignment)
    requires p % 8 == q % 8
    ensures Padding(p + 4, n) == Padding(q + 4, n) && FirstAt(p, n) % 8 == FirstAt(q, n) % 8
  {
    ShiftMod8(p, q, 4);
    PaddingMod8(p + 4, q + 4, n);
    ShiftMod8(p + 4, q + 4, Padding(p + 4, n));
  }

  lemma {:induction false} ItemsMod8(o: Order, e: Ty, vs: seq<Value>, p: nat, q: nat)
    requires p % 8 == q % 8
    ensures MarshalItems(o, e, vs, p) == MarshalItems(o, e, vs, q)
    decreases vs
  {
    hide Marshal;
    if vs != [] {
      var k := |Marshal(o, e, vs[0], p)|;
      MarshalMod8(o, e, vs[0], p, q);
      ShiftMod8(p, q, k);
      ItemsMod8(o, e, vs[1..], p + k, q + k);
    }
  }

  lemma {:induction false} MembersMod8(o: Order, ts: seq<Ty>, vs: seq<Value>, p: nat, q: nat)
    requires p % 8 == q % 8
    ensures MarshalMembers(o, ts, vs, p) == MarshalMembers(o, ts, vs, q)
    decreases vs
  {
    hide Marshal;
    if vs != [] && ts != [] {
      var k := |Marshal(o, ts[0], vs[0], p)|;
      MarshalMod8(o, ts[0], vs[0], p, q);
      ShiftMod8(p, q, k);
      MembersMod8(o, ts[1..], vs[1..], p + k, q + k);
    }
  }

  lemma {:induction false} EntryMod8(o: Order, k: Prim, e: Ty, entry: Entry, p: nat, q: nat)
    requires p % 8 == q % 8
    ensures MarshalEntry(o, k, e, entry, p) == MarshalEntry(o, k, e, entry, q)
    decreases entry, 2
  {
    hide Marshal;
    var pad := Padding(p, 8);
    PaddingMod8(p, q, 8);
    ShiftMod8(p, q, pad);
    var n := |Marshal(o, Leaf(k), entry.key, p + pad)|;
    MarshalMod8(o, Leaf(k), entry.key, p + pad, q + pad);
    ShiftMod8(p + pad, q + pad, n);
    MarshalMod8(o, e, entry.val, p + pad + n, q + pad + n);
  }

  lemma {:induction false} EntriesMod8(o: Order, k: Prim, e: Ty, es: seq<Entry>, p: nat, q: nat)
    requires p % 8 == q % 8
    ensures MarshalEntries(o, k, e, es, p) == MarshalEntries(o, k, e, es, q)
    decreases es
  {
    hide MarshalEntry;
    if es != [] {
      var n := |MarshalEntry(o, k, e, es[0], p)|;
      EntryMod8(o, k, e, es[0], p, q);
      ShiftMod8(p, q, n);
      EntriesMod8(o, k, e, es[1..], p + n, q + n);
    }
  }

  // ---------------------------------------------------------------- both sides refuse the same depths

  /** On values the wire format can carry, the encoder panics exactly where the decoder refuses. */
  lemma {:induction false} DepthAgreement(o: Order, t: Ty, v: Value, depth: nat, pos: nat)
    requires WellTyped(t, v) && InDomain(o, t, v, pos)
    ensures Encodable(t, v, depth) <==> DepthOk(t, v, depth)
    decreases v, 1
  {
    hide Marshal, MarshalItems, MarshalMembers, MarshalEntries, Print, ItemsInDomain, MembersInDomain, EntriesInDomain, ItemsOk, MembersOk, EntriesOk;
    var at := pos + Padding(pos, Align(t));
    match (t, v)
    case (Leaf(_), Variant(ty, val)) => DepthAgreement(o, ty, val, depth + 1, at + |SigBytes(Print(ty))|);
    case (Array(e), List(vs)) => ItemsAgreement(o, e, vs, depth + 1, FirstAt(at, Align(e)));
    case (Dict(k, e), Map(es)) => EntriesAgreement(o, k, e, es, depth + 2, FirstAt(at, 8));
    case (Struct(fs), Tuple(vs)) => MembersAgreement(o, fs, vs, depth + 1, at);
    case _ =>
  }

  lemma {:induction false} ItemsAgreement(o: Order, e: Ty, vs: seq<Value>, depth: nat, pos: nat)
    requires (forall i | 0 <= i < |vs| :: WellTyped(e, vs[i])) && ItemsInDomain(o, e, vs, pos)
    ensures (forall i | 0 <= i < |vs| :: Encodable(e, vs[i], depth)) <==> ItemsOk(e, vs, depth)
    decreases vs
  {
    hide Marshal, Encodable, DepthOk, WellTyped, InDomain;
    if vs != [] {
      DepthAgreement(o, e, vs[0], depth, pos);
      ItemsAgreement(o, e, vs[1..], depth, pos + |Marshal(o, e, vs[0], pos)|);
      assert (forall i | 0 <= i < |vs| :: Encodable(e, vs[i], depth)) <==>
             Encodable(e, vs[0], depth) && forall i | 0 <= i < |vs[1..]| :: Encodable(e, vs[1..][i], depth);
    }
  }

  lemma {:induction false} MembersAgreement(o: Order, ts: seq<Ty>, vs: seq<Value>, depth: nat, pos: nat)
    requires |ts| == |vs| && (forall i | 0 <= i < |vs| :: WellTyped(ts[i], vs[i])) && MembersInDomain(o, ts, vs, pos)
    ensures (forall i | 0 <= i < |vs| :: Encodable(ts[i], vs[i], depth)) <==> MembersOk(ts, vs, depth)
    decreases vs
  {
    hide Marshal, Encodable, DepthOk, WellTyped, InDomain;
    if vs != [] {
      DepthAgreement(o, ts[0], vs[0], depth, pos);
      MembersAgreement(o, ts[1..], vs[1..], depth, pos + |Marshal(o, ts[0], vs[0], pos)|);
      assert (forall i | 0 <= i < |vs| :: Encodable(ts[i], vs[i], depth)) <==>
             Encodable(ts[0], vs[0], depth) && forall i | 0 <= i < |vs[1..]| :: Encodable(ts[1..][i], vs[1..][i], depth);
    }
  }

  lemma {:induction false} EntryAgreement(o: Order, k: Prim, e: Ty, entry: Entry, depth: nat, pos: nat)
    requires WellTyped(e, entry.val) && EntryInDomain(o, k, e, entry, pos) && !IsNaN(k, entry.key)
    ensures EntryEncodable(k, e, entry, depth) <==> EntryOk(e, entry, depth)
    decreases entry, 2
  {
    var at := pos + Padding(pos, 8);
    DepthAgreement(o, e, entry.val, depth, at + |Marshal(o, Leaf(k), entry.key, at)|);
  }

  lemma {:induction false} EntriesAgreement(o: Order, k: Prim, e: Ty, es: seq<Entry>, depth: nat, pos: nat)
    requires (forall i | 0 <= i < |es| :: WellTyped(e, es[i].val) && !IsNaN(k, es[i].key)) && EntriesInDomain(o, k, e, es, pos)
    ensures (forall i | 0 <= i < |es| :: EntryEncodable(k, e, es[i], depth)) <==> EntriesOk(e, es, depth)
    decreases es
  {
    hide Marshal, MarshalEntry, EntryEncodable, EntryOk, WellTyped, EntryInDomain;
    if es != [] {
      EntryAgreement(o, k, e, es[0], depth, pos);
      EntriesAgreement(o, k, e, es[1..], depth, pos + |MarshalEntry(o, k, e, es[0], pos)|);
      assert (forall i | 0 <= i < |es| :: EntryEncodable(k, e, es[i], depth)) <==>
             EntryEncodable(k, e, es[0], depth) && forall i | 0 <= i < |es[1..]| :: EntryEncodable(k, e, es[1..][i], depth);
    }
  }

  // ---------------------------------------------------------------- the encoder and the decoder together

  /** Encoding v behind any prefix and decoding it in front of any suffix returns v, leaves exactly the
      suffix, and ends at the encoder's position. Where the encoder refuses v, the decoder refuses the bytes
      that v would have. */
  method EncodeThenDecode(o: Order, t: Ty, v: Value, offset: nat, suffix: seq<byte>)
    returns (ok: bool, r: Step<Value>, left: seq<byte>, encPos: nat, decPos: nat)
    requires WellTyped(t, v) && InDomain(o, t, v, offset) && Nest(t) <= MAX_DEPTH
    ensures ok <==> DepthOk(t, v, 0)
    ensures ok ==> r == Done(v) && left == suffix && encPos == decPos
    ensures !ok ==> r == Failed
  {
    var enc := new Encoder.AtOffset(offset, o);
    ok := enc.Encode(t, v, 0);
    DepthAgreement(o, t, v, 0, offset);
    var bytes := Marshal(o, t, v, offset);
    assert ok ==> enc.out == bytes by {
      assert [] + bytes == bytes;
    }
    var dec := new Decoder((if ok then enc.out else bytes) + suffix, o);
    dec.pos := offset;
    RoundTrip(o, t, v, 0, offset);
    Cut(bytes, suffix);
    r := dec.Decode(Print(t), t, 0);
    left, encPos, decPos := dec.input, enc.pos, dec.pos;
  }

  // ---------------------------------------------------------------- elements without size

  /** At an aligned position, a value of a type without size leaves no bytes. */
  lemma {:induction false} NoBytes(o: Order, t: Ty, v: Value, pos: nat)
    requires WellTyped(t, v) && ZeroSize(t) && Padding(pos, 8) == 0
    ensures Marshal(o, t, v, pos) == []
    decreases v
  {
    MembersNoBytes(o, t.fields, v.members, pos);
  }

  lemma {:induction false} MembersNoBytes(o: Order, ts: seq<Ty>, vs: seq<Value>, pos: nat)
    requires |ts| == |vs| && (forall i | 0 <= i < |vs| :: WellTyped(ts[i], vs[i])) && Padding(pos, 8) == 0
    requires forall i | 0 <= i < |ts| :: ZeroSize(ts[i])
    ensures MarshalMembers(o, ts, vs, pos) == []
    decreases vs
  {
    if vs != [] {
      NoBytes(o, ts[0], vs[0], pos);
      MembersNoBytes(o, ts[1..], vs[1..], pos);
    }
  }

  lemma {:induction false} ItemsNoBytes(o: Order, e: Ty, vs: seq<Value>, pos: nat)
    requires (forall i | 0 <= i < |vs| :: WellTyped(e, vs[i])) && ZeroSize(e) && Padding(pos, 8) == 0
    ensures MarshalItems(o, e, vs, pos) == []
    decreases vs
  {
    if vs != [] {
      NoBytes(o, e, vs[0], pos);
      ItemsNoBytes(o, e, vs[1..], pos);
    }
  }

  /** An array of elements without size always decodes as empty: it survives only if it was empty. */
  lemma SizelessArray(o: Order, e: Ty, vs: seq<Value>, depth: nat, pos: nat, rest: seq<byte>)
    requires WellTyped(Array(e), List(vs)) && ZeroSize(e) && depth < MAX_DEPTH
    ensures var bytes := Marshal(o, Array(e), List(vs), pos);
            Unmarshal(o, Array(e), depth, bytes + rest, pos) == Ok(List([]), |bytes|)
  {
    SizelessBytes(o, e, vs, pos);
    RoundTrip(o, Array(e), List([]), depth, pos);
  }

  lemma SizelessBytes(o: Order, e: Ty, vs: seq<Value>, pos: nat)
    requires WellTyped(Array(e), List(vs)) && ZeroSize(e)
    ensures Marshal(o, Array(e), List(vs), pos) == Marshal(o, Array(e), List([]), pos)
  {
    hide Marshal, MarshalItems, Framed, WellTyped, ZeroSize;
    var at := pos + Padding(pos, 4);
    Aligned(at + 4, 8);
    SizelessItems(e, vs);
    ItemsNoBytes(o, e, vs, FirstAt(at, 8));
    ItemsNoBytes(o, e, [], FirstAt(at, 8));
    ArrayForm(o, e, vs, pos);
    ArrayForm(o, e, [], pos);
  }

  lemma SizelessItems(e: Ty, vs: seq<Value>)
    requires WellTyped(Array(e), List(vs)) && ZeroSize(e)
    ensures Align(e) == 8 && forall i | 0 <= i < |vs| :: WellTyped(e, vs[i])
  {}

  lemma ArrayForm(o: Order, e: Ty, vs: seq<Value>, pos: nat)
    ensures var pad := Padding(pos, 4); var at := pos + pad;
            Marshal(o, Array(e), List(vs), pos) ==
            Zeros(pad) + Framed(o, at, Align(e), MarshalItems(o, e, vs, FirstAt(at, Align(e))))
  {
    var t, v, at := Array(e), List(vs), pos + Padding(pos, 4);
    assert Body(o, t, v, at) == ArrayBytes(o, e, v, at);
  }
}
