/** The encoder of encoder.go: a writer, a position, and a side buffer for every array and map. */
module DBusEncoder {
  import opened Common
  import opened ByteOrder
  import opened DBusType
  import opened DBusSignature
  import opened DBusWire

  /** `alignment` of dbus.go. Booleans fall through its switch and get 1; the uint32 they are
      written as aligns itself. */
  function TypeAlign(t: Ty): (n: Alignment)
    ensures t != Leaf(B) ==> n == Align(t)
  {
    if t == Leaf(B) then 1 else Align(t)
  }

  /** Where the encoder does not panic: containers within the depth limit, maps with key types and no NaN key. */
  predicate Encodable(t: Ty, v: Value, depth: nat)
    decreases v
  {
    match (t, v)
    case (Leaf(_), Variant(ty, val)) => depth < MAX_DEPTH && Encodable(ty, val, depth + 1)
    case (Array(e), List(vs)) => depth < MAX_DEPTH && forall i | 0 <= i < |vs| :: Encodable(e, vs[i], depth + 1)
    case (Dict(k, e), Map(es)) =>
      && depth < MAX_DEPTH - 1 && IsKey(k)
      && forall i | 0 <= i < |es| :: EntryEncodable(k, e, es[i], depth + 2)
    case (Struct(fs), Tuple(vs)) =>
      depth < MAX_DEPTH && forall i | 0 <= i < |vs| && i < |fs| :: Encodable(fs[i], vs[i], depth + 1)
    case _ => true
  }

  /** A NaN key is not found again in its own map, and encoding the missing value panics. */
  predicate EntryEncodable(k: Prim, e: Ty, entry: Entry, depth: nat)
    decreases entry
  {
    !IsNaN(k, entry.key) && Encodable(e, entry.val, depth)
  }

  // ---------------------------------------------------------------- one element at a time

  lemma ItemsFrom(o: Order, e: Ty, vs: seq<Value>, i: nat, pos: nat)
    requires i < |vs|
    ensures var head := Marshal(o, e, vs[i], pos);
            MarshalItems(o, e, vs[i..], pos) == head + MarshalItems(o, e, vs[i + 1..], pos + |head|)
  {
    assert vs[i..][1..] == vs[i + 1..];
  }

  lemma ItemsTurn(o: Order, e: Ty, vs: seq<Value>, i: nat, pos: nat, done: seq<byte>)
    requires i < |vs|
    ensures var head := Marshal(o, e, vs[i], pos);
            (done + head) + MarshalItems(o, e, vs[i + 1..], pos + |head|) == done + MarshalItems(o, e, vs[i..], pos)
  {
    var head := Marshal(o, e, vs[i], pos);
    ItemsFrom(o, e, vs, i, pos);
    Assoc(done, head, MarshalItems(o, e, vs[i + 1..], pos + |head|));
  }

  lemma MembersFrom(o: Order, ts: seq<Ty>, vs: seq<Value>, i: nat, pos: nat)
    requires i < |vs| == |ts|
    ensures var head := Marshal(o, ts[i], vs[i], pos);
            MarshalMembers(o, ts[i..], vs[i..], pos) == head + MarshalMembers(o, ts[i + 1..], vs[i + 1..], pos + |head|)
  {
    assert vs[i..][1..] == vs[i + 1..] && ts[i..][1..] == ts[i + 1..];
  }

  lemma EntriesFrom(o: Order, k: Prim, e: Ty, es: seq<Entry>, i: nat, pos: nat)
    requires i < |es|
    ensures var head := MarshalEntry(o, k, e, es[i], pos);
            MarshalEntries(o, k, e, es[i..], pos) == head + MarshalEntries(o, k, e, es[i + 1..], pos + |head|)
  {
    assert es[i..][1..] == es[i + 1..];
  }

  lemma EntriesTurn(o: Order, k: Prim, e: Ty, es: seq<Entry>, i: nat, pos: nat, done: seq<byte>)
    requires i < |es|
    ensures var head := MarshalEntry(o, k, e, es[i], pos);
            (done + head) + MarshalEntries(o, k, e, es[i + 1..], pos + |head|) == done + MarshalEntries(o, k, e, es[i..], pos)
  {
    var head := MarshalEntry(o, k, e, es[i], pos);
    EntriesFrom(o, k, e, es, i, pos);
    Assoc(done, head, MarshalEntries(o, k, e, es[i + 1..], pos + |head|));
  }

  /** The predicted offset of the first element is where it lands, for booleans too. */
  lemma Lookahead(pos: nat, e: Ty)
    requires Padding(pos, 4) == 0
    ensures pos + 4 + Padding(pos + 4, TypeAlign(e)) == FirstAt(pos, Align(e))
  {}

  // ---------------------------------------------------------------- the encoder

  /** (x + n - 1) & ^(n - 1). */
  function RoundUp(x: nat, n: Alignment): (r: nat)
    ensures r == x + Padding(x, n)
  {
    RoundUp8(x);
    RoundUp4(x);
    RoundUp2(x);
    if n == 8 then (x + 7) / 8 * 8 else if n == 4 then (x + 3) / 4 * 4 else if n == 2 then (x + 1) / 2 * 2 else x
  }

  // Clearing the low bits after adding n - 1 adds exactly the padding.

  lemma {:induction false} RoundUp8(x: nat)
    ensures (x + 7) / 8 * 8 == x + Padding(x, 8)
  {
    if x >= 8 {
      RoundUp8(x - 8);
    }
  }

  lemma {:induction false} RoundUp4(x: nat)
    ensures (x + 3) / 4 * 4 == x + Padding(x, 4)
  {
    if x >= 4 {
      RoundUp4(x - 4);
    }
  }

  lemma {:induction false} RoundUp2(x: nat)
    ensures (x + 1) / 2 * 2 == x + Padding(x, 2)
  {
    if x >= 2 {
      RoundUp2(x - 2);
    }
  }

  lemma NothingLeft(o: Order, pos: nat)
    ensures forall e :: MarshalItems(o, e, [], pos) == []
    ensures forall k, e :: MarshalEntries(o, k, e, [], pos) == []
    ensures MarshalMembers(o, [], [], pos) == []
  {}

  lemma LeafEncodable(p: Prim, v: Value, depth: nat)
    requires p != V && WellTyped(Leaf(p), v)
    ensures LeafTyped(p, v) && Encodable(Leaf(p), v, depth)
  {}

  lemma LeafBody(o: Order, p: Prim, v: Value)
    requires LeafTyped(p, v)
    ensures forall at :: Body(o, Leaf(p), v, at) == LeafBytes(o, p, v)
  {}

  /** A value is its padding and its body. */
  lemma MarshalForm(o: Order, t: Ty, v: Value, pos: nat, before: seq<byte>)
    ensures var pad := Zeros(Padding(pos, Align(t))); var body := Body(o, t, v, pos + |pad|);
            && before + Marshal(o, t, v, pos) == before + pad + body
            && |Marshal(o, t, v, pos)| == |pad| + |body|
  {
    hide Body;
    Assoc(before, Zeros(Padding(pos, Align(t))), Body(o, t, v, pos + Padding(pos, Align(t))));
  }

  class Encoder {
    var out: seq<byte>
    var pos: nat
    const order: Order

    constructor AtOffset(offset: nat, order: Order)
      ensures out == [] && pos == offset && this.order == order
    {
      this.out := [];
      this.pos := offset;
      this.order := order;
    }

    /** `padding`: how far pos + offset is from the next multiple of n. */
    function PaddingAt(offset: nat, n: Alignment): (p: nat)
      reads this
      ensures p == Padding(pos + offset, n)
    {
      RoundUp(pos + offset, n) - (pos + offset)
    }

    method AlignTo(n: Alignment)
      modifies this
      ensures out == old(out) + Zeros(Padding(old(pos), n)) && pos == old(pos) + Padding(old(pos), n)
      ensures Padding(pos, n) == 0
    {
      Aligned(pos, n);
      var pad := PaddingAt(0, n);
      if pad > 0 {
        out := out + Zeros(pad);
        pos := pos + pad;
      }
    }

    method Write(bytes: seq<byte>)
      modifies this
      ensures out == old(out) + bytes && pos == old(pos) + |bytes|
    {
      out := out + bytes;
      pos := pos + |bytes|;
    }

    method WriteUint32(n: nat)
      modifies this
      ensures var pad := Padding(old(pos), 4); var bytes := Zeros(pad) + PutUint(order, n % TWO32, 4);
              out == old(out) + bytes && pos == old(pos) + |bytes|
    {
      AlignTo(4);
      Write(PutUint(order, n % TWO32, 4));
    }

    /** `encode`: appends exactly the bytes of v at the current position, or panics (ok == false)
        exactly on values that are nested too deep or have maps with unsupported or NaN keys. */
    method Encode(t: Ty, v: Value, depth: nat) returns (ok: bool)
      requires WellTyped(t, v)
      modifies this
      ensures ok <==> Encodable(t, v, depth)
      ensures ok ==> out == old(out) + Marshal(order, t, v, old(pos))
      ensures ok ==> pos == old(pos) + |Marshal(order, t, v, old(pos))|
      decreases v, 3
    {
      hide Marshal, MarshalItems, MarshalEntries, MarshalMembers, MarshalEntry, Encodable, WellTyped, Body;
      if t.Leaf? && t.prim != V {
        LeafEncodable(t.prim, v, depth);
        EncodeLeaf(t.prim, v);
        ok := true;
      } else {
        ghost var before, start := out, pos;
        AlignTo(TypeAlign(t));
        ok := EncodeContainer(t, v, depth);
        MarshalForm(order, t, v, start, before);
      }
    }

    method EncodeContainer(t: Ty, v: Value, depth: nat) returns (ok: bool)
      requires WellTyped(t, v) && (t.Leaf? ==> t.prim == V) && (Align(t) == 4 ==> Padding(pos, 4) == 0)
      modifies this
      ensures ok <==> Encodable(t, v, depth)
      ensures ok ==> out == old(out) + Body(order, t, v, old(pos))
      ensures ok ==> pos == old(pos) + |Body(order, t, v, old(pos))|
      decreases v, 2
    {
      match t
      case Leaf(_) => ok := EncodeVariant(v, depth);
      case Array(e) => ok := EncodeArray(e, v, depth);
      case Dict(k, e) => ok := EncodeMap(k, e, v, depth);
      case Struct(fs) =>
        if depth >= MAX_DEPTH {
          return false;
        }
        ok := EncodeMembers(fs, v.members, depth + 1);
    }

    method EncodeLeaf(p: Prim, v: Value)
      requires LeafTyped(p, v)
      modifies this
      ensures out == old(out) + Marshal(order, Leaf(p), v, old(pos))
      ensures pos == old(pos) + |Marshal(order, Leaf(p), v, old(pos))|
    {
      hide Marshal, Body, LeafBytes, Padding;
      if v.Bool? {
        WriteBool(v.b);
      } else {
        AlignTo(TypeAlign(Leaf(p)));
        WriteLeaf(p, v);
        LeafBody(order, p, v);
        MarshalForm(order, Leaf(p), v, old(pos), old(out));
      }
    }

    method WriteBool(b: bool)
      modifies this
      ensures out == old(out) + Marshal(order, Leaf(B), Bool(b), old(pos))
      ensures pos == old(pos) + |Marshal(order, Leaf(B), Bool(b), old(pos))|
    {
      hide Marshal, Body, PutUint;
      AlignTo(TypeAlign(Leaf(B)));
      WriteUint32(if b then 1 else 0);
      LeafBody(order, B, Bool(b));
      MarshalForm(order, Leaf(B), Bool(b), old(pos), old(out));
      Assoc(old(out), Zeros(Padding(old(pos), 4)), LeafBytes(order, B, Bool(b)));
    }

    method WriteLeaf(p: Prim, v: Value)
      requires LeafTyped(p, v) && p != B && (Align(Leaf(p)) == 4 ==> Padding(pos, 4) == 0)
      modifies this
      ensures out == old(out) + LeafBytes(order, p, v) && pos == old(pos) + |LeafBytes(order, p, v)|
    {
      match v
      case Num(n) =>
        Write(PutUint(order, ToWord(p, n), Width(p)));
      case Text(s) =>
        if p == G {
          WriteSignature(s);
        } else {
          assert IsPrim(p);
          WriteText(s);
        }
    }

    method WriteText(s: seq<byte>)
      requires Padding(pos, 4) == 0
      modifies this
      ensures var bytes := PutUint(order, |s| % TWO32, 4) + s + [0];
              out == old(out) + bytes && pos == old(pos) + |bytes|
    {
      WriteUint32(|s|);
      Write(s + [0]);
    }

    method WriteSignature(s: seq<byte>)
      modifies this
      ensures out == old(out) + SigBytes(s) && pos == old(pos) + |SigBytes(s)|
    {
      Write([|s| % 256]);
      Write(s + [0]);
    }

    method EncodeVariant(v: Value, depth: nat) returns (ok: bool)
      requires WellTyped(Leaf(V), v)
      modifies this
      ensures ok <==> depth < MAX_DEPTH && Encodable(v.ty, v.val, depth + 1)
      ensures ok ==> out == old(out) + VariantBytes(order, v, old(pos))
      ensures ok ==> pos == old(pos) + |VariantBytes(order, v, old(pos))|
      decreases v, 1
    {
      if depth >= MAX_DEPTH {
        return false;
      }
      WriteSignature(Print(v.ty));
      ok := Encode(v.ty, v.val, depth + 1);
    }

    /** An array body is written to a side buffer whose position starts where the body will land. */
    method EncodeArray(e: Ty, v: Value, depth: nat) returns (ok: bool)
      requires WellTyped(Array(e), v) && Padding(pos, 4) == 0
      modifies this
      ensures ok <==> depth < MAX_DEPTH && forall i | 0 <= i < |v.items| :: Encodable(e, v.items[i], depth + 1)
      ensures ok ==> out == old(out) + ArrayBytes(order, e, v, old(pos))
      ensures ok ==> pos == old(pos) + |ArrayBytes(order, e, v, old(pos))|
      decreases v, 1
    {
      hide Marshal, MarshalItems, MarshalEntries, MarshalMembers, MarshalEntry, Encodable;
      if depth >= MAX_DEPTH {
        return false;
      }
      var n := PaddingAt(0, 4) + 4;
      var offset := pos + n + PaddingAt(n, TypeAlign(e));
      Lookahead(pos, e);
      var content;
      ok, content := SideItems(order, offset, e, v.items, depth + 1);
      if ok {
        AppendFramed(content, TypeAlign(e), Align(e));
      }
    }

    /** The side buffer of an array. */
    static method SideItems(order: Order, offset: nat, e: Ty, vs: seq<Value>, depth: nat) returns (ok: bool, content: seq<byte>)
      requires forall i | 0 <= i < |vs| :: WellTyped(e, vs[i])
      ensures ok <==> forall i | 0 <= i < |vs| :: Encodable(e, vs[i], depth)
      ensures ok ==> content == MarshalItems(order, e, vs, offset)
      decreases vs, 1
    {
      hide Marshal, MarshalItems, MarshalEntries, MarshalMembers, MarshalEntry, Encodable, WellTyped;
      var buf := new Encoder.AtOffset(offset, order);
      ok := buf.EncodeItems(e, vs, depth);
      content := buf.out;
    }

    method EncodeItems(e: Ty, vs: seq<Value>, depth: nat) returns (ok: bool)
      requires forall i | 0 <= i < |vs| :: WellTyped(e, vs[i])
      modifies this
      ensures ok <==> forall i | 0 <= i < |vs| :: Encodable(e, vs[i], depth)
      ensures ok ==> out == old(out) + MarshalItems(order, e, vs, old(pos))
      decreases vs, 0
    {
      hide Marshal, MarshalItems, MarshalEntries, MarshalMembers, MarshalEntry, Encodable, WellTyped;
      ghost var all := MarshalItems(order, e, vs, pos);
      assert vs[0..] == vs;
      for i := 0 to |vs|
        invariant out + MarshalItems(order, e, vs[i..], pos) == old(out) + all
        invariant forall j | 0 <= j < i :: Encodable(e, vs[j], depth)
      {
        ghost var done, at := out, pos;
        ok := Encode(e, vs[i], depth);
        if !ok {
          return;
        }
        ItemsTurn(order, e, vs, i, at, done);
      }
      NothingLeft(order, pos);
      assert vs[|vs|..] == [];
      ok := true;
    }

    /** The length, the padding, then the side buffer. */
    method AppendFramed(content: seq<byte>, n: Alignment, ghost align: Alignment)
      requires Padding(pos, 4) == 0 && (n == align || (n == 1 && align == 4))
      modifies this
      ensures out == old(out) + Framed(order, old(pos), align, content)
      ensures pos == old(pos) + |Framed(order, old(pos), align, content)|
    {
      WriteUint32(|content|);
      AlignTo(n);
      Write(content);
    }

    method EncodeMap(k: Prim, e: Ty, v: Value, depth: nat) returns (ok: bool)
      requires WellTyped(Dict(k, e), v) && Padding(pos, 4) == 0
      modifies this
      ensures ok <==> depth < MAX_DEPTH - 1 && IsKey(k) && forall i | 0 <= i < |v.entries| :: EntryEncodable(k, e, v.entries[i], depth + 2)
      ensures ok ==> out == old(out) + DictBytes(order, k, e, v, old(pos))
      ensures ok ==> pos == old(pos) + |DictBytes(order, k, e, v, old(pos))|
      decreases v, 1
    {
      hide Marshal, MarshalItems, MarshalEntries, MarshalMembers, MarshalEntry, Encodable, EntryEncodable;
      if depth >= MAX_DEPTH - 1 {
        return false;
      }
      if !IsKey(k) {
        return false;
      }
      var n := PaddingAt(0, 4) + 4;
      var offset := pos + n + PaddingAt(n, 8);
      var content;
      ok, content := SideEntries(order, offset, k, e, v.entries, depth + 2);
      if ok {
        AppendFramed(content, 8, 8);
      }
    }

    /** The side buffer of a map. */
    static method SideEntries(order: Order, offset: nat, k: Prim, e: Ty, es: seq<Entry>, depth: nat) returns (ok: bool, content: seq<byte>)
      requires IsKey(k) && forall i | 0 <= i < |es| :: WellTyped(Leaf(k), es[i].key) && WellTyped(e, es[i].val)
      ensures ok <==> forall i | 0 <= i < |es| :: EntryEncodable(k, e, es[i], depth)
      ensures ok ==> content == MarshalEntries(order, k, e, es, offset)
      decreases es, 1
    {
      hide Marshal, MarshalItems, MarshalEntries, MarshalMembers, MarshalEntry, Encodable, WellTyped;
      var buf := new Encoder.AtOffset(offset, order);
      ok := buf.EncodeEntries(k, e, es, depth);
      content := buf.out;
    }

    method EncodeEntries(k: Prim, e: Ty, es: seq<Entry>, depth: nat) returns (ok: bool)
      requires IsKey(k) && forall i | 0 <= i < |es| :: WellTyped(Leaf(k), es[i].key) && WellTyped(e, es[i].val)
      modifies this
      ensures ok <==> forall i | 0 <= i < |es| :: EntryEncodable(k, e, es[i], depth)
      ensures ok ==> out == old(out) + MarshalEntries(order, k, e, es, old(pos))
      decreases es, 0
    {
      hide Marshal, MarshalItems, MarshalEntries, MarshalMembers, MarshalEntry, Encodable, WellTyped, EntryEncodable;
      ghost var all := MarshalEntries(order, k, e, es, pos);
      assert es[0..] == es;
      for i := 0 to |es|
        invariant out + MarshalEntries(order, k, e, es[i..], pos) == old(out) + all
        invariant forall j | 0 <= j < i :: EntryEncodable(k, e, es[j], depth)
      {
        ghost var done, at := out, pos;
        ok := EncodeEntry(k, e, es[i], depth);
        if !ok {
          return;
        }
        EntriesTurn(order, k, e, es, i, at, done);
      }
      NothingLeft(order, pos);
      assert es[|es|..] == [];
      ok := true;
    }

    method EncodeEntry(k: Prim, e: Ty, entry: Entry, depth: nat) returns (ok: bool)
      requires IsKey(k) && WellTyped(Leaf(k), entry.key) && WellTyped(e, entry.val)
      modifies this
      ensures ok <==> EntryEncodable(k, e, entry, depth)
      ensures ok ==> out == old(out) + MarshalEntry(order, k, e, entry, old(pos))
      ensures ok ==> pos == old(pos) + |MarshalEntry(order, k, e, entry, old(pos))|
      decreases entry, 5
    {
      hide MarshalPair, EntryEncodable, WellTyped, Marshal;
      AlignTo(8);
      ghost var pair := MarshalPair(order, k, e, entry, pos);
      ok := EncodePair(k, e, entry, depth);
      assert ok ==> out == old(out) + (Zeros(Padding(old(pos), 8)) + pair);
    }

    method EncodePair(k: Prim, e: Ty, entry: Entry, depth: nat) returns (ok: bool)
      requires IsKey(k) && WellTyped(Leaf(k), entry.key) && WellTyped(e, entry.val)
      modifies this
      ensures ok <==> EntryEncodable(k, e, entry, depth)
      ensures ok ==> out == old(out) + MarshalPair(order, k, e, entry, old(pos))
      ensures ok ==> pos == old(pos) + |MarshalPair(order, k, e, entry, old(pos))|
      decreases entry, 4
    {
      hide Marshal, MarshalItems, MarshalEntries, MarshalMembers, Encodable, WellTyped;
      ghost var key := Marshal(order, Leaf(k), entry.key, pos);
      LeafEncodable(k, entry.key, depth);
      ok := Encode(Leaf(k), entry.key, depth);
      if IsNaN(k, entry.key) {
        return false;
      }
      ghost var val := Marshal(order, e, entry.val, pos);
      ok := Encode(e, entry.val, depth);
      assert ok ==> out == old(out) + (key + val);
    }

    /** The members of a structure, and the arguments of `Encode`, one after the other. */
    method EncodeMembers(ts: seq<Ty>, vs: seq<Value>, depth: nat) returns (ok: bool)
      requires |ts| == |vs| && forall i | 0 <= i < |vs| :: WellTyped(ts[i], vs[i])
      modifies this
      ensures ok <==> forall i | 0 <= i < |vs| :: Encodable(ts[i], vs[i], depth)
      ensures ok ==> out == old(out) + MarshalMembers(order, ts, vs, old(pos))
      ensures ok ==> pos == old(pos) + |MarshalMembers(order, ts, vs, old(pos))|
      decreases vs
    {
      hide Marshal, MarshalItems, MarshalEntries, MarshalMembers, MarshalEntry, Encodable, WellTyped;
      ghost var all := MarshalMembers(order, ts, vs, pos);
      assert ts[0..] == ts && vs[0..] == vs;
      for i := 0 to |ts|
        invariant out + MarshalMembers(order, ts[i..], vs[i..], pos) == old(out) + all
        invariant pos + |MarshalMembers(order, ts[i..], vs[i..], pos)| == old(pos) + |all|
        invariant forall j | 0 <= j < i :: Encodable(ts[j], vs[j], depth)
      {
        ghost var done, at := out, pos;
        ok := Encode(ts[i], vs[i], depth);
        if !ok {
          return;
        }
        MembersFrom(order, ts, vs, i, at);
        Assoc(done, Marshal(order, ts[i], vs[i], at), MarshalMembers(order, ts[i + 1..], vs[i + 1..], pos));
      }
      NothingLeft(order, pos);
      assert ts[|ts|..] == [] && vs[|vs|..] == [];
      ok := true;
    }
  }
}
