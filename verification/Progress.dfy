/** What the decoder does on arbitrary bytes: what it returns is typed by its signature, and its loops
    end unless some signature has array elements that occupy no bytes. */
module DBusProgress {
  import opened Common
  import opened ByteOrder
  import opened DBusType
  import opened DBusSignature
  import opened DBusWire

  /** Values of type t whose signatures, at whatever depth, are valid. */
  predicate Decoded(t: Ty, v: Value)
    decreases v
  {
    match t
    case Leaf(p) =>
      if p == V then v.Variant? && Decoded(v.ty, v.val)
      else LeafTyped(p, v) && (p == G ==> ParseVerdict(v.s).Accept?)
    case Array(e) => v.List? && forall i | 0 <= i < |v.items| :: Decoded(e, v.items[i])
    case Dict(k, e) =>
      v.Map? && forall i | 0 <= i < |v.entries| ::
        Decoded(Leaf(k), v.entries[i].key) && Decoded(e, v.entries[i].val)
    case Struct(fs) =>
      v.Tuple? && |v.members| == |fs| && forall i | 0 <= i < |fs| :: Decoded(fs[i], v.members[i])
  }

  lemma {:induction false} DecodedTyped(t: Ty, v: Value)
    requires Decoded(t, v)
    ensures WellTyped(t, v)
    decreases v
  {
    match t
    case Leaf(p) =>
      if p == V {
        DecodedTyped(v.ty, v.val);
      }
    case Array(e) =>
      forall i | 0 <= i < |v.items| ensures WellTyped(e, v.items[i]) {
        DecodedTyped(e, v.items[i]);
      }
    case Dict(k, e) =>
      forall i | 0 <= i < |v.entries| ensures WellTyped(Leaf(k), v.entries[i].key) && WellTyped(e, v.entries[i].val) {
        DecodedTyped(Leaf(k), v.entries[i].key);
        DecodedTyped(e, v.entries[i].val);
      }
    case Struct(fs) =>
      forall i | 0 <= i < |fs| ensures WellTyped(fs[i], v.members[i]) {
        DecodedTyped(fs[i], v.members[i]);
      }
  }

  /** Some array inside t has elements that occupy no bytes. */
  predicate Sizeless(t: Ty) {
    match t
    case Leaf(_) => false
    case Array(e) => ZeroSize(e) || Sizeless(e)
    case Dict(_, e) => Sizeless(e)
    case Struct(fs) => exists i | 0 <= i < |fs| :: Sizeless(fs[i])
  }

  predicate NoEmptyStruct(t: Ty) {
    match t
    case Leaf(_) => true
    case Array(e) => NoEmptyStruct(e)
    case Dict(_, e) => NoEmptyStruct(e)
    case Struct(fs) => fs != [] && forall i | 0 <= i < |fs| :: NoEmptyStruct(fs[i])
  }

  /** Only empty structures are without size. */
  lemma {:induction false} NoEmptyStructHasSize(t: Ty)
    requires NoEmptyStruct(t)
    ensures !ZeroSize(t) && !Sizeless(t)
  {
    match t
    case Leaf(_) =>
    case Array(e) => NoEmptyStructHasSize(e);
    case Dict(_, e) => NoEmptyStructHasSize(e);
    case Struct(fs) =>
      forall i | 0 <= i < |fs| ensures !ZeroSize(fs[i]) && !Sizeless(fs[i]) {
        NoEmptyStructHasSize(fs[i]);
      }
      assert !ZeroSize(fs[0]);
  }

  // ---------------------------------------------------------------- the signatures that are met

  /** The types of all the variants whose signature the decoder reads, accepts and follows. */
  ghost function Met(o: Order, t: Ty, depth: nat, buf: seq<byte>, pos: nat): set<Ty>
    requires depth <= MAX_DEPTH
    decreases MAX_DEPTH - depth, 2
  {
    var pad := Padding(pos, Align(t));
    if |buf| < pad then {} else MetInside(o, t, depth, buf[pad..], pos + pad)
  }

  ghost function MetInside(o: Order, t: Ty, depth: nat, buf: seq<byte>, pos: nat): set<Ty>
    requires depth <= MAX_DEPTH
    decreases MAX_DEPTH - depth, 1
  {
    match t
    case Leaf(p) => if p == V then MetVariant(o, depth, buf, pos) else {}
    case Array(e) => MetArray(o, e, depth, buf, pos)
    case Dict(k, e) => MetDict(o, k, e, depth, buf, pos)
    case Struct(fs) => if depth >= MAX_DEPTH then {} else MetMembers(o, fs, depth + 1, buf, pos)
  }

  ghost function MetVariant(o: Order, depth: nat, buf: seq<byte>, pos: nat): set<Ty>
    requires depth <= MAX_DEPTH
    decreases MAX_DEPTH - depth, 0
  {
    var r := GetSig(buf);
    if depth >= MAX_DEPTH || !r.Ok? then {} else MetCarried(o, r.value.s, depth + 1, buf[r.n..], pos + r.n)
  }

  ghost function MetCarried(o: Order, sig: seq<byte>, depth: nat, buf: seq<byte>, pos: nat): set<Ty>
    requires depth <= MAX_DEPTH
    decreases MAX_DEPTH - depth, 3, 0
  {
    if sig == [] || Valid(sig, 0) != Accept([]) || TypeFor(sig).None? then {}
    else {TypeFor(sig).value} + Met(o, TypeFor(sig).value, depth, buf, pos)
  }

  ghost function MetArray(o: Order, e: Ty, depth: nat, buf: seq<byte>, pos: nat): set<Ty>
    requires depth <= MAX_DEPTH
    decreases MAX_DEPTH - depth, 0
  {
    var start := 4 + Padding(pos + 4, Align(e));
    if depth >= MAX_DEPTH || |buf| < start then {}
    else MetItems(o, e, depth + 1, buf[start..], pos + start, GetUint(o, buf[..4]))
  }

  ghost function MetDict(o: Order, k: Prim, e: Ty, depth: nat, buf: seq<byte>, pos: nat): set<Ty>
    requires depth <= MAX_DEPTH
    decreases MAX_DEPTH - depth, 0
  {
    var start := 4 + Padding(pos + 4, 8);
    if depth >= MAX_DEPTH - 1 || |buf| < start then {}
    else MetEntries(o, k, e, depth + 2, buf[start..], pos + start, GetUint(o, buf[..4]))
  }

  ghost function MetItems(o: Order, e: Ty, depth: nat, buf: seq<byte>, pos: nat, left: int): set<Ty>
    requires depth <= MAX_DEPTH
    decreases MAX_DEPTH - depth, 3, |buf|
  {
    if left <= 0 then {}
    else
      var r := Unmarshal(o, e, depth, buf, pos);
      Met(o, e, depth, buf, pos)
      + if r.Ok? && r.n > 0 then MetItems(o, e, depth, buf[r.n..], pos + r.n, left - r.n) else {}
  }

  ghost function MetPair(o: Order, k: Prim, e: Ty, depth: nat, buf: seq<byte>, pos: nat): set<Ty>
    requires depth <= MAX_DEPTH
    decreases MAX_DEPTH - depth, 3, 0
  {
    var r := Unmarshal(o, Leaf(k), depth, buf, pos);
    Met(o, Leaf(k), depth, buf, pos) + if r.Ok? then Met(o, e, depth, buf[r.n..], pos + r.n) else {}
  }

  ghost function MetEntry(o: Order, k: Prim, e: Ty, depth: nat, buf: seq<byte>, pos: nat): set<Ty>
    requires depth <= MAX_DEPTH
    decreases MAX_DEPTH - depth, 4, 0
  {
    var pad := Padding(pos, 8);
    if |buf| < pad || !IsKey(k) then {} else MetPair(o, k, e, depth, buf[pad..], pos + pad)
  }

  ghost function MetEntries(o: Order, k: Prim, e: Ty, depth: nat, buf: seq<byte>, pos: nat, left: int): set<Ty>
    requires depth <= MAX_DEPTH
    decreases MAX_DEPTH - depth, 5, |buf|
  {
    if left <= 0 then {}
    else
      var r := GetEntry(o, k, e, depth, buf, pos);
      MetEntry(o, k, e, depth, buf, pos)
      + if r.Ok? then MetEntries(o, k, e, depth, buf[r.n..], pos + r.n, left - r.n) else {}
  }

  ghost function MetMembers(o: Order, ts: seq<Ty>, depth: nat, buf: seq<byte>, pos: nat): set<Ty>
    requires depth <= MAX_DEPTH
    decreases MAX_DEPTH - depth, 3, |ts|
  {
    if ts == [] then {}
    else
      var r := Unmarshal(o, ts[0], depth, buf, pos);
      Met(o, ts[0], depth, buf, pos)
      + if r.Ok? then MetMembers(o, ts[1..], depth, buf[r.n..], pos + r.n) else {}
  }

  // ---------------------------------------------------------------- what an outcome may be

  ghost predicate SomeSizeless(met: set<Ty>) { exists u | u in met :: Sizeless(u) }

  lemma SomeGrows(a: set<Ty>, b: set<Ty>)
    ensures SomeSizeless(a) || SomeSizeless(b) <==> SomeSizeless(a + b)
  {
    hide Sizeless;
    if SomeSizeless(a) {
      var u :| u in a && Sizeless(u);
      assert u in a + b;
    }
    if SomeSizeless(b) {
      var u :| u in b && Sizeless(u);
      assert u in a + b;
    }
  }

  /** A value typed by t, an error, or a loop blamed on t or on a signature that was met. */
  ghost predicate Fair(t: Ty, met: set<Ty>, r: Outcome<Value>) {
    && (r.Ok? ==> Decoded(t, r.value))
    && (r.Stuck? ==> Sizeless(t) || SomeSizeless(met))
  }

  predicate AllDecoded(e: Ty, vs: seq<Value>) { forall i | 0 <= i < |vs| :: Decoded(e, vs[i]) }

  ghost predicate FairItems(e: Ty, met: set<Ty>, r: Outcome<seq<Value>>) {
    && (r.Ok? ==> AllDecoded(e, r.value))
    && (r.Stuck? ==> ZeroSize(e) || Sizeless(e) || SomeSizeless(met))
  }

  ghost predicate FairMembers(ts: seq<Ty>, met: set<Ty>, r: Outcome<seq<Value>>) {
    && (r.Ok? ==> |r.value| == |ts| && forall i | 0 <= i < |ts| :: Decoded(ts[i], r.value[i]))
    && (r.Stuck? ==> (exists i | 0 <= i < |ts| :: Sizeless(ts[i])) || SomeSizeless(met))
  }

  predicate EntriesTyped(k: Prim, e: Ty, es: seq<Entry>) {
    forall i | 0 <= i < |es| :: Decoded(Leaf(k), es[i].key) && Decoded(e, es[i].val)
  }

  ghost predicate FairEntry(k: Prim, e: Ty, met: set<Ty>, r: Outcome<Entry>) {
    && (r.Ok? ==> Decoded(Leaf(k), r.value.key) && Decoded(e, r.value.val))
    && (r.Stuck? ==> Sizeless(e) || SomeSizeless(met))
  }

  ghost predicate FairEntries(k: Prim, e: Ty, met: set<Ty>, r: Outcome<seq<Entry>>) {
    && (r.Ok? ==> EntriesTyped(k, e, r.value))
    && (r.Stuck? ==> Sizeless(e) || SomeSizeless(met))
  }

  lemma LeafFair(o: Order, p: Prim, buf: seq<byte>)
    requires p != V
    ensures Fair(Leaf(p), {}, GetLeaf(o, p, buf))
  {
    hide GetUint;
    assert IsPrim(p);
    if IsNum(p) && |buf| >= Width(p) {
      assert InRange(p, FromWord(p, GetUint(o, buf[..Width(p)])));
    }
  }

  lemma {:induction false} UpsertTyped(k: Prim, t: Ty, es: seq<Entry>, e: Entry)
    requires EntriesTyped(k, t, es) && Decoded(Leaf(k), e.key) && Decoded(t, e.val)
    ensures EntriesTyped(k, t, Upsert(k, es, e))
  {
    hide Decoded, SameKey;
    if es != [] {
      UpsertTyped(k, t, es[1..], e);
    }
  }

  /** For every byte sequence: a decoded value is typed by the signature, with valid signatures inside, and
      a loop that never ends is due to elements without size, in the outer signature or in one met on the way. */
  lemma {:induction false} UnmarshalFair(o: Order, t: Ty, depth: nat, buf: seq<byte>, pos: nat)
    requires depth <= MAX_DEPTH
    ensures Fair(t, Met(o, t, depth, buf, pos), Unmarshal(o, t, depth, buf, pos))
    decreases MAX_DEPTH - depth, 2
  {
    hide Contents, MetInside, Decoded, Sizeless, SomeSizeless, Padding;
    var pad := Padding(pos, Align(t));
    if |buf| >= pad {
      ContentsFair(o, t, depth, buf[pad..], pos + pad);
    }
  }

  lemma {:induction false} ContentsFair(o: Order, t: Ty, depth: nat, buf: seq<byte>, pos: nat)
    requires depth <= MAX_DEPTH
    ensures Fair(t, MetInside(o, t, depth, buf, pos), Contents(o, t, depth, buf, pos))
    decreases MAX_DEPTH - depth, 1
  {
    hide GetArray, GetDict, GetStruct, GetVariant, GetLeaf, MetArray, MetDict, MetMembers, MetVariant, SomeSizeless;
    match t
    case Leaf(p) =>
      if p == V {
        VariantFair(o, depth, buf, pos);
      } else {
        LeafFair(o, p, buf);
      }
    case Array(e) => ArrayFair(o, e, depth, buf, pos);
    case Dict(k, e) => DictFair(o, k, e, depth, buf, pos);
    case Struct(fs) => StructFair(o, fs, depth, buf, pos);
  }

  lemma {:induction false} StructFair(o: Order, fs: seq<Ty>, depth: nat, buf: seq<byte>, pos: nat)
    requires depth <= MAX_DEPTH
    ensures Fair(Struct(fs), if depth >= MAX_DEPTH then {} else MetMembers(o, fs, depth + 1, buf, pos), GetStruct(o, fs, depth, buf, pos))
    decreases MAX_DEPTH - depth, 0
  {
    hide GetMembers, MetMembers, Decoded, Sizeless, SomeSizeless;
    if depth < MAX_DEPTH {
      MembersFair(o, fs, depth + 1, buf, pos);
      AsTupleFair(fs, MetMembers(o, fs, depth + 1, buf, pos), GetMembers(o, fs, depth + 1, buf, pos));
    }
  }

  lemma AsTupleFair(fs: seq<Ty>, met: set<Ty>, r: Outcome<seq<Value>>)
    requires FairMembers(fs, met, r)
    ensures r.Ok? ==> Fair(Struct(fs), met, Ok(Tuple(r.value), r.n))
    ensures r.Stuck? ==> Fair(Struct(fs), met, Stuck)
  {
    hide SomeSizeless;
    var t := Struct(fs);
    if exists i | 0 <= i < |fs| :: Sizeless(fs[i]) {
      var i :| 0 <= i < |fs| && Sizeless(fs[i]);
      assert t.fields[i] == fs[i];
      assert Sizeless(t);
    }
  }

  predicate VariantTyped(v: Value) { v.Variant? && Decoded(v.ty, v.val) }

  lemma {:induction false} VariantFair(o: Order, depth: nat, buf: seq<byte>, pos: nat)
    requires depth <= MAX_DEPTH
    ensures var r := GetVariant(o, depth, buf, pos);
            (r.Ok? ==> VariantTyped(r.value)) && (r.Stuck? ==> SomeSizeless(MetVariant(o, depth, buf, pos)))
    decreases MAX_DEPTH - depth, 0
  {
    hide GetCarried, MetCarried, VariantTyped, SomeSizeless;
    var r := GetSig(buf);
    if depth < MAX_DEPTH && r.Ok? {
      CarriedFair(o, r.value.s, depth + 1, buf[r.n..], pos + r.n);
    }
  }

  lemma {:induction false} CarriedFair(o: Order, sig: seq<byte>, depth: nat, buf: seq<byte>, pos: nat)
    requires depth <= MAX_DEPTH
    ensures var r := GetCarried(o, sig, depth, buf, pos);
            (r.Ok? ==> VariantTyped(r.value)) && (r.Stuck? ==> SomeSizeless(MetCarried(o, sig, depth, buf, pos)))
    decreases MAX_DEPTH - depth, 3, 0
  {
    hide Unmarshal, Met, Valid, TypeFor, Decoded, Sizeless;
    if !(sig == [] || Valid(sig, 0) != Accept([]) || TypeFor(sig).None?) {
      var t := TypeFor(sig).value;
      UnmarshalFair(o, t, depth, buf, pos);
      SomeGrows({t}, Met(o, t, depth, buf, pos));
      assert Sizeless(t) ==> SomeSizeless({t});
    }
  }

  lemma AsListFair(e: Ty, met: set<Ty>, k: nat, r: Outcome<seq<Value>>)
    requires FairItems(e, met, r)
    ensures r.Ok? ==> Fair(Array(e), met, Ok(List(r.value), k + r.n))
    ensures r.Stuck? ==> Fair(Array(e), met, Stuck)
  {
    hide SomeSizeless, ZeroSize;
  }

  lemma {:induction false} ArrayFair(o: Order, e: Ty, depth: nat, buf: seq<byte>, pos: nat)
    requires depth <= MAX_DEPTH
    ensures Fair(Array(e), MetArray(o, e, depth, buf, pos), GetArray(o, e, depth, buf, pos))
    decreases MAX_DEPTH - depth, 0
  {
    hide GetItems, MetItems, Decoded, Sizeless, SomeSizeless, GetUint, Padding;
    var start := 4 + Padding(pos + 4, Align(e));
    if depth < MAX_DEPTH && |buf| >= start {
      var len := GetUint(o, buf[..4]);
      ItemsFair(o, e, depth + 1, buf[start..], pos + start, len);
      AsListFair(e, MetArray(o, e, depth, buf, pos), start, GetItems(o, e, depth + 1, buf[start..], pos + start, len));
      assert GetArray(o, e, depth, buf, pos) == FramedItems(o, e, depth + 1, buf, pos, start, len);
    }
  }

  lemma AsMapFair(k: Prim, e: Ty, met: set<Ty>, n: nat, r: Outcome<seq<Entry>>)
    requires FairEntries(k, e, met, r)
    ensures r.Ok? ==> Fair(Dict(k, e), met, Ok(Map(r.value), n + r.n))
    ensures r.Stuck? ==> Fair(Dict(k, e), met, Stuck)
  {
    hide SomeSizeless;
  }

  lemma {:induction false} DictFair(o: Order, k: Prim, e: Ty, depth: nat, buf: seq<byte>, pos: nat)
    requires depth <= MAX_DEPTH
    ensures Fair(Dict(k, e), MetDict(o, k, e, depth, buf, pos), GetDict(o, k, e, depth, buf, pos))
    decreases MAX_DEPTH - depth, 0
  {
    hide GetEntries, MetEntries, Decoded, Sizeless, SomeSizeless, GetUint, Padding;
    var start := 4 + Padding(pos + 4, 8);
    if depth < MAX_DEPTH - 1 && |buf| >= start {
      var len := GetUint(o, buf[..4]);
      EntriesFair(o, k, e, depth + 2, buf[start..], pos + start, len, []);
      AsMapFair(k, e, MetDict(o, k, e, depth, buf, pos), start, GetEntries(o, k, e, depth + 2, buf[start..], pos + start, len, []));
      assert GetDict(o, k, e, depth, buf, pos) == FramedEntries(o, k, e, depth + 2, buf, pos, start, len);
    }
  }

  lemma DecodedCons(e: Ty, v: Value, vs: seq<Value>)
    requires Decoded(e, v) && AllDecoded(e, vs)
    ensures AllDecoded(e, [v] + vs)
  {
    hide Decoded;
  }

  /** An element, and what the loop reads after it. */
  function ThenItems(v: Value, n: nat, more: Outcome<seq<Value>>): Outcome<seq<Value>> {
    match more case Ok(vs, m) => Ok([v] + vs, n + m) case bad => bad
  }

  lemma ItemsMore(o: Order, e: Ty, depth: nat, buf: seq<byte>, pos: nat, left: int, v: Value, n: nat)
    requires depth <= MAX_DEPTH && left > 0 && Unmarshal(o, e, depth, buf, pos) == Ok(v, n) && 0 < n <= |buf|
    ensures GetItems(o, e, depth, buf, pos, left) == ThenItems(v, n, GetItems(o, e, depth, buf[n..], pos + n, left - n))
    ensures MetItems(o, e, depth, buf, pos, left) ==
            Met(o, e, depth, buf, pos) + MetItems(o, e, depth, buf[n..], pos + n, left - n)
  {
    hide Unmarshal, Met;
  }

  lemma ItemsStop(o: Order, e: Ty, depth: nat, buf: seq<byte>, pos: nat, left: int)
    requires depth <= MAX_DEPTH && left > 0
    requires var r := Unmarshal(o, e, depth, buf, pos); !(r.Ok? && r.n > 0)
    ensures GetItems(o, e, depth, buf, pos, left) == if Unmarshal(o, e, depth, buf, pos).Err? then Err else Stuck
    ensures MetItems(o, e, depth, buf, pos, left) == Met(o, e, depth, buf, pos)
  {
    hide Unmarshal, Met;
  }

  lemma NoItems(o: Order, e: Ty, depth: nat, buf: seq<byte>, pos: nat, left: int)
    requires depth <= MAX_DEPTH && left <= 0
    ensures FairItems(e, MetItems(o, e, depth, buf, pos, left), GetItems(o, e, depth, buf, pos, left))
  {
    hide Unmarshal, Met;
  }

  lemma ThenFair(e: Ty, v: Value, n: nat, more: Outcome<seq<Value>>, a: set<Ty>, b: set<Ty>)
    requires Decoded(e, v) && FairItems(e, b, more)
    ensures FairItems(e, a + b, ThenItems(v, n, more))
  {
    hide Decoded, AllDecoded, Sizeless, ZeroSize, SomeSizeless;
    SomeGrows(a, b);
    if more.Ok? {
      DecodedCons(e, v, more.value);
    }
  }

  lemma {:induction false} ItemsFair(o: Order, e: Ty, depth: nat, buf: seq<byte>, pos: nat, left: int)
    requires depth <= MAX_DEPTH
    ensures FairItems(e, MetItems(o, e, depth, buf, pos, left), GetItems(o, e, depth, buf, pos, left))
    decreases MAX_DEPTH - depth, 3, |buf|
  {
    hide *;
    if left <= 0 {
      NoItems(o, e, depth, buf, pos, left);
    } else {
      UnmarshalFair(o, e, depth, buf, pos);
      var r := Unmarshal(o, e, depth, buf, pos);
      if r.Ok? && r.n > 0 {
        ItemsMore(o, e, depth, buf, pos, left, r.value, r.n);
        ItemsFair(o, e, depth, buf[r.n..], pos + r.n, left - r.n);
        FairDecoded(e, Met(o, e, depth, buf, pos), r);
        ThenFair(e, r.value, r.n, GetItems(o, e, depth, buf[r.n..], pos + r.n, left - r.n), Met(o, e, depth, buf, pos),
                 MetItems(o, e, depth, buf[r.n..], pos + r.n, left - r.n));
      } else {
        ItemsStop(o, e, depth, buf, pos, left);
        StopFair(e, Met(o, e, depth, buf, pos), r);
      }
    }
  }

  lemma FairDecoded(t: Ty, met: set<Ty>, r: Outcome<Value>)
    requires Fair(t, met, r) && r.Ok?
    ensures Decoded(t, r.value)
  {
    hide Decoded;
  }

  lemma StopFair(e: Ty, met: set<Ty>, r: Outcome<Value>)
    requires Fair(e, met, r) && (r.Ok? ==> ZeroSize(e))
    ensures FairItems(e, met, if r.Err? then Err else Stuck)
  {
    hide Decoded, Sizeless, ZeroSize, SomeSizeless;
  }

  lemma {:induction false} MembersFair(o: Order, ts: seq<Ty>, depth: nat, buf: seq<byte>, pos: nat)
    requires depth <= MAX_DEPTH
    ensures FairMembers(ts, MetMembers(o, ts, depth, buf, pos), GetMembers(o, ts, depth, buf, pos))
    decreases MAX_DEPTH - depth, 3, |ts|
  {
    hide Unmarshal, Met, Decoded, Sizeless, SomeSizeless;
    if ts != [] {
      UnmarshalFair(o, ts[0], depth, buf, pos);
      var r := Unmarshal(o, ts[0], depth, buf, pos);
      var here := Met(o, ts[0], depth, buf, pos);
      if r.Ok? {
        MembersFair(o, ts[1..], depth, buf[r.n..], pos + r.n);
        SomeGrows(here, MetMembers(o, ts[1..], depth, buf[r.n..], pos + r.n));
      } else {
        SomeGrows(here, {});
      }
    }
  }

  lemma LeafNotSizeless(p: Prim)
    ensures !Sizeless(Leaf(p))
  {}

  lemma {:induction false} PairFair(o: Order, k: Prim, e: Ty, depth: nat, buf: seq<byte>, pos: nat)
    requires depth <= MAX_DEPTH
    ensures FairEntry(k, e, MetPair(o, k, e, depth, buf, pos), GetPair(o, k, e, depth, buf, pos))
    decreases MAX_DEPTH - depth, 3, 0
  {
    hide Unmarshal, Met, Decoded, Sizeless, SomeSizeless;
    UnmarshalFair(o, Leaf(k), depth, buf, pos);
    var r := Unmarshal(o, Leaf(k), depth, buf, pos);
    var here := Met(o, Leaf(k), depth, buf, pos);
    LeafNotSizeless(k);
    if r.Ok? {
      UnmarshalFair(o, e, depth, buf[r.n..], pos + r.n);
      SomeGrows(here, Met(o, e, depth, buf[r.n..], pos + r.n));
    } else {
      SomeGrows(here, {});
    }
  }

  lemma {:induction false} EntryFair(o: Order, k: Prim, e: Ty, depth: nat, buf: seq<byte>, pos: nat)
    requires depth <= MAX_DEPTH
    ensures FairEntry(k, e, MetEntry(o, k, e, depth, buf, pos), GetEntry(o, k, e, depth, buf, pos))
    decreases MAX_DEPTH - depth, 4, 0
  {
    hide GetPair, MetPair, Decoded, Sizeless, SomeSizeless, Padding;
    var pad := Padding(pos, 8);
    if |buf| >= pad {
      PairFair(o, k, e, depth, buf[pad..], pos + pad);
    }
  }

  lemma {:induction false} EntriesFair(o: Order, k: Prim, e: Ty, depth: nat, buf: seq<byte>, pos: nat, left: int, acc: seq<Entry>)
    requires depth <= MAX_DEPTH && EntriesTyped(k, e, acc)
    ensures FairEntries(k, e, MetEntries(o, k, e, depth, buf, pos, left), GetEntries(o, k, e, depth, buf, pos, left, acc))
    decreases MAX_DEPTH - depth, 5, |buf|
  {
    hide GetEntry, MetEntry, EntriesTyped, Decoded, Sizeless, SomeSizeless, Upsert;
    if left > 0 {
      EntryFair(o, k, e, depth, buf, pos);
      var r := GetEntry(o, k, e, depth, buf, pos);
      var here := MetEntry(o, k, e, depth, buf, pos);
      if r.Ok? {
        UpsertTyped(k, e, acc, r.value);
        EntriesFair(o, k, e, depth, buf[r.n..], pos + r.n, left - r.n, Upsert(k, acc, r.value));
        SomeGrows(here, MetEntries(o, k, e, depth, buf[r.n..], pos + r.n, left - r.n));
      } else {
        SomeGrows(here, {});
      }
    }
  }

  /** If no structure is empty, in the outer signature or in one that is met, decoding ends, and a decoded
      value took at least one byte. */
  lemma DecodingEnds(o: Order, t: Ty, depth: nat, buf: seq<byte>, pos: nat)
    requires depth <= MAX_DEPTH && NoEmptyStruct(t)
    requires forall u | u in Met(o, t, depth, buf, pos) :: NoEmptyStruct(u)
    ensures var r := Unmarshal(o, t, depth, buf, pos); !r.Stuck? && (r.Ok? ==> 0 < r.n <= |buf|)
  {
    hide Unmarshal, Met, Decoded, Sizeless, ZeroSize, NoEmptyStruct;
    NoEmptyStructHasSize(t);
    UnmarshalFair(o, t, depth, buf, pos);
    forall u | u in Met(o, t, depth, buf, pos) ensures !Sizeless(u) {
      NoEmptyStructHasSize(u);
    }
  }

  // ---------------------------------------------------------------- when the loop does not end

  /** How deep a type without size nests. */
  function Levels(t: Ty): nat
    decreases t, 1
  {
    if t.Struct? then 1 + MaxLevels(t.fields) else 0
  }

  function MaxLevels(ts: seq<Ty>): nat
    decreases ts, 0
  {
    if ts == [] then 0 else if Levels(ts[0]) < MaxLevels(ts[1..]) then MaxLevels(ts[1..]) else Levels(ts[0])
  }

  /** At an aligned position, a value without size is read from nothing, if its nesting fits. */
  lemma {:induction false} SizelessRead(o: Order, t: Ty, depth: nat, buf: seq<byte>, pos: nat)
    requires ZeroSize(t) && Padding(pos, 8) == 0 && depth <= MAX_DEPTH
    ensures var r := Unmarshal(o, t, depth, buf, pos);
            if depth + Levels(t) <= MAX_DEPTH then r.Ok? && r.n == 0 else r == Err
    decreases t, 1
  {
    hide GetMembers, Padding;
    assert buf[0..] == buf;
    assert Unmarshal(o, t, depth, buf, pos) == After(0, Contents(o, t, depth, buf, pos));
    if depth < MAX_DEPTH {
      SizelessMembers(o, t.fields, depth + 1, buf, pos);
    }
  }

  lemma {:induction false} SizelessMembers(o: Order, ts: seq<Ty>, depth: nat, buf: seq<byte>, pos: nat)
    requires (forall i | 0 <= i < |ts| :: ZeroSize(ts[i])) && Padding(pos, 8) == 0 && depth <= MAX_DEPTH
    ensures var r := GetMembers(o, ts, depth, buf, pos);
            if depth + MaxLevels(ts) <= MAX_DEPTH then r.Ok? && r.n == 0 else r == Err
    decreases ts, 0
  {
    hide Unmarshal, ZeroSize, Padding, Levels;
    if ts != [] {
      SizelessRead(o, ts[0], depth, buf, pos);
      assert buf[0..] == buf;
      SizelessMembers(o, ts[1..], depth, buf, pos);
    }
  }

  /** The announced length of an array at pos, if that and the padding of its first element are there. */
  function Announced(o: Order, buf: seq<byte>, pos: nat, align: Alignment): Option<nat> {
    var pad := Padding(pos, 4);
    if |buf| < pad + 4 + Padding(pos + pad + 4, align) then None else Some(GetUint(o, buf[pad..pad + 4]))
  }

  /** Reading an array of elements without size never ends exactly if the length is there and positive and
      the elements nest within the limit. */
  lemma SizelessArrayLoops(o: Order, e: Ty, depth: nat, buf: seq<byte>, pos: nat)
    requires ZeroSize(e) && depth <= MAX_DEPTH
    ensures Unmarshal(o, Array(e), depth, buf, pos) == Stuck <==>
            && Announced(o, buf, pos, 8).Some? && Announced(o, buf, pos, 8).value > 0
            && depth + 1 + Levels(e) <= MAX_DEPTH
  {
    hide *;
    var pad := Padding(pos, 4);
    var start := 4 + Padding(pos + pad + 4, 8);
    ArrayOutcome(o, e, depth, buf, pos);
    AnnouncedForm(o, buf, pos);
    if depth < MAX_DEPTH && |buf| >= pad + start {
      var len := GetUint(o, buf[pad..pad + 4]);
      Aligned(pos + pad + 4, 8);
      SizelessItems(o, e, depth + 1, buf[pad..][start..], pos + pad + start, len);
      FramedStuck(o, e, depth + 1, buf[pad..], pos + pad, start, len, pad);
    }
  }

  lemma AnnouncedForm(o: Order, buf: seq<byte>, pos: nat)
    ensures var pad := Padding(pos, 4);
            Announced(o, buf, pos, 8) ==
            if |buf| < pad + 4 + Padding(pos + pad + 4, 8) then None else Some(GetUint(o, buf[pad..pad + 4]))
  {}

  lemma FramedStuck(o: Order, e: Ty, depth: nat, buf: seq<byte>, pos: nat, start: nat, len: nat, pad: nat)
    requires depth <= MAX_DEPTH && start <= |buf|
    ensures After(pad, FramedItems(o, e, depth, buf, pos, start, len)) == Stuck <==>
            GetItems(o, e, depth, buf[start..], pos + start, len) == Stuck
  {
    hide GetItems;
  }

  /** An array is read from its length on, if that and the padding are there. */
  lemma ArrayOutcome(o: Order, e: Ty, depth: nat, buf: seq<byte>, pos: nat)
    requires ZeroSize(e) && depth <= MAX_DEPTH
    ensures var pad := Padding(pos, 4); var start := 4 + Padding(pos + pad + 4, 8);
            Unmarshal(o, Array(e), depth, buf, pos) ==
            if depth >= MAX_DEPTH || |buf| < pad + start then Err
            else After(pad, FramedItems(o, e, depth + 1, buf[pad..], pos + pad, start, GetUint(o, buf[pad..pad + 4])))
  {
    hide GetUint, Padding, FramedItems;
    var pad := Padding(pos, 4);
    if |buf| >= pad {
      var b := buf[pad..];
      assert Contents(o, Array(e), depth, b, pos + pad) == GetArray(o, e, depth, b, pos + pad);
      if |b| >= 4 {
        assert b[..4] == buf[pad..pad + 4];
      }
    }
  }

  lemma SizelessItems(o: Order, e: Ty, depth: nat, buf: seq<byte>, pos: nat, left: int)
    requires ZeroSize(e) && Padding(pos, 8) == 0 && depth <= MAX_DEPTH
    ensures GetItems(o, e, depth, buf, pos, left) == Stuck <==> left > 0 && depth + Levels(e) <= MAX_DEPTH
  {
    hide Unmarshal, Padding, ZeroSize, Levels;
    SizelessRead(o, e, depth, buf, pos);
  }

  /** Eight bytes on which the decoder never returns: an array of empty structures announcing length 1. */
  lemma EmptyStructLoops(rest: seq<byte>)
    ensures Unmarshal(Little, Array(Struct([])), 0, [1, 0, 0, 0, 0, 0, 0, 0] + rest, 0) == Stuck
  {
    var buf: seq<byte> := [1, 0, 0, 0, 0, 0, 0, 0] + rest;
    SizelessArrayLoops(Little, Struct([]), 0, buf, 0);
    assert buf[0..4] == [1] + [0, 0, 0];
    assert GetUint(Little, buf[0..4]) == 1 + 256 * GetUint(Little, buf[0..4][1..]);
  }
}
