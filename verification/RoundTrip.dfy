/** Decoding undoes encoding, for every value the wire format can carry, at every position. */
module DBusRoundTrip {
  import opened Common
  import opened ByteOrder
  import opened DBusType
  import opened DBusSignature
  import opened DBusWire

  // ---------------------------------------------------------------- the domain

  predicate LeafInDomain(p: Prim, v: Value) {
    v.Text? ==> if p == G then ParseVerdict(v.s).Accept? else |v.s| < TWO32
  }

  predicate DistinctKeys(k: Prim, es: seq<Entry>) {
    && (forall i | 0 <= i < |es| :: !IsNaN(k, es[i].key))
    && (forall i, j | 0 <= i < j < |es| :: !SameKey(k, es[i].key, es[j].key))
  }

  /** Values whose lengths and signatures fit the wire format when written at pos: lengths below
      2^32, carried signatures of at most 255 characters that nest at most 64 deep, map keys that are
      distinct, and no array elements that occupy no bytes. */
  predicate InDomain(o: Order, t: Ty, v: Value, pos: nat)
    decreases v, 1
  {
    var at := pos + Padding(pos, Align(t));
    match (t, v)
    case (Leaf(_), Variant(ty, val)) =>
      && |Print(ty)| <= 255 && Nest(ty) <= MAX_DEPTH
      && InDomain(o, ty, val, at + |SigBytes(Print(ty))|)
    case (Leaf(p), _) => LeafInDomain(p, v)
    case (Array(e), List(vs)) =>
      var first := FirstAt(at, Align(e));
      && (vs == [] || !ZeroSize(e))
      && |MarshalItems(o, e, vs, first)| < TWO32
      && ItemsInDomain(o, e, vs, first)
    case (Dict(k, e), Map(es)) =>
      var first := FirstAt(at, 8);
      && IsKey(k) && DistinctKeys(k, es)
      && |MarshalEntries(o, k, e, es, first)| < TWO32
      && EntriesInDomain(o, k, e, es, first)
    case (Struct(fs), Tuple(vs)) => MembersInDomain(o, fs, vs, at)
    case _ => true
  }

  predicate ItemsInDomain(o: Order, e: Ty, vs: seq<Value>, pos: nat)
    decreases vs
  {
    vs == [] ||
    (InDomain(o, e, vs[0], pos) && ItemsInDomain(o, e, vs[1..], pos + |Marshal(o, e, vs[0], pos)|))
  }

  predicate MembersInDomain(o: Order, ts: seq<Ty>, vs: seq<Value>, pos: nat)
    decreases vs
  {
    vs == [] || ts == [] ||
    (InDomain(o, ts[0], vs[0], pos)
     && MembersInDomain(o, ts[1..], vs[1..], pos + |Marshal(o, ts[0], vs[0], pos)|))
  }

  predicate EntryInDomain(o: Order, k: Prim, e: Ty, entry: Entry, pos: nat)
    decreases entry, 2
  {
    var at := pos + Padding(pos, 8);
    && InDomain(o, Leaf(k), entry.key, at)
    && InDomain(o, e, entry.val, at + |Marshal(o, Leaf(k), entry.key, at)|)
  }

  predicate EntriesInDomain(o: Order, k: Prim, e: Ty, es: seq<Entry>, pos: nat)
    decreases es
  {
    es == [] ||
    (&& EntryInDomain(o, k, e, es[0], pos)
     && EntriesInDomain(o, k, e, es[1..], pos + |MarshalEntry(o, k, e, es[0], pos)|))
  }

  /** The nesting checks: containers are refused from depth 64 on, dictionaries from 63 on. */
  predicate DepthOk(t: Ty, v: Value, depth: nat)
    decreases v
  {
    match (t, v)
    case (Leaf(_), Variant(ty, val)) => depth < MAX_DEPTH && DepthOk(ty, val, depth + 1)
    case (Array(e), List(vs)) => depth < MAX_DEPTH && ItemsOk(e, vs, depth + 1)
    case (Dict(k, e), Map(es)) => depth < MAX_DEPTH - 1 && EntriesOk(e, es, depth + 2)
    case (Struct(fs), Tuple(vs)) => depth < MAX_DEPTH && MembersOk(fs, vs, depth + 1)
    case _ => true
  }

  predicate ItemsOk(e: Ty, vs: seq<Value>, depth: nat)
    decreases vs
  {
    vs == [] || (DepthOk(e, vs[0], depth) && ItemsOk(e, vs[1..], depth))
  }

  predicate MembersOk(ts: seq<Ty>, vs: seq<Value>, depth: nat)
    decreases vs
  {
    vs == [] || ts == [] || (DepthOk(ts[0], vs[0], depth) && MembersOk(ts[1..], vs[1..], depth))
  }

  predicate EntryOk(e: Ty, entry: Entry, depth: nat)
    decreases entry
  {
    DepthOk(e, entry.val, depth)
  }

  predicate EntriesOk(e: Ty, es: seq<Entry>, depth: nat)
    decreases es
  {
    es == [] || (EntryOk(e, es[0], depth) && EntriesOk(e, es[1..], depth))
  }

  // ---------------------------------------------------------------- what reading back means

  /** What a reader answers on the bytes of v, whatever follows them: v and their number, or an error. */
  function Answer<A>(ok: bool, v: A, bytes: seq<byte>): Outcome<A> {
    if ok then Ok(v, |bytes|) else Err
  }

  ghost predicate Reads(o: Order, t: Ty, depth: nat, bytes: seq<byte>, pos: nat, v: Value, ok: bool) {
    depth <= MAX_DEPTH && forall rest :: Unmarshal(o, t, depth, bytes + rest, pos) == Answer(ok, v, bytes)
  }

  ghost predicate ReadsBody(o: Order, t: Ty, depth: nat, bytes: seq<byte>, pos: nat, v: Value, ok: bool) {
    depth <= MAX_DEPTH && forall rest :: Contents(o, t, depth, bytes + rest, pos) == Answer(ok, v, bytes)
  }

  ghost predicate ReadsItems(o: Order, e: Ty, depth: nat, bytes: seq<byte>, pos: nat, vs: seq<Value>, ok: bool) {
    depth <= MAX_DEPTH && forall rest ::
      GetItems(o, e, depth, bytes + rest, pos, |bytes|) == Answer(ok, vs, bytes)
  }

  ghost predicate ReadsMembers(o: Order, ts: seq<Ty>, depth: nat, bytes: seq<byte>, pos: nat, vs: seq<Value>, ok: bool) {
    depth <= MAX_DEPTH && forall rest :: GetMembers(o, ts, depth, bytes + rest, pos) == Answer(ok, vs, bytes)
  }

  ghost predicate ReadsCarried(o: Order, sig: seq<byte>, depth: nat, bytes: seq<byte>, pos: nat, v: Value, ok: bool) {
    depth <= MAX_DEPTH && forall rest :: GetCarried(o, sig, depth, bytes + rest, pos) == Answer(ok, v, bytes)
  }

  ghost predicate ReadsPair(o: Order, k: Prim, e: Ty, depth: nat, bytes: seq<byte>, pos: nat, entry: Entry, ok: bool) {
    depth <= MAX_DEPTH && forall rest :: GetPair(o, k, e, depth, bytes + rest, pos) == Answer(ok, entry, bytes)
  }

  ghost predicate ReadsEntry(o: Order, k: Prim, e: Ty, depth: nat, bytes: seq<byte>, pos: nat, entry: Entry, ok: bool) {
    depth <= MAX_DEPTH && forall rest :: GetEntry(o, k, e, depth, bytes + rest, pos) == Answer(ok, entry, bytes)
  }

  ghost predicate ReadsEntries(o: Order, k: Prim, e: Ty, depth: nat, bytes: seq<byte>, pos: nat,
                               acc: seq<Entry>, es: seq<Entry>, ok: bool) {
    depth <= MAX_DEPTH && forall rest ::
      GetEntries(o, k, e, depth, bytes + rest, pos, |bytes|, acc) == Answer(ok, acc + es, bytes)
  }

  // ---------------------------------------------------------------- leaves

  lemma WordRoundTrip(p: Prim, n: int)
    requires InRange(p, n)
    ensures FromWord(p, ToWord(p, n)) == n
  {
    var size := Size(Width(p));
    if n < 0 {
      assert n % size == n + size;
    }
  }

  lemma NumRoundTrip(o: Order, p: Prim, n: int, rest: seq<byte>)
    requires InRange(p, n)
    ensures GetNum(o, p, PutUint(o, ToWord(p, n), Width(p)) + rest) == Ok(Num(n), Width(p))
  {
    Cut(PutUint(o, ToWord(p, n), Width(p)), rest);
    GetPut(o, ToWord(p, n), Width(p));
    WordRoundTrip(p, n);
  }

  lemma Uint32(o: Order, n: nat)
    requires n < TWO32
    ensures GetUint(o, PutUint(o, n, 4)) == n
  {
    assert Size(4) == Pow256(4);
    GetPut(o, n, 4);
  }

  lemma BoolRoundTrip(o: Order, b: bool, rest: seq<byte>)
    ensures GetBool(o, PutUint(o, if b then 1 else 0, 4) + rest) == Ok(Bool(b), 4)
  {
    Cut(PutUint(o, if b then 1 else 0, 4), rest);
    Uint32(o, if b then 1 else 0);
  }

  lemma TextRoundTrip(o: Order, s: seq<byte>, rest: seq<byte>)
    requires |s| < TWO32
    ensures GetText(o, PutUint(o, |s|, 4) + s + [0] + rest) == Ok(Text(s), |s| + 5)
  {
    var len := PutUint(o, |s|, 4);
    Uint32(o, |s|);
    Middle(len, s, [0], rest);
  }

  lemma Middle<A>(a: seq<A>, b: seq<A>, c: seq<A>, d: seq<A>)
    ensures (a + b + c + d)[..|a|] == a && (a + b + c + d)[|a|..|a| + |b|] == b
  {}

  lemma SigRoundTrip(s: seq<byte>, rest: seq<byte>)
    requires ParseVerdict(s).Accept?
    ensures GetSig(SigBytes(s) + rest) == Ok(Text(s), |s| + 2)
  {
    Middle([|s| % 256], s, [0], rest);
  }

  lemma LeafTextRoundTrip(o: Order, p: Prim, s: seq<byte>, rest: seq<byte>)
    requires LeafTyped(p, Text(s)) && LeafInDomain(p, Text(s))
    ensures GetLeaf(o, p, LeafBytes(o, p, Text(s)) + rest) == Ok(Text(s), |LeafBytes(o, p, Text(s))|)
  {
    hide PutUint, GetUint, GetSig, GetText, ParseVerdict;
    if p == G {
      SigRoundTrip(s, rest);
    } else {
      TextRoundTrip(o, s, rest);
    }
  }

  lemma LeafRoundTrip(o: Order, p: Prim, v: Value, rest: seq<byte>)
    requires LeafTyped(p, v) && LeafInDomain(p, v)
    ensures GetLeaf(o, p, LeafBytes(o, p, v) + rest) == Ok(v, |LeafBytes(o, p, v)|)
  {
    hide PutUint, GetUint, GetNum, GetBool, ToWord, LeafInDomain, ParseVerdict;
    match v
    case Num(n) => NumRoundTrip(o, p, n, rest);
    case Bool(b) => BoolRoundTrip(o, b, rest);
    case Text(s) => LeafTextRoundTrip(o, p, s, rest);
  }

  // ---------------------------------------------------------------- reading composes

  lemma PadReads(o: Order, t: Ty, depth: nat, body: seq<byte>, pos: nat, v: Value, ok: bool)
    requires ReadsBody(o, t, depth, body, pos + Padding(pos, Align(t)), v, ok)
    ensures Reads(o, t, depth, Zeros(Padding(pos, Align(t))) + body, pos, v, ok)
  {
    hide Contents, Padding;
    var pad := Zeros(Padding(pos, Align(t)));
    forall rest ensures Unmarshal(o, t, depth, pad + body + rest, pos) == Answer(ok, v, pad + body) {
      Assoc(pad, body, rest);
      Cut(pad, body + rest);
    }
  }

  lemma LeafReads(o: Order, p: Prim, depth: nat, pos: nat, v: Value)
    requires LeafTyped(p, v) && LeafInDomain(p, v) && depth <= MAX_DEPTH
    ensures ReadsBody(o, Leaf(p), depth, LeafBytes(o, p, v), pos, v, true)
  {
    hide GetLeaf, LeafBytes, LeafInDomain;
    forall rest ensures Contents(o, Leaf(p), depth, LeafBytes(o, p, v) + rest, pos) == Ok(v, |LeafBytes(o, p, v)|) {
      LeafRoundTrip(o, p, v, rest);
    }
  }

  lemma VariantReads(o: Order, t: Ty, depth: nat, inner: seq<byte>, pos: nat, v: Value, ok: bool)
    requires |Print(t)| <= 255 && Nest(t) <= MAX_DEPTH && depth < MAX_DEPTH
    requires Reads(o, t, depth + 1, inner, pos + |SigBytes(Print(t))|, v, ok)
    ensures ReadsBody(o, Leaf(V), depth, SigBytes(Print(t)) + inner, pos, Variant(t, v), ok)
  {
    hide Reads, ReadsBody, ReadsCarried, ParseVerdict, Print, Nest;
    CarriedReads(o, t, depth + 1, inner, pos + |SigBytes(Print(t))|, v, ok);
    CarriedAccepted(t);
    SigThenReads(o, Print(t), depth, inner, pos, Variant(t, v), ok);
  }

  lemma SigThenReads(o: Order, sig: seq<byte>, depth: nat, inner: seq<byte>, pos: nat, v: Value, ok: bool)
    requires ParseVerdict(sig).Accept? && depth < MAX_DEPTH
    requires ReadsCarried(o, sig, depth + 1, inner, pos + |sig| + 2, v, ok)
    ensures ReadsBody(o, Leaf(V), depth, SigBytes(sig) + inner, pos, v, ok)
  {
    hide GetCarried, GetSig, ParseVerdict, GetVariant;
    forall rest
      ensures GetVariant(o, depth, SigBytes(sig) + inner + rest, pos) == Answer(ok, v, SigBytes(sig) + inner)
    {
      SigThen(o, sig, depth, inner + rest, pos);
      Assoc(SigBytes(sig), inner, rest);
    }
  }

  lemma SigThen(o: Order, sig: seq<byte>, depth: nat, tail: seq<byte>, pos: nat)
    requires ParseVerdict(sig).Accept? && depth < MAX_DEPTH
    ensures GetVariant(o, depth, SigBytes(sig) + tail, pos) ==
            After(|sig| + 2, GetCarried(o, sig, depth + 1, tail, pos + |sig| + 2))
  {
    hide GetCarried, ParseVerdict, GetSig;
    SigRoundTrip(sig, tail);
    Cut(SigBytes(sig), tail);
  }

  lemma CarriedReads(o: Order, t: Ty, depth: nat, inner: seq<byte>, pos: nat, v: Value, ok: bool)
    requires |Print(t)| <= 255 && Nest(t) <= MAX_DEPTH && Reads(o, t, depth, inner, pos, v, ok)
    ensures ReadsCarried(o, Print(t), depth, inner, pos, Variant(t, v), ok)
  {
    hide Unmarshal, Print, Valid, TypeFor, ParseVerdict, Nest;
    CarriedSignature(t);
    forall rest ensures GetCarried(o, Print(t), depth, inner + rest, pos) == Answer(ok, Variant(t, v), inner) {
    }
  }

  lemma CarriedAccepted(t: Ty)
    requires |Print(t)| <= 255 && Nest(t) <= MAX_DEPTH
    ensures ParseVerdict(Print(t)).Accept?
  {
    CarriedSignature(t);
  }

  /** A variant's signature is read back as the type it was printed from. */
  lemma CarriedSignature(t: Ty)
    requires |Print(t)| <= 255 && Nest(t) <= MAX_DEPTH
    ensures ParseVerdict(Print(t)).Accept? && Valid(Print(t), 0) == Accept([]) && TypeFor(Print(t)) == Some(t)
  {
    hide Valid, TypeFor, Print, Nest;
    assert Print(t) + [] == Print(t);
    ValidPrint(t, [], 0);
    assert ValidAll(Print(t), 0) == ValidAll([], 0);
    TypeForPrint(t, []);
  }

  lemma Cut3<A>(a: seq<A>, b: seq<A>, c: seq<A>, d: seq<A>)
    ensures (a + b + c + d)[..|a|] == a && (a + b + c + d)[|a| + |b|..] == c + d
  {
    Assoc(a + b, c, d);
    Cut(a + b, c + d);
    Assoc(a, b, c + d);
    Cut(a, b + (c + d));
  }

  lemma FrameParts(o: Order, len: seq<byte>, pad: seq<byte>, content: seq<byte>, rest: seq<byte>)
    requires |len| == 4 && GetUint(o, len) == |content|
    ensures Frames(o, len + pad + content, 4 + |pad|, content, rest)
  {
    hide GetUint;
    Cut3(len, pad, content, rest);
  }

  /** bytes announce the length of content and hold it, `start` bytes ahead. */
  predicate Frames(o: Order, bytes: seq<byte>, start: nat, content: seq<byte>, rest: seq<byte>) {
    var buf := bytes + rest;
    4 <= start && |bytes| == start + |content| && GetUint(o, buf[..4]) == |content| && buf[start..] == content + rest
  }

  lemma FrameCut(o: Order, pos: nat, align: Alignment, content: seq<byte>, rest: seq<byte>)
    requires |content| < TWO32
    ensures Frames(o, Framed(o, pos, align, content), 4 + Padding(pos + 4, align), content, rest)
  {
    hide PutUint, GetUint, Padding, Zeros;
    Uint32(o, |content|);
    FrameParts(o, PutUint(o, |content|, 4), Zeros(Padding(pos + 4, align)), content, rest);
  }

  lemma FramedItemsAt(o: Order, e: Ty, depth: nat, buf: seq<byte>, pos: nat, start: nat, content: seq<byte>, rest: seq<byte>,
                      vs: seq<Value>, ok: bool)
    requires depth <= MAX_DEPTH && start <= |buf| && buf[start..] == content + rest
    requires GetItems(o, e, depth, content + rest, pos + start, |content|) == Answer(ok, vs, content)
    ensures FramedItems(o, e, depth, buf, pos, start, |content|) == if ok then Ok(List(vs), start + |content|) else Err
  {
    hide GetItems;
  }

  lemma FramedEntriesAt(o: Order, k: Prim, e: Ty, depth: nat, buf: seq<byte>, pos: nat, start: nat, content: seq<byte>,
                        rest: seq<byte>, es: seq<Entry>, ok: bool)
    requires depth <= MAX_DEPTH && start <= |buf| && buf[start..] == content + rest
    requires GetEntries(o, k, e, depth, content + rest, pos + start, |content|, []) == Answer(ok, es, content)
    ensures FramedEntries(o, k, e, depth, buf, pos, start, |content|) == if ok then Ok(Map(es), start + |content|) else Err
  {
    hide GetEntries;
  }

  lemma ArrayReadsAt(o: Order, e: Ty, depth: nat, bytes: seq<byte>, content: seq<byte>, pos: nat,
                     vs: seq<Value>, ok: bool, rest: seq<byte>)
    requires depth < MAX_DEPTH && Frames(o, bytes, 4 + Padding(pos + 4, Align(e)), content, rest)
    requires GetItems(o, e, depth + 1, content + rest, FirstAt(pos, Align(e)), |content|) == Answer(ok, vs, content)
    ensures GetArray(o, e, depth, bytes + rest, pos) == Answer(ok, List(vs), bytes)
  {
    hide GetItems, GetUint, Padding, FramedItems;
    var buf, start := bytes + rest, 4 + Padding(pos + 4, Align(e));
    FramedItemsAt(o, e, depth + 1, buf, pos, start, content, rest, vs, ok);
    assert GetArray(o, e, depth, buf, pos) == FramedItems(o, e, depth + 1, buf, pos, start, |content|);
  }

  lemma DictReadsAt(o: Order, k: Prim, e: Ty, depth: nat, bytes: seq<byte>, content: seq<byte>, pos: nat,
                    es: seq<Entry>, ok: bool, rest: seq<byte>)
    requires depth < MAX_DEPTH - 1 && Frames(o, bytes, 4 + Padding(pos + 4, 8), content, rest)
    requires GetEntries(o, k, e, depth + 2, content + rest, FirstAt(pos, 8), |content|, []) == Answer(ok, es, content)
    ensures GetDict(o, k, e, depth, bytes + rest, pos) == Answer(ok, Map(es), bytes)
  {
    hide GetEntries, GetUint, Padding, FramedEntries;
    FramedEntriesAt(o, k, e, depth + 2, bytes + rest, pos, 4 + Padding(pos + 4, 8), content, rest, es, ok);
  }

  lemma ArrayReads(o: Order, e: Ty, depth: nat, content: seq<byte>, pos: nat, vs: seq<Value>, ok: bool)
    requires |content| < TWO32 && depth < MAX_DEPTH
    requires ReadsItems(o, e, depth + 1, content, FirstAt(pos, Align(e)), vs, ok)
    ensures ReadsBody(o, Array(e), depth, Framed(o, pos, Align(e), content), pos, List(vs), ok)
  {
    hide GetItems, GetUint, Framed, Padding, Frames, GetArray;
    var bytes := Framed(o, pos, Align(e), content);
    forall rest ensures GetArray(o, e, depth, bytes + rest, pos) == Answer(ok, List(vs), bytes) {
      FrameCut(o, pos, Align(e), content, rest);
      ArrayReadsAt(o, e, depth, bytes, content, pos, vs, ok, rest);
    }
  }

  lemma DictReads(o: Order, k: Prim, e: Ty, depth: nat, content: seq<byte>, pos: nat, es: seq<Entry>, ok: bool)
    requires |content| < TWO32 && depth < MAX_DEPTH - 1
    requires ReadsEntries(o, k, e, depth + 2, content, FirstAt(pos, 8), [], es, ok)
    ensures ReadsBody(o, Dict(k, e), depth, Framed(o, pos, 8, content), pos, Map(es), ok)
  {
    hide GetEntries, GetUint, Framed, Padding, Frames, GetDict;
    var bytes := Framed(o, pos, 8, content);
    assert [] + es == es;
    forall rest ensures GetDict(o, k, e, depth, bytes + rest, pos) == Answer(ok, Map(es), bytes) {
      FrameCut(o, pos, 8, content, rest);
      DictReadsAt(o, k, e, depth, bytes, content, pos, es, ok, rest);
    }
  }

  lemma StructReads(o: Order, fs: seq<Ty>, depth: nat, bytes: seq<byte>, pos: nat, vs: seq<Value>, ok: bool)
    requires depth < MAX_DEPTH && ReadsMembers(o, fs, depth + 1, bytes, pos, vs, ok)
    ensures ReadsBody(o, Struct(fs), depth, bytes, pos, Tuple(vs), ok)
  {
    hide GetMembers;
    forall rest ensures GetStruct(o, fs, depth, bytes + rest, pos) == Answer(ok, Tuple(vs), bytes) {
    }
  }

  lemma ItemsCons(o: Order, e: Ty, depth: nat, head: seq<byte>, tail: seq<byte>, pos: nat,
                  vs: seq<Value>, ok: bool, oks: bool)
    requires vs != [] && |head| > 0 && Reads(o, e, depth, head, pos, vs[0], ok)
    requires ReadsItems(o, e, depth, tail, pos + |head|, vs[1..], oks)
    ensures ReadsItems(o, e, depth, head + tail, pos, vs, ok && oks)
  {
    hide Unmarshal, GetItems;
    forall rest
      ensures GetItems(o, e, depth, head + tail + rest, pos, |head + tail|) == Answer(ok && oks, vs, head + tail)
    {
      Assoc(head, tail, rest);
      Cut(head, tail + rest);
      ItemsConsAt(o, e, depth, head, tail, pos, vs, ok, oks, rest);
    }
  }

  lemma ItemsConsAt(o: Order, e: Ty, depth: nat, head: seq<byte>, tail: seq<byte>, pos: nat,
                    vs: seq<Value>, ok: bool, oks: bool, rest: seq<byte>)
    requires depth <= MAX_DEPTH && vs != [] && |head| > 0 && (head + (tail + rest))[|head|..] == tail + rest
    requires Unmarshal(o, e, depth, head + (tail + rest), pos) == Answer(ok, vs[0], head)
    requires GetItems(o, e, depth, tail + rest, pos + |head|, |tail|) == Answer(oks, vs[1..], tail)
    ensures GetItems(o, e, depth, head + (tail + rest), pos, |head + tail|) == Answer(ok && oks, vs, head + tail)
  {
    hide Unmarshal;
    assert vs == [vs[0]] + vs[1..];
  }

  lemma MembersCons(o: Order, ts: seq<Ty>, depth: nat, head: seq<byte>, tail: seq<byte>, pos: nat,
                    vs: seq<Value>, ok: bool, oks: bool)
    requires ts != [] && vs != [] && Reads(o, ts[0], depth, head, pos, vs[0], ok)
    requires ReadsMembers(o, ts[1..], depth, tail, pos + |head|, vs[1..], oks)
    ensures ReadsMembers(o, ts, depth, head + tail, pos, vs, ok && oks)
  {
    hide Unmarshal, GetMembers;
    forall rest
      ensures GetMembers(o, ts, depth, head + tail + rest, pos) == Answer(ok && oks, vs, head + tail)
    {
      Assoc(head, tail, rest);
      Cut(head, tail + rest);
      MembersConsAt(o, ts, depth, head, tail, pos, vs, ok, oks, rest);
    }
  }

  lemma MembersConsAt(o: Order, ts: seq<Ty>, depth: nat, head: seq<byte>, tail: seq<byte>, pos: nat,
                      vs: seq<Value>, ok: bool, oks: bool, rest: seq<byte>)
    requires depth <= MAX_DEPTH && ts != [] && vs != [] && (head + (tail + rest))[|head|..] == tail + rest
    requires Unmarshal(o, ts[0], depth, head + (tail + rest), pos) == Answer(ok, vs[0], head)
    requires GetMembers(o, ts[1..], depth, tail + rest, pos + |head|) == Answer(oks, vs[1..], tail)
    ensures GetMembers(o, ts, depth, head + (tail + rest), pos) == Answer(ok && oks, vs, head + tail)
  {
    hide Unmarshal;
    assert vs == [vs[0]] + vs[1..];
  }

  lemma PairReads(o: Order, k: Prim, e: Ty, depth: nat, key: seq<byte>, val: seq<byte>, pos: nat,
                  entry: Entry, ok: bool)
    requires Reads(o, Leaf(k), depth, key, pos, entry.key, true)
    requires Reads(o, e, depth, val, pos + |key|, entry.val, ok)
    ensures ReadsPair(o, k, e, depth, key + val, pos, entry, ok)
  {
    hide Unmarshal;
    forall rest ensures GetPair(o, k, e, depth, key + val + rest, pos) == Answer(ok, entry, key + val) {
      Assoc(key, val, rest);
      Cut(key, val + rest);
    }
  }

  lemma EntryReads(o: Order, k: Prim, e: Ty, depth: nat, pair: seq<byte>, pos: nat, entry: Entry, ok: bool)
    requires IsKey(k) && ReadsPair(o, k, e, depth, pair, pos + Padding(pos, 8), entry, ok)
    ensures ReadsEntry(o, k, e, depth, Zeros(Padding(pos, 8)) + pair, pos, entry, ok)
  {
    hide GetPair, Padding;
    var pad := Zeros(Padding(pos, 8));
    forall rest ensures GetEntry(o, k, e, depth, pad + pair + rest, pos) == Answer(ok, entry, pad + pair) {
      Assoc(pad, pair, rest);
      Cut(pad, pair + rest);
    }
  }

  lemma EntriesCons(o: Order, k: Prim, e: Ty, depth: nat, head: seq<byte>, tail: seq<byte>, pos: nat,
                    acc: seq<Entry>, es: seq<Entry>, ok: bool, oks: bool)
    requires es != [] && |head| > 0 && ReadsEntry(o, k, e, depth, head, pos, es[0], ok)
    requires Upsert(k, acc, es[0]) == acc + [es[0]]
    requires ReadsEntries(o, k, e, depth, tail, pos + |head|, acc + [es[0]], es[1..], oks)
    ensures ReadsEntries(o, k, e, depth, head + tail, pos, acc, es, ok && oks)
  {
    hide GetEntry, GetEntries, Upsert;
    forall rest
      ensures GetEntries(o, k, e, depth, head + tail + rest, pos, |head + tail|, acc) ==
              Answer(ok && oks, acc + es, head + tail)
    {
      Assoc(head, tail, rest);
      Cut(head, tail + rest);
      EntriesConsAt(o, k, e, depth, head, tail, pos, acc, es, ok, oks, rest);
    }
  }

  lemma EntriesConsAt(o: Order, k: Prim, e: Ty, depth: nat, head: seq<byte>, tail: seq<byte>, pos: nat,
                      acc: seq<Entry>, es: seq<Entry>, ok: bool, oks: bool, rest: seq<byte>)
    requires depth <= MAX_DEPTH && es != [] && |head| > 0 && (head + (tail + rest))[|head|..] == tail + rest
    requires GetEntry(o, k, e, depth, head + (tail + rest), pos) == Answer(ok, es[0], head)
    requires Upsert(k, acc, es[0]) == acc + [es[0]]
    requires GetEntries(o, k, e, depth, tail + rest, pos + |head|, |tail|, acc + [es[0]]) ==
             Answer(oks, acc + [es[0]] + es[1..], tail)
    ensures GetEntries(o, k, e, depth, head + (tail + rest), pos, |head + tail|, acc) == Answer(ok && oks, acc + es, head + tail)
  {
    hide GetEntry, Upsert;
    assert acc + [es[0]] + es[1..] == acc + es;
  }

  // ---------------------------------------------------------------- sizes

  /** A value of a type with size occupies at least one byte. */
  lemma {:induction false} MarshalNonEmpty(o: Order, t: Ty, v: Value, pos: nat)
    requires WellTyped(t, v) && !ZeroSize(t)
    ensures |Marshal(o, t, v, pos)| > 0
    decreases v
  {
    if t.Struct? {
      MembersNonEmpty(o, t.fields, v.members, pos + Padding(pos, 8));
    } else {
      BodyNonEmpty(o, t, v, pos + Padding(pos, Align(t)));
    }
  }

  lemma BodyNonEmpty(o: Order, t: Ty, v: Value, pos: nat)
    requires WellTyped(t, v) && !t.Struct?
    ensures |Body(o, t, v, pos)| > 0
  {
    match t
    case Leaf(p) => assert p != V ==> Body(o, t, v, pos) == LeafBytes(o, p, v);
    case Array(e) => assert Body(o, t, v, pos) == ArrayBytes(o, e, v, pos);
    case Dict(k, e) => assert Body(o, t, v, pos) == DictBytes(o, k, e, v, pos);
  }

  lemma {:induction false} MembersNonEmpty(o: Order, ts: seq<Ty>, vs: seq<Value>, pos: nat)
    requires |ts| == |vs| && forall i | 0 <= i < |vs| :: WellTyped(ts[i], vs[i])
    requires exists i | 0 <= i < |ts| :: !ZeroSize(ts[i])
    ensures |MarshalMembers(o, ts, vs, pos)| > 0
    decreases vs
  {
    if !ZeroSize(ts[0]) {
      MarshalNonEmpty(o, ts[0], vs[0], pos);
    } else {
      var i :| 0 <= i < |ts| && !ZeroSize(ts[i]);
      assert ts[i] == ts[1..][i - 1];
      MembersNonEmpty(o, ts[1..], vs[1..], pos + |Marshal(o, ts[0], vs[0], pos)|);
    }
  }

  lemma EntryNonEmpty(o: Order, k: Prim, e: Ty, entry: Entry, pos: nat)
    requires WellTyped(Leaf(k), entry.key)
    ensures |MarshalEntry(o, k, e, entry, pos)| > 0
  {
    MarshalNonEmpty(o, Leaf(k), entry.key, pos + Padding(pos, 8));
  }

  // ---------------------------------------------------------------- the round trip

  /** Decoding the bytes of v, followed by anything, gives v back and consumes exactly its bytes,
      if v is nested within the limit; if it is not, the decoder refuses it as the encoder does. */
  lemma {:induction false} RoundTrip(o: Order, t: Ty, v: Value, depth: nat, pos: nat)
    requires WellTyped(t, v) && InDomain(o, t, v, pos) && depth <= MAX_DEPTH
    ensures Reads(o, t, depth, Marshal(o, t, v, pos), pos, v, DepthOk(t, v, depth))
    decreases v, 2
  {
    hide ReadsBody, Reads, DepthOk, WellTyped, InDomain, Body, Padding;
    BodyRoundTrip(o, t, v, depth, pos);
    PadReads(o, t, depth, Body(o, t, v, pos + Padding(pos, Align(t))), pos, v, DepthOk(t, v, depth));
  }

  lemma {:induction false} BodyRoundTrip(o: Order, t: Ty, v: Value, depth: nat, pos: nat)
    requires WellTyped(t, v) && InDomain(o, t, v, pos) && depth <= MAX_DEPTH
    ensures var at := pos + Padding(pos, Align(t));
            ReadsBody(o, t, depth, Body(o, t, v, at), at, v, DepthOk(t, v, depth))
    decreases v, 1
  {
    hide ReadsBody, Body, DepthOk, InDomain, WellTyped, Padding;
    match t
    case Leaf(p) =>
      if p != V {
        LeafCase(o, p, v, depth, pos);
      } else {
        VariantCase(o, v, depth, pos);
      }
    case Array(e) => ArrayCase(o, e, v, depth, pos);
    case Dict(k, e) => DictCase(o, k, e, v, depth, pos);
    case Struct(fs) => StructCase(o, fs, v, depth, pos);
  }

  lemma LeafCase(o: Order, p: Prim, v: Value, depth: nat, pos: nat)
    requires p != V && WellTyped(Leaf(p), v) && InDomain(o, Leaf(p), v, pos) && depth <= MAX_DEPTH
    ensures var at := pos + Padding(pos, Align(Leaf(p)));
            ReadsBody(o, Leaf(p), depth, Body(o, Leaf(p), v, at), at, v, DepthOk(Leaf(p), v, depth))
  {
    hide ReadsBody, Padding, LeafBytes, LeafInDomain;
    LeafReads(o, p, depth, pos + Padding(pos, Align(Leaf(p))), v);
  }

  /** Beyond the limit a container is refused, whatever the bytes. */
  lemma TooDeep(o: Order, t: Ty, depth: nat, bytes: seq<byte>, pos: nat, v: Value)
    requires (t == Leaf(V) || t.Array? || t.Struct? ==> depth == MAX_DEPTH) && (t.Dict? ==> MAX_DEPTH - 1 <= depth <= MAX_DEPTH)
    requires t.Leaf? ==> t == Leaf(V)
    ensures ReadsBody(o, t, depth, bytes, pos, v, false)
  {
    hide GetSig, FramedItems, FramedEntries, GetMembers, GetUint, Padding;
    forall rest ensures Contents(o, t, depth, bytes + rest, pos) == Err {
      match t
      case Leaf(_) => assert GetVariant(o, depth, bytes + rest, pos) == Err;
      case Array(e) => assert GetArray(o, e, depth, bytes + rest, pos) == Err;
      case Dict(k, e) => assert GetDict(o, k, e, depth, bytes + rest, pos) == Err;
      case Struct(fs) => assert GetStruct(o, fs, depth, bytes + rest, pos) == Err;
    }
  }

  // Nothing is read from nothing.

  lemma NoneRead(o: Order, e: Ty, ts: seq<Ty>, k: Prim, depth: nat, pos: nat, acc: seq<Entry>)
    requires depth <= MAX_DEPTH
    ensures ReadsItems(o, e, depth, [], pos, [], true)
    ensures ts == [] ==> ReadsMembers(o, ts, depth, [], pos, [], true)
    ensures ReadsEntries(o, k, e, depth, [], pos, acc, [], true)
  {
    hide Unmarshal, GetEntry;
    assert acc + [] == acc;
  }

  lemma {:induction false} StructCase(o: Order, fs: seq<Ty>, v: Value, depth: nat, pos: nat)
    requires WellTyped(Struct(fs), v) && InDomain(o, Struct(fs), v, pos) && depth <= MAX_DEPTH
    ensures var at := pos + Padding(pos, 8);
            ReadsBody(o, Struct(fs), depth, Body(o, Struct(fs), v, at), at, v, DepthOk(Struct(fs), v, depth))
    decreases v, 0
  {
    hide ReadsBody, ReadsMembers, MarshalMembers, MembersOk, MembersInDomain, Padding;
    var at := pos + Padding(pos, 8);
    if depth < MAX_DEPTH {
      MembersRoundTrip(o, fs, v.members, depth + 1, at);
      StructReads(o, fs, depth, MarshalMembers(o, fs, v.members, at), at, v.members, MembersOk(fs, v.members, depth + 1));
    } else {
      TooDeep(o, Struct(fs), depth, Body(o, Struct(fs), v, at), at, v);
    }
  }

  lemma {:induction false} VariantCase(o: Order, v: Value, depth: nat, at: nat)
    requires WellTyped(Leaf(V), v) && InDomain(o, Leaf(V), v, at) && depth <= MAX_DEPTH
    ensures ReadsBody(o, Leaf(V), depth, Body(o, Leaf(V), v, at), at, v, DepthOk(Leaf(V), v, depth))
    decreases v, 0
  {
    hide ReadsBody, Reads, Marshal, Print, Nest, SigBytes;
    if depth < MAX_DEPTH {
      var first := at + |SigBytes(Print(v.ty))|;
      RoundTrip(o, v.ty, v.val, depth + 1, first);
      VariantReads(o, v.ty, depth, Marshal(o, v.ty, v.val, first), at, v.val, DepthOk(v.ty, v.val, depth + 1));
    } else {
      TooDeep(o, Leaf(V), depth, Body(o, Leaf(V), v, at), at, v);
    }
  }

  lemma {:induction false} ArrayCase(o: Order, e: Ty, v: Value, depth: nat, pos: nat)
    requires WellTyped(Array(e), v) && InDomain(o, Array(e), v, pos) && depth <= MAX_DEPTH
    ensures var at := pos + Padding(pos, 4);
            ReadsBody(o, Array(e), depth, Body(o, Array(e), v, at), at, v, DepthOk(Array(e), v, depth))
    decreases v, 0
  {
    hide ReadsBody, ReadsItems, MarshalItems, ItemsOk, ItemsInDomain, Padding, Framed, ZeroSize;
    var at := pos + Padding(pos, 4);
    if depth < MAX_DEPTH {
      var first := FirstAt(at, Align(e));
      ItemsRoundTrip(o, e, v.items, depth + 1, first);
      var content := MarshalItems(o, e, v.items, first);
      ArrayReads(o, e, depth, content, at, v.items, ItemsOk(e, v.items, depth + 1));
      assert Body(o, Array(e), v, at) == Framed(o, at, Align(e), content);
    } else {
      TooDeep(o, Array(e), depth, Body(o, Array(e), v, at), at, v);
    }
  }

  lemma {:induction false} DictCase(o: Order, k: Prim, e: Ty, v: Value, depth: nat, pos: nat)
    requires WellTyped(Dict(k, e), v) && InDomain(o, Dict(k, e), v, pos) && depth <= MAX_DEPTH
    ensures var at := pos + Padding(pos, 4);
            ReadsBody(o, Dict(k, e), depth, Body(o, Dict(k, e), v, at), at, v, DepthOk(Dict(k, e), v, depth))
    decreases v, 0
  {
    hide ReadsBody, ReadsEntries, MarshalEntries, EntriesOk, EntriesInDomain, Padding, Framed, DistinctKeys, AllAppend;
    var at := pos + Padding(pos, 4);
    if depth < MAX_DEPTH - 1 {
      var first := FirstAt(at, 8);
      DistinctFromStart(k, v.entries);
      EntriesRoundTrip(o, k, e, [], v.entries, depth + 2, first);
      DictReads(o, k, e, depth, MarshalEntries(o, k, e, v.entries, first), at, v.entries,
                EntriesOk(e, v.entries, depth + 2));
    } else {
      TooDeep(o, Dict(k, e), depth, Body(o, Dict(k, e), v, at), at, v);
    }
  }

  lemma {:induction false} ItemsRoundTrip(o: Order, e: Ty, vs: seq<Value>, depth: nat, pos: nat)
    requires forall i | 0 <= i < |vs| :: WellTyped(e, vs[i])
    requires ItemsInDomain(o, e, vs, pos) && (vs == [] || !ZeroSize(e)) && depth <= MAX_DEPTH
    ensures ReadsItems(o, e, depth, MarshalItems(o, e, vs, pos), pos, vs, ItemsOk(e, vs, depth))
    decreases vs
  {
    hide Reads, ReadsItems, Marshal, InDomain, DepthOk, WellTyped, ZeroSize;
    if vs == [] {
      NoneRead(o, e, [], Y, depth, pos, []);
    } else {
      var head := Marshal(o, e, vs[0], pos);
      MarshalNonEmpty(o, e, vs[0], pos);
      RoundTrip(o, e, vs[0], depth, pos);
      ItemsRoundTrip(o, e, vs[1..], depth, pos + |head|);
      ItemsCons(o, e, depth, head, MarshalItems(o, e, vs[1..], pos + |head|), pos, vs,
                DepthOk(e, vs[0], depth), ItemsOk(e, vs[1..], depth));
    }
  }

  lemma {:induction false} MembersRoundTrip(o: Order, ts: seq<Ty>, vs: seq<Value>, depth: nat, pos: nat)
    requires |ts| == |vs| && forall i | 0 <= i < |vs| :: WellTyped(ts[i], vs[i])
    requires MembersInDomain(o, ts, vs, pos) && depth <= MAX_DEPTH
    ensures ReadsMembers(o, ts, depth, MarshalMembers(o, ts, vs, pos), pos, vs, MembersOk(ts, vs, depth))
    decreases vs
  {
    hide Reads, ReadsMembers, Marshal, InDomain, DepthOk, WellTyped;
    if vs == [] {
      NoneRead(o, Leaf(Y), ts, Y, depth, pos, []);
    } else {
      var head := Marshal(o, ts[0], vs[0], pos);
      RoundTrip(o, ts[0], vs[0], depth, pos);
      MembersRoundTrip(o, ts[1..], vs[1..], depth, pos + |head|);
      MembersCons(o, ts, depth, head, MarshalMembers(o, ts[1..], vs[1..], pos + |head|), pos,
                  vs, DepthOk(ts[0], vs[0], depth), MembersOk(ts[1..], vs[1..], depth));
    }
  }

  lemma KeyRoundTrip(o: Order, k: Prim, key: Value, depth: nat, pos: nat)
    requires IsKey(k) && WellTyped(Leaf(k), key) && InDomain(o, Leaf(k), key, pos) && depth <= MAX_DEPTH
    ensures Reads(o, Leaf(k), depth, Marshal(o, Leaf(k), key, pos), pos, key, true)
  {
    hide Reads, ReadsBody, LeafBytes, LeafInDomain, Padding;
    LeafReads(o, k, depth, pos + Padding(pos, Align(Leaf(k))), key);
    PadReads(o, Leaf(k), depth, LeafBytes(o, k, key), pos, key, true);
  }

  lemma {:induction false} PairRoundTrip(o: Order, k: Prim, e: Ty, entry: Entry, depth: nat, at: nat)
    requires IsKey(k) && WellTyped(Leaf(k), entry.key) && WellTyped(e, entry.val) && depth <= MAX_DEPTH
    requires InDomain(o, Leaf(k), entry.key, at)
    requires InDomain(o, e, entry.val, at + |Marshal(o, Leaf(k), entry.key, at)|)
    ensures ReadsPair(o, k, e, depth, MarshalPair(o, k, e, entry, at), at, entry, EntryOk(e, entry, depth))
    decreases entry, 3
  {
    hide Reads, ReadsPair, Marshal, InDomain, DepthOk, WellTyped;
    var key := Marshal(o, Leaf(k), entry.key, at);
    var val := Marshal(o, e, entry.val, at + |key|);
    RoundTrip(o, e, entry.val, depth, at + |key|);
    KeyRoundTrip(o, k, entry.key, depth, at);
    assert MarshalPair(o, k, e, entry, at) == key + val;
    PairReads(o, k, e, depth, key, val, at, entry, DepthOk(e, entry.val, depth));
  }

  lemma {:induction false} EntryRoundTrip(o: Order, k: Prim, e: Ty, entry: Entry, depth: nat, pos: nat)
    requires IsKey(k) && WellTyped(Leaf(k), entry.key) && WellTyped(e, entry.val)
    requires EntryInDomain(o, k, e, entry, pos) && depth <= MAX_DEPTH
    ensures ReadsEntry(o, k, e, depth, MarshalEntry(o, k, e, entry, pos), pos, entry, EntryOk(e, entry, depth))
    decreases entry, 4
  {
    hide ReadsPair, ReadsEntry, MarshalPair, Padding, WellTyped, InDomain, EntryOk, Marshal;
    var at := pos + Padding(pos, 8);
    PairRoundTrip(o, k, e, entry, depth, at);
    EntryReads(o, k, e, depth, MarshalPair(o, k, e, entry, at), pos, entry, EntryOk(e, entry, depth));
  }

  /** A key that is not yet present is added at the end. */
  lemma {:induction false} UpsertFresh(k: Prim, es: seq<Entry>, e: Entry)
    requires forall i | 0 <= i < |es| :: !SameKey(k, es[i].key, e.key)
    ensures Upsert(k, es, e) == es + [e]
  {
    if es != [] {
      UpsertFresh(k, es[1..], e);
      assert es + [e] == [es[0]] + (es[1..] + [e]);
    }
  }

  /** Each entry in turn has a key not seen before. */
  predicate AllAppend(k: Prim, acc: seq<Entry>, es: seq<Entry>)
    decreases |es|
  {
    es == [] || (Upsert(k, acc, es[0]) == acc + [es[0]] && AllAppend(k, acc + [es[0]], es[1..]))
  }

  lemma {:induction false} DistinctAppend(k: Prim, acc: seq<Entry>, es: seq<Entry>)
    requires DistinctKeys(k, acc + es)
    ensures AllAppend(k, acc, es)
    decreases |es|
  {
    if es != [] {
      forall i | 0 <= i < |acc| ensures !SameKey(k, acc[i].key, es[0].key) {
        assert (acc + es)[i] == acc[i] && (acc + es)[|acc|] == es[0];
      }
      UpsertFresh(k, acc, es[0]);
      assert acc + [es[0]] + es[1..] == acc + es;
      DistinctAppend(k, acc + [es[0]], es[1..]);
    }
  }

  lemma DistinctFromStart(k: Prim, es: seq<Entry>)
    requires DistinctKeys(k, es)
    ensures AllAppend(k, [], es)
  {
    assert [] + es == es;
    DistinctAppend(k, [], es);
  }

  lemma {:induction false} EntriesRoundTrip(o: Order, k: Prim, e: Ty, acc: seq<Entry>, es: seq<Entry>, depth: nat, pos: nat)
    requires forall i | 0 <= i < |es| :: WellTyped(Leaf(k), es[i].key) && WellTyped(e, es[i].val)
    requires IsKey(k) && AllAppend(k, acc, es) && EntriesInDomain(o, k, e, es, pos) && depth <= MAX_DEPTH
    ensures ReadsEntries(o, k, e, depth, MarshalEntries(o, k, e, es, pos), pos, acc, es, EntriesOk(e, es, depth))
    decreases es
  {
    hide ReadsEntry, ReadsEntries, MarshalEntry, EntryInDomain, EntryOk, WellTyped, Upsert;
    if es == [] {
      NoneRead(o, e, [], k, depth, pos, acc);
    } else {
      var head := MarshalEntry(o, k, e, es[0], pos);
      EntryNonEmpty(o, k, e, es[0], pos);
      EntryRoundTrip(o, k, e, es[0], depth, pos);
      EntriesRoundTrip(o, k, e, acc + [es[0]], es[1..], depth, pos + |head|);
      EntriesCons(o, k, e, depth, head, MarshalEntries(o, k, e, es[1..], pos + |head|), pos, acc, es,
                  EntryOk(e, es[0], depth), EntriesOk(e, es[1..], depth));
    }
  }
}
