/** `EncodeTo` and `DecodeMessage` over the encoder and the decoder. */
module DBusMessageCodec {
  import opened Common
  import opened ByteOrder
  import opened DBusType
  import opened DBusSignature
  import opened DBusWire
  import opened DBusRoundTrip
  import opened DBusEncoder
  import opened DBusDecoder
  import opened DBusProgress
  import opened DBusMessage
  import opened DBusLaws

  // ---------------------------------------------------------------- EncodeTo

  /** What Go's types guarantee about a message. */
  predicate Typed(msg: Message) {
    && msg.serial < TWO32
    && (forall k | k in msg.headers :: WellTyped(msg.headers[k].ty, msg.headers[k].val))
    && (forall i | 0 <= i < |msg.body| :: WellTyped(msg.body[i].ty, msg.body[i].val))
  }

  predicate BodyEncodable(msg: Message) {
    forall i | 0 <= i < |msg.body| :: Encodable(msg.body[i].ty, msg.body[i].val, 0)
  }

  lemma HeaderItemEncodable(k: byte, v: Var)
    requires v.ty == Leaf(FieldType(k)) && WellTyped(v.ty, v.val)
    ensures WellTyped(HEADER, HeaderItem(k, v)) && Encodable(HEADER, HeaderItem(k, v), 1)
  {
    var vs := HeaderItem(k, v).members;
    assert WellTyped(Leaf(Y), vs[0]) && WellTyped(Leaf(V), vs[1]);
    assert Encodable(v.ty, v.val, 3);
    assert Encodable(Leaf(V), vs[1], 2) && Encodable(Leaf(Y), vs[0], 2);
  }

  lemma HeadersEncodable(msg: Message, keys: seq<byte>)
    requires Typed(msg) && IsValid(msg) && Enumerates(keys, msg.headers)
    ensures var v := List(HeaderItems(msg.headers, keys)); WellTyped(Array(HEADER), v) && Encodable(Array(HEADER), v, 0)
  {
    forall i | 0 <= i < |keys|
      ensures var v := HeaderItem(keys[i], msg.headers[keys[i]]); WellTyped(HEADER, v) && Encodable(HEADER, v, 1)
    {
      HeaderItemEncodable(keys[i], msg.headers[keys[i]]);
    }
  }

  lemma HeadEncodable(o: Order, msg: Message, keys: seq<byte>, length: nat)
    requires Typed(msg) && IsValid(msg) && Enumerates(keys, msg.headers)
    ensures var vs := HeadValues(o, msg, keys, length);
            |vs| == |HEAD| && forall i | 0 <= i < |vs| :: WellTyped(HEAD[i], vs[i]) && Encodable(HEAD[i], vs[i], 0)
  {
    hide WellTyped, Encodable, HeaderItems, HEADER, IsValid;
    var vs := HeadValues(o, msg, keys, length);
    HeadersEncodable(msg, keys);
    assert forall i | 1 <= i < 6 :: vs[i] == FixedValues(msg, length)[i - 1] && HEAD[i] == FIXED[i - 1];
    NumEncodable(Y, Mark(o));
    forall i | 0 <= i < 5
      ensures WellTyped(FIXED[i], FixedValues(msg, length)[i]) && Encodable(FIXED[i], FixedValues(msg, length)[i], 0)
    {
      NumEncodable(FIXED[i].prim, FixedValues(msg, length)[i].n);
    }
  }

  lemma NumEncodable(p: Prim, n: int)
    requires (p == Y && 0 <= n < 256) || (p == U && 0 <= n < TWO32)
    ensures WellTyped(Leaf(p), Num(n)) && Encodable(Leaf(p), Num(n), 0)
  {}

  /** Any order in which the header map may be enumerated. */
  method Enumerate(headers: map<byte, Var>) returns (keys: seq<byte>)
    ensures Enumerates(keys, headers)
  {
    keys := [];
    var left := headers.Keys;
    while left != {}
      invariant left <= headers.Keys
      invariant forall i | 0 <= i < |keys| :: keys[i] in headers && keys[i] !in left
      invariant forall k | k in headers :: k in keys || k in left
      invariant forall i, j | 0 <= i < j < |keys| :: keys[i] != keys[j]
      decreases left
    {
      var k :| k in left;
      keys := keys + [k];
      left := left - {k};
    }
  }

  method EncodeBody(o: Order, msg: Message) returns (body: seq<byte>)
    requires Typed(msg)
    ensures BodyEncodable(msg) ==> body == BodyBytes(o, msg)
  {
    var enc := new Encoder.AtOffset(0, o);
    if |msg.body| != 0 {
      var ts, vs := Types(msg.body), Vals(msg.body);
      assert forall i | 0 <= i < |vs| :: vs[i] == msg.body[i].val && ts[i] == msg.body[i].ty;
      var ok := enc.EncodeMembers(ts, vs, 0);
    }
    body := enc.out;
  }

  method EncodeHead(o: Order, msg: Message, keys: seq<byte>, length: nat) returns (head: seq<byte>)
    requires Typed(msg) && IsValid(msg) && Enumerates(keys, msg.headers)
    ensures |BodyBytes(o, msg)| == length ==> head == HeadBytes(o, msg, keys) + Zeros(Padding(|HeadBytes(o, msg, keys)|, 8))
  {
    hide Marshal, WellTyped, Encodable, HeadValues, Typed, IsValid, BodyBytes;
    var enc := new Encoder.AtOffset(0, o);
    HeadEncodable(o, msg, keys, length);
    var ok := enc.EncodeMembers(HEAD, HeadValues(o, msg, keys, length), 0);
    enc.AlignTo(8);
    head := enc.out;
  }

  /** An invalid or oversized message is refused; otherwise the bytes are those of the message under the
      enumeration of its headers that came up. Errors of the body's encoder are ignored by the source. */
  method EncodeTo(o: Order, msg: Message) returns (keys: seq<byte>, r: Option<seq<byte>>)
    requires Typed(msg)
    ensures Enumerates(keys, msg.headers)
    ensures !IsValid(msg) ==> r == None
    ensures IsValid(msg) && BodyEncodable(msg) ==>
              r == if |MessageBytes(o, msg, keys)| > LIMIT then None else Some(MessageBytes(o, msg, keys))
  {
    keys := Enumerate(msg.headers);
    if !IsValid(msg) {
      return keys, None;
    }
    var body := EncodeBody(o, msg);
    var head := EncodeHead(o, msg, keys, |body|);
    var buf := head + body;
    r := if |buf| > LIMIT then None else Some(buf);
  }

  // ---------------------------------------------------------------- DecodeMessage

  /** The outcome of decoding buf up to `left`. */
  ghost predicate Matches<A>(r: Step<A>, spec: Outcome<A>, buf: seq<byte>, left: seq<byte>) {
    match spec
    case Ok(v, n) => n <= |buf| && r == Done(v) && left == buf[n..]
    case Err => r == Failed
    case Stuck => r == Endless
  }

  lemma MatchesAfter<A>(k: nat, r: Step<A>, spec: Outcome<A>, buf: seq<byte>, left: seq<byte>)
    requires k <= |buf| && Matches(r, spec, buf[k..], left)
    ensures Matches(r, After(k, spec), buf, left)
  {
    if spec.Ok? {
      assert buf[k..][spec.n..] == buf[k + spec.n..];
    }
  }

  lemma {:induction false} HeaderMapDecoded(items: seq<Value>, k: byte)
    requires forall i | 0 <= i < |items| :: Decoded(HEADER, items[i])
    requires k in HeaderMap(items)
    ensures Decoded(HeaderMap(items)[k].ty, HeaderMap(items)[k].val)
  {
    var n := |items| - 1;
    if k == HeaderKey(items[n]) {
      assert HEADER.fields[1] == Leaf(V) && Decoded(HEADER.fields[1], items[n].members[1]);
    } else {
      HeaderMapDecoded(items[..n], k);
    }
  }

  lemma HeaderListDecoded(o: Order, buf: seq<byte>, hs: seq<Value>, n: nat)
    requires GetMembers(o, [Array(HEADER)], 0, buf, 12) == Ok(hs, n)
    ensures |hs| == 1 && Decoded(Array(HEADER), hs[0]) && hs[0].List?
  {
    MembersFair(o, [Array(HEADER)], 0, buf, 12);
  }

  /** The Signature header of a decoded message is a valid signature, so its body's types are known. */
  lemma DecodedSignature(o: Order, vs: seq<Value>, buf: seq<byte>, hs: seq<Value>, n: nat) returns (ts: seq<Ty>)
    requires GetMembers(o, [Array(HEADER)], 0, buf, 12) == Ok(hs, n) && IsValid(Assemble(vs, hs))
    ensures Readable(SignatureHeader(Assemble(vs, hs)), ts)
  {
    var msg := Assemble(vs, hs);
    HeaderListDecoded(o, buf, hs, n);
    var sig := SignatureHeader(msg);
    if SIGNATURE in msg.headers {
      HeaderMapDecoded(hs[0].items, SIGNATURE);
      assert msg.headers[SIGNATURE].ty == Leaf(G);
    }
    assert ValidAll(sig, 0).Accept?;
    ts := ValidAllSound(sig, 0);
    TypesForPrint(ts);
    forall i | 0 <= i < |ts| ensures Nest(ts[i]) <= MAX_DEPTH {
      MaxNestAt(ts, i);
    }
  }

  method DecodeBody(o: Order, sig: seq<byte>, ghost ts: seq<Ty>, body: seq<byte>) returns (r: Step<seq<Var>>, ghost left: seq<byte>)
    requires Readable(sig, ts)
    ensures Matches(r, ParseBody(o, sig, body), body, left)
  {
    hide Unmarshal, GetMembers, PrintAll, Print, Nest;
    left := body;
    if sig == [] {
      return Done([]), left;
    }
    var dec := new Decoder(body, o);
    var vs := dec.DecodeMembers(sig, ts, 0);
    left := dec.input;
    match vs
    case Done(vals) => r := Done(Zip(TypesFor(sig).value, vals));
    case Failed => r := Failed;
    case Endless => r := Endless;
  }

  /** The loop of message.go:172-175. */
  method CollectHeaders(items: seq<Value>) returns (headers: map<byte, Var>)
    ensures headers == HeaderMap(items)
  {
    headers := map[];
    for i := 0 to |items|
      invariant headers == HeaderMap(items[..i])
    {
      assert items[..i + 1][..i] == items[..i];
      headers := headers[HeaderKey(items[i]) := HeaderVar(items[i])];
    }
    assert items[..|items|] == items;
  }

  predicate Readable(sig: seq<byte>, ts: seq<Ty>) {
    sig == PrintAll(ts) && TypesFor(sig) == Some(ts) && forall i | 0 <= i < |ts| :: Nest(ts[i]) <= MAX_DEPTH
  }

  /** The padding before the body, and the body. */
  method ReadBody(length: nat, dec: Decoder) returns (ok: bool, body: seq<byte>, left: seq<byte>)
    modifies dec
    ensures var pad := Padding(old(dec.pos), 8);
            && (ok <==> pad + length <= |old(dec.input)|)
            && (ok ==> body == old(dec.input)[pad..pad + length] && left == old(dec.input)[pad + length..])
  {
    body, left := [], [];
    ok := dec.AlignTo(8);
    if ok {
      ok := length <= |dec.input|;
      if ok {
        body, left := dec.input[..length], dec.input[length..];
      }
    }
  }

  method DecodeRest(o: Order, msg: Message, length: nat, dec: Decoder, ghost ts: seq<Ty>) returns (r: Step<Message>, left: seq<byte>)
    requires IsValid(msg) ==> Readable(SignatureHeader(msg), ts)
    modifies dec
    ensures Matches(r, ParseRest(o, msg, length, old(dec.input), old(dec.pos)), old(dec.input), left)
  {
    hide Unmarshal, GetMembers, PrintAll, Print, Nest, IsValid, ParseBody, Readable, SignatureHeader;
    var ok, body;
    ok, body, left := ReadBody(length, dec);
    if !ok || !IsValid(msg) {
      return Failed, left;
    }
    var vars, _ := DecodeBody(o, SignatureHeader(msg), ts, body);
    match vars
    case Done(vs) => r := Done(msg.(body := vs));
    case Failed => r := Failed;
    case Endless => r := Endless;
  }

  method DecodeHeaders(o: Order, vs: seq<Value>, rd: seq<byte>) returns (r: Step<Message>, left: seq<byte>)
    ensures Matches(r, ParseHeaders(o, vs, rd), rd, left)
  {
    hide Unmarshal, GetMembers, PrintAll, Print, Nest, ParseRest, HEADER, IsValid, HeaderMap, GetUint, Readable, SignatureHeader, Decoded;
    left := [];
    if |rd| < 4 {
      return Failed, left;
    }
    var length := NumAt(vs, 3);
    if TooLong(GetUint(o, rd[..4]), length) {
      return Failed, left;
    }
    var dec := new Decoder(rd[..4] + rd[4..], o);
    dec.pos := 12;
    assert rd[..4] + rd[4..] == rd;
    HeaderSignature();
    var hs := dec.DecodeMembers([ARRAY, LPAREN, Y, V, RPAREN], [Array(HEADER)], 0);
    if !hs.Done? {
      return if hs.Failed? then Failed else Endless, left;
    }
    ghost var n := dec.pos - 12;
    HeaderListDecoded(o, rd, hs.value, n);
    var headers := CollectHeaders(hs.value[0].items);
    var msg := Message(ByteAt(vs, 0), ByteAt(vs, 1), NumAt(vs, 4), headers, []);
    ghost var ts := [];
    if IsValid(msg) {
      ts := DecodedSignature(o, vs, rd, hs.value, n);
    }
    r, left := DecodeRest(o, msg, length, dec, ts);
    MatchesAfter(n, r, ParseRest(o, msg, length, rd[n..], 12 + n), rd, left);
  }

  lemma PrintTwo(a: Prim, b: Prim)
    ensures PrintAll([Leaf(a), Leaf(b)]) == [a, b] && MaxNest([Leaf(a), Leaf(b)]) == 0
  {
    var ts := [Leaf(a), Leaf(b)];
    assert ts[1..] == [Leaf(b)] && ts[1..][1..] == [];
    assert PrintAll(ts[1..][1..]) == [] && PrintAll(ts[1..]) == Print(Leaf(b)) + [];
    assert MaxNest(ts[1..][1..]) == 0 && MaxNest(ts[1..]) == 0;
  }

  lemma HeaderSignature()
    ensures [ARRAY, LPAREN, Y, V, RPAREN] == PrintAll([Array(HEADER)]) && Nest(Array(HEADER)) <= MAX_DEPTH
    ensures [Y, Y, Y, U, U] == PrintAll(FIXED) && forall i | 0 <= i < |FIXED| :: Nest(FIXED[i]) <= MAX_DEPTH
  {
    PrintTwo(Y, V);
    assert Print(HEADER) == [LPAREN] + PrintAll(HEADER.fields) + [RPAREN];
    assert Nest(HEADER) <= 1;
    assert [Array(HEADER)][1..] == [];
    assert PrintAll(FIXED[4..]) == [U] by { assert FIXED[4..][1..] == []; }
    assert PrintAll(FIXED[3..]) == [U, U] by { assert FIXED[3..][1..] == FIXED[4..]; }
    assert PrintAll(FIXED[2..]) == [Y, U, U] by { assert FIXED[2..][1..] == FIXED[3..]; }
    assert PrintAll(FIXED[1..]) == [Y, Y, U, U] by { assert FIXED[1..][1..] == FIXED[2..]; }
  }

  /** `DecodeMessage` reads exactly what `ParseMessage` describes and leaves the rest. */
  method DecodeMessage(rd: seq<byte>) returns (r: Step<Message>, left: seq<byte>)
    ensures Matches(r, ParseMessage(rd), rd, left)
  {
    hide ParseFixed;
    left := [];
    if |rd| == 0 || (rd[0] != LITTLE && rd[0] != BIG) {
      return Failed, left;
    }
    var o := if rd[0] == LITTLE then Little else Big;
    r, left := DecodeFixed(o, rd[1..]);
    MatchesAfter(1, r, ParseFixed(o, rd[1..]), rd, left);
  }

  method DecodeFixed(o: Order, rd: seq<byte>) returns (r: Step<Message>, left: seq<byte>)
    ensures Matches(r, ParseFixed(o, rd), rd, left)
  {
    hide Unmarshal, GetMembers, PrintAll, Print, Nest, ParseHeaders, FIXED;
    var dec := new Decoder(rd, o);
    dec.pos := 1;
    HeaderSignature();
    var vs := dec.DecodeMembers([Y, Y, Y, U, U], FIXED, 0);
    if !vs.Done? {
      return if vs.Failed? then Failed else Endless, [];
    }
    ghost var n := dec.pos - 1;
    r, left := DecodeHeaders(o, vs.value, dec.input);
    MatchesAfter(n, r, ParseHeaders(o, vs.value, rd[n..]), rd, left);
  }

  lemma SendableEncodable(o: Order, msg: Message)
    requires Sendable(o, msg)
    ensures BodyEncodable(msg)
  {
    var ts, vs := Types(msg.body), Vals(msg.body);
    assert forall i | 0 <= i < |vs| :: vs[i] == msg.body[i].val && ts[i] == msg.body[i].ty;
    MembersAgreement(o, ts, vs, 0, 0);
  }

  /** A sendable message is refused if it is invalid or too long for the order in which its headers came
      up; otherwise it comes out of `DecodeMessage` unchanged, with whatever followed it left unread. */
  method SendThenReceive(o: Order, msg: Message, rest: seq<byte>)
    returns (keys: seq<byte>, sent: bool, r: Step<Message>, left: seq<byte>)
    requires Typed(msg) && Sendable(o, msg)
    ensures Enumerates(keys, msg.headers)
    ensures sent <==> IsValid(msg) && |MessageBytes(o, msg, keys)| <= LIMIT
    ensures sent ==> r == Done(msg) && left == rest
  {
    SendableEncodable(o, msg);
    var bytes;
    keys, bytes := EncodeTo(o, msg);
    sent := bytes.Some?;
    if sent {
      MessageRoundTrip(o, msg, keys, rest);
      Cut(bytes.value, rest);
      r, left := DecodeMessage(bytes.value + rest);
    } else {
      r, left := Failed, rest;
    }
  }
}
