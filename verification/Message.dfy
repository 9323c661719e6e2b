/** Whole messages: message.go's `IsValid`, `EncodeTo` and `DecodeMessage`. */
module DBusMessage {
  import opened Common
  import opened ByteOrder
  import opened DBusType
  import opened DBusSignature
  import opened DBusWire
  import opened DBusRoundTrip
  import opened DBusEncoder
  import opened DBusDecoder
  import opened DBusProgress

  /** A Go value together with the type it has at run time. */
  datatype Var = Var(ty: Ty, val: Value)

  datatype Message = Message(typ: byte, flags: byte, serial: nat, headers: map<byte, Var>, body: seq<Var>)

  // ---------------------------------------------------------------- names

  predicate IsMemberChar(c: byte) {
    '0' as int <= c <= '9' as int || 'A' as int <= c <= 'Z' as int || 'a' as int <= c <= 'z' as int || c == '_' as int
  }

  predicate IsDigit(c: byte) { '0' as int <= c <= '9' as int }

  predicate AllMemberChars(s: seq<byte>) { forall i | 0 <= i < |s| :: IsMemberChar(s[i]) }

  /** `strings.Split` at a single character. */
  function Split(s: seq<byte>, sep: byte): (r: seq<seq<byte>>)
    ensures |r| > 0
  {
    if s == [] then [[]]
    else if s[0] == sep then [[]] + Split(s[1..], sep)
    else var rest := Split(s[1..], sep); [[s[0]] + rest[0]] + rest[1..]
  }

  const SLASH: byte := '/' as int
  const DOT: byte := '.' as int

  predicate PathOk(s: seq<byte>) {
    && s != [] && s[0] == SLASH && (s[|s| - 1] == SLASH ==> |s| == 1)
    && (|s| == 1 || var parts := Split(s[1..], SLASH);
                    forall i | 0 <= i < |parts| :: parts[i] != [] && AllMemberChars(parts[i]))
  }

  predicate InterfaceOk(s: seq<byte>) {
    && 0 < |s| <= 255 && s[0] != DOT
    && var parts := Split(s, DOT);
       |parts| >= 2 && forall i | 0 <= i < |parts| :: parts[i] != [] && !IsDigit(parts[i][0]) && AllMemberChars(parts[i])
  }

  predicate MemberOk(s: seq<byte>) {
    0 < |s| <= 255 && DOT !in s && !IsDigit(s[0]) && AllMemberChars(s)
  }

  // ---------------------------------------------------------------- validity

  const PATH: byte := 1
  const INTERFACE: byte := 2
  const MEMBER: byte := 3
  const ERROR_NAME: byte := 4
  const REPLY_SERIAL: byte := 5
  const SIGNATURE: byte := 8
  const FIELD_MAX: byte := 10
  const TYPE_MAX: byte := 5

  function FieldType(k: byte): Prim {
    if k == PATH then O else if k == REPLY_SERIAL || k == 9 then U else if k == SIGNATURE then G else S
  }

  function Required(typ: byte): set<byte> {
    if typ == 1 then {PATH, MEMBER}
    else if typ == 2 then {REPLY_SERIAL}
    else if typ == 3 then {ERROR_NAME, REPLY_SERIAL}
    else {PATH, INTERFACE, MEMBER}
  }

  /** The text of header k, if it is there. */
  function HeaderText(msg: Message, k: byte): Option<seq<byte>> {
    if k in msg.headers && msg.headers[k].val.Text? then Some(msg.headers[k].val.s) else None
  }

  predicate NameOk(msg: Message, k: byte, ok: seq<byte> -> bool) {
    HeaderText(msg, k).Some? ==> ok(HeaderText(msg, k).value)
  }

  predicate IsValid(msg: Message) {
    && msg.flags < 4 && 0 < msg.typ < TYPE_MAX
    && (forall k | k in msg.headers :: 0 < k < FIELD_MAX && msg.headers[k].ty == Leaf(FieldType(k)))
    && Required(msg.typ) <= msg.headers.Keys
    && NameOk(msg, PATH, PathOk) && NameOk(msg, INTERFACE, InterfaceOk)
    && NameOk(msg, MEMBER, MemberOk) && NameOk(msg, ERROR_NAME, InterfaceOk)
    && (msg.body != [] ==> SIGNATURE in msg.headers)
  }

  // ---------------------------------------------------------------- the bytes of a message

  const FIXED: seq<Ty> := [Leaf(Y), Leaf(Y), Leaf(Y), Leaf(U), Leaf(U)]
  const HEADER: Ty := Struct([Leaf(Y), Leaf(V)])
  const LIMIT: nat := 0x800_0000
  const LITTLE: byte := 'l' as int
  const BIG: byte := 'B' as int

  function Mark(o: Order): byte { if o.Little? then LITTLE else BIG }

  function FixedValues(msg: Message, length: nat): seq<Value> {
    [Num(msg.typ), Num(msg.flags), Num(1), Num(length % TWO32), Num(msg.serial)]
  }

  function HeaderItem(k: byte, v: Var): Value { Tuple([Num(k), Variant(v.ty, v.val)]) }

  function HeaderItems(headers: map<byte, Var>, keys: seq<byte>): seq<Value>
    requires forall i | 0 <= i < |keys| :: keys[i] in headers
  {
    seq(|keys|, i requires 0 <= i < |keys| => HeaderItem(keys[i], headers[keys[i]]))
  }

  function Types(body: seq<Var>): seq<Ty> { seq(|body|, i requires 0 <= i < |body| => body[i].ty) }
  function Vals(body: seq<Var>): seq<Value> { seq(|body|, i requires 0 <= i < |body| => body[i].val) }

  function BodyBytes(o: Order, msg: Message): seq<byte> { MarshalMembers(o, Types(msg.body), Vals(msg.body), 0) }

  const HEAD: seq<Ty> := [Leaf(Y)] + FIXED + [Array(HEADER)]

  function HeadValues(o: Order, msg: Message, keys: seq<byte>, length: nat): seq<Value>
    requires forall i | 0 <= i < |keys| :: keys[i] in msg.headers
  {
    [Num(Mark(o))] + FixedValues(msg, length) + [List(HeaderItems(msg.headers, keys))]
  }

  /** The header part is one list of values written from position 0, whatever its decoder will do. */
  function HeadBytes(o: Order, msg: Message, keys: seq<byte>): seq<byte>
    requires forall i | 0 <= i < |keys| :: keys[i] in msg.headers
  {
    MarshalMembers(o, HEAD, HeadValues(o, msg, keys, |BodyBytes(o, msg)|), 0)
  }

  function MessageBytes(o: Order, msg: Message, keys: seq<byte>): seq<byte>
    requires forall i | 0 <= i < |keys| :: keys[i] in msg.headers
  {
    var head := HeadBytes(o, msg, keys);
    head + Zeros(Padding(|head|, 8)) + BodyBytes(o, msg)
  }

  // ---------------------------------------------------------------- reading a message

  function NumAt(vs: seq<Value>, i: nat): nat {
    if i < |vs| && vs[i].Num? && vs[i].n >= 0 then vs[i].n else 0
  }

  function ByteAt(vs: seq<Value>, i: nat): byte { NumAt(vs, i) % 256 }

  function HeaderKey(v: Value): byte { if v.Tuple? then ByteAt(v.members, 0) else 0 }

  function HeaderVar(v: Value): Var {
    if v.Tuple? && |v.members| > 1 && v.members[1].Variant? then Var(v.members[1].ty, v.members[1].val)
    else Var(Leaf(Y), Num(0))
  }

  /** A later header replaces an earlier one with the same field. */
  function HeaderMap(items: seq<Value>): map<byte, Var> {
    if items == [] then map[]
    else HeaderMap(items[..|items| - 1])[HeaderKey(items[|items| - 1]) := HeaderVar(items[|items| - 1])]
  }

  function Assemble(vs: seq<Value>, hs: seq<Value>): Message {
    Message(ByteAt(vs, 0), ByteAt(vs, 1), NumAt(vs, 4),
            if |hs| > 0 && hs[0].List? then HeaderMap(hs[0].items) else map[], [])
  }

  function Zip(ts: seq<Ty>, vs: seq<Value>): seq<Var> {
    seq(if |ts| < |vs| then |ts| else |vs|, i requires 0 <= i < |ts| && i < |vs| => Var(ts[i], vs[i]))
  }

  /** The sum wraps at 32 bits, as the source's does. */
  predicate TooLong(hlength: nat, length: nat) { (hlength + length + 16) % TWO32 > LIMIT }

  function SignatureHeader(msg: Message): seq<byte> {
    if HeaderText(msg, SIGNATURE).Some? then HeaderText(msg, SIGNATURE).value else []
  }

  function ParseBody(o: Order, sig: seq<byte>, buf: seq<byte>): Outcome<seq<Var>> {
    if sig == [] then Ok([], 0)
    else
      match TypesFor(sig)
      case None => Err
      case Some(ts) =>
        (match GetMembers(o, ts, 0, buf, 0)
         case Ok(vs, n) => Ok(Zip(ts, vs), n)
         case Err => Err
         case Stuck => Stuck)
  }

  /** From the end of the header array on. */
  function ParseRest(o: Order, msg: Message, length: nat, buf: seq<byte>, pos: nat): (r: Outcome<Message>)
    ensures r.Ok? ==> r.n <= |buf|
  {
    var pad := Padding(pos, 8);
    if |buf| < pad + length || !IsValid(msg) then Err
    else
      match ParseBody(o, SignatureHeader(msg), buf[pad..pad + length])
      case Ok(body, _) => Ok(msg.(body := body), pad + length)
      case Err => Err
      case Stuck => Stuck
  }

  function ParseHeaders(o: Order, vs: seq<Value>, buf: seq<byte>): (r: Outcome<Message>)
    ensures r.Ok? ==> r.n <= |buf|
  {
    if |buf| < 4 || TooLong(GetUint(o, buf[..4]), NumAt(vs, 3)) then Err
    else
      match GetMembers(o, [Array(HEADER)], 0, buf, 12)
      case Ok(hs, n) => After(n, ParseRest(o, Assemble(vs, hs), NumAt(vs, 3), buf[n..], 12 + n))
      case Err => Err
      case Stuck => Stuck
  }

  function ParseFixed(o: Order, buf: seq<byte>): (r: Outcome<Message>)
    ensures r.Ok? ==> r.n <= |buf|
  {
    match GetMembers(o, FIXED, 0, buf, 1)
    case Ok(vs, n) => After(n, ParseHeaders(o, vs, buf[n..]))
    case Err => Err
    case Stuck => Stuck
  }

  /** What `DecodeMessage` answers: the message and the number of bytes it took. */
  function ParseMessage(buf: seq<byte>): (r: Outcome<Message>)
    ensures r.Ok? ==> r.n <= |buf|
  {
    if buf == [] then Err
    else if buf[0] == LITTLE then After(1, ParseFixed(Little, buf[1..]))
    else if buf[0] == BIG then After(1, ParseFixed(Big, buf[1..]))
    else Err
  }

  // ---------------------------------------------------------------- the three restarts of the decoder

  /** The members ts, vs start with the bytes `front` and go on with ts', vs'. */
  ghost predicate Splits(o: Order, ts: seq<Ty>, vs: seq<Value>, ts': seq<Ty>, vs': seq<Value>, pos: nat, front: seq<byte>) {
    MarshalMembers(o, ts, vs, pos) == front + MarshalMembers(o, ts', vs', pos + |front|)
  }

  lemma SplitsCons(o: Order, ts: seq<Ty>, vs: seq<Value>, ts': seq<Ty>, vs': seq<Value>, pos: nat, head: seq<byte>, tail: seq<byte>)
    requires ts != [] && vs != [] && head == Marshal(o, ts[0], vs[0], pos)
    requires Splits(o, ts[1..], vs[1..], ts', vs', pos + |head|, tail)
    ensures Splits(o, ts, vs, ts', vs', pos, head + tail)
  {
    Assoc(head, tail, MarshalMembers(o, ts', vs', pos + |head| + |tail|));
  }

  lemma {:induction false} MembersSplit(o: Order, ts: seq<Ty>, ts': seq<Ty>, vs: seq<Value>, vs': seq<Value>, pos: nat)
    requires |ts| == |vs|
    ensures Splits(o, ts + ts', vs + vs', ts', vs', pos, MarshalMembers(o, ts, vs, pos))
    decreases vs
  {
    if vs == [] {
      assert ts + ts' == ts' && vs + vs' == vs';
    } else {
      var head := Marshal(o, ts[0], vs[0], pos);
      MembersSplit(o, ts[1..], ts', vs[1..], vs', pos + |head|);
      assert (ts + ts')[1..] == ts[1..] + ts' && (vs + vs')[1..] == vs[1..] + vs';
      SplitsCons(o, ts + ts', vs + vs', ts', vs', pos, head, MarshalMembers(o, ts[1..], vs[1..], pos + |head|));
    }
  }

  lemma MembersAppend(o: Order, ts: seq<Ty>, ts': seq<Ty>, vs: seq<Value>, vs': seq<Value>, pos: nat)
    requires |ts| == |vs|
    ensures var front := MarshalMembers(o, ts, vs, pos);
            MarshalMembers(o, ts + ts', vs + vs', pos) == front + MarshalMembers(o, ts', vs', pos + |front|)
  {
    MembersSplit(o, ts, ts', vs, vs', pos);
  }

  lemma OneMember(o: Order, t: Ty, v: Value, pos: nat)
    ensures MarshalMembers(o, [t], [v], pos) == Marshal(o, t, v, pos)
  {
    assert MarshalMembers(o, [t][1..], [v][1..], pos + |Marshal(o, t, v, pos)|) == [];
  }

  lemma TwoMembers(o: Order, t: Ty, t': Ty, v: Value, v': Value, pos: nat)
    ensures var head := Marshal(o, t, v, pos);
            MarshalMembers(o, [t, t'], [v, v'], pos) == head + Marshal(o, t', v', pos + |head|)
  {
    assert [t, t'] == [t] + [t'] && [v, v'] == [v] + [v'];
    MembersAppend(o, [t], [t'], [v], [v'], pos);
    OneMember(o, t, v, pos);
    OneMember(o, t', v', pos + |Marshal(o, t, v, pos)|);
  }

  lemma ByteSize(o: Order, n: int, pos: nat)
    ensures |Marshal(o, Leaf(Y), Num(n), pos)| == 1
  {
    assert Body(o, Leaf(Y), Num(n), pos) == LeafBytes(o, Y, Num(n));
  }

  lemma WordSize(o: Order, n: int, pos: nat)
    requires Padding(pos, 4) == 0
    ensures |Marshal(o, Leaf(U), Num(n), pos)| == 4
  {
    assert Body(o, Leaf(U), Num(n), pos) == LeafBytes(o, U, Num(n));
  }

  /** The five fixed fields after the byte order mark end at position 12. */
  lemma FixedSize(o: Order, msg: Message, length: nat)
    ensures |MarshalMembers(o, FIXED, FixedValues(msg, length), 1)| == 11
  {
    hide Marshal;
    var vs := FixedValues(msg, length);
    TwoMembers(o, Leaf(Y), Leaf(Y), vs[0], vs[1], 1);
    ByteSize(o, msg.typ, 1);
    ByteSize(o, msg.flags, 2);
    OneMember(o, Leaf(Y), vs[2], 3);
    ByteSize(o, 1, 3);
    TwoMembers(o, Leaf(U), Leaf(U), vs[3], vs[4], 4);
    WordSize(o, vs[3].n, 4);
    WordSize(o, vs[4].n, 8);
    MembersAppend(o, [Leaf(Y)], [Leaf(U), Leaf(U)], [vs[2]], [vs[3], vs[4]], 3);
    MembersAppend(o, [Leaf(Y), Leaf(Y)], [Leaf(Y)] + [Leaf(U), Leaf(U)], [vs[0], vs[1]], [vs[2]] + [vs[3], vs[4]], 1);
    assert FIXED == [Leaf(Y), Leaf(Y)] + ([Leaf(Y)] + [Leaf(U), Leaf(U)]);
    assert vs == [vs[0], vs[1]] + ([vs[2]] + [vs[3], vs[4]]);
  }

  function FixedBytes(o: Order, msg: Message): seq<byte> {
    MarshalMembers(o, FIXED, FixedValues(msg, |BodyBytes(o, msg)|), 1)
  }

  function HeaderBytes(o: Order, msg: Message, keys: seq<byte>): seq<byte>
    requires forall i | 0 <= i < |keys| :: keys[i] in msg.headers
  {
    MarshalMembers(o, [Array(HEADER)], [List(HeaderItems(msg.headers, keys))], 12)
  }

  /** One encoder from position 0 writes what three decoders starting at 0, 1 and 12 will read. */
  lemma HeadSplit(o: Order, msg: Message, keys: seq<byte>)
    requires forall i | 0 <= i < |keys| :: keys[i] in msg.headers
    ensures |FixedBytes(o, msg)| == 11
    ensures HeadBytes(o, msg, keys) == [Mark(o)] + FixedBytes(o, msg) + HeaderBytes(o, msg, keys)
  {
    hide Marshal, HeaderItems;
    var fixed, items := FixedValues(msg, |BodyBytes(o, msg)|), [List(HeaderItems(msg.headers, keys))];
    FixedSize(o, msg, |BodyBytes(o, msg)|);
    OneMember(o, Leaf(Y), Num(Mark(o)), 0);
    MarkByte(o);
    MembersAppend(o, [Leaf(Y)], FIXED, [Num(Mark(o))], fixed, 0);
    MembersAppend(o, [Leaf(Y)] + FIXED, [Array(HEADER)], [Num(Mark(o))] + fixed, items, 0);
  }

  lemma MarkByte(o: Order)
    ensures Marshal(o, Leaf(Y), Num(Mark(o)), 0) == [Mark(o)]
  {
    assert Body(o, Leaf(Y), Num(Mark(o)), 0) == LeafBytes(o, Y, Num(Mark(o)));
    assert PutUint(o, Mark(o) as nat / 256, 0) == [];
  }

  // ---------------------------------------------------------------- headers

  predicate Enumerates(keys: seq<byte>, headers: map<byte, Var>) {
    && (forall i | 0 <= i < |keys| :: keys[i] in headers)
    && (forall k | k in headers :: k in keys)
    && (forall i, j | 0 <= i < j < |keys| :: keys[i] != keys[j])
  }

  lemma HeaderItemBack(k: byte, v: Var)
    ensures HeaderKey(HeaderItem(k, v)) == k && HeaderVar(HeaderItem(k, v)) == v
  {}

  /** The header map is recovered from any enumeration of it. */
  lemma {:induction false} HeaderMapBack(headers: map<byte, Var>, keys: seq<byte>)
    requires forall i | 0 <= i < |keys| :: keys[i] in headers
    ensures HeaderMap(HeaderItems(headers, keys)) == map k | k in keys :: headers[k]
  {
    if keys != [] {
      var n := |keys| - 1;
      HeaderMapBack(headers, keys[..n]);
      assert HeaderItems(headers, keys)[..n] == HeaderItems(headers, keys[..n]);
      HeaderItemBack(keys[n], headers[keys[n]]);
      assert keys == keys[..n] + [keys[n]];
    }
  }

  lemma AllHeadersBack(headers: map<byte, Var>, keys: seq<byte>)
    requires Enumerates(keys, headers)
    ensures HeaderMap(HeaderItems(headers, keys)) == headers
  {
    HeaderMapBack(headers, keys);
  }

  predicate HeaderFits(k: byte, v: Var) {
    v.ty == Leaf(FieldType(k)) && LeafTyped(FieldType(k), v.val) && LeafInDomain(FieldType(k), v.val)
  }

  lemma HeaderItemFits(o: Order, k: byte, v: Var, pos: nat)
    requires HeaderFits(k, v)
    ensures WellTyped(HEADER, HeaderItem(k, v)) && InDomain(o, HEADER, HeaderItem(k, v), pos)
    ensures DepthOk(HEADER, HeaderItem(k, v), 1)
  {
    hide *;
    HeaderItemTyped(k, v);
    HeaderItemInDomain(o, k, v, pos);
    HeaderItemDepth(k, v);
  }

  lemma HeaderItemTyped(k: byte, v: Var)
    requires HeaderFits(k, v)
    ensures WellTyped(HEADER, HeaderItem(k, v))
  {
    var vs := HeaderItem(k, v).members;
    assert WellTyped(Leaf(Y), vs[0]) && WellTyped(Leaf(V), vs[1]);
  }

  lemma HeaderItemInDomain(o: Order, k: byte, v: Var, pos: nat)
    requires HeaderFits(k, v)
    ensures InDomain(o, HEADER, HeaderItem(k, v), pos)
  {
    hide Marshal, DepthOk, WellTyped;
    var at := pos + Padding(pos, 8);
    var vs := HeaderItem(k, v).members;
    var next := at + |Marshal(o, Leaf(Y), vs[0], at)|;
    assert vs[1..] == [vs[1]] && [Leaf(Y), Leaf(V)][1..] == [Leaf(V)];
    assert InDomain(o, v.ty, v.val, next + |SigBytes(Print(v.ty))|);
    assert InDomain(o, Leaf(V), vs[1], next);
    assert MembersInDomain(o, [Leaf(V)], [vs[1]], next);
    assert InDomain(o, Leaf(Y), vs[0], at) && MembersInDomain(o, [Leaf(Y), Leaf(V)], vs, at);
  }

  lemma HeaderItemDepth(k: byte, v: Var)
    requires HeaderFits(k, v)
    ensures DepthOk(HEADER, HeaderItem(k, v), 1)
  {
    var vs := HeaderItem(k, v).members;
    assert vs[1..] == [vs[1]] && [Leaf(Y), Leaf(V)][1..] == [Leaf(V)];
    assert DepthOk(v.ty, v.val, 3);
    assert DepthOk(Leaf(V), vs[1], 2);
    assert MembersOk([Leaf(V)], [vs[1]], 2);
  }

  predicate ItemFits(v: Value) {
    v.Tuple? && |v.members| == 2 && v.members[0].Num? && 0 <= v.members[0].n < 256 && v.members[1].Variant?
    && HeaderFits(v.members[0].n, Var(v.members[1].ty, v.members[1].val))
  }

  lemma {:induction false} HeaderListFits(o: Order, items: seq<Value>, pos: nat)
    requires forall i | 0 <= i < |items| :: ItemFits(items[i])
    ensures ItemsInDomain(o, HEADER, items, pos) && ItemsOk(HEADER, items, 1)
    ensures forall i | 0 <= i < |items| :: WellTyped(HEADER, items[i])
  {
    hide Marshal, HeaderFits, WellTyped, InDomain, DepthOk;
    if items != [] {
      var vs := items[0].members;
      assert vs == [vs[0], vs[1]];
      HeaderItemFits(o, vs[0].n, Var(vs[1].ty, vs[1].val), pos);
      HeaderListFits(o, items[1..], pos + |Marshal(o, HEADER, items[0], pos)|);
      assert forall i | 1 <= i < |items| :: items[i] == items[1..][i - 1];
    }
  }

  // ---------------------------------------------------------------- the message round trip

  /** A message whose values fit the wire format and whose Signature header names its body's types. */
  predicate Sendable(o: Order, msg: Message) {
    && msg.serial < TWO32
    && (forall k | k in msg.headers :: HeaderFits(k, msg.headers[k]))
    && (forall i | 0 <= i < |msg.body| :: WellTyped(msg.body[i].ty, msg.body[i].val))
    && MembersInDomain(o, Types(msg.body), Vals(msg.body), 0)
    && MembersOk(Types(msg.body), Vals(msg.body), 0)
    && SignatureHeader(msg) == PrintAll(Types(msg.body))
  }

  lemma ZipBack(body: seq<Var>)
    ensures Zip(Types(body), Vals(body)) == body
  {}

  /** The accepted Signature header of a sendable message is read back as the types of its body. */
  lemma BodyTypes(o: Order, msg: Message)
    requires Sendable(o, msg)
    ensures TypesFor(SignatureHeader(msg)) == Some(Types(msg.body))
    ensures SignatureHeader(msg) == [] <==> msg.body == []
  {
    var ts := Types(msg.body);
    if ts != [] {
      assert HeaderFits(SIGNATURE, msg.headers[SIGNATURE]);
      ValidPrintAll(ts, 0);
    }
    TypesForPrint(ts);
  }

  lemma ParseBodyBack(o: Order, msg: Message)
    requires Sendable(o, msg)
    ensures ParseBody(o, SignatureHeader(msg), BodyBytes(o, msg)).Ok?
    ensures ParseBody(o, SignatureHeader(msg), BodyBytes(o, msg)).value == msg.body
  {
    BodyTypes(o, msg);
    if msg.body != [] {
      var ts, vs := Types(msg.body), Vals(msg.body);
      assert forall i | 0 <= i < |vs| :: vs[i] == msg.body[i].val && ts[i] == msg.body[i].ty;
      MembersRoundTrip(o, ts, vs, 0, 0);
      assert BodyBytes(o, msg) + [] == BodyBytes(o, msg);
      ZipBack(msg.body);
    }
  }

  lemma ParseRestBack(o: Order, msg: Message, pos: nat, rest: seq<byte>)
    requires Sendable(o, msg) && IsValid(msg)
    ensures var tail := Zeros(Padding(pos, 8)) + BodyBytes(o, msg);
            ParseRest(o, msg.(body := []), |BodyBytes(o, msg)|, tail + rest, pos) == Ok(msg, |tail|)
  {
    hide IsValid, SignatureHeader, Sendable, ParseBody, BodyBytes;
    var pad, body := Zeros(Padding(pos, 8)), BodyBytes(o, msg);
    var m := msg.(body := []);
    assert (pad + body + rest)[|pad|..|pad| + |body|] == body;
    EmptyBody(msg);
    ParseBodyBack(o, msg);
  }

  lemma EmptyBody(msg: Message)
    requires IsValid(msg)
    ensures IsValid(msg.(body := [])) && SignatureHeader(msg.(body := [])) == SignatureHeader(msg)
  {
    assert forall k :: HeaderText(msg.(body := []), k) == HeaderText(msg, k);
  }

  function HeaderContent(o: Order, msg: Message, keys: seq<byte>): seq<byte>
    requires forall i | 0 <= i < |keys| :: keys[i] in msg.headers
  {
    MarshalItems(o, HEADER, HeaderItems(msg.headers, keys), FirstAt(12, 8))
  }

  lemma HeaderFrame(o: Order, msg: Message, keys: seq<byte>)
    requires forall i | 0 <= i < |keys| :: keys[i] in msg.headers
    ensures HeaderBytes(o, msg, keys) == Framed(o, 12, 8, HeaderContent(o, msg, keys))
    ensures |HeaderBytes(o, msg, keys)| == 4 + |HeaderContent(o, msg, keys)|
  {
    var t, v := Array(HEADER), List(HeaderItems(msg.headers, keys));
    OneMember(o, t, v, 12);
    assert Body(o, t, v, 12) == ArrayBytes(o, HEADER, v, 12);
  }

  /** A list of one member is in the domain and nested well if the member is. */
  lemma SingleMember(o: Order, t: Ty, v: Value, pos: nat)
    ensures MembersInDomain(o, [t], [v], pos) == InDomain(o, t, v, pos) && MembersOk([t], [v], 0) == DepthOk(t, v, 0)
  {
    assert [t][1..] == [] && [v][1..] == [];
  }

  lemma HeaderListInDomain(o: Order, msg: Message, keys: seq<byte>)
    requires Sendable(o, msg) && Enumerates(keys, msg.headers) && |HeaderContent(o, msg, keys)| < TWO32
    ensures var t, v := Array(HEADER), List(HeaderItems(msg.headers, keys));
            WellTyped(t, v) && InDomain(o, t, v, 12) && DepthOk(t, v, 0)
  {
    hide HeaderFits, Marshal, MarshalItems, InDomain;
    var items := HeaderItems(msg.headers, keys);
    forall i | 0 <= i < |items| ensures ItemFits(items[i]) {
      assert HeaderFits(keys[i], msg.headers[keys[i]]);
    }
    HeaderListFits(o, items, FirstAt(12, 8));
    HeaderArrayInDomain(o, items);
  }

  lemma HeaderArrayInDomain(o: Order, items: seq<Value>)
    requires ItemsInDomain(o, HEADER, items, FirstAt(12, 8)) && |MarshalItems(o, HEADER, items, FirstAt(12, 8))| < TWO32
    ensures InDomain(o, Array(HEADER), List(items), 12)
  {
    hide Marshal, MarshalItems, WellTyped;
    assert !ZeroSize(HEADER) by {
      assert HEADER.fields[0] == Leaf(Y) && !ZeroSize(Leaf(Y));
    }
    assert Align(HEADER) == 8 && Padding(12, 4) == 0;
  }

  /** The header array is read back by a decoder that starts at position 12. */
  lemma HeaderArrayBack(o: Order, msg: Message, keys: seq<byte>)
    requires Sendable(o, msg) && Enumerates(keys, msg.headers) && |HeaderContent(o, msg, keys)| < TWO32
    ensures ReadsMembers(o, [Array(HEADER)], 0, HeaderBytes(o, msg, keys), 12, [List(HeaderItems(msg.headers, keys))], true)
  {
    var t, v := Array(HEADER), List(HeaderItems(msg.headers, keys));
    HeaderListInDomain(o, msg, keys);
    SingleMember(o, t, v, 12);
    MembersRoundTrip(o, [t], [v], 0, 12);
  }

  lemma HeaderLength(o: Order, msg: Message, keys: seq<byte>, rest: seq<byte>)
    requires Enumerates(keys, msg.headers) && |HeaderContent(o, msg, keys)| < TWO32
    ensures var buf := HeaderBytes(o, msg, keys) + rest;
            |buf| >= 4 && GetUint(o, buf[..4]) == |HeaderContent(o, msg, keys)|
  {
    HeaderFrame(o, msg, keys);
    FrameCut(o, 12, 8, HeaderContent(o, msg, keys), rest);
  }

  lemma FixedBack(o: Order, msg: Message, length: nat)
    requires msg.serial < TWO32
    ensures ReadsMembers(o, FIXED, 0, MarshalMembers(o, FIXED, FixedValues(msg, length), 1), 1, FixedValues(msg, length), true)
  {
    var vs := FixedValues(msg, length);
    FixedInDomain(o, FIXED, vs, 1);
    MembersRoundTrip(o, FIXED, vs, 0, 1);
  }

  /** Numbers are in the domain wherever they are written. */
  lemma {:induction false} FixedInDomain(o: Order, ts: seq<Ty>, vs: seq<Value>, pos: nat)
    requires |ts| == |vs| && forall i | 0 <= i < |vs| :: ts[i].Leaf? && vs[i].Num?
    ensures MembersInDomain(o, ts, vs, pos) && MembersOk(ts, vs, 0)
    decreases vs
  {
    if vs != [] {
      FixedInDomain(o, ts[1..], vs[1..], pos + |Marshal(o, ts[0], vs[0], pos)|);
    }
  }

  lemma HeadersThen(o: Order, vs: seq<Value>, h: seq<byte>, hs: seq<Value>, tail: seq<byte>, msg: Message, n: nat)
    requires ReadsMembers(o, [Array(HEADER)], 0, h, 12, hs, true)
    requires |h + tail| >= 4 && !TooLong(GetUint(o, (h + tail)[..4]), NumAt(vs, 3))
    requires ParseRest(o, Assemble(vs, hs), NumAt(vs, 3), tail, 12 + |h|) == Ok(msg, n)
    ensures ParseHeaders(o, vs, h + tail) == Ok(msg, |h| + n)
  {
    assert GetMembers(o, [Array(HEADER)], 0, h + tail, 12) == Ok(hs, |h|);
    Cut(h, tail);
  }

  lemma FixedThen(o: Order, f: seq<byte>, vs: seq<Value>, tail: seq<byte>, msg: Message, n: nat)
    requires ReadsMembers(o, FIXED, 0, f, 1, vs, true) && ParseHeaders(o, vs, tail) == Ok(msg, n)
    ensures ParseFixed(o, f + tail) == Ok(msg, |f| + n)
  {
    assert GetMembers(o, FIXED, 0, f + tail, 1) == Ok(vs, |f|);
    Cut(f, tail);
  }

  lemma MarkThen(o: Order, buf: seq<byte>)
    ensures ParseMessage([Mark(o)] + buf) == After(1, ParseFixed(o, buf))
  {
    Cut([Mark(o)], buf);
  }

  /** What follows the header array. */
  function TailBytes(o: Order, msg: Message, keys: seq<byte>): seq<byte>
    requires forall i | 0 <= i < |keys| :: keys[i] in msg.headers
  {
    Zeros(Padding(12 + |HeaderBytes(o, msg, keys)|, 8)) + BodyBytes(o, msg)
  }

  lemma Layout(o: Order, msg: Message, keys: seq<byte>, rest: seq<byte>)
    requires forall i | 0 <= i < |keys| :: keys[i] in msg.headers
    ensures var fixed, h, tail := FixedBytes(o, msg), HeaderBytes(o, msg, keys), TailBytes(o, msg, keys);
            && |MessageBytes(o, msg, keys)| == 1 + (|fixed| + (|h| + |tail|)) && |fixed| == 11
            && |h| == 4 + |HeaderContent(o, msg, keys)| && |tail| >= |BodyBytes(o, msg)|
            && MessageBytes(o, msg, keys) + rest == [Mark(o)] + (fixed + (h + (tail + rest)))
  {
    hide Marshal, MarshalMembers, HeaderContent, BodyBytes, FixedBytes, HeaderBytes;
    HeadSplit(o, msg, keys);
    HeaderFrame(o, msg, keys);
    Regroup([Mark(o)], FixedBytes(o, msg), HeaderBytes(o, msg, keys),
            Zeros(Padding(12 + |HeaderBytes(o, msg, keys)|, 8)), BodyBytes(o, msg), rest);
  }

  lemma Regroup<A>(a: seq<A>, b: seq<A>, c: seq<A>, d: seq<A>, e: seq<A>, f: seq<A>)
    ensures ((a + b + c) + d + e) + f == a + (b + (c + ((d + e) + f)))
  {}

  lemma AssembleBack(msg: Message, keys: seq<byte>, length: nat)
    requires Enumerates(keys, msg.headers) && length < TWO32
    ensures NumAt(FixedValues(msg, length), 3) == length
    ensures Assemble(FixedValues(msg, length), [List(HeaderItems(msg.headers, keys))]) == msg.(body := [])
  {
    AllHeadersBack(msg.headers, keys);
  }

  lemma ShortEnough(hlength: nat, length: nat)
    requires 16 + hlength + length <= LIMIT
    ensures !TooLong(hlength, length)
  {}

  lemma ParseHeadersBack(o: Order, msg: Message, keys: seq<byte>, rest: seq<byte>)
    requires Sendable(o, msg) && IsValid(msg) && Enumerates(keys, msg.headers)
    requires |MessageBytes(o, msg, keys)| <= LIMIT
    ensures var h, tail := HeaderBytes(o, msg, keys), TailBytes(o, msg, keys);
            ParseHeaders(o, FixedValues(msg, |BodyBytes(o, msg)|), h + (tail + rest)) == Ok(msg, |h| + |tail|)
  {
    hide Marshal, MarshalMembers, Unmarshal, GetMembers, IsValid, ParseHeaders, ParseRest,
         ReadsMembers, HeaderBytes, MessageBytes, HeaderContent, BodyBytes, FixedValues, Assemble, TooLong;
    var h, tail, length := HeaderBytes(o, msg, keys), TailBytes(o, msg, keys), |BodyBytes(o, msg)|;
    var vs, hs := FixedValues(msg, length), [List(HeaderItems(msg.headers, keys))];
    Layout(o, msg, keys, rest);
    HeaderLength(o, msg, keys, tail + rest);
    HeaderArrayBack(o, msg, keys);
    AssembleBack(msg, keys, length);
    ShortEnough(|HeaderContent(o, msg, keys)|, length);
    ParseRestBack(o, msg, 12 + |h|, rest);
    HeadersThen(o, vs, h, hs, tail + rest, msg, |tail|);
  }

  /** Decoding what was encoded gives the same message, whatever the order in which its header map was
      enumerated and whatever follows it, and takes exactly its bytes. */
  lemma MessageRoundTrip(o: Order, msg: Message, keys: seq<byte>, rest: seq<byte>)
    requires Sendable(o, msg) && IsValid(msg) && Enumerates(keys, msg.headers)
    requires |MessageBytes(o, msg, keys)| <= LIMIT
    ensures ParseMessage(MessageBytes(o, msg, keys) + rest) == Ok(msg, |MessageBytes(o, msg, keys)|)
  {
    hide Marshal, MarshalMembers, Unmarshal, GetMembers, IsValid, ParseFixed,
         ParseHeaders, ParseMessage, ReadsMembers, HeaderBytes, TailBytes, MessageBytes, FixedValues;
    var fixed, h, tail := FixedBytes(o, msg), HeaderBytes(o, msg, keys), TailBytes(o, msg, keys);
    Layout(o, msg, keys, rest);
    FixedBack(o, msg, |BodyBytes(o, msg)|);
    ParseHeadersBack(o, msg, keys, rest);
    FixedThen(o, fixed, FixedValues(msg, |BodyBytes(o, msg)|), h + (tail + rest), msg, |h| + |tail|);
    MarkThen(o, fixed + (h + (tail + rest)));
  }
}
