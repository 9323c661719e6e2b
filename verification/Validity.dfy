/** Which messages are valid, with the numbers and characters of the D-Bus Specification written out, and
    where the parts of a message are. */
module DBusValidity {
  import opened Common
  import opened ByteOrder
  import opened DBusType
  import opened DBusSignature
  import opened DBusWire
  import opened DBusRoundTrip
  import opened DBusEncoder
  import opened DBusDecoder
  import opened DBusProgress
  import opened DBusFormat
  import opened DBusMessage
  import opened DBusMessageCodec

  // ---------------------------------------------------------------- names

  function Join(parts: seq<seq<byte>>, sep: byte): seq<byte> {
    if parts == [] then [] else if |parts| == 1 then parts[0] else parts[0] + [sep] + Join(parts[1..], sep)
  }

  predicate Free(parts: seq<seq<byte>>, sep: byte) { forall i | 0 <= i < |parts| :: sep !in parts[i] }

  /** Splitting gives the parts between the separators, and joining them gives the string back. */
  lemma {:induction false} SplitJoin(s: seq<byte>, sep: byte)
    ensures Join(Split(s, sep), sep) == s && Free(Split(s, sep), sep)
  {
    if s != [] {
      SplitJoin(s[1..], sep);
      var rest, r := Split(s[1..], sep), Split(s, sep);
      if s[0] == sep {
        assert r[1..] == rest && Join(r, sep) == [] + [sep] + Join(rest, sep);
      } else {
        FrontGrows(s[0], rest, sep);
      }
      assert s == [s[0]] + s[1..];
    }
  }

  lemma FrontGrows(c: byte, rest: seq<seq<byte>>, sep: byte)
    requires rest != []
    ensures Join([[c] + rest[0]] + rest[1..], sep) == [c] + Join(rest, sep)
    ensures c != sep && Free(rest, sep) ==> Free([[c] + rest[0]] + rest[1..], sep)
  {
    var r := [[c] + rest[0]] + rest[1..];
    assert r[1..] == rest[1..];
    if |rest| > 1 {
      assert Join(r, sep) == [c] + rest[0] + [sep] + Join(rest[1..], sep);
    }
  }

  /** ... and no other parts do. */
  lemma {:induction false} SplitUnique(parts: seq<seq<byte>>, sep: byte)
    requires parts != [] && Free(parts, sep)
    ensures Split(Join(parts, sep), sep) == parts
    decreases |parts|, |parts[0]|
  {
    hide Split, Join;
    if parts == [[]] {
      OneEmpty(sep);
    } else if parts[0] == [] {
      SplitUnique(parts[1..], sep);
      AfterEmpty(parts, sep);
    } else {
      var c := parts[0][0];
      var rest := [parts[0][1..]] + parts[1..];
      assert parts[0] == [c] + rest[0] && rest[1..] == parts[1..] && parts == [[c] + rest[0]] + rest[1..];
      assert Free(rest, sep) by {
        assert forall i | 1 <= i < |rest| :: rest[i] == parts[i];
      }
      FrontGrows(c, rest, sep);
      SplitUnique(rest, sep);
      SplitChar(c, Join(rest, sep), sep);
    }
  }

  lemma OneEmpty(sep: byte)
    ensures Split(Join([[]], sep), sep) == [[]]
  {}

  lemma AfterEmpty(parts: seq<seq<byte>>, sep: byte)
    requires |parts| > 1 && parts[0] == []
    ensures Split(Join(parts, sep), sep) == [[]] + Split(Join(parts[1..], sep), sep)
    ensures parts == [[]] + parts[1..]
  {
    var s := Join(parts, sep);
    assert s[0] == sep && s[1..] == Join(parts[1..], sep);
  }

  lemma SplitChar(c: byte, s: seq<byte>, sep: byte)
    requires c != sep
    ensures var rest := Split(s, sep); Split([c] + s, sep) == [[c] + rest[0]] + rest[1..]
  {
    assert ([c] + s)[1..] == s;
  }

  predicate NameChar(c: char) { 'A' <= c <= 'Z' || 'a' <= c <= 'z' || '0' <= c <= '9' || c == '_' }

  predicate Element(w: seq<byte>) { w != [] && forall i | 0 <= i < |w| :: NameChar(w[i] as char) }

  predicate Elements(parts: seq<seq<byte>>) { forall i | 0 <= i < |parts| :: Element(parts[i]) }

  predicate Undigited(parts: seq<seq<byte>>) { forall i | 0 <= i < |parts| :: parts[i] != [] && !('0' as int <= parts[i][0] <= '9' as int) }

  lemma ElementsFree(parts: seq<seq<byte>>, sep: byte)
    requires Elements(parts) && !IsMemberChar(sep)
    ensures Free(parts, sep)
  {
    forall i | 0 <= i < |parts| ensures sep !in parts[i] {
      assert Element(parts[i]);
    }
  }

  /** A slash, or elements of letters, digits and underscores with a slash before each. */
  ghost predicate PathGrammar(s: seq<byte>) {
    s == ['/' as int] || exists parts :: parts != [] && Elements(parts) && s == ['/' as int] + Join(parts, '/' as int)
  }

  lemma PathExact(s: seq<byte>)
    ensures PathOk(s) <==> PathGrammar(s)
  {
    if PathOk(s) && |s| > 1 {
      var parts := Split(s[1..], SLASH);
      SplitJoin(s[1..], SLASH);
      assert Elements(parts) && s == [SLASH] + Join(parts, SLASH);
    }
    if parts :| parts != [] && Elements(parts) && s == ['/' as int] + Join(parts, '/' as int) {
      ElementsFree(parts, SLASH);
      SplitUnique(parts, SLASH);
      JoinEnds(parts, SLASH);
      assert s[1..] == Join(parts, SLASH);
      assert forall i | 0 <= i < |parts| :: Element(parts[i]);
    }
  }

  lemma {:induction false} JoinEnds(parts: seq<seq<byte>>, sep: byte)
    requires parts != [] && Elements(parts)
    ensures var s := Join(parts, sep); s != [] && IsMemberChar(s[0]) && IsMemberChar(s[|s| - 1])
  {
    assert Element(parts[0]);
    if |parts| > 1 {
      JoinEnds(parts[1..], sep);
    }
  }

  /** At least two elements with dots between them, none of which starts with a digit. */
  ghost predicate InterfaceGrammar(s: seq<byte>) {
    |s| <= 255 && exists parts :: |parts| >= 2 && Elements(parts) && Undigited(parts) && s == Join(parts, '.' as int)
  }

  lemma InterfaceExact(s: seq<byte>)
    ensures InterfaceOk(s) <==> InterfaceGrammar(s)
  {
    hide Split, Join;
    if InterfaceOk(s) {
      var parts := Split(s, DOT);
      SplitJoin(s, DOT);
      assert Elements(parts) && Undigited(parts);
    }
    if parts :| |parts| >= 2 && Elements(parts) && Undigited(parts) && s == Join(parts, '.' as int) {
      ElementsFree(parts, DOT);
      SplitUnique(parts, DOT);
      JoinEnds(parts, DOT);
      assert forall i | 0 <= i < |parts| :: Element(parts[i]);
    }
  }

  /** One element that does not start with a digit. */
  predicate MemberGrammar(s: seq<byte>) { 0 < |s| <= 255 && Element(s) && Undigited([s]) }

  lemma MemberExact(s: seq<byte>)
    ensures MemberOk(s) <==> MemberGrammar(s)
  {
    if MemberGrammar(s) {
      var parts := [s];
      assert !IsDigit(parts[0][0]);
      assert forall i | 0 <= i < |s| :: IsMemberChar(s[i]);
    }
  }

  // ---------------------------------------------------------------- validity

  /** The type of header field k: path, interface, member, error name, reply serial, destination, sender,
      signature, and the number of file descriptors. */
  function FieldCode(k: byte): char
    requires 1 <= k <= 9
  {
    ['o', 's', 's', 's', 'u', 's', 's', 'g', 'u'][k - 1]
  }

  /** Method calls have a path and a member, replies a reply serial, errors an error name and a reply serial,
      signals a path, an interface and a member. */
  predicate HasRequired(typ: byte, headers: map<byte, Var>) {
    && (typ == 1 ==> 1 in headers && 3 in headers)
    && (typ == 2 ==> 5 in headers)
    && (typ == 3 ==> 4 in headers && 5 in headers)
    && (typ == 4 ==> 1 in headers && 2 in headers && 3 in headers)
  }

  ghost predicate WellNamed(k: byte, v: Var) {
    v.val.Text? ==>
      && (k == 1 ==> PathGrammar(v.val.s))
      && (k == 2 || k == 4 ==> InterfaceGrammar(v.val.s))
      && (k == 3 ==> MemberGrammar(v.val.s))
  }

  ghost predicate GoodHeader(k: byte, v: Var) {
    1 <= k <= 9 && v.ty == Leaf(FieldCode(k) as int) && WellNamed(k, v)
  }

  /** A message is valid exactly if its flags and type are known, its headers are of the right type and well
      named, those its type requires are there, and a body comes with a signature. */
  lemma ValidExact(msg: Message)
    ensures IsValid(msg) <==>
            && msg.flags in {0, 1, 2, 3} && msg.typ in {1, 2, 3, 4}
            && (forall k | k in msg.headers :: GoodHeader(k, msg.headers[k]))
            && HasRequired(msg.typ, msg.headers)
            && (msg.body != [] ==> 8 in msg.headers)
  {
    hide PathOk, InterfaceOk, MemberOk, PathGrammar, InterfaceGrammar, MemberGrammar;
    RequiredExact(msg.typ, msg.headers);
    forall k | k in msg.headers ensures WellNamed(k, msg.headers[k]) <==> NamedOk(msg, k) {
      NamedExact(msg, k);
    }
    forall k | k in msg.headers && 1 <= k <= 9 ensures FieldCode(k) as int == FieldType(k) {
      CodeExact(k);
    }
  }

  lemma CodeExact(k: byte)
    requires 1 <= k <= 9
    ensures FieldCode(k) as int == FieldType(k)
  {}

  lemma RequiredExact(typ: byte, headers: map<byte, Var>)
    ensures 1 <= typ <= 4 ==> (HasRequired(typ, headers) <==> Required(typ) <= headers.Keys)
  {}

  predicate NamedOk(msg: Message, k: byte) {
    && (k == PATH ==> NameOk(msg, k, PathOk)) && (k == INTERFACE ==> NameOk(msg, k, InterfaceOk))
    && (k == MEMBER ==> NameOk(msg, k, MemberOk)) && (k == ERROR_NAME ==> NameOk(msg, k, InterfaceOk))
  }

  lemma NamedExact(msg: Message, k: byte)
    requires k in msg.headers
    ensures WellNamed(k, msg.headers[k]) <==> NamedOk(msg, k)
  {
    hide PathOk, InterfaceOk, MemberOk, PathGrammar, InterfaceGrammar, MemberGrammar;
    if msg.headers[k].val.Text? {
      var s := msg.headers[k].val.s;
      PathExact(s);
      InterfaceExact(s);
      MemberExact(s);
    }
  }

  /** A further header, of the right type and well named, keeps a message valid; nothing else added does. */
  lemma HeaderAdded(msg: Message, k: byte, v: Var)
    requires IsValid(msg) && k !in msg.headers
    ensures IsValid(msg.(headers := msg.headers[k := v])) <==> GoodHeader(k, v)
  {
    hide IsValid, GoodHeader;
    var more := msg.(headers := msg.headers[k := v]);
    ValidExact(msg);
    ValidExact(more);
    assert k in more.headers && more.headers[k] == v;
    assert forall j | j in more.headers :: j == k || (j in msg.headers && more.headers[j] == msg.headers[j]);
  }

  // ---------------------------------------------------------------- layout

  /** Bytes 1 to 11: type, flags, protocol version 1, length of the body, serial. */
  lemma FixedLayout(o: Order, msg: Message, length: nat)
    requires msg.serial < TWO32
    ensures MarshalMembers(o, FIXED, FixedValues(msg, length), 1) ==
            [msg.typ, msg.flags, 1] + PutUint(o, length % 0x1_0000_0000, 4) + PutUint(o, msg.serial, 4)
  {
    hide Marshal, PutUint;
    var vs := FixedValues(msg, length);
    TwoMembers(o, Leaf(Y), Leaf(Y), vs[0], vs[1], 1);
    ByteLayout(o, msg.typ, 1);
    ByteLayout(o, msg.flags, 2);
    OneMember(o, Leaf(Y), vs[2], 3);
    ByteLayout(o, 1, 3);
    TwoMembers(o, Leaf(U), Leaf(U), vs[3], vs[4], 4);
    WordLayout(o, length % TWO32, 4);
    WordLayout(o, msg.serial, 8);
    MembersAppend(o, [Leaf(Y)], [Leaf(U), Leaf(U)], [vs[2]], [vs[3], vs[4]], 3);
    MembersAppend(o, [Leaf(Y), Leaf(Y)], [Leaf(Y)] + [Leaf(U), Leaf(U)], [vs[0], vs[1]], [vs[2]] + [vs[3], vs[4]], 1);
    assert FIXED == [Leaf(Y), Leaf(Y)] + ([Leaf(Y)] + [Leaf(U), Leaf(U)]);
    assert vs == [vs[0], vs[1]] + ([vs[2]] + [vs[3], vs[4]]);
  }

  lemma ByteLayout(o: Order, n: byte, pos: nat)
    ensures Marshal(o, Leaf(Y), Num(n), pos) == [n]
  {
    hide Marshal, Body, PutUint;
    MarshalForm(o, Leaf(Y), Num(n), pos, []);
    LeafBody(o, Y, Num(n));
    OneByte(o, n);
    assert [] + Marshal(o, Leaf(Y), Num(n), pos) == Marshal(o, Leaf(Y), Num(n), pos);
  }

  lemma OneByte(o: Order, n: byte)
    ensures PutUint(o, n, 1) == [n]
  {
    assert PutUint(o, n / 256, 0) == [];
  }

  lemma WordLayout(o: Order, n: nat, pos: nat)
    requires n < TWO32 && Padding(pos, 4) == 0
    ensures Marshal(o, Leaf(U), Num(n), pos) == PutUint(o, n, 4)
  {
    hide Marshal, Body, PutUint, Padding;
    MarshalForm(o, Leaf(U), Num(n), pos, []);
    LeafBody(o, U, Num(n));
    assert [] + Marshal(o, Leaf(U), Num(n), pos) == Marshal(o, Leaf(U), Num(n), pos);
  }

  /** Seven parts one after the other. */
  function Assembled(start: seq<byte>, a: seq<byte>, b: seq<byte>, c: seq<byte>, content: seq<byte>, gap: seq<byte>, body: seq<byte>): seq<byte> {
    start + a + b + c + content + gap + body
  }

  /** Where the parts of every message are: the order mark, type, flags, version 1, length of the body, serial,
      length of the headers, the headers from 16 on, zeros up to a multiple of eight, and the body. */
  lemma MessageLayout(o: Order, msg: Message, keys: seq<byte>)
    requires msg.serial < TWO32 && forall i | 0 <= i < |keys| :: keys[i] in msg.headers
    ensures var b, body := MessageBytes(o, msg, keys), BodyBytes(o, msg);
            var content := HeaderContent(o, msg, keys);
            var gap := Zeros(Padding(16 + |content|, 8));
            && b == Assembled([if o.Little? then 'l' as int else 'B' as int, msg.typ, msg.flags, 1],
                              PutUint(o, |body| % 0x1_0000_0000, 4), PutUint(o, msg.serial, 4),
                              PutUint(o, |content| % 0x1_0000_0000, 4), content, gap, body)
            && (16 + |content| + |gap|) % 8 == 0
  {
    hide BodyBytes, HeaderContent, PutUint, HeaderBytes, HeadBytes, FixedBytes, Padding;
    var content, body := HeaderContent(o, msg, keys), BodyBytes(o, msg);
    HeadSplit(o, msg, keys);
    FixedUnfold(o, msg);
    FixedLayout(o, msg, |body|);
    HeaderFrame(o, msg, keys);
    FramedAt12(o, content);
    PaddingReaches(16 + |content|, 8);
    assert [Mark(o)] + ([msg.typ, msg.flags, 1] + PutUint(o, |body| % TWO32, 4) + PutUint(o, msg.serial, 4))
           == [Mark(o), msg.typ, msg.flags, 1] + PutUint(o, |body| % TWO32, 4) + PutUint(o, msg.serial, 4);
  }

  lemma FixedUnfold(o: Order, msg: Message)
    ensures FixedBytes(o, msg) == MarshalMembers(o, FIXED, FixedValues(msg, |BodyBytes(o, msg)|), 1)
  {
    hide MarshalMembers, BodyBytes, FixedValues;
  }

  lemma FramedAt12(o: Order, content: seq<byte>)
    ensures Framed(o, 12, 8, content) == PutUint(o, |content| % TWO32, 4) + content
  {
    hide PutUint;
    assert Padding(16, 8) == 0;
    assert PutUint(o, |content| % TWO32, 4) + Zeros(0) == PutUint(o, |content| % TWO32, 4);
  }

  // ---------------------------------------------------------------- an ordinary reply

  /** A method reply with no body and no header but the serial it replies to. */
  function Reply(flags: byte, serial: nat, to: nat): Message {
    Message(2, flags, serial, map[5 := Var(Leaf(U), Num(to))], [])
  }

  lemma ReplyValid(flags: byte, serial: nat, to: nat)
    requires flags < 4
    ensures IsValid(Reply(flags, serial, to))
  {
    hide IsValid;
    ValidExact(Reply(flags, serial, to));
  }

  lemma ReplyHeader(o: Order, to: nat)
    requires to < TWO32
    ensures MarshalItems(o, HEADER, [HeaderItem(5, Var(Leaf(U), Num(to)))], 16) == [5, 1, 'u' as int, 0] + PutUint(o, to, 4)
  {
    hide Marshal, PutUint, Body, Padding, Print, MarshalMembers;
    var item := HeaderItem(5, Var(Leaf(U), Num(to)));
    var vs := item.members;
    assert [item][1..] == [];
    assert MarshalItems(o, HEADER, [item], 16) == Marshal(o, HEADER, item, 16) + [];
    StructAt16(o, item);
    TwoMembers(o, Leaf(Y), Leaf(V), vs[0], vs[1], 16);
    ByteLayout(o, 5, 16);
    VariantAt17(o, to);
  }

  lemma StructAt16(o: Order, item: Value)
    requires item.Tuple?
    ensures Marshal(o, HEADER, item, 16) == MarshalMembers(o, [Leaf(Y), Leaf(V)], item.members, 16)
  {
    hide MarshalMembers;
    assert Padding(16, 8) == 0;
    assert Zeros(0) + MarshalMembers(o, [Leaf(Y), Leaf(V)], item.members, 16) == MarshalMembers(o, [Leaf(Y), Leaf(V)], item.members, 16);
  }

  lemma VariantAt17(o: Order, to: nat)
    requires to < TWO32
    ensures Marshal(o, Leaf(V), Variant(Leaf(U), Num(to)), 17) == [1, 'u' as int, 0] + PutUint(o, to, 4)
  {
    hide PutUint, Body;
    var v := Variant(Leaf(U), Num(to));
    assert Padding(20, 4) == 0;
    WordLayout(o, to, 20);
    VariantBody(o, v, 17);
    assert SigBytes(Print(v.ty)) == [1, 'u' as int, 0];
    assert Marshal(o, Leaf(V), v, 17) == Zeros(0) + Body(o, Leaf(V), v, 17);
  }

  lemma VariantBody(o: Order, v: Value, pos: nat)
    requires v.Variant?
    ensures Body(o, Leaf(V), v, pos) == VariantBytes(o, v, pos)
  {}

  /** Every byte of an ordinary reply. */
  lemma ReplyBytes(o: Order, flags: byte, serial: nat, to: nat)
    requires serial < TWO32 && to < TWO32
    ensures MessageBytes(o, Reply(flags, serial, to), [5]) ==
            [if o.Little? then 'l' as int else 'B' as int, 2, flags, 1] + PutUint(o, 0, 4) + PutUint(o, serial, 4)
            + PutUint(o, 8, 4) + [5, 1, 'u' as int, 0] + PutUint(o, to, 4)
  {
    hide *;
    var start := [if o.Little? then 'l' as int else 'B' as int, 2, flags, 1];
    ReplyLayout(o, flags, serial, to);
    Flat(start, PutUint(o, 0, 4), PutUint(o, serial, 4), PutUint(o, 8, 4), [5, 1, 'u' as int, 0], PutUint(o, to, 4));
  }

  lemma Flat(start: seq<byte>, a: seq<byte>, b: seq<byte>, c: seq<byte>, x: seq<byte>, y: seq<byte>)
    ensures Assembled(start, a, b, c, x + y, [], []) == start + a + b + c + x + y
  {
    Assoc(start + a + b + c, x, y);
  }

  lemma ReplyLayout(o: Order, flags: byte, serial: nat, to: nat)
    requires serial < TWO32 && to < TWO32
    ensures MessageBytes(o, Reply(flags, serial, to), [5]) ==
            Assembled([if o.Little? then 'l' as int else 'B' as int, 2, flags, 1], PutUint(o, 0, 4), PutUint(o, serial, 4),
                      PutUint(o, 8, 4), [5, 1, 'u' as int, 0] + PutUint(o, to, 4), [], [])
  {
    hide PutUint, HeaderContent, MessageBytes, BodyBytes, Padding, Assembled;
    MessageLayout(o, Reply(flags, serial, to), [5]);
    ReplyContent(o, flags, serial, to);
    NoGap();
    assert Zeros(0) == [];
  }

  lemma NoGap()
    ensures Padding(24, 8) == 0
  {}

  lemma ReplyContent(o: Order, flags: byte, serial: nat, to: nat)
    requires serial < TWO32 && to < TWO32
    ensures HeaderContent(o, Reply(flags, serial, to), [5]) == [5, 1, 'u' as int, 0] + PutUint(o, to, 4)
    ensures BodyBytes(o, Reply(flags, serial, to)) == []
  {
    hide PutUint, MarshalItems;
    var msg := Reply(flags, serial, to);
    ReplyHeader(o, to);
    assert HeaderItems(msg.headers, [5]) == [HeaderItem(5, Var(Leaf(U), Num(to)))];
    assert FirstAt(12, 8) == 16;
  }

  lemma ReplySendable(o: Order, flags: byte, serial: nat, to: nat)
    requires serial < TWO32 && to < TWO32
    ensures Typed(Reply(flags, serial, to)) && Sendable(o, Reply(flags, serial, to))
  {
    assert Types(Reply(flags, serial, to).body) == [] && Vals(Reply(flags, serial, to).body) == [];
  }

  lemma OneKey(keys: seq<byte>, v: Var)
    requires Enumerates(keys, map[5 := v])
    ensures keys == [5]
  {
    assert 5 in keys;
    assert keys[0] == 5 && keys[|keys| - 1] == 5;
  }

  /** It is sent and received unchanged. */
  method ReplyDelivered(o: Order, flags: byte, serial: nat, to: nat, rest: seq<byte>) returns (r: Step<Message>, left: seq<byte>)
    requires flags < 4 && serial < TWO32 && to < TWO32
    ensures r == Done(Reply(flags, serial, to)) && left == rest
  {
    var msg := Reply(flags, serial, to);
    hide IsValid, Typed, Sendable, MessageBytes, PutUint;
    ReplyValid(flags, serial, to);
    ReplySendable(o, flags, serial, to);
    var keys, sent;
    keys, sent, r, left := SendThenReceive(o, msg, rest);
    OneKey(keys, msg.headers[5]);
    ReplyBytes(o, flags, serial, to);
  }

  // ---------------------------------------------------------------- what is received

  /** Whatever arrives, a message that comes out is valid, and its bytes began with an order mark. */
  lemma ReceivedValid(buf: seq<byte>)
    ensures ParseMessage(buf).Ok? ==> IsValid(ParseMessage(buf).value) && buf[0] in {'l' as int, 'B' as int}
  {
    hide IsValid, ParseBody, GetMembers, TooLong, GetUint;
    if ParseMessage(buf).Ok? {
      var o := if buf[0] == LITTLE then Little else Big;
      FixedValid(o, buf[1..]);
    }
  }

  lemma FixedValid(o: Order, buf: seq<byte>)
    ensures ParseFixed(o, buf).Ok? ==> IsValid(ParseFixed(o, buf).value)
  {
    hide IsValid, GetMembers, TooLong, GetUint, ParseRest;
    var r := GetMembers(o, FIXED, 0, buf, 1);
    if r.Ok? {
      var rest := buf[r.n..];
      var h := GetMembers(o, [Array(HEADER)], 0, rest, 12);
      if h.Ok? {
        RestValid(o, Assemble(r.value, h.value), NumAt(r.value, 3), rest[h.n..], 12 + h.n);
      }
    }
  }

  lemma RestValid(o: Order, msg: Message, length: nat, buf: seq<byte>, pos: nat)
    ensures var r := ParseRest(o, msg, length, buf, pos); r.Ok? ==> IsValid(r.value)
  {
    hide IsValid, GetMembers, TypesFor;
    var r := ParseRest(o, msg, length, buf, pos);
    if r.Ok? {
      WithBody(msg, r.value.body);
    }
  }

  lemma WithBody(msg: Message, body: seq<Var>)
    requires IsValid(msg)
    ensures (body != [] ==> SignatureHeader(msg) != []) ==> IsValid(msg.(body := body))
  {
    assert forall k :: HeaderText(msg.(body := body), k) == HeaderText(msg, k);
  }

  /** Of several headers of one field, the last one counts. */
  lemma {:induction false} LastHeader(items: seq<Value>, k: byte, i: nat)
    requires i < |items| && HeaderKey(items[i]) == k && forall j | i < j < |items| :: HeaderKey(items[j]) != k
    ensures k in HeaderMap(items) && HeaderMap(items)[k] == HeaderVar(items[i])
  {
    hide HeaderKey, HeaderVar;
    if i < |items| - 1 {
      LastHeader(items[..|items| - 1], k, i);
    }
  }

  lemma {:induction false} NoHeader(items: seq<Value>, k: byte)
    requires forall j | 0 <= j < |items| :: HeaderKey(items[j]) != k
    ensures k !in HeaderMap(items)
  {
    hide HeaderKey, HeaderVar;
    if items != [] {
      NoHeader(items[..|items| - 1], k);
    }
  }

  /** Any eleven bytes after the order mark are read as type, flags, version, length and serial. */
  lemma AnyFixed(o: Order, b: seq<byte>, rest: seq<byte>)
    requires |b| == 11
    ensures GetMembers(o, FIXED, 0, b + rest, 1) ==
            Ok([Num(b[0]), Num(b[1]), Num(b[2]), Num(GetUint(o, b[3..7])), Num(GetUint(o, b[7..]))], 11)
  {
    hide GetMembers, MarshalMembers, Marshal, PutUint, GetUint, ReadsMembers;
    var vs := [Num(b[0]), Num(b[1]), Num(b[2]), Num(GetUint(o, b[3..7])), Num(GetUint(o, b[7..]))];
    Pow4();
    FixedAs(o, b);
    FixedInDomain(o, FIXED, vs, 1);
    MembersRoundTrip(o, FIXED, vs, 0, 1);
    ReadsForm(o, FIXED, b, 1, vs, rest);
  }

  lemma Pow4()
    ensures Pow256(4) == TWO32
  {
    assert Size(4) == TWO32;
  }

  lemma ReadsForm(o: Order, ts: seq<Ty>, b: seq<byte>, pos: nat, vs: seq<Value>, rest: seq<byte>)
    requires ReadsMembers(o, ts, 0, b, pos, vs, true)
    ensures GetMembers(o, ts, 0, b + rest, pos) == Ok(vs, |b|)
  {
    hide GetMembers;
  }

  lemma FixedAs(o: Order, b: seq<byte>)
    requires |b| == 11
    ensures MarshalMembers(o, FIXED, [Num(b[0]), Num(b[1]), Num(b[2]), Num(GetUint(o, b[3..7])), Num(GetUint(o, b[7..]))], 1) == b
  {
    hide Marshal, PutUint, GetUint, MarshalMembers;
    Pow4();
    var w, s := GetUint(o, b[3..7]), GetUint(o, b[7..]);
    TwoMembers(o, Leaf(Y), Leaf(Y), Num(b[0]), Num(b[1]), 1);
    ByteLayout(o, b[0], 1);
    ByteLayout(o, b[1], 2);
    OneMember(o, Leaf(Y), Num(b[2]), 3);
    ByteLayout(o, b[2], 3);
    TwoMembers(o, Leaf(U), Leaf(U), Num(w), Num(s), 4);
    WordLayout(o, w, 4);
    WordLayout(o, s, 8);
    PutGet(o, b[3..7]);
    PutGet(o, b[7..]);
    MembersAppend(o, [Leaf(Y)], [Leaf(U), Leaf(U)], [Num(b[2])], [Num(w), Num(s)], 3);
    MembersAppend(o, [Leaf(Y), Leaf(Y)], [Leaf(Y)] + [Leaf(U), Leaf(U)], [Num(b[0]), Num(b[1])], [Num(b[2])] + [Num(w), Num(s)], 1);
    assert FIXED == [Leaf(Y), Leaf(Y)] + ([Leaf(Y)] + [Leaf(U), Leaf(U)]);
    assert [Num(b[0]), Num(b[1]), Num(b[2]), Num(w), Num(s)] == [Num(b[0]), Num(b[1])] + ([Num(b[2])] + [Num(w), Num(s)]);
    assert b == [b[0]] + [b[1]] + ([b[2]] + (b[3..7] + b[7..]));
  }

  /** A message is refused as too long exactly by the lengths it announces, whose sum wraps at 32 bits. */
  lemma LongRefused(o: Order, buf: seq<byte>)
    requires |buf| >= 16 && buf[0] == (if o.Little? then 'l' as int else 'B' as int)
    ensures (GetUint(o, buf[12..16]) + GetUint(o, buf[4..8]) + 16) % 0x1_0000_0000 > 0x800_0000 ==> ParseMessage(buf) == Err
  {
    hide GetMembers, GetUint;
    var b, rest := buf[1..12], buf[12..];
    AnyFixed(o, b, rest);
    assert buf[1..] == b + rest && b[3..7] == buf[4..8] && rest[..4] == buf[12..16];
    Cut(b, rest);
  }
}
