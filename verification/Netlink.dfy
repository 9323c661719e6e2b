/** Netlink route attributes: `RtAttr.Len`, `RtAttr.Serialize` and `ParseRouteAttr` of nl_linux.go. */
module NetlinkAttributes {
  import opened Common
  import opened ByteOrder

  /** An attribute with fixed data and nested attributes. An IfInfomsg child, which is always the first
      one and has the size of fixed data without padding, is represented as data. */
  datatype Attr = Attr(typ: nat, data: seq<byte>, kids: seq<Attr>)

  /** `rtaAlignOf`: the next multiple of four. */
  function RtaAlign(n: nat): (r: nat)
    ensures r % 4 == 0 && n <= r < n + 4
  {
    (n + 3) / 4 * 4
  }

  lemma AlignShift(m: nat, n: nat)
    requires m % 4 == 0
    ensures RtaAlign(m + n) == m + RtaAlign(n)
  {}

  lemma SumAligned(m: nat, n: nat)
    requires m % 4 == 0 && n % 4 == 0
    ensures (m + n) % 4 == 0
  {}

  // ---------------------------------------------------------------- lengths and bytes

  function Len(a: Attr): (n: nat)
    decreases a, 1
  {
    if a.kids == [] then 4 + |a.data| else RtaAlign(KidsLen(a.kids) + 4 + |a.data|)
  }

  function KidsLen(kids: seq<Attr>): nat
    decreases kids, 0
  {
    if kids == [] then 0 else RtaAlign(Len(kids[0])) + KidsLen(kids[1..])
  }

  function Padded(data: seq<byte>): seq<byte> { data + Zeros(RtaAlign(|data|) - |data|) }

  /** Length and type in 16 bits, the data, its padding, and the children one after the other. */
  function Ser(o: Order, a: Attr): seq<byte>
    decreases a, 1
  {
    PutUint(o, Len(a) % TWO16, 2) + PutUint(o, a.typ % TWO16, 2) + Padded(a.data) + SerAll(o, a.kids)
  }

  function SerAll(o: Order, kids: seq<Attr>): seq<byte>
    decreases kids, 0
  {
    if kids == [] then [] else Ser(o, kids[0]) + SerAll(o, kids[1..])
  }

  /** What the header's length covers beyond the header. */
  function Value(o: Order, a: Attr): seq<byte> {
    if a.kids == [] then a.data else Padded(a.data) + SerAll(o, a.kids)
  }

  /** `Serialize` fills exactly rtaAlignOf(Len()) bytes. */
  lemma {:induction false} SerSize(o: Order, a: Attr)
    ensures |Ser(o, a)| == RtaAlign(Len(a))
    ensures Len(a) == 4 + |Value(o, a)|
    decreases a, 1
  {
    KidsSize(o, a.kids);
    AlignShift(4, |a.data|);
    SumAligned(KidsLen(a.kids), 4);
    AlignShift(KidsLen(a.kids) + 4, |a.data|);
    AlignShift(|Ser(o, a)|, 0);
  }

  lemma {:induction false} KidsSize(o: Order, kids: seq<Attr>)
    ensures |SerAll(o, kids)| == KidsLen(kids) && KidsLen(kids) % 4 == 0
    decreases kids, 0
  {
    if kids != [] {
      SerSize(o, kids[0]);
      KidsSize(o, kids[1..]);
      SumAligned(RtaAlign(Len(kids[0])), KidsLen(kids[1..]));
    }
  }

  lemma {:induction false} SerAllAppend(o: Order, a: seq<Attr>, b: seq<Attr>)
    ensures SerAll(o, a + b) == SerAll(o, a) + SerAll(o, b)
    ensures KidsLen(a + b) == KidsLen(a) + KidsLen(b)
  {
    if a == [] {
      assert a + b == b;
    } else {
      assert (a + b)[1..] == a[1..] + b;
      SerAllAppend(o, a[1..], b);
    }
  }

  /** Where child i begins. */
  function KidOffset(a: Attr, i: nat): nat
    requires i <= |a.kids|
  {
    4 + RtaAlign(|a.data|) + KidsLen(a.kids[..i])
  }

  /** Child i occupies its own region of its parent's bytes, which ends where child i + 1 begins and
      within the parent. */
  lemma KidRegion(o: Order, a: Attr, i: nat)
    requires i < |a.kids|
    ensures var at, n := KidOffset(a, i), |Ser(o, a.kids[i])|;
            && KidOffset(a, i + 1) == at + n <= |Ser(o, a)|
            && Ser(o, a)[at..at + n] == Ser(o, a.kids[i])
  {
    hide SerAll, KidsLen, Len, PutUint;
    var before, kid, after := a.kids[..i], a.kids[i], a.kids[i + 1..];
    KidsAround(o, a.kids, i);
    KidsSize(o, before);
    SerSize(o, kid);
    var head := PutUint(o, Len(a) % TWO16, 2) + PutUint(o, a.typ % TWO16, 2) + Padded(a.data);
    Region(head, SerAll(o, before), Ser(o, kid), SerAll(o, after));
  }

  lemma KidsAround(o: Order, kids: seq<Attr>, i: nat)
    requires i < |kids|
    ensures SerAll(o, kids) == SerAll(o, kids[..i]) + (Ser(o, kids[i]) + SerAll(o, kids[i + 1..]))
    ensures KidsLen(kids[..i + 1]) == KidsLen(kids[..i]) + RtaAlign(Len(kids[i]))
  {
    assert kids == kids[..i] + kids[i..] && kids[i..][1..] == kids[i + 1..];
    SerAllAppend(o, kids[..i], kids[i..]);
    assert kids[..i + 1] == kids[..i] + [kids[i]];
    SerAllAppend(o, kids[..i], [kids[i]]);
    assert KidsLen([kids[i]]) == RtaAlign(Len(kids[i])) + KidsLen([kids[i]][1..]);
  }

  lemma Region<A>(a: seq<A>, b: seq<A>, c: seq<A>, d: seq<A>)
    ensures var at, n := |a| + |b|, |c|; var all := a + (b + (c + d)); at + n <= |all| && all[at..at + n] == c
  {}

  // ---------------------------------------------------------------- Len and Serialize as the source runs them

  method LenOf(a: Attr) returns (n: nat)
    ensures n == Len(a)
    decreases a
  {
    if |a.kids| == 0 {
      return 4 + |a.data|;
    }
    var l := 0;
    for i := 0 to |a.kids|
      invariant l == KidsLen(a.kids[..i])
    {
      var n := LenOf(a.kids[i]);
      l := l + RtaAlign(n);
      assert a.kids[..i + 1] == a.kids[..i] + [a.kids[i]];
      SerAllAppend(Little, a.kids[..i], [a.kids[i]]);
    }
    assert a.kids[..|a.kids|] == a.kids;
    l := l + 4;
    n := RtaAlign(l + |a.data|);
  }

  /** Go's copy, into the bytes of buf from `at` on. */
  method Copy(buf: array<byte>, at: nat, src: seq<byte>)
    requires at + |src| <= buf.Length
    modifies buf
    ensures buf[..] == old(buf[..])[..at] + src + old(buf[..])[at + |src|..]
  {
    ghost var was := buf[..];
    for i := 0 to |src|
      invariant buf[..at] == was[..at] && buf[at..at + i] == src[..i] && buf[at + i..] == was[at + i..]
    {
      buf[at + i] := src[i];
      assert buf[at..at + i + 1] == buf[at..at + i] + [src[i]];
    }
    assert buf[..] == buf[..at] + buf[at..at + |src|] + buf[at + |src|..];
  }

  /** Overwriting the start of a run of zeros; n bytes of it then count as written. */
  method Place(buf: array<byte>, at: nat, src: seq<byte>, ghost done: seq<byte>, ghost n: nat)
    requires |src| <= n && at == |done| && at + n <= buf.Length
    requires buf[..] == done + Zeros(buf.Length - at)
    modifies buf
    ensures buf[..] == done + (src + Zeros(n - |src|)) + Zeros(buf.Length - at - n)
  {
    Copy(buf, at, src);
    Filled(done, buf.Length - at, src, n);
  }

  lemma Filled(done: seq<byte>, z: nat, src: seq<byte>, n: nat)
    requires |src| <= n <= z
    ensures var all := done + Zeros(z);
            all[..|done|] + src + all[|done| + |src|..] == done + (src + Zeros(n - |src|)) + Zeros(z - n)
  {}

  /** The loop over the children: each is placed where the one before it ended. */
  method SerializeKids(o: Order, kids: seq<Attr>, buf: array<byte>, at: nat, ghost head: seq<byte>)
    requires at == |head| && at + |SerAll(o, kids)| == buf.Length && buf[..] == head + Zeros(buf.Length - at)
    modifies buf
    ensures buf[..] == head + SerAll(o, kids)
    decreases kids
  {
    hide Ser, SerAll, Len, Zeros, RtaAlign;
    var next := at;
    ghost var done := head;
    KidsEnds(o, kids);
    NoPadding(head);
    for i := 0 to |kids|
      invariant next == |done| && done == head + SerAll(o, kids[..i])
      invariant next + |SerAll(o, kids[i..])| == buf.Length && buf[..] == done + Zeros(buf.Length - next)
    {
      var child := Serialize(o, kids[i]);
      ghost var bytes := Ser(o, kids[i]);
      NextKid(o, kids, i);
      WholeWords(o, kids[i]);
      Place(buf, next, child[..], done, |bytes|);
      NoPadding(bytes);
      next := next + RtaAlign(child.Length);
      Assoc(head, SerAll(o, kids[..i]), bytes);
      done := done + bytes;
    }
    NoPadding(done);
  }

  lemma KidsEnds(o: Order, kids: seq<Attr>)
    ensures kids[0..] == kids && kids[..|kids|] == kids
    ensures SerAll(o, kids[..0]) == [] && SerAll(o, kids[|kids|..]) == []
  {}

  lemma WholeWords(o: Order, a: Attr)
    ensures RtaAlign(|Ser(o, a)|) == |Ser(o, a)|
  {
    hide Ser, Len;
    SerSize(o, a);
    AlignShift(|Ser(o, a)|, 0);
  }

  lemma NoPadding(s: seq<byte>)
    ensures s + Zeros(0) == s && s + [] == s
  {}

  /** The buffer ends up as the attribute's bytes; every write stays within it. */
  method Serialize(o: Order, a: Attr) returns (buf: array<byte>)
    ensures fresh(buf) && buf[..] == Ser(o, a)
    decreases a
  {
    var length := LenOf(a);
    SerSize(o, a);
    buf := new byte[RtaAlign(length)](_ => 0);
    assert buf[..] == Zeros(4) + Zeros(buf.Length - 4);
    var next := 4;
    Place(buf, next, a.data, Zeros(4), RtaAlign(|a.data|));
    next := next + RtaAlign(|a.data|);
    SerializeKids(o, a.kids, buf, next, Zeros(4) + Padded(a.data));
    var header := PutUint(o, length % TWO16, 2) + PutUint(o, a.typ % TWO16, 2);
    Copy(buf, 0, header);
    Stamped(header, Zeros(4), Padded(a.data), SerAll(o, a.kids));
  }

  /** Overwriting the space left for the header. */
  lemma Stamped(header: seq<byte>, gap: seq<byte>, a: seq<byte>, b: seq<byte>)
    requires |header| == |gap|
    ensures var all := gap + a + b; all[..0] + header + all[0 + |header|..] == header + a + b
  {}

  lemma NextKid(o: Order, kids: seq<Attr>, i: nat)
    requires i < |kids|
    ensures SerAll(o, kids[i..]) == Ser(o, kids[i]) + SerAll(o, kids[i + 1..])
    ensures SerAll(o, kids[..i + 1]) == SerAll(o, kids[..i]) + Ser(o, kids[i])
  {
    assert kids[i..][1..] == kids[i + 1..] && kids[..i + 1] == kids[..i] + [kids[i]];
    SerAllAppend(o, kids[..i], [kids[i]]);
    assert SerAll(o, [kids[i]]) == Ser(o, kids[i]);
  }

  // ---------------------------------------------------------------- parsing one level

  datatype RouteAttr = RouteAttr(typ: nat, value: seq<byte>)

  /** Panic: the loop slices beyond the buffer, which takes a length that is no multiple of four. */
  datatype Parsed = Attrs(attrs: seq<RouteAttr>) | Invalid | Panic

  function Cons(a: RouteAttr, p: Parsed): Parsed {
    if p.Attrs? then Attrs([a] + p.attrs) else p
  }

  function Parse(o: Order, b: seq<byte>): Parsed
    decreases |b|
  {
    if |b| < 4 then Attrs([])
    else
      var len := GetUint(o, b[..2]);
      if len < 4 || len > |b| then Invalid
      else if RtaAlign(len) > |b| then Panic
      else Cons(RouteAttr(GetUint(o, b[2..4]), b[4..len]), Parse(o, b[RtaAlign(len)..]))
  }

  method ParseRouteAttr(o: Order, buf: seq<byte>) returns (r: Parsed)
    ensures r == Parse(o, buf)
  {
    var b, attrs := buf, [];
    while |b| >= 4
      invariant Parse(o, buf) == Behind(attrs, Parse(o, b))
      decreases |b|
    {
      var len := GetUint(o, b[..2]);
      if len < 4 || len > |b| {
        return Invalid;
      }
      if RtaAlign(len) > |b| {
        return Panic;
      }
      ghost var rest := Parse(o, b[RtaAlign(len)..]);
      var ra := RouteAttr(GetUint(o, b[2..4]), b[4..len]);
      BehindCons(attrs, ra, rest);
      attrs := attrs + [ra];
      b := b[RtaAlign(len)..];
    }
    r := Attrs(attrs);
  }

  function Behind(attrs: seq<RouteAttr>, p: Parsed): Parsed {
    if p.Attrs? then Attrs(attrs + p.attrs) else p
  }

  lemma BehindCons(attrs: seq<RouteAttr>, a: RouteAttr, p: Parsed)
    ensures Behind(attrs, Cons(a, p)) == Behind(attrs + [a], p)
  {
    if p.Attrs? {
      Assoc(attrs, [a], p.attrs);
    }
  }

  // ---------------------------------------------------------------- the round trip

  lemma Uint16(o: Order, n: nat)
    requires n < TWO16
    ensures GetUint(o, PutUint(o, n, 2)) == n
  {
    assert Pow256(2) == 256 * Pow256(1) && Pow256(1) == 256 * Pow256(0);
    GetPut(o, n, 2);
  }

  /** The first attribute of a buffer is cut off by its own length. */
  lemma HeaderBack(o: Order, a: Attr, rest: seq<byte>)
    ensures var b := Ser(o, a) + rest;
            && |b| >= |Ser(o, a)| >= 4
            && GetUint(o, b[..2]) == Len(a) % TWO16 && GetUint(o, b[2..4]) == a.typ % TWO16
  {
    SerSize(o, a);
    var b := Ser(o, a) + rest;
    assert b[..2] == PutUint(o, Len(a) % TWO16, 2) && b[2..4] == PutUint(o, a.typ % TWO16, 2);
    Uint16(o, Len(a) % TWO16);
    Uint16(o, a.typ % TWO16);
  }

  lemma ValueBack(o: Order, a: Attr, rest: seq<byte>)
    ensures Len(a) <= |Ser(o, a) + rest| && (Ser(o, a) + rest)[4..Len(a)] == Value(o, a)
  {
    SerSize(o, a);
    var head := PutUint(o, Len(a) % TWO16, 2) + PutUint(o, a.typ % TWO16, 2);
    Sliced(head, a.data, Zeros(RtaAlign(|a.data|) - |a.data|), SerAll(o, a.kids), rest);
  }

  lemma Sliced<A>(head: seq<A>, d: seq<A>, z: seq<A>, k: seq<A>, rest: seq<A>)
    ensures var all := head + (d + z) + k + rest; var n := |head|;
            && n + |d| + |z| + |k| <= |all|
            && all[n..n + |d|] == d && all[n..n + (|d| + |z| + |k|)] == (d + z) + k
  {}

  lemma ParseStep(o: Order, b: seq<byte>, len: nat, ra: RouteAttr, rest: seq<byte>)
    requires 4 <= len <= RtaAlign(len) <= |b| && GetUint(o, b[..2]) == len
    requires ra == RouteAttr(GetUint(o, b[2..4]), b[4..len]) && b[RtaAlign(len)..] == rest
    ensures Parse(o, b) == Cons(ra, Parse(o, rest))
  {}

  lemma ParseFirst(o: Order, a: Attr, rest: seq<byte>)
    requires Len(a) < TWO16 && a.typ < TWO16
    ensures Parse(o, Ser(o, a) + rest) == Cons(RouteAttr(a.typ, Value(o, a)), Parse(o, rest))
  {
    HeaderBack(o, a, rest);
    ValueBack(o, a, rest);
    SerSize(o, a);
    Cut(Ser(o, a), rest);
    ParseStep(o, Ser(o, a) + rest, Len(a), RouteAttr(a.typ, Value(o, a)), rest);
  }

  /** Types that fit, all the way down. */
  predicate TypesFit(a: Attr) { a.typ < TWO16 && forall i | 0 <= i < |a.kids| :: TypesFit(a.kids[i]) }

  function Level(o: Order, kids: seq<Attr>): (r: seq<RouteAttr>)
    ensures |r| == |kids|
  {
    if kids == [] then [] else [RouteAttr(kids[0].typ, Value(o, kids[0]))] + Level(o, kids[1..])
  }

  /** Parsing one level gives the type and the value of every attribute on it, in order. */
  lemma {:induction false} ParseLevel(o: Order, kids: seq<Attr>)
    requires forall i | 0 <= i < |kids| :: Len(kids[i]) < TWO16 && kids[i].typ < TWO16
    ensures Parse(o, SerAll(o, kids)) == Attrs(Level(o, kids))
  {
    if kids != [] {
      ParseLevel(o, kids[1..]);
      ParseFirst(o, kids[0], SerAll(o, kids[1..]));
    }
  }

  /** No child is longer than its parent. */
  lemma {:induction false} KidFits(kids: seq<Attr>, i: nat)
    requires i < |kids|
    ensures Len(kids[i]) <= KidsLen(kids)
  {
    if i > 0 {
      KidFits(kids[1..], i - 1);
    }
  }

  /** How much fixed data precedes the nested attributes, at every level: what a reader must know. */
  datatype Shape = Shape(fixed: nat, kids: seq<Shape>)

  function ShapeOf(a: Attr): Shape {
    Shape(|a.data|, seq(|a.kids|, i requires 0 <= i < |a.kids| => ShapeOf(a.kids[i])))
  }

  /** Reading a whole tree back, one `ParseRouteAttr` per level. */
  function Rebuild(o: Order, shape: Shape, ra: RouteAttr): Option<Attr>
    decreases shape, 1
  {
    if shape.kids == [] then Some(Attr(ra.typ, ra.value, []))
    else if RtaAlign(shape.fixed) > |ra.value| then None
    else
      match Parse(o, ra.value[RtaAlign(shape.fixed)..])
      case Attrs(attrs) =>
        (match RebuildAll(o, shape.kids, attrs)
         case Some(kids) => Some(Attr(ra.typ, ra.value[..shape.fixed], kids))
         case None => None)
      case _ => None
  }

  function RebuildAll(o: Order, shapes: seq<Shape>, attrs: seq<RouteAttr>): Option<seq<Attr>>
    decreases shapes, 0
  {
    if |shapes| != |attrs| then None
    else if shapes == [] then Some([])
    else
      match (Rebuild(o, shapes[0], attrs[0]), RebuildAll(o, shapes[1..], attrs[1..]))
      case (Some(a), Some(rest)) => Some([a] + rest)
      case _ => None
  }

  function Shapes(kids: seq<Attr>): seq<Shape> { seq(|kids|, i requires 0 <= i < |kids| => ShapeOf(kids[i])) }

  /** Every type, payload and child, at every depth, is recovered from the type and value of the root. */
  lemma {:induction false} TreeRoundTrip(o: Order, a: Attr)
    requires Len(a) < TWO16 && TypesFit(a)
    ensures Rebuild(o, ShapeOf(a), RouteAttr(a.typ, Value(o, a))) == Some(a)
    decreases a, 1
  {
    if a.kids != [] {
      forall i | 0 <= i < |a.kids| ensures Len(a.kids[i]) < TWO16 && TypesFit(a.kids[i]) {
        KidFits(a.kids, i);
      }
      ParseLevel(o, a.kids);
      ForestRoundTrip(o, a.kids);
      var v := Value(o, a);
      Cut(Padded(a.data), SerAll(o, a.kids));
      assert v[..|a.data|] == a.data;
      assert ShapeOf(a).kids == Shapes(a.kids);
    }
  }

  lemma {:induction false} ForestRoundTrip(o: Order, kids: seq<Attr>)
    requires forall i | 0 <= i < |kids| :: Len(kids[i]) < TWO16 && TypesFit(kids[i])
    ensures RebuildAll(o, Shapes(kids), Level(o, kids)) == Some(kids)
    decreases kids, 0
  {
    hide Rebuild, Value, Len, TypesFit, ShapeOf;
    if kids != [] {
      TreeRoundTrip(o, kids[0]);
      ForestRoundTrip(o, kids[1..]);
      assert Shapes(kids)[1..] == Shapes(kids[1..]);
      assert Level(o, kids)[1..] == Level(o, kids[1..]);
      assert kids == [kids[0]] + kids[1..];
    }
  }

  predicate Fit(kids: seq<Attr>) { forall i | 0 <= i < |kids| :: Len(kids[i]) < TWO16 && TypesFit(kids[i]) }

  /** From the bytes of a list of trees, one level after the other, the trees come back. */
  lemma BytesRoundTrip(o: Order, kids: seq<Attr>)
    requires Fit(kids)
    ensures var p := Parse(o, SerAll(o, kids)); p.Attrs? && RebuildAll(o, Shapes(kids), p.attrs) == Some(kids)
  {
    hide Parse, SerAll, Level, RebuildAll, Shapes, Len;
    ParseLevel(o, kids);
    ForestRoundTrip(o, kids);
  }

  /** The attributes of a request, serialised one after the other. */
  method SerializeAll(o: Order, kids: seq<Attr>) returns (bytes: seq<byte>)
    ensures bytes == SerAll(o, kids)
  {
    hide Ser, Len;
    bytes := [];
    for i := 0 to |kids|
      invariant bytes == SerAll(o, kids[..i])
    {
      var buf := Serialize(o, kids[i]);
      NextKid(o, kids, i);
      bytes := bytes + buf[..];
    }
    assert kids[..|kids|] == kids;
  }

  /** Serialising, parsing and rebuilding a list of trees gives the trees. */
  method SendThenRebuild(o: Order, kids: seq<Attr>) returns (r: Option<seq<Attr>>)
    requires Fit(kids)
    ensures r == Some(kids)
  {
    hide Parse, SerAll, RebuildAll, Shapes, Fit;
    var bytes := SerializeAll(o, kids);
    var parsed := ParseRouteAttr(o, bytes);
    BytesRoundTrip(o, kids);
    r := RebuildAll(o, Shapes(kids), parsed.attrs);
  }

  /** A serialised attribute is parsed back as itself exactly if its length fits in 16 bits. */
  lemma FitsExactly(o: Order, a: Attr)
    requires a.typ < TWO16
    ensures Parse(o, Ser(o, a)) == Attrs([RouteAttr(a.typ, Value(o, a))]) <==> Len(a) < TWO16
  {
    var b := Ser(o, a);
    assert b + [] == b;
    SerSize(o, a);
    if Len(a) < TWO16 {
      ParseFirst(o, a, []);
    } else {
      HeaderBack(o, a, []);
      var len := GetUint(o, b[..2]);
      if 4 <= len && RtaAlign(len) <= |b| {
        var rest := Parse(o, b[RtaAlign(len)..]);
        assert rest.Attrs? ==> |Cons(RouteAttr(GetUint(o, b[2..4]), b[4..len]), rest).attrs[0].value| < |Value(o, a)|;
      }
    }
  }
}
