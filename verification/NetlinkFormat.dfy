/** The bytes of netlink attributes, one by one, and exactly what the parser makes of any bytes. */
module NetlinkFormat {
  import opened Common
  import opened ByteOrder
  import opened NetlinkAttributes

  /** Sixteen bits at the front of b, low-order byte first or last. */
  function Front16(o: Order, b: seq<byte>): nat
    requires |b| >= 2
  {
    var x: nat := b[0];
    var y: nat := b[1];
    if o.Little? then x + 256 * y else 256 * x + y
  }

  lemma Get16(o: Order, b: seq<byte>)
    requires |b| >= 2
    ensures GetUint(o, b[..2]) == Front16(o, b)
  {
    var s := b[..2];
    assert s[1..][1..] == [] && s[..1][..0] == [];
    assert GetUint(o, s[1..]) == s[1] && GetUint(o, s[..1]) == s[0];
  }

  /** The first four bytes of an attribute: its length, then its type; then its data from byte 4 on, zeros up to a
      multiple of four, and the children. */
  lemma AttrLayout(o: Order, a: Attr)
    ensures var b, n := Ser(o, a), |a.data|; var end := 4 + (n + 3) / 4 * 4;
            && |b| >= end && |b| % 4 == 0
            && Front16(o, b) == Len(a) % 0x1_0000 && Front16(o, b[2..]) == a.typ % 0x1_0000
            && b[4..4 + n] == a.data && (forall i | 4 + n <= i < end :: b[i] == 0)
            && b[end..] == SerAll(o, a.kids)
            && Len(a) == 4 + if a.kids == [] then n else |b| - 4
  {
    hide Ser, Len, SerAll, GetUint;
    var b := Ser(o, a);
    HeaderBack(o, a, []);
    assert b + [] == b;
    Get16(o, b);
    Get16(o, b[2..]);
    assert b[2..][..2] == b[2..4];
    SerSize(o, a);
    SerParts(o, a);
    LenForm(o, a);
  }

  lemma SerParts(o: Order, a: Attr)
    ensures var b, n := Ser(o, a), |a.data|; var end := 4 + (n + 3) / 4 * 4;
            && |b| >= end && b[4..4 + n] == a.data && (forall i | 4 + n <= i < end :: b[i] == 0) && b[end..] == SerAll(o, a.kids)
  {
    hide Len, SerAll, PutUint;
    var head := PutUint(o, Len(a) % TWO16, 2) + PutUint(o, a.typ % TWO16, 2);
    Laid(head, a.data, Zeros(RtaAlign(|a.data|) - |a.data|), SerAll(o, a.kids));
  }

  lemma Laid(head: seq<byte>, d: seq<byte>, z: seq<byte>, k: seq<byte>)
    requires |head| == 4 && forall i | 0 <= i < |z| :: z[i] == 0
    ensures var b := head + (d + z) + k;
            && b[4..4 + |d|] == d && (forall i | 4 + |d| <= i < 4 + |d| + |z| :: b[i] == 0) && b[4 + |d| + |z|..] == k
  {
    var b := head + (d + z) + k;
    assert forall i | 4 + |d| <= i < 4 + |d| + |z| :: b[i] == z[i - 4 - |d|];
  }

  lemma LenForm(o: Order, a: Attr)
    ensures Len(a) == 4 + if a.kids == [] then |a.data| else |Ser(o, a)| - 4
  {
    SerSize(o, a);
    if a.kids != [] {
      AlignShift(Len(a), 0);
    }
  }

  // ---------------------------------------------------------------- parsing any bytes

  /** b starts with these attributes, which end at i: each announces its length, and the next starts at the next
      multiple of four. */
  ghost predicate Chain(o: Order, b: seq<byte>, attrs: seq<RouteAttr>, i: nat)
    decreases |attrs|
  {
    if attrs == [] then i == 0
    else
      |b| >= 4 && var len := Front16(o, b); var next := (len + 3) / 4 * 4;
      && 4 <= len && next <= |b| && next <= i
      && attrs[0] == RouteAttr(Front16(o, b[2..]), b[4..len]) && Chain(o, b[next..], attrs[1..], i - next)
  }

  lemma ParseForm(o: Order, b: seq<byte>)
    requires |b| >= 4
    ensures var len := Front16(o, b); var next := (len + 3) / 4 * 4;
            Parse(o, b) == if len < 4 || len > |b| then Invalid else if next > |b| then Panic
                           else Cons(RouteAttr(Front16(o, b[2..]), b[4..len]), Parse(o, b[next..]))
  {
    hide GetUint;
    Get16(o, b);
    Get16(o, b[2..]);
    assert b[2..][..2] == b[2..4];
  }

  lemma {:induction false} ChainBounds(o: Order, b: seq<byte>, attrs: seq<RouteAttr>, i: nat)
    requires Chain(o, b, attrs, i)
    ensures i <= |b|
    decreases |attrs|
  {
    if attrs != [] {
      var next := (Front16(o, b) + 3) / 4 * 4;
      ChainBounds(o, b[next..], attrs[1..], i - next);
    }
  }

  /** What precedes a position is parsed as the attributes there. */
  lemma {:induction false} ChainParsed(o: Order, b: seq<byte>, attrs: seq<RouteAttr>, i: nat)
    requires Chain(o, b, attrs, i)
    ensures i <= |b| && Parse(o, b) == Behind(attrs, Parse(o, b[i..]))
    decreases |attrs|
  {
    hide Parse;
    ChainBounds(o, b, attrs, i);
    if attrs == [] {
      assert b[0..] == b;
      BehindNone(Parse(o, b));
    } else {
      var next := (Front16(o, b) + 3) / 4 * 4;
      ParseForm(o, b);
      ChainParsed(o, b[next..], attrs[1..], i - next);
      assert b[next..][i - next..] == b[i..];
      ConsBehind(attrs, Parse(o, b[i..]));
    }
  }

  lemma BehindNone(p: Parsed)
    ensures Behind([], p) == p
  {}

  lemma ConsBehind(attrs: seq<RouteAttr>, p: Parsed)
    requires attrs != []
    ensures Cons(attrs[0], Behind(attrs[1..], p)) == Behind(attrs, p)
  {
    if p.Attrs? {
      assert attrs + p.attrs == [attrs[0]] + (attrs[1..] + p.attrs);
    }
  }

  /** The attributes before the place where the loop stops. */
  lemma {:induction false} Stops(o: Order, b: seq<byte>) returns (attrs: seq<RouteAttr>, i: nat)
    ensures Chain(o, b, attrs, i) && i <= |b|
    ensures |b| - i >= 4 ==> var len := Front16(o, b[i..]); len < 4 || (len + 3) / 4 * 4 > |b| - i
    decreases |b|
  {
    if |b| < 4 {
      attrs, i := [], 0;
    } else {
      var len := Front16(o, b);
      var next := (len + 3) / 4 * 4;
      if len < 4 || next > |b| {
        attrs, i := [], 0;
        assert b[0..] == b;
      } else {
        var rest, j := Stops(o, b[next..]);
        attrs, i := [RouteAttr(Front16(o, b[2..]), b[4..len])] + rest, next + j;
        assert attrs[1..] == rest && b[next..][j..] == b[i..];
      }
    }
  }

  /** The parser returns attributes exactly if they are those of the bytes and less than a header is left; it reports an
      error exactly if, behind some attributes, a length is below four or beyond the end; and it slices out of range
      exactly if, behind some attributes, a length that fits is rounded up beyond the end. */
  lemma ParseExact(o: Order, b: seq<byte>, attrs: seq<RouteAttr>)
    ensures Parse(o, b) == Attrs(attrs) <==> exists i :: Chain(o, b, attrs, i) && |b| - i < 4
    ensures Parse(o, b) == Invalid <==> exists before, i :: Chain(o, b, before, i) && BadLength(o, b, i)
    ensures Parse(o, b) == Panic <==> exists before, i :: Chain(o, b, before, i) && OddLength(o, b, i)
  {
    hide Chain, Parse;
    var before, i := Stops(o, b);
    ChainOutcome(o, b, before, i);
    forall other, j | Chain(o, b, other, j)
      ensures |b| - j < 4 ==> Parse(o, b) == Attrs(other)
      ensures BadLength(o, b, j) ==> Parse(o, b) == Invalid
      ensures OddLength(o, b, j) ==> Parse(o, b) == Panic
    {
      ChainOutcome(o, b, other, j);
    }
  }

  predicate BadLength(o: Order, b: seq<byte>, i: nat) {
    i <= |b| - 4 && var len := Front16(o, b[i..]); len < 4 || len > |b| - i
  }

  predicate OddLength(o: Order, b: seq<byte>, i: nat) {
    i <= |b| - 4 && var len := Front16(o, b[i..]); 4 <= len <= |b| - i < (len + 3) / 4 * 4
  }

  lemma ChainOutcome(o: Order, b: seq<byte>, attrs: seq<RouteAttr>, i: nat)
    requires Chain(o, b, attrs, i)
    ensures i <= |b|
    ensures |b| - i < 4 ==> Parse(o, b) == Attrs(attrs)
    ensures BadLength(o, b, i) ==> Parse(o, b) == Invalid
    ensures OddLength(o, b, i) ==> Parse(o, b) == Panic
  {
    hide Chain, Parse;
    ChainParsed(o, b, attrs, i);
    if |b| - i < 4 {
      Short(o, b[i..]);
      assert attrs + [] == attrs;
    } else {
      ParseForm(o, b[i..]);
    }
  }

  lemma Short(o: Order, b: seq<byte>)
    requires |b| < 4
    ensures Parse(o, b) == Attrs([])
  {}
}
