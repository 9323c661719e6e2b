/** The wire format described independently of the functions that write it: byte by byte, with the codes
    and boundaries of the D-Bus Specification's section "Marshaling (Wire Format)" written out. */
module DBusFormat {
  import opened Common
  import opened ByteOrder
  import opened DBusType
  import opened DBusSignature
  import opened DBusWire

  // ---------------------------------------------------------------- words

  /** Where the byte of weight 256^i is among w bytes. */
  function PlaceOf(o: Order, w: nat, i: nat): nat
    requires i < w
  {
    if o.Little? then i else w - 1 - i
  }

  /** The bytes of b are the digits of n to base 256, the least significant one first or last. */
  ghost predicate Word(o: Order, n: nat, b: seq<byte>) {
    forall i | 0 <= i < |b| :: b[PlaceOf(o, |b|, i)] == n / Pow256(i) % 256
  }

  lemma SmallMultiple(d: int, x: int)
    requires -d < d * x < d
    ensures x == 0
  {}

  lemma Quotient(n: nat, d: nat, q: nat, r: nat)
    requires d > 0 && n == d * q + r && r < d
    ensures n / d == q
  {
    var x := n / d - q;
    assert d * x == r - n % d;
    SmallMultiple(d, x);
  }

  lemma DivPow(n: nat, i: nat)
    ensures n / 256 / Pow256(i) == n / Pow256(i + 1)
  {
    var p, m, r := Pow256(i), n / 256, n % 256;
    var q, s := m / p, m % p;
    assert m == p * q + s;
    assert n == 256 * (p * q) + (256 * s + r);
    assert (256 * p) * q == 256 * (p * q);
    Quotient(n, 256 * p, q, 256 * s + r);
  }

  /** Every byte that PutUint writes: a little-endian number has its low-order byte first, a big-endian
      one last. */
  lemma {:induction false} PutUintAt(o: Order, n: nat, w: nat, i: nat)
    requires i < w
    ensures PutUint(o, n, w)[PlaceOf(o, w, i)] == n / Pow256(i) % 256
  {
    if i > 0 {
      PutUintAt(o, n / 256, w - 1, i - 1);
      DivPow(n, i - 1);
    } else {
      assert Pow256(0) == 1;
    }
  }

  lemma WordExact(o: Order, n: nat, b: seq<byte>)
    ensures Word(o, n, b) <==> b == PutUint(o, n, |b|)
  {
    var p := PutUint(o, n, |b|);
    forall i | 0 <= i < |b| ensures p[PlaceOf(o, |b|, i)] == n / Pow256(i) % 256 {
      PutUintAt(o, n, |b|, i);
    }
    if Word(o, n, b) {
      forall j | 0 <= j < |b| ensures b[j] == p[j] {
        var i := if o.Little? then j else |b| - 1 - j;
        assert PlaceOf(o, |b|, i) == j;
      }
      assert b == p;
    }
  }

  /** The digits of weight 256^0 to 256^(k-1). */
  function Sum(o: Order, b: seq<byte>, k: nat): nat
    requires k <= |b|
  {
    if k == 0 then 0 else Sum(o, b, k - 1) + b[PlaceOf(o, |b|, k - 1)] * Pow256(k - 1)
  }

  lemma Weigh(d: byte, i: nat)
    ensures d * Pow256(i + 1) == 256 * (d * Pow256(i))
  {}

  lemma {:induction false} SumShift(o: Order, b: seq<byte>, k: nat)
    requires 0 < k <= |b|
    ensures var rest := if o.Little? then b[1..] else b[..|b| - 1];
            Sum(o, b, k) == b[PlaceOf(o, |b|, 0)] + 256 * Sum(o, rest, k - 1)
  {
    var rest := if o.Little? then b[1..] else b[..|b| - 1];
    if k == 1 {
      assert Sum(o, b, 0) == 0 && Pow256(0) == 1 && Sum(o, rest, 0) == 0;
    } else {
      SumShift(o, b, k - 1);
      var d := b[PlaceOf(o, |b|, k - 1)];
      assert rest[PlaceOf(o, |rest|, k - 2)] == d;
      Weigh(d, k - 2);
    }
  }

  /** GetUint is the sum of the bytes by their weight. */
  lemma {:induction false} GetUintSum(o: Order, b: seq<byte>)
    ensures GetUint(o, b) == Sum(o, b, |b|)
  {
    if b != [] {
      SumShift(o, b, |b|);
      GetUintSum(o, if o.Little? then b[1..] else b[..|b| - 1]);
    }
  }

  lemma {:induction false} PutGet(o: Order, b: seq<byte>)
    ensures PutUint(o, GetUint(o, b), |b|) == b
  {
    if b == [] {
      assert PutUint(o, GetUint(o, b), 0) == [];
    } else {
      hide PutUint, GetUint;
      var c := b[PlaceOf(o, |b|, 0)];
      var rest := if o.Little? then b[1..] else b[..|b| - 1];
      PutGet(o, rest);
      PutDigit(o, GetUint(o, rest), c, |rest|);
      GetDigit(o, b);
      assert b == if o.Little? then [c] + rest else rest + [c];
    }
  }

  lemma PutDigit(o: Order, n: nat, c: byte, w: nat)
    ensures var s := PutUint(o, n, w); PutUint(o, n * 256 + c, w + 1) == if o.Little? then [c] + s else s + [c]
  {
    assert (n * 256 + c) % 256 == c && (n * 256 + c) / 256 == n;
  }

  lemma GetDigit(o: Order, b: seq<byte>)
    requires b != []
    ensures GetUint(o, b) == GetUint(o, if o.Little? then b[1..] else b[..|b| - 1]) * 256 + b[PlaceOf(o, |b|, 0)]
  {}

  /** The number read from b is the one number below 256^|b| whose digits b holds. */
  lemma GetUintExact(o: Order, b: seq<byte>, n: nat)
    requires n < Pow256(|b|)
    ensures GetUint(o, b) == n <==> Word(o, n, b)
  {
    WordExact(o, n, b);
    PutGet(o, b);
    GetPut(o, n, |b|);
  }

  // ---------------------------------------------------------------- signatures

  /** The codes of an ASCII text. */
  function Codes(text: string): seq<int> { seq(|text|, i requires 0 <= i < |text| => text[i] as int) }

  /** The letters and brackets that signatures are spelled with. */
  lemma SignatureSpelled(k: Prim, e: Ty, fs: seq<Ty>)
    ensures [Y, B, N, Q, I, U, X, T, D, S, O, G, V, H] == Codes("ybnqiuxtdsogvh")
    ensures Print(Leaf(k)) == [k] && k in Codes("ybnqiuxtdsogvh")
    ensures Print(Array(e)) == Codes("a") + Print(e)
    ensures Print(Dict(k, e)) == Codes("a{") + [k] + Print(e) + Codes("}")
    ensures Print(Struct(fs)) == Codes("(") + PrintAll(fs) + Codes(")")
  {
    hide PrintAll;
    var codes := Codes("ybnqiuxtdsogvh");
    assert codes[0] == Y && codes[1] == B && codes[2] == N && codes[3] == Q && codes[4] == I && codes[5] == U && codes[6] == X;
    assert codes[7] == T && codes[8] == D && codes[9] == S && codes[10] == O && codes[11] == G && codes[12] == V && codes[13] == H;
    assert IsPrim(k);
    assert Codes("a{") + [k] == [ARRAY, LBRACE, k];
  }

  // ---------------------------------------------------------------- the format

  /** What a value of type t starts at a multiple of. */
  function Boundary(t: Ty): nat {
    match t
    case Leaf(p) =>
      if p == 'y' as int || p == 'g' as int || p == 'v' as int then 1
      else if p == 'n' as int || p == 'q' as int then 2
      else if p == 'x' as int || p == 't' as int || p == 'd' as int then 8
      else 4
    case Array(_) => 4
    case Dict(_, _) => 4
    case Struct(_) => 8
  }

  /** As many zeros as it takes from pos to the next multiple of n. */
  predicate Gap(pos: nat, n: nat, z: seq<byte>)
    requires n > 0
  {
    |z| < n && (pos + |z|) % n == 0 && forall i | 0 <= i < |z| :: z[i] == 0
  }

  /** One byte of length, the characters, and a zero. */
  predicate ShortText(s: seq<byte>, b: seq<byte>) {
    |b| == |s| + 2 && b[0] == |s| % 256 && b[1..|s| + 1] == s && b[|s| + 1] == 0
  }

  /** Four bytes of length, the characters, and a zero. */
  ghost predicate LongText(o: Order, s: seq<byte>, b: seq<byte>) {
    |b| == |s| + 5 && Word(o, |s| % 0x1_0000_0000, b[..4]) && b[4..|s| + 4] == s && b[|s| + 4] == 0
  }

  /** A number in its own width, as two's complement if it is negative. */
  ghost predicate Number(o: Order, p: Prim, n: int, b: seq<byte>) {
    if p == 'y' as int then |b| == 1 && Word(o, n % 0x100, b)
    else if p == 'n' as int || p == 'q' as int then |b| == 2 && Word(o, n % 0x1_0000, b)
    else if p == 'x' as int || p == 't' as int || p == 'd' as int then |b| == 8 && Word(o, n % 0x1_0000_0000_0000_0000, b)
    else |b| == 4 && Word(o, n % 0x1_0000_0000, b)
  }

  /** The numbers of each type, floating-point numbers as their 64 bits. */
  predicate Range(p: Prim, n: int) {
    if p == 'y' as int then 0 <= n < 0x100
    else if p == 'n' as int then -0x8000 <= n < 0x8000
    else if p == 'q' as int then 0 <= n < 0x1_0000
    else if p == 'i' as int then -0x8000_0000 <= n < 0x8000_0000
    else if p == 'x' as int then -0x8000_0000_0000_0000 <= n < 0x8000_0000_0000_0000
    else if p == 't' as int || p == 'd' as int then 0 <= n < 0x1_0000_0000_0000_0000
    else 0 <= n < 0x1_0000_0000
  }

  ghost predicate LeafFormat(o: Order, p: Prim, v: Value, b: seq<byte>) {
    if p == 'b' as int then v.Bool? && |b| == 4 && Word(o, if v.b then 1 else 0, b)
    else if p == 's' as int || p == 'o' as int then v.Text? && LongText(o, v.s, b)
    else if p == 'g' as int then v.Text? && ShortText(v.s, b)
    else v.Num? && Number(o, p, v.n, b)
  }

  /** b is v, of type t, at position pos of a stream. */
  ghost predicate Wire(o: Order, t: Ty, v: Value, pos: nat, b: seq<byte>)
    decreases v, 1
  {
    exists k | 0 <= k <= |b| :: Gap(pos, Boundary(t), b[..k]) && Inner(o, t, v, pos + k, b[k..])
  }

  /** ... behind the gap. A variant is its signature and its value; an array or a map the number of bytes of its
      elements, a gap that is not counted, and the elements; a structure its members. */
  ghost predicate Inner(o: Order, t: Ty, v: Value, pos: nat, b: seq<byte>)
    decreases v, 0
  {
    match t
    case Leaf(p) =>
      if p == 'v' as int then
        v.Variant? && var k := |Print(v.ty)| + 2;
        k <= |b| && ShortText(Print(v.ty), b[..k]) && Wire(o, v.ty, v.val, pos + k, b[k..])
      else LeafFormat(o, p, v, b)
    case Array(e) =>
      v.List? && exists k | 4 <= k <= |b| ::
        && Word(o, (|b| - k) % 0x1_0000_0000, b[..4]) && Gap(pos + 4, Boundary(e), b[4..k])
        && WireItems(o, e, v.items, pos + k, b[k..])
    case Dict(key, e) =>
      v.Map? && exists k | 4 <= k <= |b| ::
        && Word(o, (|b| - k) % 0x1_0000_0000, b[..4]) && Gap(pos + 4, 8, b[4..k])
        && WireEntries(o, key, e, v.entries, pos + k, b[k..])
    case Struct(fs) => v.Tuple? && WireMembers(o, fs, v.members, pos, b)
  }

  ghost predicate WireItems(o: Order, e: Ty, vs: seq<Value>, pos: nat, b: seq<byte>)
    decreases vs
  {
    if vs == [] then b == []
    else exists k | 0 <= k <= |b| :: Wire(o, e, vs[0], pos, b[..k]) && WireItems(o, e, vs[1..], pos + k, b[k..])
  }

  ghost predicate WireMembers(o: Order, ts: seq<Ty>, vs: seq<Value>, pos: nat, b: seq<byte>)
    decreases vs
  {
    if vs == [] || ts == [] then vs == [] && ts == [] && b == []
    else exists k | 0 <= k <= |b| :: Wire(o, ts[0], vs[0], pos, b[..k]) && WireMembers(o, ts[1..], vs[1..], pos + k, b[k..])
  }

  /** A gap up to a multiple of eight, the key, the value. */
  ghost predicate WireEntry(o: Order, key: Prim, e: Ty, entry: Entry, pos: nat, b: seq<byte>)
    decreases entry, 2
  {
    exists k | 0 <= k <= |b| :: Gap(pos, 8, b[..k]) && WirePair(o, key, e, entry, pos + k, b[k..])
  }

  ghost predicate WirePair(o: Order, key: Prim, e: Ty, entry: Entry, pos: nat, b: seq<byte>)
    decreases entry, 1
  {
    exists k | 0 <= k <= |b| :: Wire(o, Leaf(key), entry.key, pos, b[..k]) && Wire(o, e, entry.val, pos + k, b[k..])
  }

  ghost predicate WireEntries(o: Order, key: Prim, e: Ty, es: seq<Entry>, pos: nat, b: seq<byte>)
    decreases es
  {
    if es == [] then b == []
    else exists k | 0 <= k <= |b| :: WireEntry(o, key, e, es[0], pos, b[..k]) && WireEntries(o, key, e, es[1..], pos + k, b[k..])
  }

  // ---------------------------------------------------------------- Marshal writes exactly that

  lemma BoundaryIsAlign(t: Ty)
    ensures Boundary(t) == Align(t)
  {}

  lemma {:induction false} PaddingReaches(pos: nat, n: Alignment)
    ensures (pos + Padding(pos, n)) % n == 0
  {
    if pos >= n {
      PaddingReaches(pos - n, n);
      assert (pos + Padding(pos, n)) == (pos - n + Padding(pos - n, n)) + n;
    }
  }

  /** The gap is as long as the padding, and nothing else is. */
  lemma GapExact(pos: nat, n: Alignment, z: seq<byte>)
    ensures Gap(pos, n, z) <==> z == Zeros(Padding(pos, n))
  {
    PaddingReaches(pos, n);
    var p := Padding(pos, n);
    if Gap(pos, n, z) {
      OneReaches(pos, n, p, |z|);
      assert z == Zeros(p);
    }
  }

  lemma OneReaches(pos: nat, n: Alignment, p: nat, q: nat)
    requires p < n && q < n && (pos + p) % n == 0 && (pos + q) % n == 0
    ensures p == q
  {}

  lemma ShortTextExact(s: seq<byte>, b: seq<byte>)
    ensures ShortText(s, b) <==> b == SigBytes(s)
  {
    if ShortText(s, b) {
      assert b == [b[0]] + b[1..|s| + 1] + [b[|s| + 1]];
    }
  }

  lemma LongTextExact(o: Order, s: seq<byte>, b: seq<byte>)
    ensures LongText(o, s, b) <==> b == PutUint(o, |s| % TWO32, 4) + s + [0]
  {
    if |b| == |s| + 5 {
      WordExact(o, |s| % TWO32, b[..4]);
      assert b == b[..4] + b[4..|s| + 4] + [b[|s| + 4]];
    }
  }

  lemma LeafExact(o: Order, p: Prim, v: Value, b: seq<byte>)
    requires LeafTyped(p, v)
    ensures LeafFormat(o, p, v, b) <==> b == LeafBytes(o, p, v)
  {
    assert IsPrim(p);
    match v
    case Num(n) => WordExact(o, ToWord(p, n), b);
    case Bool(x) => WordExact(o, if x then 1 else 0, b);
    case Text(s) =>
      ShortTextExact(s, b);
      LongTextExact(o, s, b);
  }

  /** What `Marshal` gives is the one byte sequence that the format allows for the value at the position. */
  lemma {:induction false} WireExact(o: Order, t: Ty, v: Value, pos: nat, b: seq<byte>)
    requires WellTyped(t, v)
    ensures Wire(o, t, v, pos, b) <==> b == Marshal(o, t, v, pos)
    decreases v, 2
  {
    hide Inner, Body, Gap, WellTyped, Padding, Align, Boundary;
    BoundaryIsAlign(t);
    var pad := Zeros(Padding(pos, Align(t)));
    forall k | 0 <= k <= |b|
      ensures Gap(pos, Boundary(t), b[..k]) && Inner(o, t, v, pos + k, b[k..]) <==>
              b[..k] == pad && b[k..] == Body(o, t, v, pos + |pad|)
    {
      GapExact(pos, Align(t), b[..k]);
      InnerExact(o, t, v, pos + k, b[k..]);
    }
    Parts(pad, Body(o, t, v, pos + |pad|), b);
  }

  /** b is x and y exactly if it can be cut into them. */
  lemma Parts(x: seq<byte>, y: seq<byte>, b: seq<byte>)
    ensures b == x + y <==> exists k | 0 <= k <= |b| :: b[..k] == x && b[k..] == y
  {
    if b == x + y {
      Cut(x, y);
      assert b[..|x|] == x && b[|x|..] == y;
    }
    if k :| 0 <= k <= |b| && b[..k] == x && b[k..] == y {
      assert b == b[..k] + b[k..];
    }
  }

  lemma {:induction false} InnerExact(o: Order, t: Ty, v: Value, pos: nat, b: seq<byte>)
    requires WellTyped(t, v)
    ensures Inner(o, t, v, pos, b) <==> b == Body(o, t, v, pos)
    decreases v, 1
  {
    match t
    case Leaf(p) =>
      if p == V {
        VariantExact(o, v, pos, b);
      } else {
        LeafExact(o, p, v, b);
      }
    case Array(e) => ArrayExact(o, e, v, pos, b);
    case Dict(k, e) => DictExact(o, k, e, v, pos, b);
    case Struct(fs) => MembersExact(o, fs, v.members, pos, b);
  }

  lemma {:induction false} VariantExact(o: Order, v: Value, pos: nat, b: seq<byte>)
    requires WellTyped(Leaf(V), v)
    ensures Inner(o, Leaf(V), v, pos, b) <==> b == VariantBytes(o, v, pos)
    decreases v, 0
  {
    hide Wire, Marshal, Print, SigBytes, ShortText;
    var k := |Print(v.ty)| + 2;
    var sig := SigBytes(Print(v.ty));
    ShortTextExact(Print(v.ty), sig);
    SigSize(Print(v.ty));
    if k <= |b| {
      ShortTextExact(Print(v.ty), b[..k]);
      WireExact(o, v.ty, v.val, pos + k, b[k..]);
      assert b == b[..k] + b[k..];
    }
    Cut(sig, Marshal(o, v.ty, v.val, pos + k));
  }

  lemma SigSize(s: seq<byte>)
    ensures |SigBytes(s)| == |s| + 2
  {}

  /** A length word, padding, and content, cut at k. */
  predicate FramedAt(o: Order, pos: nat, align: Alignment, content: seq<byte>, b: seq<byte>, k: nat)
    requires 4 <= k <= |b|
  {
    b[..4] == PutUint(o, (|b| - k) % TWO32, 4) && b[4..k] == Zeros(Padding(pos + 4, align)) && b[k..] == content
  }

  lemma FramedExact(o: Order, pos: nat, align: Alignment, content: seq<byte>, b: seq<byte>)
    ensures b == Framed(o, pos, align, content) <==> exists k | 4 <= k <= |b| :: FramedAt(o, pos, align, content, b, k)
  {
    hide PutUint, Padding;
    var zeros := Zeros(Padding(pos + 4, align));
    if b == Framed(o, pos, align, content) {
      var k := 4 + |zeros|;
      assert b[4..k] == zeros && b[k..] == content;
      assert FramedAt(o, pos, align, content, b, k);
    }
    if k :| 4 <= k <= |b| && FramedAt(o, pos, align, content, b, k) {
      assert b == b[..4] + b[4..k] + b[k..];
    }
  }

  lemma {:induction false} ArrayExact(o: Order, e: Ty, v: Value, pos: nat, b: seq<byte>)
    requires WellTyped(Array(e), v)
    ensures Inner(o, Array(e), v, pos, b) <==> b == ArrayBytes(o, e, v, pos)
    decreases v, 0
  {
    hide Word, Gap, WireItems, MarshalItems, Framed, FramedAt, Padding;
    var content := MarshalItems(o, e, v.items, FirstAt(pos, Align(e)));
    BoundaryIsAlign(e);
    forall k | 4 <= k <= |b|
      ensures FramedAt(o, pos, Align(e), content, b, k) <==>
              && Word(o, (|b| - k) % TWO32, b[..4]) && Gap(pos + 4, Boundary(e), b[4..k])
              && WireItems(o, e, v.items, pos + k, b[k..])
    {
      ItemsExact(o, e, v.items, pos + k, b[k..]);
      FrameAtExact(o, pos, Align(e), content, b, k);
      if Gap(pos + 4, Boundary(e), b[4..k]) {
        GapSize(pos + 4, Align(e), b[4..k]);
      }
    }
    FramedExact(o, pos, Align(e), content, b);
  }

  lemma GapSize(pos: nat, n: Alignment, z: seq<byte>)
    requires Gap(pos, n, z)
    ensures |z| == Padding(pos, n)
  {
    GapExact(pos, n, z);
  }

  lemma FrameAtExact(o: Order, pos: nat, align: Alignment, content: seq<byte>, b: seq<byte>, k: nat)
    requires 4 <= k <= |b|
    ensures FramedAt(o, pos, align, content, b, k) <==>
            Word(o, (|b| - k) % TWO32, b[..4]) && Gap(pos + 4, align, b[4..k]) && b[k..] == content
  {
    hide Word, Gap, Padding, PutUint;
    WordExact(o, (|b| - k) % TWO32, b[..4]);
    GapExact(pos + 4, align, b[4..k]);
  }

  lemma {:induction false} DictExact(o: Order, key: Prim, e: Ty, v: Value, pos: nat, b: seq<byte>)
    requires WellTyped(Dict(key, e), v)
    ensures Inner(o, Dict(key, e), v, pos, b) <==> b == DictBytes(o, key, e, v, pos)
    decreases v, 0
  {
    hide Word, Gap, WireEntries, MarshalEntries, Framed, FramedAt, Padding;
    var content := MarshalEntries(o, key, e, v.entries, FirstAt(pos, 8));
    forall k | 4 <= k <= |b|
      ensures FramedAt(o, pos, 8, content, b, k) <==>
              && Word(o, (|b| - k) % TWO32, b[..4]) && Gap(pos + 4, 8, b[4..k])
              && WireEntries(o, key, e, v.entries, pos + k, b[k..])
    {
      EntriesExact(o, key, e, v.entries, pos + k, b[k..]);
      FrameAtExact(o, pos, 8, content, b, k);
      if Gap(pos + 4, 8, b[4..k]) {
        GapSize(pos + 4, 8, b[4..k]);
      }
    }
    FramedExact(o, pos, 8, content, b);
  }

  lemma ItemsForm(o: Order, e: Ty, vs: seq<Value>, pos: nat, b: seq<byte>)
    requires vs != []
    ensures WireItems(o, e, vs, pos, b) <==> exists k | 0 <= k <= |b| :: ItemsAt(o, e, vs, pos, b, k)
    ensures var head := Marshal(o, e, vs[0], pos);
            MarshalItems(o, e, vs, pos) == head + MarshalItems(o, e, vs[1..], pos + |head|)
  {
    hide Wire, Marshal;
    if WireItems(o, e, vs, pos, b) {
      var k :| 0 <= k <= |b| && Wire(o, e, vs[0], pos, b[..k]) && WireItems(o, e, vs[1..], pos + k, b[k..]);
      assert ItemsAt(o, e, vs, pos, b, k);
    }
  }

  /** The first element ends at k. */
  ghost predicate ItemsAt(o: Order, e: Ty, vs: seq<Value>, pos: nat, b: seq<byte>, k: nat)
    requires vs != [] && k <= |b|
  {
    Wire(o, e, vs[0], pos, b[..k]) && WireItems(o, e, vs[1..], pos + k, b[k..])
  }

  lemma NoItems(o: Order, e: Ty, pos: nat, b: seq<byte>)
    ensures WireItems(o, e, [], pos, b) <==> b == MarshalItems(o, e, [], pos)
  {}

  lemma {:induction false} ItemsExact(o: Order, e: Ty, vs: seq<Value>, pos: nat, b: seq<byte>)
    requires forall i | 0 <= i < |vs| :: WellTyped(e, vs[i])
    ensures WireItems(o, e, vs, pos, b) <==> b == MarshalItems(o, e, vs, pos)
    decreases vs, 1
  {
    hide *;
    if vs == [] {
      NoItems(o, e, pos, b);
    } else {
      ItemsForm(o, e, vs, pos, b);
      var head := Marshal(o, e, vs[0], pos);
      var tail := MarshalItems(o, e, vs[1..], pos + |head|);
      forall k | 0 <= k <= |b| ensures ItemsAt(o, e, vs, pos, b, k) <==> b[..k] == head && b[k..] == tail {
        ItemsCut(o, e, vs, pos, b, k);
      }
      Parts(head, tail, b);
    }
  }

  lemma {:induction false} ItemsCut(o: Order, e: Ty, vs: seq<Value>, pos: nat, b: seq<byte>, k: nat)
    requires vs != [] && k <= |b| && forall i | 0 <= i < |vs| :: WellTyped(e, vs[i])
    ensures var head := Marshal(o, e, vs[0], pos);
            ItemsAt(o, e, vs, pos, b, k) <==> b[..k] == head && b[k..] == MarshalItems(o, e, vs[1..], pos + |head|)
    decreases vs, 0
  {
    hide Wire, Marshal, WellTyped, WireItems, MarshalItems;
    WireExact(o, e, vs[0], pos, b[..k]);
    ItemsExact(o, e, vs[1..], pos + k, b[k..]);
  }

  lemma MembersForm(o: Order, ts: seq<Ty>, vs: seq<Value>, pos: nat, b: seq<byte>)
    requires vs != [] && ts != []
    ensures WireMembers(o, ts, vs, pos, b) <==> exists k | 0 <= k <= |b| :: MembersAt(o, ts, vs, pos, b, k)
    ensures var head := Marshal(o, ts[0], vs[0], pos);
            MarshalMembers(o, ts, vs, pos) == head + MarshalMembers(o, ts[1..], vs[1..], pos + |head|)
  {
    hide Wire, Marshal;
    if WireMembers(o, ts, vs, pos, b) {
      var k :| 0 <= k <= |b| && Wire(o, ts[0], vs[0], pos, b[..k]) && WireMembers(o, ts[1..], vs[1..], pos + k, b[k..]);
      assert MembersAt(o, ts, vs, pos, b, k);
    }
  }

  /** The first member ends at k. */
  ghost predicate MembersAt(o: Order, ts: seq<Ty>, vs: seq<Value>, pos: nat, b: seq<byte>, k: nat)
    requires vs != [] && ts != [] && k <= |b|
  {
    Wire(o, ts[0], vs[0], pos, b[..k]) && WireMembers(o, ts[1..], vs[1..], pos + k, b[k..])
  }

  lemma NoMembers(o: Order, pos: nat, b: seq<byte>)
    ensures WireMembers(o, [], [], pos, b) <==> b == MarshalMembers(o, [], [], pos)
  {}

  lemma {:induction false} MembersExact(o: Order, ts: seq<Ty>, vs: seq<Value>, pos: nat, b: seq<byte>)
    requires |ts| == |vs| && forall i | 0 <= i < |vs| :: WellTyped(ts[i], vs[i])
    ensures WireMembers(o, ts, vs, pos, b) <==> b == MarshalMembers(o, ts, vs, pos)
    decreases vs, 1
  {
    hide *;
    if vs == [] {
      NoMembers(o, pos, b);
    } else {
      MembersForm(o, ts, vs, pos, b);
      var head := Marshal(o, ts[0], vs[0], pos);
      var tail := MarshalMembers(o, ts[1..], vs[1..], pos + |head|);
      forall k | 0 <= k <= |b| ensures MembersAt(o, ts, vs, pos, b, k) <==> b[..k] == head && b[k..] == tail {
        MembersCut(o, ts, vs, pos, b, k);
      }
      Parts(head, tail, b);
    }
  }

  lemma {:induction false} MembersCut(o: Order, ts: seq<Ty>, vs: seq<Value>, pos: nat, b: seq<byte>, k: nat)
    requires vs != [] && k <= |b| && |ts| == |vs| && forall i | 0 <= i < |vs| :: WellTyped(ts[i], vs[i])
    ensures var head := Marshal(o, ts[0], vs[0], pos);
            MembersAt(o, ts, vs, pos, b, k) <==> b[..k] == head && b[k..] == MarshalMembers(o, ts[1..], vs[1..], pos + |head|)
    decreases vs, 0
  {
    hide Wire, Marshal, WellTyped, WireMembers, MarshalMembers;
    WireExact(o, ts[0], vs[0], pos, b[..k]);
    MembersExact(o, ts[1..], vs[1..], pos + k, b[k..]);
  }

  lemma {:induction false} PairExact(o: Order, key: Prim, e: Ty, entry: Entry, pos: nat, b: seq<byte>)
    requires WellTyped(Leaf(key), entry.key) && WellTyped(e, entry.val)
    ensures WirePair(o, key, e, entry, pos, b) <==> b == MarshalPair(o, key, e, entry, pos)
    decreases entry, 3
  {
    hide Wire, Marshal, WellTyped;
    var head := Marshal(o, Leaf(key), entry.key, pos);
    var tail := Marshal(o, e, entry.val, pos + |head|);
    forall k | 0 <= k <= |b|
      ensures Wire(o, Leaf(key), entry.key, pos, b[..k]) && Wire(o, e, entry.val, pos + k, b[k..]) <==>
              b[..k] == head && b[k..] == tail
    {
      WireExact(o, Leaf(key), entry.key, pos, b[..k]);
      WireExact(o, e, entry.val, pos + k, b[k..]);
    }
    Parts(head, tail, b);
  }

  lemma {:induction false} EntryExact(o: Order, key: Prim, e: Ty, entry: Entry, pos: nat, b: seq<byte>)
    requires WellTyped(Leaf(key), entry.key) && WellTyped(e, entry.val)
    ensures WireEntry(o, key, e, entry, pos, b) <==> b == MarshalEntry(o, key, e, entry, pos)
    decreases entry, 4
  {
    hide Gap, WirePair, MarshalPair, WellTyped, Padding;
    var pad := Zeros(Padding(pos, 8));
    var pair := MarshalPair(o, key, e, entry, pos + |pad|);
    forall k | 0 <= k <= |b|
      ensures Gap(pos, 8, b[..k]) && WirePair(o, key, e, entry, pos + k, b[k..]) <==> b[..k] == pad && b[k..] == pair
    {
      GapExact(pos, 8, b[..k]);
      PairExact(o, key, e, entry, pos + k, b[k..]);
    }
    Parts(pad, pair, b);
  }

  lemma EntriesForm(o: Order, key: Prim, e: Ty, es: seq<Entry>, pos: nat, b: seq<byte>)
    requires es != []
    ensures WireEntries(o, key, e, es, pos, b) <==> exists k | 0 <= k <= |b| :: EntriesAt(o, key, e, es, pos, b, k)
    ensures var head := MarshalEntry(o, key, e, es[0], pos);
            MarshalEntries(o, key, e, es, pos) == head + MarshalEntries(o, key, e, es[1..], pos + |head|)
  {
    hide WireEntry, MarshalEntry;
    if WireEntries(o, key, e, es, pos, b) {
      var k :| 0 <= k <= |b| && WireEntry(o, key, e, es[0], pos, b[..k]) && WireEntries(o, key, e, es[1..], pos + k, b[k..]);
      assert EntriesAt(o, key, e, es, pos, b, k);
    }
  }

  /** The first entry ends at k. */
  ghost predicate EntriesAt(o: Order, key: Prim, e: Ty, es: seq<Entry>, pos: nat, b: seq<byte>, k: nat)
    requires es != [] && k <= |b|
  {
    WireEntry(o, key, e, es[0], pos, b[..k]) && WireEntries(o, key, e, es[1..], pos + k, b[k..])
  }

  lemma NoEntries(o: Order, key: Prim, e: Ty, pos: nat, b: seq<byte>)
    ensures WireEntries(o, key, e, [], pos, b) <==> b == MarshalEntries(o, key, e, [], pos)
  {}

  lemma {:induction false} EntriesExact(o: Order, key: Prim, e: Ty, es: seq<Entry>, pos: nat, b: seq<byte>)
    requires forall i | 0 <= i < |es| :: WellTyped(Leaf(key), es[i].key) && WellTyped(e, es[i].val)
    ensures WireEntries(o, key, e, es, pos, b) <==> b == MarshalEntries(o, key, e, es, pos)
    decreases es, 1
  {
    hide *;
    if es == [] {
      NoEntries(o, key, e, pos, b);
    } else {
      EntriesForm(o, key, e, es, pos, b);
      var head := MarshalEntry(o, key, e, es[0], pos);
      var tail := MarshalEntries(o, key, e, es[1..], pos + |head|);
      forall k | 0 <= k <= |b| ensures EntriesAt(o, key, e, es, pos, b, k) <==> b[..k] == head && b[k..] == tail {
        EntriesCut(o, key, e, es, pos, b, k);
      }
      Parts(head, tail, b);
    }
  }

  lemma {:induction false} EntriesCut(o: Order, key: Prim, e: Ty, es: seq<Entry>, pos: nat, b: seq<byte>, k: nat)
    requires es != [] && k <= |b| && forall i | 0 <= i < |es| :: WellTyped(Leaf(key), es[i].key) && WellTyped(e, es[i].val)
    ensures var head := MarshalEntry(o, key, e, es[0], pos);
            EntriesAt(o, key, e, es, pos, b, k) <==> b[..k] == head && b[k..] == MarshalEntries(o, key, e, es[1..], pos + |head|)
    decreases es, 0
  {
    hide WireEntry, MarshalEntry, WellTyped, WireEntries, MarshalEntries;
    EntryExact(o, key, e, es[0], pos, b[..k]);
    EntriesExact(o, key, e, es[1..], pos + k, b[k..]);
  }
}
