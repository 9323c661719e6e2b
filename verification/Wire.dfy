/** Values and the D-Bus wire format over type trees. `Marshal` writes in place, byte after byte,
    as the D-Bus Specification's section "Marshaling (Wire Format)" describes it; the encoder and
    the decoder of the source are proved against `Marshal` and `Unmarshal`. */
module DBusWire {
  import opened Common
  import opened ByteOrder
  import opened DBusType
  import opened DBusSignature

  datatype Value =
    | Num(n: int)                             // y n q i u x t h, and d as its 64-bit pattern
    | Bool(b: bool)
    | Text(s: seq<byte>)                      // s o g
    | Variant(ty: Ty, val: Value)
    | List(items: seq<Value>)
    | Tuple(members: seq<Value>)
    | Map(entries: seq<Entry>)                // a Go map, in the order in which it is enumerated
  datatype Entry = Entry(key: Value, val: Value)

  // ---------------------------------------------------------------- leaves

  predicate IsNum(p: Prim) { !(p == B || p == S || p == G || p == O || p == V) }
  predicate Signed(p: Prim) { p == N || p == I || p == X }

  function Width(p: Prim): (w: nat)
    ensures w == 1 || w == 2 || w == 4 || w == 8
  {
    if p == Y then 1 else if p == N || p == Q then 2
    else if p == X || p == T || p == D then 8 else 4
  }

  function Size(w: nat): (r: nat)
    ensures w == 1 || w == 2 || w == 4 || w == 8 ==> r == Pow256(w)
  {
    assert Pow256(2) == 0x1_0000;
    assert Pow256(4) == 0x1_0000 * Pow256(2);
    assert Pow256(8) == 0x1_0000_0000 * Pow256(4);
    if w == 1 then 256 else if w == 2 then 0x1_0000 else if w == 4 then TWO32 else TWO64
  }

  predicate InRange(p: Prim, n: int) {
    if Signed(p) then -(Size(Width(p)) / 2) <= n < Size(Width(p)) / 2
    else 0 <= n < Size(Width(p))
  }

  /** Two's complement. */
  function ToWord(p: Prim, n: int): (u: nat)
    ensures u < Size(Width(p))
  {
    n % Size(Width(p))
  }

  function FromWord(p: Prim, u: nat): (n: int)
    requires u < Size(Width(p))
    ensures InRange(p, n)
  {
    if Signed(p) && u >= Size(Width(p)) / 2 then u - Size(Width(p)) else u
  }

  predicate LeafTyped(p: Prim, v: Value) {
    if IsNum(p) then v.Num? && InRange(p, v.n)
    else if p == B then v.Bool?
    else p != V && v.Text?
  }

  predicate WellTyped(t: Ty, v: Value)
    decreases v
  {
    match t
    case Leaf(p) => if p == V then v.Variant? && WellTyped(v.ty, v.val) else LeafTyped(p, v)
    case Array(e) => v.List? && forall i | 0 <= i < |v.items| :: WellTyped(e, v.items[i])
    case Dict(k, e) =>
      v.Map? && forall i | 0 <= i < |v.entries| ::
        WellTyped(Leaf(k), v.entries[i].key) && WellTyped(e, v.entries[i].val)
    case Struct(fs) =>
      v.Tuple? && |v.members| == |fs| && forall i | 0 <= i < |fs| :: WellTyped(fs[i], v.members[i])
  }

  /** Alignment of each type, from the table in the D-Bus Specification. */
  function Align(t: Ty): Alignment {
    match t
    case Leaf(p) => if p == V || p == G then 1 else if IsNum(p) then Width(p) else 4
    case Array(_) => 4
    case Dict(_, _) => 4
    case Struct(_) => 8
  }

  // ---------------------------------------------------------------- marshalling

  function SigBytes(s: seq<byte>): seq<byte> {
    [|s| % 256] + s + [0]
  }

  /** The marshalling functions are meant for well-typed values; elsewhere they give nothing. */
  function LeafBytes(o: Order, p: Prim, v: Value): (r: seq<byte>)
    ensures LeafTyped(p, v) ==> |r| > 0
  {
    match v
    case Num(n) => PutUint(o, ToWord(p, n), Width(p))
    case Bool(b) => PutUint(o, if b then 1 else 0, 4)
    case Text(s) => if p == G then SigBytes(s) else PutUint(o, |s| % TWO32, 4) + s + [0]
    case _ => []
  }

  /** The bytes of v at position pos, its leading padding included. */
  function Marshal(o: Order, t: Ty, v: Value, pos: nat): seq<byte>
    decreases v, 1
  {
    var pad := Padding(pos, Align(t));
    Zeros(pad) + Body(o, t, v, pos + pad)
  }

  /** A length, padding for the first element, and the elements in place. */
  function Framed(o: Order, pos: nat, align: Alignment, content: seq<byte>): seq<byte> {
    PutUint(o, |content| % TWO32, 4) + Zeros(Padding(pos + 4, align)) + content
  }

  function FirstAt(pos: nat, align: Alignment): nat { pos + 4 + Padding(pos + 4, align) }

  function Body(o: Order, t: Ty, v: Value, pos: nat): seq<byte>
    decreases v, 0, 1
  {
    match (t, v)
    case (Leaf(_), Variant(ty, val)) => VariantBytes(o, v, pos)
    case (Leaf(p), _) => LeafBytes(o, p, v)
    case (Array(e), List(vs)) => ArrayBytes(o, e, v, pos)
    case (Dict(k, e), Map(es)) => DictBytes(o, k, e, v, pos)
    case (Struct(fs), Tuple(vs)) => MarshalMembers(o, fs, vs, pos)
    case _ => []
  }

  function VariantBytes(o: Order, v: Value, pos: nat): (r: seq<byte>)
    requires v.Variant?
    ensures |r| > 0
    decreases v, 0, 0
  {
    var sig := SigBytes(Print(v.ty));
    sig + Marshal(o, v.ty, v.val, pos + |sig|)
  }

  function ArrayBytes(o: Order, e: Ty, v: Value, pos: nat): (r: seq<byte>)
    requires v.List?
    ensures |r| > 0
    decreases v, 0, 0
  {
    Framed(o, pos, Align(e), MarshalItems(o, e, v.items, FirstAt(pos, Align(e))))
  }

  function DictBytes(o: Order, k: Prim, e: Ty, v: Value, pos: nat): (r: seq<byte>)
    requires v.Map?
    ensures |r| > 0
    decreases v, 0, 0
  {
    Framed(o, pos, 8, MarshalEntries(o, k, e, v.entries, FirstAt(pos, 8)))
  }

  function MarshalItems(o: Order, e: Ty, vs: seq<Value>, pos: nat): seq<byte>
    decreases vs
  {
    if vs == [] then []
    else
      var head := Marshal(o, e, vs[0], pos);
      head + MarshalItems(o, e, vs[1..], pos + |head|)
  }

  function MarshalMembers(o: Order, ts: seq<Ty>, vs: seq<Value>, pos: nat): seq<byte>
    decreases vs
  {
    if vs == [] || ts == [] then []
    else
      var head := Marshal(o, ts[0], vs[0], pos);
      head + MarshalMembers(o, ts[1..], vs[1..], pos + |head|)
  }

  function MarshalPair(o: Order, k: Prim, e: Ty, entry: Entry, pos: nat): seq<byte>
    decreases entry, 2
  {
    var key := Marshal(o, Leaf(k), entry.key, pos);
    key + Marshal(o, e, entry.val, pos + |key|)
  }

  /** Map entries are aligned like structures. */
  function MarshalEntry(o: Order, k: Prim, e: Ty, entry: Entry, pos: nat): seq<byte>
    decreases entry, 3
  {
    Zeros(Padding(pos, 8)) + MarshalPair(o, k, e, entry, pos + Padding(pos, 8))
  }

  function MarshalEntries(o: Order, k: Prim, e: Ty, es: seq<Entry>, pos: nat): seq<byte>
    decreases es
  {
    if es == [] then []
    else
      var head := MarshalEntry(o, k, e, es[0], pos);
      head + MarshalEntries(o, k, e, es[1..], pos + |head|)
  }

  // ---------------------------------------------------------------- unmarshalling

  /** Ok carries the value and the number of bytes consumed. Err is any error the decoder reports.
      Stuck marks an array loop whose element consumes nothing, which the source repeats forever. */
  datatype Outcome<+A> = Ok(value: A, n: nat) | Err | Stuck

  function After<A>(k: nat, r: Outcome<A>): Outcome<A> {
    match r case Ok(v, n) => Ok(v, n + k) case bad => bad
  }

  /** Types whose values occupy no bytes once aligned. */
  predicate ZeroSize(t: Ty) {
    t.Struct? && forall i | 0 <= i < |t.fields| :: ZeroSize(t.fields[i])
  }

  /** `isKeyType`. */
  predicate IsKey(k: Prim) { IsNum(k) || k == S || k == O }

  const NAN_ABOVE: nat := 0x7FF0_0000_0000_0000
  const SIGN_BIT: nat := 0x8000_0000_0000_0000

  predicate IsNaN(k: Prim, v: Value) {
    k == D && v.Num? && v.n % SIGN_BIT > NAN_ABOVE
  }

  /** Equality of Go map keys: on floating-point keys, NaN differs from itself and 0 equals -0. */
  predicate SameKey(k: Prim, a: Value, b: Value) {
    !IsNaN(k, a) && (a == b || (k == D && a.Num? && b.Num? && a.n % SIGN_BIT == 0 && b.n % SIGN_BIT == 0))
  }

  /** Assignment to a Go map. */
  function Upsert(k: Prim, es: seq<Entry>, e: Entry): seq<Entry> {
    if es == [] then [e]
    else if SameKey(k, es[0].key, e.key) then [e] + es[1..]
    else [es[0]] + Upsert(k, es[1..], e)
  }

  function GetNum(o: Order, p: Prim, buf: seq<byte>): (r: Outcome<Value>)
    ensures r.Ok? ==> 0 < r.n <= |buf|
  {
    var w := Width(p);
    if |buf| < w then Err else Ok(Num(FromWord(p, GetUint(o, buf[..w]))), w)
  }

  function GetBool(o: Order, buf: seq<byte>): (r: Outcome<Value>)
    ensures r.Ok? ==> 0 < r.n <= |buf|
  {
    if |buf| < 4 then Err
    else
      var i := GetUint(o, buf[..4]);
      if i == 0 then Ok(Bool(false), 4) else if i == 1 then Ok(Bool(true), 4) else Err
  }

  function GetSig(buf: seq<byte>): (r: Outcome<Value>)
    ensures r.Ok? ==> 0 < r.n <= |buf| && r.value.Text?
  {
    var len: nat := if |buf| < 1 then 0 else buf[0];
    if |buf| < len + 2 then Err
    else
      var s := buf[1..len + 1];
      if ParseVerdict(s).Accept? then Ok(Text(s), len + 2) else Err
  }

  /** The terminating byte is skipped, whatever it is. */
  function GetText(o: Order, buf: seq<byte>): (r: Outcome<Value>)
    ensures r.Ok? ==> 0 < r.n <= |buf|
  {
    if |buf| < 4 then Err
    else
      var len := GetUint(o, buf[..4]);
      if |buf| < len + 5 then Err else Ok(Text(buf[4..len + 4]), len + 5)
  }

  function GetLeaf(o: Order, p: Prim, buf: seq<byte>): (r: Outcome<Value>)
    ensures r.Ok? ==> 0 < r.n <= |buf|
  {
    if IsNum(p) then GetNum(o, p, buf)
    else if p == B then GetBool(o, buf)
    else if p == G then GetSig(buf)
    else GetText(o, buf)
  }

  function Unmarshal(o: Order, t: Ty, depth: nat, buf: seq<byte>, pos: nat): (r: Outcome<Value>)
    requires depth <= MAX_DEPTH
    ensures r.Ok? ==> r.n <= |buf| && (ZeroSize(t) || r.n > 0)
    decreases MAX_DEPTH - depth, 2
  {
    var pad := Padding(pos, Align(t));
    if |buf| < pad then Err else After(pad, Contents(o, t, depth, buf[pad..], pos + pad))
  }

  function Contents(o: Order, t: Ty, depth: nat, buf: seq<byte>, pos: nat): (r: Outcome<Value>)
    requires depth <= MAX_DEPTH
    ensures r.Ok? ==> r.n <= |buf| && (ZeroSize(t) || r.n > 0)
    decreases MAX_DEPTH - depth, 1
  {
    match t
    case Leaf(p) => if p == V then GetVariant(o, depth, buf, pos) else GetLeaf(o, p, buf)
    case Array(e) => GetArray(o, e, depth, buf, pos)
    case Dict(k, e) => GetDict(o, k, e, depth, buf, pos)
    case Struct(fs) => GetStruct(o, fs, depth, buf, pos)
  }

  function GetArray(o: Order, e: Ty, depth: nat, buf: seq<byte>, pos: nat): (r: Outcome<Value>)
    requires depth <= MAX_DEPTH
    ensures r.Ok? ==> 0 < r.n <= |buf|
    decreases MAX_DEPTH - depth, 0
  {
    var start := 4 + Padding(pos + 4, Align(e));
    if depth >= MAX_DEPTH || |buf| < start then Err
    else FramedItems(o, e, depth + 1, buf, pos, start, GetUint(o, buf[..4]))
  }

  /** `length` bytes of elements, `start` bytes ahead. */
  function FramedItems(o: Order, e: Ty, depth: nat, buf: seq<byte>, pos: nat, start: nat, length: nat): (r: Outcome<Value>)
    requires depth <= MAX_DEPTH && start <= |buf|
    ensures r.Ok? ==> start <= r.n <= |buf|
    decreases MAX_DEPTH - depth, 4, 0
  {
    match GetItems(o, e, depth, buf[start..], pos + start, length)
    case Ok(vs, n) => Ok(List(vs), start + n)
    case Err => Err
    case Stuck => Stuck
  }

  function GetDict(o: Order, k: Prim, e: Ty, depth: nat, buf: seq<byte>, pos: nat): (r: Outcome<Value>)
    requires depth <= MAX_DEPTH
    ensures r.Ok? ==> 0 < r.n <= |buf|
    decreases MAX_DEPTH - depth, 0
  {
    var start := 4 + Padding(pos + 4, 8);
    if depth >= MAX_DEPTH - 1 || |buf| < start then Err
    else FramedEntries(o, k, e, depth + 2, buf, pos, start, GetUint(o, buf[..4]))
  }

  function FramedEntries(o: Order, k: Prim, e: Ty, depth: nat, buf: seq<byte>, pos: nat, start: nat, length: nat): (r: Outcome<Value>)
    requires depth <= MAX_DEPTH && start <= |buf|
    ensures r.Ok? ==> start <= r.n <= |buf|
    decreases MAX_DEPTH - depth, 6, 0
  {
    match GetEntries(o, k, e, depth, buf[start..], pos + start, length, [])
    case Ok(es, n) => Ok(Map(es), start + n)
    case Err => Err
    case Stuck => Stuck
  }

  function GetStruct(o: Order, fs: seq<Ty>, depth: nat, buf: seq<byte>, pos: nat): (r: Outcome<Value>)
    requires depth <= MAX_DEPTH
    ensures r.Ok? ==> r.n <= |buf| && (ZeroSize(Struct(fs)) || r.n > 0)
    decreases MAX_DEPTH - depth, 0
  {
    if depth >= MAX_DEPTH then Err
    else
      match GetMembers(o, fs, depth + 1, buf, pos)
      case Ok(vs, n) => Ok(Tuple(vs), n)
      case Err => Err
      case Stuck => Stuck
  }

  function GetVariant(o: Order, depth: nat, buf: seq<byte>, pos: nat): (r: Outcome<Value>)
    requires depth <= MAX_DEPTH
    ensures r.Ok? ==> 0 < r.n <= |buf|
    decreases MAX_DEPTH - depth, 0
  {
    if depth >= MAX_DEPTH then Err
    else
      match GetSig(buf)
      case Ok(sig, k) => After(k, GetCarried(o, sig.s, depth + 1, buf[k..], pos + k))
      case Err => Err
      case Stuck => Stuck
  }

  /** The value of a variant whose signature has been read. */
  function GetCarried(o: Order, sig: seq<byte>, depth: nat, buf: seq<byte>, pos: nat): (r: Outcome<Value>)
    requires depth <= MAX_DEPTH
    ensures r.Ok? ==> r.n <= |buf|
    decreases MAX_DEPTH - depth, 3, 0
  {
    if sig == [] || Valid(sig, 0) != Accept([]) || TypeFor(sig).None? then Err
    else
      var t := TypeFor(sig).value;
      match Unmarshal(o, t, depth, buf, pos)
      case Ok(v, n) => Ok(Variant(t, v), n)
      case Err => Err
      case Stuck => Stuck
  }

  /** Elements are read until the position reaches the announced end; `left` is the distance to it. */
  function GetItems(o: Order, e: Ty, depth: nat, buf: seq<byte>, pos: nat, left: int): (r: Outcome<seq<Value>>)
    requires depth <= MAX_DEPTH
    ensures r.Ok? ==> r.n <= |buf|
    decreases MAX_DEPTH - depth, 3, |buf|
  {
    if left <= 0 then Ok([], 0)
    else
      match Unmarshal(o, e, depth, buf, pos)
      case Ok(v, n) =>
        if n == 0 then Stuck
        else
          (match GetItems(o, e, depth, buf[n..], pos + n, left - n)
           case Ok(vs, m) => Ok([v] + vs, n + m)
           case bad => bad)
      case Err => Err
      case Stuck => Stuck
  }

  function GetEntry(o: Order, k: Prim, e: Ty, depth: nat, buf: seq<byte>, pos: nat): (r: Outcome<Entry>)
    requires depth <= MAX_DEPTH
    ensures r.Ok? ==> 0 < r.n <= |buf|
    decreases MAX_DEPTH - depth, 4, 0
  {
    var pad := Padding(pos, 8);
    if |buf| < pad || !IsKey(k) then Err else After(pad, GetPair(o, k, e, depth, buf[pad..], pos + pad))
  }

  function GetPair(o: Order, k: Prim, e: Ty, depth: nat, buf: seq<byte>, pos: nat): (r: Outcome<Entry>)
    requires depth <= MAX_DEPTH
    ensures r.Ok? ==> 0 < r.n <= |buf|
    decreases MAX_DEPTH - depth, 3, 0
  {
    match Unmarshal(o, Leaf(k), depth, buf, pos)
    case Ok(key, n) =>
      (match Unmarshal(o, e, depth, buf[n..], pos + n)
       case Ok(v, m) => Ok(Entry(key, v), n + m)
       case Err => Err
       case Stuck => Stuck)
    case Err => Err
    case Stuck => Stuck
  }

  function GetEntries(o: Order, k: Prim, e: Ty, depth: nat, buf: seq<byte>, pos: nat, left: int, acc: seq<Entry>)
    : (r: Outcome<seq<Entry>>)
    requires depth <= MAX_DEPTH
    ensures r.Ok? ==> r.n <= |buf|
    decreases MAX_DEPTH - depth, 5, |buf|
  {
    if left <= 0 then Ok(acc, 0)
    else
      match GetEntry(o, k, e, depth, buf, pos)
      case Ok(entry, n) => After(n, GetEntries(o, k, e, depth, buf[n..], pos + n, left - n, Upsert(k, acc, entry)))
      case Err => Err
      case Stuck => Stuck
  }

  function GetMembers(o: Order, ts: seq<Ty>, depth: nat, buf: seq<byte>, pos: nat): (r: Outcome<seq<Value>>)
    requires depth <= MAX_DEPTH
    ensures r.Ok? ==> r.n <= |buf|
    ensures r.Ok? && (exists i | 0 <= i < |ts| :: !ZeroSize(ts[i])) ==> r.n > 0
    decreases MAX_DEPTH - depth, 3, |ts|
  {
    if ts == [] then Ok([], 0)
    else
      match Unmarshal(o, ts[0], depth, buf, pos)
      case Ok(v, n) =>
        (match GetMembers(o, ts[1..], depth, buf[n..], pos + n)
         case Ok(vs, m) => Ok([v] + vs, n + m)
         case bad => bad)
      case Err => Err
      case Stuck => Stuck
  }
}
