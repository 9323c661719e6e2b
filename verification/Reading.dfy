/** The decoder on arbitrary bytes: exactly which bytes it accepts, and as what. It is more lenient than the
    format: gaps and terminating bytes may hold anything, the last element of an array may pass the announced
    end, and a key may occur more than once. */
module DBusReading {
  import opened Common
  import opened ByteOrder
  import opened DBusType
  import opened DBusSignature
  import opened DBusWire
  import opened DBusFormat
  import opened DBusRoundTrip
  import opened DBusDecoder

  // ---------------------------------------------------------------- what is accepted

  /** k bytes lead from pos to the next multiple of n. */
  predicate Skips(pos: nat, n: nat, k: nat)
    requires n > 0
  {
    k < n && (pos + k) % n == 0
  }

  ghost predicate ReadsLeaf(o: Order, p: Prim, v: Value, b: seq<byte>) {
    if p == 'b' as int then v.Bool? && |b| == 4 && Word(o, if v.b then 1 else 0, b)
    else if p == 's' as int || p == 'o' as int then
      v.Text? && |b| == |v.s| + 5 && |v.s| < 0x1_0000_0000 && Word(o, |v.s|, b[..4]) && b[4..|v.s| + 4] == v.s
    else if p == 'g' as int then
      v.Text? && |b| == |v.s| + 2 && b[0] == |v.s| && b[1..|v.s| + 1] == v.s && ParseVerdict(v.s).Accept?
    else v.Num? && Range(p, v.n) && Number(o, p, v.n, b)
  }

  /** b, at position pos and nested `depth` levels, is accepted as v of type t. */
  ghost predicate Reads(o: Order, t: Ty, v: Value, depth: nat, pos: nat, b: seq<byte>)
    requires depth <= MAX_DEPTH
    decreases MAX_DEPTH - depth, 2
  {
    exists k | 0 <= k <= |b| :: ReadsAt(o, t, v, depth, pos, b, k)
  }

  ghost predicate ReadsAt(o: Order, t: Ty, v: Value, depth: nat, pos: nat, b: seq<byte>, k: nat)
    requires depth <= MAX_DEPTH && k <= |b|
    decreases MAX_DEPTH - depth, 1
  {
    Skips(pos, Boundary(t), k) && ReadsInner(o, t, v, depth, pos + k, b[k..])
  }

  ghost predicate ReadsInner(o: Order, t: Ty, v: Value, depth: nat, pos: nat, b: seq<byte>)
    requires depth <= MAX_DEPTH
    decreases MAX_DEPTH - depth, 0, 2
  {
    match t
    case Leaf(p) => if p == 'v' as int then ReadsVariant(o, v, depth, pos, b) else ReadsLeaf(o, p, v, b)
    case Array(e) => ReadsArray(o, e, v, depth, pos, b)
    case Dict(key, e) => ReadsDict(o, key, e, v, depth, pos, b)
    case Struct(fs) => depth < 64 && v.Tuple? && ReadsMembers(o, fs, v.members, depth + 1, pos, b)
  }

  ghost predicate ReadsArray(o: Order, e: Ty, v: Value, depth: nat, pos: nat, b: seq<byte>)
    requires depth <= MAX_DEPTH
    decreases MAX_DEPTH - depth, 0, 1
  {
    depth < 64 && v.List? && exists k | 4 <= k <= |b| :: ReadsArrayAt(o, e, v.items, depth, pos, b, k)
  }

  ghost predicate ReadsDict(o: Order, key: Prim, e: Ty, v: Value, depth: nat, pos: nat, b: seq<byte>)
    requires depth <= MAX_DEPTH
    decreases MAX_DEPTH - depth, 0, 1
  {
    depth < 63 && v.Map? && exists k | 4 <= k <= |b| :: ReadsDictAt(o, key, e, v.entries, depth, pos, b, k)
  }

  /** One byte of length, the signature of a type nested at most 64 deep, any byte, a value of that type. */
  ghost predicate ReadsVariant(o: Order, v: Value, depth: nat, pos: nat, b: seq<byte>)
    requires depth <= MAX_DEPTH
    decreases MAX_DEPTH - depth, 0, 0
  {
    depth < 64 && v.Variant? && var sig := Print(v.ty); var k := |sig| + 2;
    && k <= |b| && b[0] == |sig| && b[1..k - 1] == sig && Nest(v.ty) <= 64
    && Reads(o, v.ty, v.val, depth + 1, pos + k, b[k..])
  }

  /** A length word, a gap that ends at k, elements up to the announced end. */
  ghost predicate ReadsArrayAt(o: Order, e: Ty, vs: seq<Value>, depth: nat, pos: nat, b: seq<byte>, k: nat)
    requires depth < MAX_DEPTH && 4 <= k <= |b|
    decreases MAX_DEPTH - depth, 0, 0
  {
    Skips(pos + 4, Boundary(e), k - 4) && ReadsItems(o, e, vs, depth + 1, pos + k, b[k..], GetUint(o, b[..4]))
  }

  ghost predicate ReadsDictAt(o: Order, key: Prim, e: Ty, es: seq<Entry>, depth: nat, pos: nat, b: seq<byte>, k: nat)
    requires depth < MAX_DEPTH - 1 && 4 <= k <= |b|
    decreases MAX_DEPTH - depth, 0, 0
  {
    && Skips(pos + 4, 8, k - 4)
    && exists raw :: ReadsEntries(o, key, e, raw, depth + 2, pos + k, b[k..], GetUint(o, b[..4])) && es == Collected(key, [], raw)
  }

  /** The entries of a Go map after assigning those listed, one after the other. */
  function Collected(key: Prim, acc: seq<Entry>, raw: seq<Entry>): seq<Entry>
    decreases raw
  {
    if raw == [] then acc else Collected(key, Upsert(key, acc, raw[0]), raw[1..])
  }

  ghost predicate ReadsItems(o: Order, e: Ty, vs: seq<Value>, depth: nat, pos: nat, b: seq<byte>, left: int)
    requires depth <= MAX_DEPTH
    decreases MAX_DEPTH - depth, 3, |vs|, 1
  {
    if vs == [] then left <= 0 && b == []
    else left > 0 && exists k | 0 < k <= |b| :: ReadsItemsAt(o, e, vs, depth, pos, b, left, k)
  }

  ghost predicate ReadsItemsAt(o: Order, e: Ty, vs: seq<Value>, depth: nat, pos: nat, b: seq<byte>, left: int, k: nat)
    requires depth <= MAX_DEPTH && vs != [] && k <= |b|
    decreases MAX_DEPTH - depth, 3, |vs|, 0
  {
    Reads(o, e, vs[0], depth, pos, b[..k]) && ReadsItems(o, e, vs[1..], depth, pos + k, b[k..], left - k)
  }

  ghost predicate ReadsMembers(o: Order, ts: seq<Ty>, vs: seq<Value>, depth: nat, pos: nat, b: seq<byte>)
    requires depth <= MAX_DEPTH
    decreases MAX_DEPTH - depth, 3, |vs|, 1
  {
    if ts == [] || vs == [] then ts == [] && vs == [] && b == []
    else exists k | 0 <= k <= |b| :: ReadsMembersAt(o, ts, vs, depth, pos, b, k)
  }

  ghost predicate ReadsMembersAt(o: Order, ts: seq<Ty>, vs: seq<Value>, depth: nat, pos: nat, b: seq<byte>, k: nat)
    requires depth <= MAX_DEPTH && ts != [] && vs != [] && k <= |b|
    decreases MAX_DEPTH - depth, 3, |vs|, 0
  {
    Reads(o, ts[0], vs[0], depth, pos, b[..k]) && ReadsMembers(o, ts[1..], vs[1..], depth, pos + k, b[k..])
  }

  ghost predicate ReadsEntries(o: Order, key: Prim, e: Ty, raw: seq<Entry>, depth: nat, pos: nat, b: seq<byte>, left: int)
    requires depth <= MAX_DEPTH
    decreases MAX_DEPTH - depth, 5, |raw|, 1
  {
    if raw == [] then left <= 0 && b == []
    else left > 0 && exists k | 0 <= k <= |b| :: ReadsEntriesAt(o, key, e, raw, depth, pos, b, left, k)
  }

  ghost predicate ReadsEntriesAt(o: Order, key: Prim, e: Ty, raw: seq<Entry>, depth: nat, pos: nat, b: seq<byte>, left: int, k: nat)
    requires depth <= MAX_DEPTH && raw != [] && k <= |b|
    decreases MAX_DEPTH - depth, 5, |raw|, 0
  {
    ReadsEntry(o, key, e, raw[0], depth, pos, b[..k]) && ReadsEntries(o, key, e, raw[1..], depth, pos + k, b[k..], left - k)
  }

  /** Only basic types other than booleans, signatures and variants are keys. */
  ghost predicate ReadsEntry(o: Order, key: Prim, e: Ty, entry: Entry, depth: nat, pos: nat, b: seq<byte>)
    requires depth <= MAX_DEPTH
    decreases MAX_DEPTH - depth, 4
  {
    key != 'b' as int && key != 'g' as int && key != 'v' as int &&
    exists k | 0 <= k <= |b| :: Skips(pos, 8, k) && ReadsPair(o, key, e, entry, depth, pos + k, b[k..])
  }

  ghost predicate ReadsPair(o: Order, key: Prim, e: Ty, entry: Entry, depth: nat, pos: nat, b: seq<byte>)
    requires depth <= MAX_DEPTH
    decreases MAX_DEPTH - depth, 3, 1
  {
    exists k | 0 <= k <= |b| :: ReadsPairAt(o, key, e, entry, depth, pos, b, k)
  }

  ghost predicate ReadsPairAt(o: Order, key: Prim, e: Ty, entry: Entry, depth: nat, pos: nat, b: seq<byte>, k: nat)
    requires depth <= MAX_DEPTH && k <= |b|
    decreases MAX_DEPTH - depth, 3, 0
  {
    Reads(o, Leaf(key), entry.key, depth, pos, b[..k]) && Reads(o, e, entry.val, depth, pos + k, b[k..])
  }

  // ---------------------------------------------------------------- leaves

  lemma RangeExact(p: Prim, n: int)
    requires IsNum(p)
    ensures Range(p, n) <==> InRange(p, n)
  {
    assert IsPrim(p);
  }

  lemma NumberExact(o: Order, p: Prim, n: int, b: seq<byte>)
    requires IsNum(p) && InRange(p, n)
    ensures Number(o, p, n, b) <==> |b| == Width(p) && FromWord(p, GetUint(o, b)) == n
  {
    hide Word, GetUint, IsNum;
    if |b| == Width(p) {
      GetUintExact(o, b, ToWord(p, n));
      FromWordUnique(p, GetUint(o, b), n);
    }
  }

  lemma FromWordUnique(p: Prim, u: nat, n: int)
    requires u < Size(Width(p)) && InRange(p, n)
    ensures FromWord(p, u) == n <==> u == ToWord(p, n)
  {
    hide ToWord, Size, Width, Signed;
    WordRoundTrip(p, n);
  }

  lemma NumRead(o: Order, p: Prim, v: Value, b: seq<byte>)
    requires IsNum(p)
    ensures ReadsLeaf(o, p, v, b) <==> GetNum(o, p, b) == Ok(v, |b|)
  {
    hide Number, GetUint, Range, InRange, Size;
    if v.Num? {
      RangeExact(p, v.n);
      if InRange(p, v.n) {
        NumberExact(o, p, v.n, b);
      }
      assert |b| == Width(p) ==> b[..Width(p)] == b;
    }
  }

  lemma BoolRead(o: Order, v: Value, b: seq<byte>)
    ensures ReadsLeaf(o, B, v, b) <==> GetBool(o, b) == Ok(v, |b|)
  {
    hide Word, GetUint;
    if |b| == 4 {
      GetUintExact(o, b, 0);
      GetUintExact(o, b, 1);
      assert b[..4] == b;
    }
  }

  lemma TextRead(o: Order, p: Prim, v: Value, b: seq<byte>)
    requires p == S || p == O
    ensures ReadsLeaf(o, p, v, b) <==> GetText(o, b) == Ok(v, |b|)
  {
    hide Word, GetUint;
    if v.Text? && |b| == |v.s| + 5 && |v.s| < TWO32 {
      GetUintExact(o, b[..4], |v.s|);
    }
  }

  lemma SigRead(o: Order, v: Value, b: seq<byte>)
    ensures ReadsLeaf(o, G, v, b) <==> GetSig(b) == Ok(v, |b|)
  {
    hide ParseVerdict;
  }

  lemma LeafRead(o: Order, p: Prim, v: Value, b: seq<byte>)
    requires p != V
    ensures ReadsLeaf(o, p, v, b) <==> GetLeaf(o, p, b) == Ok(v, |b|)
  {
    hide ReadsLeaf, GetNum, GetBool, GetSig, GetText;
    if IsNum(p) {
      NumRead(o, p, v, b);
    } else if p == B {
      BoolRead(o, v, b);
    } else if p == G {
      SigRead(o, v, b);
    } else {
      TextRead(o, p, v, b);
    }
  }

  /** A leaf is read from its own bytes, whatever follows. */
  lemma LeafPrefix(o: Order, p: Prim, buf: seq<byte>, n: nat, v: Value)
    requires p != V && n <= |buf|
    ensures GetLeaf(o, p, buf) == Ok(v, n) <==> GetLeaf(o, p, buf[..n]) == Ok(v, n)
  {
    hide GetNum, GetBool, GetSig, GetText, IsNum;
    NumPrefix(o, p, buf, n, v);
    BoolPrefix(o, buf, n, v);
    SigPrefix(buf, n, v);
    TextPrefix(o, buf, n, v);
  }

  lemma NumPrefix(o: Order, p: Prim, buf: seq<byte>, n: nat, v: Value)
    requires n <= |buf|
    ensures GetNum(o, p, buf) == Ok(v, n) <==> GetNum(o, p, buf[..n]) == Ok(v, n)
  {
    hide GetUint, FromWord;
    assert Width(p) <= n ==> buf[..n][..Width(p)] == buf[..Width(p)];
  }

  lemma BoolPrefix(o: Order, buf: seq<byte>, n: nat, v: Value)
    requires n <= |buf|
    ensures GetBool(o, buf) == Ok(v, n) <==> GetBool(o, buf[..n]) == Ok(v, n)
  {
    hide GetUint;
    assert 4 <= n ==> buf[..n][..4] == buf[..4];
  }

  lemma SigPrefix(buf: seq<byte>, n: nat, v: Value)
    requires n <= |buf|
    ensures GetSig(buf) == Ok(v, n) <==> GetSig(buf[..n]) == Ok(v, n)
  {
    hide ParseVerdict;
    if n > 1 {
      var len: nat := buf[0];
      assert len + 2 == n ==> buf[..n][1..len + 1] == buf[1..len + 1];
    }
  }

  lemma TextPrefix(o: Order, buf: seq<byte>, n: nat, v: Value)
    requires n <= |buf|
    ensures GetText(o, buf) == Ok(v, n) <==> GetText(o, buf[..n]) == Ok(v, n)
  {
    hide GetUint;
    if n >= 4 {
      assert buf[..n][..4] == buf[..4];
      var len := GetUint(o, buf[..4]);
      assert len + 5 == n ==> buf[..n][4..len + 4] == buf[4..len + 4];
    }
  }

  // ---------------------------------------------------------------- containers

  lemma SkipsExact(pos: nat, n: Alignment, k: nat)
    ensures Skips(pos, n, k) <==> k == Padding(pos, n)
  {
    PaddingReaches(pos, n);
    if Skips(pos, n, k) {
      OneReaches(pos, n, k, Padding(pos, n));
    }
  }

  lemma TakeDrop(buf: seq<byte>, k: nat, n: nat)
    requires k <= n <= |buf|
    ensures buf[..n][k..] == buf[k..][..n - k] && buf[..n][..k] == buf[..k]
  {}

  /** The decoder returns v and consumes n bytes if and only if the first n bytes are accepted as v. */
  lemma {:induction false} ReadExact(o: Order, t: Ty, v: Value, depth: nat, buf: seq<byte>, pos: nat, n: nat)
    requires depth <= MAX_DEPTH && n <= |buf|
    ensures Unmarshal(o, t, depth, buf, pos) == Ok(v, n) <==> Reads(o, t, v, depth, pos, buf[..n])
    decreases MAX_DEPTH - depth, 2
  {
    hide ReadsAt, Unmarshal;
    var pad := Padding(pos, Align(t));
    forall k | 0 <= k <= n
      ensures ReadsAt(o, t, v, depth, pos, buf[..n], k) <==> k == pad && Unmarshal(o, t, depth, buf, pos) == Ok(v, n)
    {
      ReadAtExact(o, t, v, depth, buf, pos, n, k);
    }
    PastPadding(o, t, depth, buf, pos);
    assert pad <= n && Unmarshal(o, t, depth, buf, pos) == Ok(v, n) ==> ReadsAt(o, t, v, depth, pos, buf[..n], pad);
  }

  lemma PastPadding(o: Order, t: Ty, depth: nat, buf: seq<byte>, pos: nat)
    requires depth <= MAX_DEPTH
    ensures Unmarshal(o, t, depth, buf, pos).Ok? ==> Padding(pos, Align(t)) <= Unmarshal(o, t, depth, buf, pos).n
  {
    hide Contents, Padding;
  }

  lemma {:induction false} ReadAtExact(o: Order, t: Ty, v: Value, depth: nat, buf: seq<byte>, pos: nat, n: nat, k: nat)
    requires depth <= MAX_DEPTH && k <= n <= |buf|
    ensures ReadsAt(o, t, v, depth, pos, buf[..n], k) <==>
            k == Padding(pos, Align(t)) && Unmarshal(o, t, depth, buf, pos) == Ok(v, n)
    decreases MAX_DEPTH - depth, 1
  {
    hide Contents, ReadsInner, Skips, Padding, Align, Boundary;
    BoundaryIsAlign(t);
    SkipsExact(pos, Align(t), k);
    if k == Padding(pos, Align(t)) {
      TakeDrop(buf, k, n);
      InnerExact(o, t, v, depth, buf[k..], pos + k, n - k);
    }
  }

  lemma {:induction false} InnerExact(o: Order, t: Ty, v: Value, depth: nat, buf: seq<byte>, pos: nat, n: nat)
    requires depth <= MAX_DEPTH && n <= |buf|
    ensures Contents(o, t, depth, buf, pos) == Ok(v, n) <==> ReadsInner(o, t, v, depth, pos, buf[..n])
    decreases MAX_DEPTH - depth, 0, 2
  {
    hide GetVariant, GetLeaf, GetArray, GetDict, GetMembers, ReadsVariant, ReadsLeaf, ReadsMembers, ReadsArray, ReadsDict;
    match t
    case Leaf(p) =>
      if p == V {
        VariantExact(o, v, depth, buf, pos, n);
      } else {
        LeafPrefix(o, p, buf, n, v);
        LeafRead(o, p, v, buf[..n]);
      }
    case Array(e) => ArrayExact(o, e, v, depth, buf, pos, n);
    case Dict(key, e) => DictExact(o, key, e, v, depth, buf, pos, n);
    case Struct(fs) =>
      if depth < MAX_DEPTH && v.Tuple? {
        MembersExact(o, fs, v.members, depth + 1, buf, pos, n);
      }
  }

  lemma {:induction false} VariantExact(o: Order, v: Value, depth: nat, buf: seq<byte>, pos: nat, n: nat)
    requires depth <= MAX_DEPTH && n <= |buf|
    ensures GetVariant(o, depth, buf, pos) == Ok(v, n) <==> ReadsVariant(o, v, depth, pos, buf[..n])
    decreases MAX_DEPTH - depth, 0, 1
  {
    hide GetSig, GetCarried, Reads, Print, Nest, Unmarshal;
    if depth < MAX_DEPTH && v.Variant? {
      var k := |Print(v.ty)| + 2;
      CarriedExact(o, v, depth + 1, buf, pos, n);
      if k <= n {
        ReadExact(o, v.ty, v.val, depth + 1, buf[k..], pos + k, n - k);
        TakeDrop(buf, k, n);
        assert buf[..n][1..k - 1] == buf[1..k - 1];
      }
    } else if depth < MAX_DEPTH && GetSig(buf).Ok? {
      CarriedIsVariant(o, GetSig(buf).value.s, depth + 1, buf[GetSig(buf).n..], pos + GetSig(buf).n);
    }
  }

  lemma CarriedIsVariant(o: Order, sig: seq<byte>, depth: nat, buf: seq<byte>, pos: nat)
    requires depth <= MAX_DEPTH
    ensures GetCarried(o, sig, depth, buf, pos).Ok? ==> GetCarried(o, sig, depth, buf, pos).value.Variant?
  {
    hide Unmarshal, Valid, TypeFor;
  }

  /** The signature read is that of the variant's type, which nests within the limit. */
  lemma CarriedExact(o: Order, v: Value, depth: nat, buf: seq<byte>, pos: nat, n: nat)
    requires depth <= MAX_DEPTH && n <= |buf| && v.Variant?
    ensures var sig := Print(v.ty); var k := |sig| + 2;
            (GetSig(buf).Ok? && After(GetSig(buf).n, GetCarried(o, GetSig(buf).value.s, depth, buf[GetSig(buf).n..], pos + GetSig(buf).n)) == Ok(v, n))
            <==>
            && k <= n && buf[0] == |sig| && buf[1..k - 1] == sig && Nest(v.ty) <= MAX_DEPTH
            && Unmarshal(o, v.ty, depth, buf[k..], pos + k) == Ok(v.val, n - k)
  {
    hide Unmarshal, Print, Nest, Valid, TypeFor, ParseVerdict;
    var sig := Print(v.ty);
    var k := |sig| + 2;
    if k <= n && buf[0] == |sig| && buf[1..k - 1] == sig && Nest(v.ty) <= MAX_DEPTH {
      CarriedSignature(v.ty);
      assert GetSig(buf) == Ok(Text(sig), k);
    }
    if GetSig(buf).Ok? {
      var s := GetSig(buf).value.s;
      if GetCarried(o, s, depth, buf[GetSig(buf).n..], pos + GetSig(buf).n).Ok? {
        var t := CarriedType(s);
      }
    }
  }

  lemma {:induction false} ArrayExact(o: Order, e: Ty, v: Value, depth: nat, buf: seq<byte>, pos: nat, n: nat)
    requires depth <= MAX_DEPTH && n <= |buf|
    ensures GetArray(o, e, depth, buf, pos) == Ok(v, n) <==> ReadsArray(o, e, v, depth, pos, buf[..n])
    decreases MAX_DEPTH - depth, 0, 1
  {
    hide ReadsArrayAt, GetItems, Padding, GetUint;
    var start := 4 + Padding(pos + 4, Align(e));
    if depth < MAX_DEPTH && v.List? {
      forall k | 4 <= k <= n
        ensures ReadsArrayAt(o, e, v.items, depth, pos, buf[..n], k) <==> k == start && GetArray(o, e, depth, buf, pos) == Ok(v, n)
      {
        ArrayAtExact(o, e, v.items, depth, buf, pos, n, k);
      }
      if GetArray(o, e, depth, buf, pos) == Ok(v, n) {
        assert start <= n;
        assert ReadsArrayAt(o, e, v.items, depth, pos, buf[..n], start);
      }
    }
  }

  lemma {:induction false} ArrayAtExact(o: Order, e: Ty, vs: seq<Value>, depth: nat, buf: seq<byte>, pos: nat, n: nat, k: nat)
    requires depth < MAX_DEPTH && 4 <= k <= n <= |buf|
    ensures ReadsArrayAt(o, e, vs, depth, pos, buf[..n], k) <==>
            k == 4 + Padding(pos + 4, Align(e)) && GetArray(o, e, depth, buf, pos) == Ok(List(vs), n)
    decreases MAX_DEPTH - depth, 0, 0
  {
    hide GetItems, ReadsItems, Skips, Padding, Align, Boundary, GetUint;
    BoundaryIsAlign(e);
    SkipsExact(pos + 4, Align(e), k - 4);
    TakeDrop(buf, 4, n);
    TakeDrop(buf, k, n);
    if k == 4 + Padding(pos + 4, Align(e)) {
      ItemsExact(o, e, vs, depth + 1, buf[k..], pos + k, n - k, GetUint(o, buf[..4]));
    }
  }

  lemma {:induction false} ItemsExact(o: Order, e: Ty, vs: seq<Value>, depth: nat, buf: seq<byte>, pos: nat, n: nat, left: int)
    requires depth <= MAX_DEPTH && n <= |buf|
    ensures GetItems(o, e, depth, buf, pos, left) == Ok(vs, n) <==> ReadsItems(o, e, vs, depth, pos, buf[..n], left)
    decreases MAX_DEPTH - depth, 3, |vs|, 1
  {
    hide Unmarshal, ReadsItemsAt;
    if vs != [] && left > 0 {
      forall k | 0 < k <= n
        ensures ReadsItemsAt(o, e, vs, depth, pos, buf[..n], left, k) <==>
                && Unmarshal(o, e, depth, buf, pos) == Ok(vs[0], k)
                && GetItems(o, e, depth, buf[k..], pos + k, left - k) == Ok(vs[1..], n - k)
      {
        ItemsAtExact(o, e, vs, depth, buf, pos, n, left, k);
      }
      FirstItem(o, e, vs, depth, buf, pos, n, left);
    }
  }

  lemma FirstItem(o: Order, e: Ty, vs: seq<Value>, depth: nat, buf: seq<byte>, pos: nat, n: nat, left: int)
    requires depth <= MAX_DEPTH && n <= |buf| && vs != [] && left > 0
    ensures GetItems(o, e, depth, buf, pos, left) == Ok(vs, n) <==>
            exists k | 0 < k <= n ::
              && Unmarshal(o, e, depth, buf, pos) == Ok(vs[0], k)
              && GetItems(o, e, depth, buf[k..], pos + k, left - k) == Ok(vs[1..], n - k)
  {
    hide Unmarshal, GetItems;
    var r := Unmarshal(o, e, depth, buf, pos);
    assert vs == [vs[0]] + vs[1..];
    ItemsForm(o, e, depth, buf, pos, left);
    if r.Ok? && r.n > 0 && r.n <= n {
      var more := GetItems(o, e, depth, buf[r.n..], pos + r.n, left - r.n);
      assert more.Ok? ==> ([r.value] + more.value)[1..] == more.value;
    }
  }

  lemma ItemsForm(o: Order, e: Ty, depth: nat, buf: seq<byte>, pos: nat, left: int)
    requires depth <= MAX_DEPTH && left > 0
    ensures var r, all := Unmarshal(o, e, depth, buf, pos), GetItems(o, e, depth, buf, pos, left);
            if r.Ok? && r.n > 0 then
              var more := GetItems(o, e, depth, buf[r.n..], pos + r.n, left - r.n);
              if more.Ok? then all == Ok([r.value] + more.value, r.n + more.n) else !all.Ok?
            else !all.Ok?
  {
    hide Unmarshal;
  }

  lemma {:induction false} ItemsAtExact(o: Order, e: Ty, vs: seq<Value>, depth: nat, buf: seq<byte>, pos: nat, n: nat, left: int, k: nat)
    requires depth <= MAX_DEPTH && k <= n <= |buf| && vs != []
    ensures ReadsItemsAt(o, e, vs, depth, pos, buf[..n], left, k) <==>
            && Unmarshal(o, e, depth, buf, pos) == Ok(vs[0], k)
            && GetItems(o, e, depth, buf[k..], pos + k, left - k) == Ok(vs[1..], n - k)
    decreases MAX_DEPTH - depth, 3, |vs|, 0
  {
    hide Unmarshal, Reads, GetItems, ReadsItems;
    TakeDrop(buf, k, n);
    ReadExact(o, e, vs[0], depth, buf, pos, k);
    ItemsExact(o, e, vs[1..], depth, buf[k..], pos + k, n - k, left - k);
  }

  lemma {:induction false} MembersExact(o: Order, ts: seq<Ty>, vs: seq<Value>, depth: nat, buf: seq<byte>, pos: nat, n: nat)
    requires depth <= MAX_DEPTH && n <= |buf|
    ensures GetMembers(o, ts, depth, buf, pos) == Ok(vs, n) <==> ReadsMembers(o, ts, vs, depth, pos, buf[..n])
    decreases MAX_DEPTH - depth, 3, |vs|, 1
  {
    hide Unmarshal, ReadsMembersAt;
    if vs != [] && ts != [] {
      forall k | 0 <= k <= n
        ensures ReadsMembersAt(o, ts, vs, depth, pos, buf[..n], k) <==>
                && Unmarshal(o, ts[0], depth, buf, pos) == Ok(vs[0], k)
                && GetMembers(o, ts[1..], depth, buf[k..], pos + k) == Ok(vs[1..], n - k)
      {
        MembersAtExact(o, ts, vs, depth, buf, pos, n, k);
      }
      FirstMember(o, ts, vs, depth, buf, pos, n);
    }
  }

  lemma FirstMember(o: Order, ts: seq<Ty>, vs: seq<Value>, depth: nat, buf: seq<byte>, pos: nat, n: nat)
    requires depth <= MAX_DEPTH && n <= |buf| && vs != [] && ts != []
    ensures GetMembers(o, ts, depth, buf, pos) == Ok(vs, n) <==>
            exists k | 0 <= k <= n ::
              && Unmarshal(o, ts[0], depth, buf, pos) == Ok(vs[0], k)
              && GetMembers(o, ts[1..], depth, buf[k..], pos + k) == Ok(vs[1..], n - k)
  {
    hide Unmarshal, GetMembers;
    var r := Unmarshal(o, ts[0], depth, buf, pos);
    assert vs == [vs[0]] + vs[1..];
    MembersForm(o, ts, depth, buf, pos);
    if r.Ok? && r.n <= n {
      var more := GetMembers(o, ts[1..], depth, buf[r.n..], pos + r.n);
      assert more.Ok? ==> ([r.value] + more.value)[1..] == more.value;
    }
  }

  lemma MembersForm(o: Order, ts: seq<Ty>, depth: nat, buf: seq<byte>, pos: nat)
    requires depth <= MAX_DEPTH && ts != []
    ensures var r, all := Unmarshal(o, ts[0], depth, buf, pos), GetMembers(o, ts, depth, buf, pos);
            if r.Ok? then
              var more := GetMembers(o, ts[1..], depth, buf[r.n..], pos + r.n);
              if more.Ok? then all == Ok([r.value] + more.value, r.n + more.n) else !all.Ok?
            else !all.Ok?
  {
    hide Unmarshal;
  }

  lemma {:induction false} MembersAtExact(o: Order, ts: seq<Ty>, vs: seq<Value>, depth: nat, buf: seq<byte>, pos: nat, n: nat, k: nat)
    requires depth <= MAX_DEPTH && k <= n <= |buf| && vs != [] && ts != []
    ensures ReadsMembersAt(o, ts, vs, depth, pos, buf[..n], k) <==>
            && Unmarshal(o, ts[0], depth, buf, pos) == Ok(vs[0], k)
            && GetMembers(o, ts[1..], depth, buf[k..], pos + k) == Ok(vs[1..], n - k)
    decreases MAX_DEPTH - depth, 3, |vs|, 0
  {
    hide Unmarshal, Reads, GetMembers, ReadsMembers;
    TakeDrop(buf, k, n);
    ReadExact(o, ts[0], vs[0], depth, buf, pos, k);
    MembersExact(o, ts[1..], vs[1..], depth, buf[k..], pos + k, n - k);
  }

  lemma {:induction false} PairExact(o: Order, key: Prim, e: Ty, entry: Entry, depth: nat, buf: seq<byte>, pos: nat, n: nat)
    requires depth <= MAX_DEPTH && n <= |buf|
    ensures GetPair(o, key, e, depth, buf, pos) == Ok(entry, n) <==> ReadsPair(o, key, e, entry, depth, pos, buf[..n])
    decreases MAX_DEPTH - depth, 3, 0, 0
  {
    hide Unmarshal, Reads;
    forall k | 0 <= k <= n
      ensures ReadsPairAt(o, key, e, entry, depth, pos, buf[..n], k) <==>
              && Unmarshal(o, Leaf(key), depth, buf, pos) == Ok(entry.key, k)
              && Unmarshal(o, e, depth, buf[k..], pos + k) == Ok(entry.val, n - k)
    {
      TakeDrop(buf, k, n);
      ReadExact(o, Leaf(key), entry.key, depth, buf, pos, k);
      ReadExact(o, e, entry.val, depth, buf[k..], pos + k, n - k);
    }
    if GetPair(o, key, e, depth, buf, pos) == Ok(entry, n) {
      assert ReadsPairAt(o, key, e, entry, depth, pos, buf[..n], Unmarshal(o, Leaf(key), depth, buf, pos).n);
    }
  }

  lemma {:induction false} EntryExact(o: Order, key: Prim, e: Ty, entry: Entry, depth: nat, buf: seq<byte>, pos: nat, n: nat)
    requires depth <= MAX_DEPTH && n <= |buf|
    ensures GetEntry(o, key, e, depth, buf, pos) == Ok(entry, n) <==> ReadsEntry(o, key, e, entry, depth, pos, buf[..n])
    decreases MAX_DEPTH - depth, 4
  {
    hide GetPair, ReadsPair, Skips, Padding;
    assert IsPrim(key);
    var pad := Padding(pos, 8);
    if pad <= n {
      TakeDrop(buf, pad, n);
      PairExact(o, key, e, entry, depth, buf[pad..], pos + pad, n - pad);
      SkipsExact(pos, 8, pad);
    }
    forall k | 0 <= k <= n ensures Skips(pos, 8, k) <==> k == pad {
      SkipsExact(pos, 8, k);
    }
  }

  /** Entries are read into the map one after the other. */
  lemma {:induction false} EntriesSound(o: Order, key: Prim, e: Ty, depth: nat, buf: seq<byte>, pos: nat, left: int, acc: seq<Entry>)
    returns (raw: seq<Entry>)
    requires depth <= MAX_DEPTH && GetEntries(o, key, e, depth, buf, pos, left, acc).Ok?
    ensures var r := GetEntries(o, key, e, depth, buf, pos, left, acc);
            ReadsEntries(o, key, e, raw, depth, pos, buf[..r.n], left) && r.value == Collected(key, acc, raw)
    decreases MAX_DEPTH - depth, 5, |buf|
  {
    hide GetEntry, ReadsEntry, Upsert;
    if left <= 0 {
      raw := [];
    } else {
      var first := GetEntry(o, key, e, depth, buf, pos);
      var k := first.n;
      var rest := EntriesSound(o, key, e, depth, buf[k..], pos + k, left - k, Upsert(key, acc, first.value));
      raw := [first.value] + rest;
      EntryExact(o, key, e, first.value, depth, buf, pos, k);
      var n := GetEntries(o, key, e, depth, buf, pos, left, acc).n;
      TakeDrop(buf, k, n);
      assert raw[1..] == rest;
      assert ReadsEntriesAt(o, key, e, raw, depth, pos, buf[..n], left, k);
    }
  }

  lemma {:induction false} EntriesComplete(o: Order, key: Prim, e: Ty, raw: seq<Entry>, depth: nat, buf: seq<byte>, pos: nat, n: nat, left: int, acc: seq<Entry>)
    requires depth <= MAX_DEPTH && n <= |buf| && ReadsEntries(o, key, e, raw, depth, pos, buf[..n], left)
    ensures GetEntries(o, key, e, depth, buf, pos, left, acc) == Ok(Collected(key, acc, raw), n)
    decreases MAX_DEPTH - depth, 5, |raw|
  {
    hide GetEntry, ReadsEntry, Upsert, GetEntries, ReadsEntriesAt;
    if raw == [] {
      NoEntries(o, key, e, depth, buf, pos, left, acc);
    } else {
      var k :| 0 <= k <= n && ReadsEntriesAt(o, key, e, raw, depth, pos, buf[..n], left, k);
      EntriesFirst(o, key, e, raw, depth, pos, buf[..n], left, k);
      TakeDrop(buf, k, n);
      EntryExact(o, key, e, raw[0], depth, buf, pos, k);
      EntriesComplete(o, key, e, raw[1..], depth, buf[k..], pos + k, n - k, left - k, Upsert(key, acc, raw[0]));
      EntriesStep(o, key, e, depth, buf, pos, left, acc, raw[0], k, buf[k..], pos + k);
    }
  }

  lemma NoEntries(o: Order, key: Prim, e: Ty, depth: nat, buf: seq<byte>, pos: nat, left: int, acc: seq<Entry>)
    requires depth <= MAX_DEPTH && left <= 0
    ensures GetEntries(o, key, e, depth, buf, pos, left, acc) == Ok(acc, 0)
  {}

  lemma EntriesFirst(o: Order, key: Prim, e: Ty, raw: seq<Entry>, depth: nat, pos: nat, b: seq<byte>, left: int, k: nat)
    requires depth <= MAX_DEPTH && raw != [] && k <= |b| && ReadsEntriesAt(o, key, e, raw, depth, pos, b, left, k)
    ensures ReadsEntry(o, key, e, raw[0], depth, pos, b[..k]) && ReadsEntries(o, key, e, raw[1..], depth, pos + k, b[k..], left - k)
  {
    hide ReadsEntry, ReadsEntries;
  }

  lemma {:induction false} DictExact(o: Order, key: Prim, e: Ty, v: Value, depth: nat, buf: seq<byte>, pos: nat, n: nat)
    requires depth <= MAX_DEPTH && n <= |buf|
    ensures GetDict(o, key, e, depth, buf, pos) == Ok(v, n) <==> ReadsDict(o, key, e, v, depth, pos, buf[..n])
    decreases MAX_DEPTH - depth, 0, 1
  {
    hide ReadsDictAt, GetEntries, Padding, GetUint;
    var start := 4 + Padding(pos + 4, 8);
    if depth < MAX_DEPTH - 1 && v.Map? {
      forall k | 4 <= k <= n
        ensures ReadsDictAt(o, key, e, v.entries, depth, pos, buf[..n], k) <==> k == start && GetDict(o, key, e, depth, buf, pos) == Ok(v, n)
      {
        DictAtExact(o, key, e, v.entries, depth, buf, pos, n, k);
      }
      if GetDict(o, key, e, depth, buf, pos) == Ok(v, n) {
        assert start <= n;
        assert ReadsDictAt(o, key, e, v.entries, depth, pos, buf[..n], start);
      }
    }
  }

  lemma {:induction false} DictAtExact(o: Order, key: Prim, e: Ty, es: seq<Entry>, depth: nat, buf: seq<byte>, pos: nat, n: nat, k: nat)
    requires depth < MAX_DEPTH - 1 && 4 <= k <= n <= |buf|
    ensures ReadsDictAt(o, key, e, es, depth, pos, buf[..n], k) <==>
            k == 4 + Padding(pos + 4, 8) && GetDict(o, key, e, depth, buf, pos) == Ok(Map(es), n)
    decreases MAX_DEPTH - depth, 0, 0
  {
    hide GetEntries, ReadsEntries, Skips, Padding, GetUint, Collected;
    SkipsExact(pos + 4, 8, k - 4);
    TakeDrop(buf, 4, n);
    TakeDrop(buf, k, n);
    var len := GetUint(o, buf[..4]);
    if k == 4 + Padding(pos + 4, 8) {
      if GetDict(o, key, e, depth, buf, pos) == Ok(Map(es), n) {
        assert FramedEntries(o, key, e, depth + 2, buf, pos, k, len) == Ok(Map(es), n);
        var raw := EntriesSound(o, key, e, depth + 2, buf[k..], pos + k, len, []);
      }
      forall raw | ReadsEntries(o, key, e, raw, depth + 2, pos + k, buf[..n][k..], len)
        ensures GetEntries(o, key, e, depth + 2, buf[k..], pos + k, len, []) == Ok(Collected(key, [], raw), n - k)
      {
        EntriesComplete(o, key, e, raw, depth + 2, buf[k..], pos + k, n - k, len, []);
      }
    }
  }

  // ---------------------------------------------------------------- maps read from repeated keys

  /** What a Go map holds under x. */
  function Find(key: Prim, es: seq<Entry>, x: Value): Option<Value> {
    if es == [] then None else if SameKey(key, es[0].key, x) then Some(es[0].val) else Find(key, es[1..], x)
  }

  /** The value of the last entry listed under x. */
  function FindLast(key: Prim, raw: seq<Entry>, x: Value): Option<Value> {
    if raw == [] then None
    else if FindLast(key, raw[1..], x).Some? then FindLast(key, raw[1..], x)
    else if SameKey(key, raw[0].key, x) then Some(raw[0].val) else None
  }

  lemma {:induction false} UpsertFind(key: Prim, es: seq<Entry>, e: Entry, x: Value)
    ensures Find(key, Upsert(key, es, e), x) == if SameKey(key, e.key, x) then Some(e.val) else Find(key, es, x)
  {
    if es != [] {
      UpsertFind(key, es[1..], e, x);
      var r := Upsert(key, es, e);
      assert r[1..] == if SameKey(key, es[0].key, e.key) then es[1..] else Upsert(key, es[1..], e);
    }
  }

  /** Of several entries with one key, the map holds the last. */
  lemma {:induction false} LastWins(key: Prim, acc: seq<Entry>, raw: seq<Entry>, x: Value)
    ensures Find(key, Collected(key, acc, raw), x) ==
            if FindLast(key, raw, x).Some? then FindLast(key, raw, x) else Find(key, acc, x)
    decreases raw
  {
    hide SameKey, Upsert;
    if raw != [] {
      UpsertFind(key, acc, raw[0], x);
      LastWins(key, Upsert(key, acc, raw[0]), raw[1..], x);
    }
  }
}
