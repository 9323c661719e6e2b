/** D-Bus type trees and their printed form. */
module DBusType {
  import opened ByteOrder

  const ARRAY: byte := 97        // 'a'
  const LPAREN: byte := 40       // '('
  const RPAREN: byte := 41       // ')'
  const LBRACE: byte := 123      // '{'
  const RBRACE: byte := 125      // '}'

  /** The fourteen single-character types (sig.go, `sigToType`), each named by its character. */
  predicate IsPrim(c: byte) {
    c == 121 || c == 98 || c == 110 || c == 113 || c == 105 || c == 117 || c == 120
    || c == 116 || c == 100 || c == 115 || c == 103 || c == 111 || c == 118 || c == 104
  }

  type Prim = c: byte | IsPrim(c) witness 121

  const Y: Prim := 121
  const B: Prim := 98
  const N: Prim := 110
  const Q: Prim := 113
  const I: Prim := 105
  const U: Prim := 117
  const X: Prim := 120
  const T: Prim := 116
  const D: Prim := 100
  const S: Prim := 115
  const G: Prim := 103
  const O: Prim := 111
  const V: Prim := 118
  const H: Prim := 104

  datatype Ty =
    | Leaf(prim: Prim)
    | Array(elem: Ty)
    | Dict(key: Prim, val: Ty)
    | Struct(fields: seq<Ty>)

  /** Deepest container nesting that `validSingle` tolerates. */
  const MAX_DEPTH: nat := 64

  /** The signature of a type (`getSignature`). */
  function Print(t: Ty): (s: seq<byte>)
    ensures s != []
    decreases t, 1
  {
    match t
    case Leaf(p) => [p]
    case Array(e) => [ARRAY] + Print(e)
    case Dict(k, v) => [ARRAY, LBRACE, k] + Print(v) + [RBRACE]
    case Struct(fs) => [LPAREN] + PrintAll(fs) + [RPAREN]
  }

  /** The signatures of several types, one after the other (`SignatureOf`). */
  function PrintAll(ts: seq<Ty>): seq<byte>
    decreases ts, 0
  {
    if ts == [] then [] else Print(ts[0]) + PrintAll(ts[1..])
  }

  /** Container nesting as `validSingle` counts it: every container is one level,
      dictionaries included, and an empty structure adds none. */
  function Nest(t: Ty): nat
    decreases t, 1
  {
    match t
    case Leaf(_) => 0
    case Array(e) => 1 + Nest(e)
    case Dict(_, v) => 1 + Nest(v)
    case Struct(fs) => if fs == [] then 0 else 1 + MaxNest(fs)
  }

  function MaxNest(ts: seq<Ty>): nat
    decreases ts, 0
  {
    if ts == [] then 0
    else if Nest(ts[0]) < MaxNest(ts[1..]) then MaxNest(ts[1..]) else Nest(ts[0])
  }

  /** A printed type starts with a leaf code, 'a' or '(', and so never with a closing bracket. */
  lemma PrintHead(t: Ty)
    ensures Print(t)[0] != RPAREN && Print(t)[0] != RBRACE && Print(t)[0] != LBRACE
    ensures IsPrim(Print(t)[0]) <==> t.Leaf?
    ensures Print(t)[0] == LPAREN <==> t.Struct?
    ensures Print(t)[0] == ARRAY <==> t.Array? || t.Dict?
  {}
}

/** Reading signatures: `findMatching`, `validSingle`, `ParseSignature` and `typeFor` of sig.go. */
module DBusSignature {
  import opened Common
  import opened ByteOrder
  import opened DBusType

  /** `Reject` is a SignatureError. `Crash` is the slice-bounds panic of sig.go:188, met on "a{}". */
  datatype Verdict = Accept(rem: seq<byte>) | Reject | Crash

  function Delta(c: byte, left: byte, right: byte): int {
    if c == left then 1 else if c == right then -1 else 0
  }

  /** First index at which a running bracket count that starts at n reaches zero. */
  function Scan(s: seq<byte>, left: byte, right: byte, n: int): (r: Option<nat>)
    ensures r.Some? ==> r.value < |s|
    ensures r.Some? && r.value == 0 ==> n + Delta(s[0], left, right) == 0
  {
    if s == [] then None
    else
      var n' := n + Delta(s[0], left, right);
      if n' == 0 then Some(0)
      else
        match Scan(s[1..], left, right, n')
        case None => None
        case Some(i) => Some(i + 1)
  }

  method FindMatching(s: seq<byte>, left: byte, right: byte) returns (r: int)
    ensures r == -1 <==> Scan(s, left, right, 0).None?
    ensures r != -1 ==> Scan(s, left, right, 0) == Some(r)
  {
    var n := 0;
    for i := 0 to |s|
      invariant Scan(s, left, right, 0).Some? <==> Scan(s[i..], left, right, n).Some?
      invariant Scan(s[i..], left, right, n).Some? ==>
          Scan(s, left, right, 0) == Some(Scan(s[i..], left, right, n).value + i)
    {
      if s[i] == left {
        n := n + 1;
      } else if s[i] == right {
        n := n - 1;
      }
      assert s[i..][1..] == s[i+1..];
      if n == 0 {
        return i;
      }
    }
    return -1;
  }

  /** What `validSingle` answers, as a function. */
  function Valid(s: seq<byte>, depth: nat): (r: Verdict)
    ensures r.Accept? ==> |r.rem| < |s| && r.rem == s[|s| - |r.rem|..]
    decreases |s|, 2
  {
    if s == [] || depth > MAX_DEPTH then Reject
    else if IsPrim(s[0]) then Accept(s[1..])
    else if s[0] == ARRAY then
      if |s| > 1 && s[1] == LBRACE then ValidDict(s, depth) else Valid(s[1..], depth + 1)
    else if s[0] == LPAREN then ValidStruct(s, depth)
    else Reject
  }

  function ValidDict(s: seq<byte>, depth: nat): (r: Verdict)
    requires |s| > 1 && s[0] == ARRAY && s[1] == LBRACE
    ensures r.Accept? ==> |r.rem| < |s| && r.rem == s[|s| - |r.rem|..]
    decreases |s|, 0
  {
    match Scan(s[1..], LBRACE, RBRACE, 0)
    case None => Reject
    case Some(i) =>
      if i < 2 then Crash
      else
        match Valid(s[2..3], depth + 1)
        case Reject => Reject
        case Crash => Crash
        case Accept(_) =>
          match Valid(s[3..i + 1], depth + 1)
          case Reject => Reject
          case Crash => Crash
          case Accept(nr) => if nr == [] then Accept(s[i + 2..]) else Reject
  }

  function ValidStruct(s: seq<byte>, depth: nat): (r: Verdict)
    requires s != [] && s[0] == LPAREN
    ensures r.Accept? ==> |r.rem| < |s| && r.rem == s[|s| - |r.rem|..]
    decreases |s|, 0
  {
    match Scan(s, LPAREN, RPAREN, 0)
    case None => Reject
    case Some(i) =>
      match ValidAll(s[1..i], depth + 1)
      case Accept(_) => Accept(s[i + 1..])
      case bad => bad
  }

  /** `validSingle` applied until nothing is left: the loops of sig.go:118 and sig.go:208. */
  function ValidAll(s: seq<byte>, depth: nat): (r: Verdict)
    ensures r.Accept? ==> r.rem == []
    decreases |s|, 3
  {
    if s == [] then Accept([])
    else
      match Valid(s, depth)
      case Accept(rem) => ValidAll(rem, depth)
      case bad => bad
  }

  /** `validSingle` as sig.go writes it: recursion, with a loop over the members of a structure. */
  method ValidSingle(s: seq<byte>, depth: nat) returns (r: Verdict)
    ensures r == Valid(s, depth)
    decreases |s|
  {
    if s == [] {
      return Reject;
    }
    if depth > MAX_DEPTH {
      return Reject;
    }
    if IsPrim(s[0]) {
      return Accept(s[1..]);
    }
    if s[0] == ARRAY {
      if |s| > 1 && s[1] == LBRACE {
        var i := FindMatching(s[1..], LBRACE, RBRACE);
        if i == -1 {
          return Reject;
        }
        i := i + 1;
        var rem := s[i + 1..];
        var body := s[2..i];
        if body == [] {
          return Crash;
        }
        assert body[..1] == s[2..3] && body[1..] == s[3..i];
        var key := ValidSingle(body[..1], depth + 1);
        if !key.Accept? {
          return key;
        }
        var val := ValidSingle(body[1..], depth + 1);
        if !val.Accept? {
          return val;
        }
        if val.rem != [] {
          return Reject;
        }
        return Accept(rem);
      }
      r := ValidSingle(s[1..], depth + 1);
      return;
    }
    if s[0] == LPAREN {
      var i := FindMatching(s, LPAREN, RPAREN);
      if i == -1 {
        return Reject;
      }
      var members := s[1..i];
      while members != []
        invariant |members| < |s|
        invariant ValidAll(members, depth + 1) == ValidAll(s[1..i], depth + 1)
        decreases |members|
      {
        var m := ValidSingle(members, depth + 1);
        if !m.Accept? {
          return m;
        }
        members := m.rem;
      }
      return Accept(s[i + 1..]);
    }
    return Reject;
  }

  /** `ParseSignature`: at most 255 characters, and every type in it valid. */
  function ParseVerdict(s: seq<byte>): Verdict {
    if |s| > 255 then Reject else ValidAll(s, 0)
  }

  method ParseSignature(s: seq<byte>) returns (r: Verdict)
    ensures r == ParseVerdict(s)
  {
    if |s| > 255 {
      return Reject;
    }
    var rest := s;
    while rest != []
      invariant ValidAll(rest, 0) == ValidAll(s, 0)
      decreases |rest|
    {
      var m := ValidSingle(rest, 0);
      if !m.Accept? {
        return m;
      }
      rest := m.rem;
    }
    return Accept([]);
  }

  function LastIndex(s: seq<byte>, c: byte): (r: int)
    ensures -1 <= r < |s|
    ensures r >= 0 ==> s[r] == c
    ensures forall j :: r < j < |s| ==> s[j] != c
  {
    if s == [] then -1
    else if s[|s| - 1] == c then |s| - 1
    else LastIndex(s[..|s| - 1], c)
  }

  /** `typeFor`: the type a string starts with. The source erases the members of a
      structure to `[]interface{}`; here they are kept, since variants carry their type. */
  function TypeFor(s: seq<byte>): Option<Ty>
    decreases |s|, 1
  {
    if !Valid(s, 0).Accept? then None
    else if IsPrim(s[0]) then Some(Leaf(s[0]))
    else if s[0] == ARRAY then
      if |s| > 1 && s[1] == LBRACE then DictFor(s)
      else
        match TypeFor(s[1..])
        case None => None
        case Some(e) => Some(Array(e))
    else StructFor(s)
  }

  function StructFor(s: seq<byte>): Option<Ty>
    requires s != []
    decreases |s|, 0
  {
    var i := Scan(s, LPAREN, RPAREN, 0);
    if i.None? || i.value == 0 then None
    else
      match TypesFor(s[1..i.value])
      case None => None
      case Some(fs) => Some(Struct(fs))
  }

  function DictFor(s: seq<byte>): Option<Ty>
    requires |s| > 1
    decreases |s|, 0
  {
    var i := LastIndex(s, RBRACE);
    if i < 3 || !IsPrim(s[2]) then None
    else
      match TypeFor(s[3..i])
      case None => None
      case Some(v) => Some(Dict(s[2], v))
  }

  function TypesFor(s: seq<byte>): Option<seq<Ty>>
    decreases |s|, 2
  {
    if s == [] then Some([])
    else
      match Valid(s, 0)
      case Accept(rem) =>
        (match (TypeFor(s[..|s| - |rem|]), TypesFor(rem))
         case (Some(t), Some(ts)) => Some([t] + ts)
         case _ => None)
      case _ => None
  }

  // ---------------------------------------------------------------- bracket matching

  predicate Brackets(left: byte, right: byte) {
    (left == LPAREN && right == RPAREN) || (left == LBRACE && right == RBRACE)
  }

  function Shifted(r: Option<nat>, k: nat): Option<nat> {
    match r case None => None case Some(i) => Some(i + k)
  }

  /** Inside open brackets, w neither closes them nor changes the count. */
  ghost predicate Neutral(w: seq<byte>, left: byte, right: byte) {
    forall n: int, rest: seq<byte> | n >= 1 ::
      Scan(w + rest, left, right, n) == Shifted(Scan(rest, left, right, n), |w|)
  }

  lemma ScanStep(c: byte, rest: seq<byte>, left: byte, right: byte, n: int)
    requires n + Delta(c, left, right) != 0
    ensures Scan([c] + rest, left, right, n) == Shifted(Scan(rest, left, right, n + Delta(c, left, right)), 1)
  {
    assert ([c] + rest)[1..] == rest;
  }

  lemma NeutralChar(c: byte, left: byte, right: byte)
    requires c != left && c != right
    ensures Neutral([c], left, right)
  {
    forall n: int, rest: seq<byte> | n >= 1
      ensures Scan([c] + rest, left, right, n) == Shifted(Scan(rest, left, right, n), 1)
    {
      ScanStep(c, rest, left, right, n);
    }
  }

  lemma NeutralConcat(a: seq<byte>, b: seq<byte>, left: byte, right: byte)
    requires Neutral(a, left, right) && Neutral(b, left, right)
    ensures Neutral(a + b, left, right)
  {
    forall n: int, rest: seq<byte> | n >= 1
      ensures Scan((a + b) + rest, left, right, n) == Shifted(Scan(rest, left, right, n), |a + b|)
    {
      Assoc(a, b, rest);
    }
  }

  lemma NeutralAt(w: seq<byte>, left: byte, right: byte, n: int, rest: seq<byte>)
    requires Neutral(w, left, right) && n >= 1
    ensures Scan(w + rest, left, right, n) == Shifted(Scan(rest, left, right, n), |w|)
  {}

  lemma ScanBracketed(w: seq<byte>, left: byte, right: byte, n: int, rest: seq<byte>)
    requires Neutral(w, left, right) && left != right && n >= 1
    ensures Scan([left] + (w + ([right] + rest)), left, right, n) == Shifted(Scan(rest, left, right, n), |w| + 2)
  {
    hide Scan, Neutral;
    ScanStep(left, w + ([right] + rest), left, right, n);
    NeutralAt(w, left, right, n + 1, [right] + rest);
    ScanStep(right, rest, left, right, n + 1);
  }

  lemma NeutralBracketed(w: seq<byte>, left: byte, right: byte)
    requires Neutral(w, left, right) && left != right
    ensures Neutral([left] + w + [right], left, right)
  {
    forall n: int, rest: seq<byte> | n >= 1
      ensures Scan([left] + w + [right] + rest, left, right, n) == Shifted(Scan(rest, left, right, n), |w| + 2)
    {
      ScanBracketed(w, left, right, n, rest);
      Assoc([left] + w, [right], rest);
      Assoc([left], w, [right] + rest);
    }
  }

  /** Every printed type is neutral for both kinds of bracket. */
  lemma {:induction false} PrintNeutral(t: Ty, left: byte, right: byte)
    requires Brackets(left, right)
    ensures Neutral(Print(t), left, right)
    decreases t, 1
  {
    match t
    case Leaf(p) =>
      NeutralChar(p, left, right);
    case Array(e) =>
      NeutralChar(ARRAY, left, right);
      PrintNeutral(e, left, right);
      NeutralConcat([ARRAY], Print(e), left, right);
    case Dict(k, v) =>
      PrintNeutral(v, left, right);
      DictNeutral(k, v, left, right);
    case Struct(fs) =>
      PrintAllNeutral(fs, left, right);
      if left == LPAREN {
        NeutralBracketed(PrintAll(fs), left, right);
      } else {
        NeutralChar(LPAREN, left, right);
        NeutralChar(RPAREN, left, right);
        NeutralConcat([LPAREN], PrintAll(fs), left, right);
        NeutralConcat([LPAREN] + PrintAll(fs), [RPAREN], left, right);
      }
  }

  lemma DictNeutral(k: Prim, v: Ty, left: byte, right: byte)
    requires Brackets(left, right) && Neutral(Print(v), left, right)
    ensures Neutral(Print(Dict(k, v)), left, right)
  {
    var w := [k] + Print(v);
    var inner := [LBRACE] + w + [RBRACE];
    assert IsPrim(k);
    NeutralChar(k, left, right);
    NeutralConcat([k], Print(v), left, right);
    if left == LBRACE {
      NeutralBracketed(w, left, right);
    } else {
      NeutralChar(LBRACE, left, right);
      NeutralChar(RBRACE, left, right);
      NeutralConcat([LBRACE], w, left, right);
      NeutralConcat([LBRACE] + w, [RBRACE], left, right);
    }
    NeutralChar(ARRAY, left, right);
    NeutralConcat([ARRAY], inner, left, right);
    assert Print(Dict(k, v)) == [ARRAY] + inner;
  }

  lemma {:induction false} PrintAllNeutral(ts: seq<Ty>, left: byte, right: byte)
    requires Brackets(left, right)
    ensures Neutral(PrintAll(ts), left, right)
    decreases ts, 0
  {
    if ts == [] {
      assert forall rest: seq<byte> :: [] + rest == rest;
    } else {
      PrintNeutral(ts[0], left, right);
      PrintAllNeutral(ts[1..], left, right);
      NeutralConcat(Print(ts[0]), PrintAll(ts[1..]), left, right);
    }
  }

  lemma MatchClose(w: seq<byte>, left: byte, right: byte, r: seq<byte>)
    requires left != right && Neutral(w, left, right)
    ensures Scan([left] + (w + ([right] + r)), left, right, 0) == Some(|w| + 1)
  {
    ScanStep(left, w + ([right] + r), left, right, 0);
  }

  /** `findMatching` finds the true closing bracket of a structure. */
  lemma MatchParen(fs: seq<Ty>, r: seq<byte>)
    ensures Scan(Print(Struct(fs)) + r, LPAREN, RPAREN, 0) == Some(|PrintAll(fs)| + 1)
  {
    PrintAllNeutral(fs, LPAREN, RPAREN);
    MatchClose(PrintAll(fs), LPAREN, RPAREN, r);
    Assoc([LPAREN] + PrintAll(fs), [RPAREN], r);
    Assoc([LPAREN], PrintAll(fs), [RPAREN] + r);
  }

  /** ... and of a dictionary, counting from the opening brace. */
  lemma MatchBrace(k: Prim, v: Ty, r: seq<byte>)
    ensures Scan((Print(Dict(k, v)) + r)[1..], LBRACE, RBRACE, 0) == Some(|Print(v)| + 2)
  {
    DictBodyNeutral(k, v, LBRACE, RBRACE);
    MatchClose([k] + Print(v), LBRACE, RBRACE, r);
    DictTailForm(k, Print(v), r);
  }

  lemma DictTailForm(k: byte, w: seq<byte>, r: seq<byte>)
    ensures ([ARRAY, LBRACE, k] + w + [RBRACE] + r)[1..] == [LBRACE] + (([k] + w) + ([RBRACE] + r))
  {}

  lemma DictBodyNeutral(k: Prim, v: Ty, left: byte, right: byte)
    requires Brackets(left, right)
    ensures Neutral([k] + Print(v), left, right)
  {
    assert IsPrim(k);
    PrintNeutral(v, left, right);
    NeutralChar(k, left, right);
    NeutralConcat([k], Print(v), left, right);
  }

  /** The character `findMatching` stops at is a closing bracket. */
  lemma {:induction false} ScanHit(s: seq<byte>, left: byte, right: byte, n: int)
    requires Scan(s, left, right, n).Some? && n >= 1
    ensures s[Scan(s, left, right, n).value] == right
  {
    if n + Delta(s[0], left, right) != 0 {
      ScanHit(s[1..], left, right, n + Delta(s[0], left, right));
    }
  }

  lemma ScanClose(s: seq<byte>, left: byte, right: byte)
    requires s != [] && s[0] == left != right && Scan(s, left, right, 0).Some?
    ensures var i := Scan(s, left, right, 0).value; i >= 1 && s[i] == right
  {
    ScanHit(s[1..], left, right, 1);
  }

  // ---------------------------------------------------------------- completeness

  lemma ValidDictForm(k: Prim, v: Ty, r: seq<byte>, depth: nat)
    requires depth <= MAX_DEPTH
    ensures ValidDict(Print(Dict(k, v)) + r, depth) ==
            if depth == MAX_DEPTH then Reject
            else match Valid(Print(v) + [], depth + 1)
                 case Accept(nr) => if nr == [] then Accept(r) else Reject
                 case bad => bad
  {
    hide Scan;
    var s := Print(Dict(k, v)) + r;
    MatchBrace(k, v, r);
    var i := |Print(v)| + 2;
    assert s[2..3] == [k];
    assert s[3..i + 1] == Print(v) + [];
    assert s[i + 2..] == r;
  }

  lemma ValidArrayForm(e: Ty, r: seq<byte>, depth: nat)
    requires depth <= MAX_DEPTH
    ensures Valid(Print(Array(e)) + r, depth) == Valid(Print(e) + r, depth + 1)
  {
    PrintHead(e);
    ArrayTail(e, r);
  }

  lemma ValidStructForm(fs: seq<Ty>, r: seq<byte>, depth: nat)
    requires depth <= MAX_DEPTH
    ensures Valid(Print(Struct(fs)) + r, depth) ==
            match ValidAll(PrintAll(fs), depth + 1)
            case Accept(_) => Accept(r)
            case bad => bad
  {
    hide ValidAll, Scan;
    var s := Print(Struct(fs)) + r;
    MatchParen(fs, r);
    var i := |PrintAll(fs)| + 1;
    assert s[1..i] == PrintAll(fs);
    assert s[i + 1..] == r;
  }

  /** Completeness, with its exact limit: a printed type followed by anything is read back
      with exactly that remainder if it nests at most 64 deep, and is rejected otherwise. */
  lemma {:induction false} ValidPrint(t: Ty, r: seq<byte>, depth: nat)
    ensures Valid(Print(t) + r, depth) == if depth + Nest(t) <= MAX_DEPTH then Accept(r) else Reject
    decreases t, 1
  {
    hide Valid, ValidAll, ValidDict, ValidStruct, Print, Scan;
    if depth > MAX_DEPTH {
      ValidTooDeep(Print(t) + r, depth);
    } else {
      match t
      case Leaf(p) =>
        ValidLeaf(p, r, depth);
      case Array(e) =>
        ValidPrint(e, r, depth + 1);
        ValidArrayForm(e, r, depth);
      case Dict(k, v) =>
        ValidPrint(v, [], depth + 1);
        ValidPrintDict(k, v, r, depth);
      case Struct(fs) =>
        ValidPrintAll(fs, depth + 1);
        ValidStructForm(fs, r, depth);
    }
  }

  lemma ValidTooDeep(s: seq<byte>, depth: nat)
    requires depth > MAX_DEPTH
    ensures Valid(s, depth) == Reject
  {}

  lemma ValidLeaf(p: Prim, r: seq<byte>, depth: nat)
    requires depth <= MAX_DEPTH
    ensures Valid(Print(Leaf(p)) + r, depth) == Accept(r)
  {
    Cut([p], r);
  }

  lemma ValidPrintDict(k: Prim, v: Ty, r: seq<byte>, depth: nat)
    requires depth <= MAX_DEPTH
    requires Valid(Print(v) + [], depth + 1) == if depth + 1 + Nest(v) <= MAX_DEPTH then Accept([]) else Reject
    ensures Valid(Print(Dict(k, v)) + r, depth) == if depth + Nest(Dict(k, v)) <= MAX_DEPTH then Accept(r) else Reject
  {
    hide ValidDict, ValidStruct, Scan;
    ValidDictForm(k, v, r, depth);
  }

  lemma {:induction false} ValidPrintAll(ts: seq<Ty>, depth: nat)
    ensures ValidAll(PrintAll(ts), depth) ==
            if ts == [] || depth + MaxNest(ts) <= MAX_DEPTH then Accept([]) else Reject
    decreases ts, 0
  {
    if ts != [] {
      ValidPrint(ts[0], PrintAll(ts[1..]), depth);
      ValidPrintAll(ts[1..], depth);
    }
  }

  // ---------------------------------------------------------------- soundness and unique reading

  /** Soundness: whatever `validSingle` accepts is a printed type within the depth limit,
      followed by the remainder. The witness is the type. */
  lemma {:induction false} ValidSound(s: seq<byte>, depth: nat) returns (t: Ty)
    requires Valid(s, depth).Accept?
    ensures s == Print(t) + Valid(s, depth).rem
    ensures depth + Nest(t) <= MAX_DEPTH
    decreases |s|, 0
  {
    hide ValidDict, ValidStruct, ValidAll, Scan;
    if IsPrim(s[0]) {
      t := Leaf(s[0]);
      assert s == [s[0]] + s[1..];
    } else if s[0] == ARRAY {
      if |s| > 1 && s[1] == LBRACE {
        var i := DictShape(s, depth);
        var v := ValidSound(s[3..i + 1], depth + 1);
        t := Dict(s[2], v);
        assert s[3..i + 1] == Print(v);
      } else {
        var e := ValidSound(s[1..], depth + 1);
        t := Array(e);
        assert s == [s[0]] + s[1..];
      }
    } else {
      var i := StructShape(s, depth);
      var fs := ValidAllSound(s[1..i], depth + 1);
      t := Struct(fs);
    }
  }

  lemma DictShape(s: seq<byte>, depth: nat) returns (i: nat)
    requires Valid(s, depth).Accept? && |s| > 1 && s[0] == ARRAY && s[1] == LBRACE
    ensures 2 <= i && i + 2 <= |s| && IsPrim(s[2]) && depth < MAX_DEPTH
    ensures Valid(s[3..i + 1], depth + 1) == Accept([])
    ensures Valid(s, depth).rem == s[i + 2..]
    ensures s == [ARRAY, LBRACE, s[2]] + s[3..i + 1] + [RBRACE] + s[i + 2..]
  {
    hide Scan;
    i := Scan(s[1..], LBRACE, RBRACE, 0).value;
    ScanClose(s[1..], LBRACE, RBRACE);
    assert s[i + 1] == RBRACE;
    SingleChar(s[2..3], depth + 1);
  }

  /** One character on its own is valid only as a leaf type. */
  lemma SingleChar(s: seq<byte>, depth: nat)
    requires |s| == 1 && Valid(s, depth).Accept?
    ensures IsPrim(s[0]) && depth <= MAX_DEPTH
  {
    if s[0] == LPAREN {
      assert s[1..] == [];
    }
  }

  lemma StructShape(s: seq<byte>, depth: nat) returns (i: nat)
    requires Valid(s, depth).Accept? && !IsPrim(s[0]) && s[0] != ARRAY
    ensures 1 <= i < |s| && depth <= MAX_DEPTH
    ensures ValidAll(s[1..i], depth + 1).Accept?
    ensures Valid(s, depth).rem == s[i + 1..]
    ensures s == [LPAREN] + s[1..i] + [RPAREN] + s[i + 1..]
  {
    hide ValidAll, Scan;
    i := Scan(s, LPAREN, RPAREN, 0).value;
    ScanClose(s, LPAREN, RPAREN);
    SplitAround(s, i);
  }

  lemma SplitAround(s: seq<byte>, i: nat)
    requires 1 <= i < |s|
    ensures s == [s[0]] + s[1..i] + [s[i]] + s[i + 1..]
  {}

  lemma {:induction false} ValidAllSound(s: seq<byte>, depth: nat) returns (ts: seq<Ty>)
    requires ValidAll(s, depth).Accept?
    ensures s == PrintAll(ts)
    ensures ts != [] ==> depth + MaxNest(ts) <= MAX_DEPTH
    decreases |s|, 1
  {
    if s == [] {
      ts := [];
    } else {
      var t := ValidSound(s, depth);
      var rest := ValidAllSound(Valid(s, depth).rem, depth);
      ts := [t] + rest;
      assert ts[0] == t && ts[1..] == rest;
    }
  }

  /** Unique reading: no printed type is a proper prefix of another, whatever follows. */
  lemma {:induction false} PrintPrefixFree(t: Ty, t': Ty, r: seq<byte>, r': seq<byte>)
    requires Print(t) + r == Print(t') + r'
    ensures t == t' && r == r'
    decreases t, 1
  {
    SameShape(t, t', r, r');
    match t
    case Leaf(p) =>
      Cut([p], r);
      Cut([p], r');
    case Array(e) =>
      ArrayTail(e, r);
      ArrayTail(t'.elem, r');
      PrintPrefixFree(e, t'.elem, r, r');
    case Dict(k, v) =>
      DictTails(k, v, r);
      DictTails(k, t'.val, r');
      PrintPrefixFree(v, t'.val, [RBRACE] + r, [RBRACE] + r');
      Cut([RBRACE], r);
      Cut([RBRACE], r');
    case Struct(fs) =>
      StructTail(fs, r);
      StructTail(t'.fields, r');
      PrintAllPrefixFree(fs, t'.fields, r, r');
  }

  lemma ArrayTail(e: Ty, r: seq<byte>)
    ensures (Print(Array(e)) + r)[1..] == Print(e) + r
  {
    Assoc([ARRAY], Print(e), r);
    Cut([ARRAY], Print(e) + r);
  }

  lemma DictTails(k: Prim, v: Ty, r: seq<byte>)
    ensures (Print(Dict(k, v)) + r)[3..] == Print(v) + ([RBRACE] + r)
  {
    Assoc([ARRAY, LBRACE, k] + Print(v), [RBRACE], r);
    Assoc([ARRAY, LBRACE, k], Print(v), [RBRACE] + r);
    Cut([ARRAY, LBRACE, k], Print(v) + ([RBRACE] + r));
  }

  lemma StructTail(fs: seq<Ty>, r: seq<byte>)
    ensures (Print(Struct(fs)) + r)[1..] == PrintAll(fs) + ([RPAREN] + r)
  {
    Assoc([LPAREN] + PrintAll(fs), [RPAREN], r);
    Assoc([LPAREN], PrintAll(fs), [RPAREN] + r);
    Cut([LPAREN], PrintAll(fs) + ([RPAREN] + r));
  }

  lemma SameShape(t: Ty, t': Ty, r: seq<byte>, r': seq<byte>)
    requires Print(t) + r == Print(t') + r'
    ensures t.Leaf? ==> t'.Leaf? && t'.prim == t.prim
    ensures t.Array? ==> t'.Array?
    ensures t.Dict? ==> t'.Dict? && t'.key == t.key
    ensures t.Struct? ==> t'.Struct?
  {
    var s := Print(t) + r;
    PrintHead(t);
    PrintHead(t');
    assert s[0] == Print(t)[0] == Print(t')[0];
    if t.Array? { PrintHead(t.elem); assert s[1] == Print(t.elem)[0]; }
    if t'.Array? { PrintHead(t'.elem); assert s[1] == Print(t'.elem)[0]; }
    if t.Dict? && t'.Dict? { assert s[2] == t.key && s[2] == t'.key; }
  }

  lemma PrintAllHead(ts: seq<Ty>, r: seq<byte>)
    ensures ts == [] <==> (PrintAll(ts) + ([RPAREN] + r))[0] == RPAREN
  {
    if ts != [] {
      PrintHead(ts[0]);
      assert (PrintAll(ts) + ([RPAREN] + r))[0] == Print(ts[0])[0];
    }
  }

  lemma {:induction false} PrintAllPrefixFree(ts: seq<Ty>, ts': seq<Ty>, r: seq<byte>, r': seq<byte>)
    requires PrintAll(ts) + ([RPAREN] + r) == PrintAll(ts') + ([RPAREN] + r')
    ensures ts == ts' && r == r'
    decreases ts, 0
  {
    hide *;
    PrintAllHead(ts, r);
    PrintAllHead(ts', r');
    if ts == [] {
      PrintNone(r);
      PrintNone(r');
    } else {
      PrintCons(ts, [RPAREN] + r);
      PrintCons(ts', [RPAREN] + r');
      PrintPrefixFree(ts[0], ts'[0], PrintAll(ts[1..]) + ([RPAREN] + r), PrintAll(ts'[1..]) + ([RPAREN] + r'));
      PrintAllPrefixFree(ts[1..], ts'[1..], r, r');
      assert ts == [ts[0]] + ts[1..] && ts' == [ts'[0]] + ts'[1..];
    }
  }

  lemma PrintNone(r: seq<byte>)
    ensures (PrintAll([]) + ([RPAREN] + r))[1..] == r
  {}

  lemma PrintCons(ts: seq<Ty>, r: seq<byte>)
    requires ts != []
    ensures PrintAll(ts) + r == Print(ts[0]) + (PrintAll(ts[1..]) + r)
  {
    Assoc(Print(ts[0]), PrintAll(ts[1..]), r);
  }

  /** `validSingle` decides exactly the grammar: it accepts with remainder r just when the string is
      some printed type, nested at most 64 deep, followed by r. */
  lemma ValidSingleExact(s: seq<byte>, r: seq<byte>)
    ensures Valid(s, 0) == Accept(r) <==> exists t :: s == Print(t) + r && Nest(t) <= MAX_DEPTH
    ensures forall t, t' | s == Print(t) + r && s == Print(t') + r :: t == t'
  {
    if Valid(s, 0) == Accept(r) {
      var t := ValidSound(s, 0);
      assert s == Print(t) + r && Nest(t) <= MAX_DEPTH;
    }
    if t :| s == Print(t) + r && Nest(t) <= MAX_DEPTH {
      ValidPrint(t, r, 0);
    }
    forall t, t' | s == Print(t) + r && s == Print(t') + r ensures t == t' {
      PrintPrefixFree(t, t', r, r);
    }
  }

  /** `ParseSignature` accepts exactly the printed type lists of at most 255 characters. */
  lemma ParseSignatureExact(s: seq<byte>)
    ensures ParseVerdict(s) == Accept([]) <==>
            |s| <= 255 && exists ts :: s == PrintAll(ts) && (ts == [] || MaxNest(ts) <= MAX_DEPTH)
  {
    if ParseVerdict(s) == Accept([]) {
      var ts := ValidAllSound(s, 0);
    }
    if ts :| s == PrintAll(ts) && (ts == [] || MaxNest(ts) <= MAX_DEPTH) {
      ValidPrintAll(ts, 0);
    }
  }

  // ---------------------------------------------------------------- typeFor

  /** `typeFor` returns the type the string starts with and ignores what follows it. */
  lemma {:induction false} TypeForPrint(t: Ty, r: seq<byte>)
    requires Nest(t) <= MAX_DEPTH
    ensures TypeFor(Print(t) + r) == Some(t)
    decreases t, 1
  {
    hide Valid, Print, Scan, TypeFor, TypesFor, DictFor, StructFor;
    ValidPrint(t, r, 0);
    match t
    case Leaf(p) =>
      TypeForLeaf(p, r);
    case Array(e) =>
      TypeForPrint(e, r);
      TypeForArray(e, r);
    case Dict(k, v) =>
      var junk := DictTail(k, v, r);
      TypeForPrint(v, junk);
      TypeForDict(k, v, r, junk);
    case Struct(fs) =>
      TypesForPrint(fs);
      TypeForStruct(fs, r);
  }

  lemma TypeForLeaf(p: Prim, r: seq<byte>)
    requires Valid(Print(Leaf(p)) + r, 0).Accept?
    ensures TypeFor(Print(Leaf(p)) + r) == Some(Leaf(p))
  {}

  lemma TypeForArray(e: Ty, r: seq<byte>)
    requires Valid(Print(Array(e)) + r, 0).Accept? && TypeFor(Print(e) + r) == Some(e)
    ensures TypeFor(Print(Array(e)) + r) == Some(Array(e))
  {
    PrintHead(e);
    ArrayTail(e, r);
  }

  lemma TypeForDict(k: Prim, v: Ty, r: seq<byte>, junk: seq<byte>)
    requires var s := Print(Dict(k, v)) + r; var i := LastIndex(s, RBRACE);
             i >= 3 && s[3..i] == Print(v) + junk
    requires Valid(Print(Dict(k, v)) + r, 0).Accept? && TypeFor(Print(v) + junk) == Some(v)
    ensures TypeFor(Print(Dict(k, v)) + r) == Some(Dict(k, v))
  {
    hide Valid, LastIndex;
    assert IsPrim(k);
  }

  lemma TypeForStruct(fs: seq<Ty>, r: seq<byte>)
    requires Valid(Print(Struct(fs)) + r, 0).Accept? && TypesFor(PrintAll(fs)) == Some(fs)
    ensures TypeFor(Print(Struct(fs)) + r) == Some(Struct(fs))
  {
    hide Valid, TypesFor, Scan, PrintAll;
    PrintHead(Struct(fs));
    MatchParen(fs, r);
    assert (Print(Struct(fs)) + r)[1..|PrintAll(fs)| + 1] == PrintAll(fs);
  }

  /** `typeFor` cuts a dictionary at the last '}', perhaps past its own; only junk is added. */
  lemma DictTail(k: Prim, v: Ty, r: seq<byte>) returns (junk: seq<byte>)
    ensures var s := Print(Dict(k, v)) + r; var i := LastIndex(s, RBRACE);
            i >= 3 && s[3..i] == Print(v) + junk
  {
    var s := Print(Dict(k, v)) + r;
    var i := LastIndex(s, RBRACE);
    junk := DictJunk([ARRAY, LBRACE, k], Print(v), r, i);
  }

  lemma DictJunk(head: seq<byte>, w: seq<byte>, r: seq<byte>, i: int) returns (junk: seq<byte>)
    requires |head| == 3 && i == LastIndex(head + w + [RBRACE] + r, RBRACE)
    ensures var s := head + w + [RBRACE] + r; i >= 3 && s[3..i] == w + junk
  {
    var s := head + w + [RBRACE] + r;
    assert s[|w| + 3] == RBRACE;
    junk := s[|w| + 3..i];
  }

  lemma {:induction false} TypesForPrint(ts: seq<Ty>)
    requires ts == [] || MaxNest(ts) <= MAX_DEPTH
    ensures TypesFor(PrintAll(ts)) == Some(ts)
    decreases ts, 0
  {
    hide Valid, TypeFor, Scan, DictFor, StructFor;
    if ts != [] {
      var s := PrintAll(ts);
      var rem := PrintAll(ts[1..]);
      ValidPrint(ts[0], rem, 0);
      assert s[..|s| - |rem|] == Print(ts[0]) + [];
      TypeForPrint(ts[0], []);
      TypesForPrint(ts[1..]);
      assert ts == [ts[0]] + ts[1..];
    }
  }
}
