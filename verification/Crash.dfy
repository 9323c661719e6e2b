/** Exactly which strings make the signature reader slice an empty string (sig.go:188) and panic. */
module DBusSignatureCrash {
  import opened Common
  import opened ByteOrder
  import opened DBusType
  import opened DBusSignature

  /** w is one type, nested within the limit at that depth. */
  ghost predicate IsType(w: seq<byte>, depth: nat) { exists t :: w == Print(t) && depth + Nest(t) <= MAX_DEPTH }

  /** In reading order, an empty dictionary is the first thing wrong: at the front, below arrays, as the
      value of a dictionary with a key, or in a closed structure behind members that are types. */
  ghost predicate CrashForm(s: seq<byte>, depth: nat)
    decreases |s|, 0
  {
    && s != [] && depth <= MAX_DEPTH
    && if s[0] == ARRAY && |s| > 1 && s[1] == LBRACE then
         match Scan(s[1..], LBRACE, RBRACE, 0)
         case None => false
         case Some(i) => i < 2 || (IsPrim(s[2]) && depth < MAX_DEPTH && CrashForm(s[3..i + 1], depth + 1))
       else if s[0] == ARRAY then CrashForm(s[1..], depth + 1)
       else
         s[0] == LPAREN &&
         match Scan(s, LPAREN, RPAREN, 0)
         case None => false
         case Some(i) => ListCrash(s[1..i], depth + 1)
  }

  /** Some types, and then a string that crashes. */
  ghost predicate ListCrash(s: seq<byte>, depth: nat)
    decreases |s|, 1
  {
    CrashForm(s, depth) || exists n | 0 < n <= |s| :: IsType(s[..n], depth) && ListCrash(s[n..], depth)
  }

  lemma KeyAlone(s: seq<byte>, depth: nat)
    requires |s| == 1
    ensures Valid(s, depth) == if IsPrim(s[0]) && depth <= MAX_DEPTH then Accept([]) else Reject
  {
    if s[0] == LPAREN {
      assert s[1..] == [];
      assert Scan(s[1..], LPAREN, RPAREN, 1) == None;
    } else if s[0] == ARRAY {
      assert s[1..] == [];
    }
  }

  /** The reader panics exactly on these strings. */
  lemma {:induction false} CrashExact(s: seq<byte>, depth: nat)
    ensures Valid(s, depth) == Crash <==> CrashForm(s, depth)
    decreases |s|, 1
  {
    if s == [] || depth > MAX_DEPTH || IsPrim(s[0]) {
    } else if s[0] == ARRAY && |s| > 1 && s[1] == LBRACE {
      DictCrashExact(s, depth);
    } else if s[0] == ARRAY {
      CrashExact(s[1..], depth + 1);
    } else if s[0] == LPAREN {
      var i := Scan(s, LPAREN, RPAREN, 0);
      if i.Some? {
        ListCrashExact(s[1..i.value], depth + 1);
      }
    }
  }

  lemma {:induction false} DictCrashExact(s: seq<byte>, depth: nat)
    requires |s| > 1 && s[0] == ARRAY && s[1] == LBRACE && depth <= MAX_DEPTH
    ensures ValidDict(s, depth) == Crash <==> CrashForm(s, depth)
    decreases |s|, 0
  {
    var r := Scan(s[1..], LBRACE, RBRACE, 0);
    if r.Some? && r.value >= 2 {
      var i := r.value;
      KeyAlone(s[2..3], depth + 1);
      CrashExact(s[3..i + 1], depth + 1);
      hide Valid, CrashForm, Scan;
    }
  }

  lemma NothingCrashes(depth: nat)
    ensures !ListCrash([], depth)
  {}

  lemma {:induction false} ListCrashExact(s: seq<byte>, depth: nat)
    ensures ValidAll(s, depth) == Crash <==> ListCrash(s, depth)
    decreases |s|, 2
  {
    hide CrashForm, Valid, IsType;
    if s == [] {
      NothingCrashes(depth);
      return;
    }
    CrashExact(s, depth);
    if Valid(s, depth).Accept? {
      var rem := Valid(s, depth).rem;
      AcceptedIsType(s, depth);
      ListCrashExact(rem, depth);
    }
    forall n | 0 < n <= |s| && IsType(s[..n], depth) && ListCrash(s[n..], depth) ensures ValidAll(s, depth) == Crash {
      TypeIsAccepted(s, n, depth);
      ListCrashExact(s[n..], depth);
    }
  }

  lemma AcceptedIsType(s: seq<byte>, depth: nat)
    requires Valid(s, depth).Accept?
    ensures var n := |s| - |Valid(s, depth).rem|; 0 < n <= |s| && IsType(s[..n], depth) && s[n..] == Valid(s, depth).rem
  {
    var t := ValidSound(s, depth);
    hide Valid;
    Cut(Print(t), Valid(s, depth).rem);
  }

  lemma TypeIsAccepted(s: seq<byte>, n: nat, depth: nat)
    requires 0 < n <= |s| && IsType(s[..n], depth)
    ensures Valid(s, depth) == Accept(s[n..])
  {
    var t :| s[..n] == Print(t) && depth + Nest(t) <= MAX_DEPTH;
    hide Valid;
    assert s == Print(t) + s[n..];
    ValidPrint(t, s[n..], depth);
  }

  /** `ParseSignature` panics exactly on these. */
  lemma ParseCrashExact(s: seq<byte>)
    ensures ParseVerdict(s) == Crash <==> |s| <= 255 && ListCrash(s, 0)
  {
    hide ListCrash, ValidAll;
    ListCrashExact(s, 0);
  }

  // ---------------------------------------------------------------- a test that a caller can make

  const EMPTY_DICT: seq<byte> := [ARRAY, LBRACE, RBRACE]

  predicate EmptyDictAt(s: seq<byte>, i: nat) { i + 3 <= |s| && s[i] == ARRAY && s[i + 1] == LBRACE && s[i + 2] == RBRACE }

  predicate Contains(s: seq<byte>) { exists i | 0 <= i < |s| :: EmptyDictAt(s, i) }

  lemma ContainsSlice(s: seq<byte>, a: nat, b: nat)
    requires a <= b <= |s| && Contains(s[a..b])
    ensures Contains(s)
  {
    var i :| 0 <= i < |s[a..b]| && EmptyDictAt(s[a..b], i);
    assert EmptyDictAt(s, a + i);
  }

  lemma ContainsTail(s: seq<byte>, a: nat)
    requires a <= |s| && Contains(s[a..])
    ensures Contains(s)
  {
    assert s[a..|s|] == s[a..];
    ContainsSlice(s, a, |s|);
  }

  /** A string without "a{}" never makes the reader panic. */
  lemma {:induction false} CrashContains(s: seq<byte>, depth: nat)
    requires CrashForm(s, depth)
    ensures Contains(s)
    decreases |s|, 0
  {
    hide Contains, Scan;
    if s[0] == ARRAY && |s| > 1 && s[1] == LBRACE {
      var i := Scan(s[1..], LBRACE, RBRACE, 0).value;
      if i < 2 {
        ClosesAtOnce(s);
      } else {
        CrashContains(s[3..i + 1], depth + 1);
        ContainsSlice(s, 3, i + 1);
      }
    } else if s[0] == ARRAY {
      CrashContains(s[1..], depth + 1);
      ContainsTail(s, 1);
    } else {
      var i := Scan(s, LPAREN, RPAREN, 0).value;
      ListContains(s[1..i], depth + 1);
      ContainsSlice(s, 1, i);
    }
  }

  lemma ClosesAtOnce(s: seq<byte>)
    requires |s| > 1 && s[0] == ARRAY && s[1] == LBRACE
    requires Scan(s[1..], LBRACE, RBRACE, 0).Some? && Scan(s[1..], LBRACE, RBRACE, 0).value < 2
    ensures Contains(s)
  {
    var t := s[1..];
    assert t[0] == LBRACE;
    assert Scan(t, LBRACE, RBRACE, 0).value == 1;
    assert Scan(t[1..], LBRACE, RBRACE, 1) == Some(0);
    assert t[1..][0] == RBRACE && s[2] == RBRACE;
    assert EmptyDictAt(s, 0);
  }

  lemma {:induction false} ListContains(s: seq<byte>, depth: nat)
    requires ListCrash(s, depth)
    ensures Contains(s)
    decreases |s|, 1
  {
    hide CrashForm, Contains, IsType;
    if CrashForm(s, depth) {
      CrashContains(s, depth);
    } else {
      var n :| 0 < n <= |s| && IsType(s[..n], depth) && ListCrash(s[n..], depth);
      ListContains(s[n..], depth);
      ContainsTail(s, n);
    }
  }

  lemma SafeWithoutEmptyDict(s: seq<byte>, depth: nat)
    requires !Contains(s)
    ensures Valid(s, depth) != Crash && ParseVerdict(s) != Crash
  {
    hide Contains, CrashForm, ListCrash, Valid, ParseVerdict;
    CrashExact(s, depth);
    ParseCrashExact(s);
    if CrashForm(s, depth) {
      CrashContains(s, depth);
    }
    if ListCrash(s, 0) {
      ListContains(s, 0);
    }
  }

  // ---------------------------------------------------------------- neither only "a{}" nor every string with it

  lemma ScanTwo(r: seq<byte>)
    ensures Scan([LBRACE, RBRACE] + r, LBRACE, RBRACE, 0) == Some(1)
  {
    var t := [LBRACE, RBRACE] + r;
    assert t[1..][0] == RBRACE;
    assert Scan(t[1..], LBRACE, RBRACE, 1) == Some(0);
  }

  lemma EmptyDictCrashes(r: seq<byte>, depth: nat)
    requires depth <= MAX_DEPTH
    ensures Valid(EMPTY_DICT + r, depth) == Crash
  {
    var s := EMPTY_DICT + r;
    assert s[1..] == [LBRACE, RBRACE] + r;
    ScanTwo(r);
    CrashExact(s, depth);
  }

  /** Behind any types that fit, an empty dictionary makes the reader panic, whatever follows. */
  lemma {:induction false} CrashBehindTypes(ts: seq<Ty>, r: seq<byte>)
    requires ts == [] || MaxNest(ts) <= MAX_DEPTH
    ensures ValidAll(PrintAll(ts) + (EMPTY_DICT + r), 0) == Crash
    decreases ts
  {
    var end := EMPTY_DICT + r;
    if ts == [] {
      assert PrintAll(ts) + end == end;
      EmptyDictCrashes(r, 0);
    } else {
      hide Valid;
      var rest := PrintAll(ts[1..]) + end;
      assert PrintAll(ts) + end == Print(ts[0]) + rest;
      ValidPrint(ts[0], rest, 0);
      CrashBehindTypes(ts[1..], r);
    }
  }

  /** In a structure that is not closed it does no harm: the string is rejected. */
  lemma UnclosedRejected(s: seq<byte>, depth: nat)
    requires s != [] && s[0] == LPAREN && Scan(s, LPAREN, RPAREN, 0).None?
    ensures Valid(s, depth) == Reject
  {}
}
