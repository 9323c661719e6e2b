/** Tables of named rows that refer to rows of another table. */
module OvsdbTables {
  type Uuid = nat
  type Name = string

  /** A table by columns: row names, references, and the rest of each row. */
  datatype Table<I> = Table(name: map<Uuid, Name>, refs: map<Uuid, set<Uuid>>, info: map<Uuid, I>)

  predicate WF<I>(t: Table<I>) { t.refs.Keys == t.name.Keys && t.info.Keys == t.name.Keys }

  function Rows<I>(t: Table<I>): set<Uuid> { t.name.Keys }

  function Part<A>(m: map<Uuid, A>, keys: set<Uuid>): map<Uuid, A> { map k | k in m && k in keys :: m[k] }

  function Insert<I>(t: Table<I>, u: Uuid, n: Name, s: set<Uuid>, i: I): Table<I> {
    Table(t.name[u := n], t.refs[u := s], t.info[u := i])
  }

  function Keep<I>(t: Table<I>, keys: set<Uuid>): Table<I> {
    Table(Part(t.name, keys), Part(t.refs, keys), Part(t.info, keys))
  }

  function Without<I>(t: Table<I>, u: Uuid): Table<I> { Keep(t, Rows(t) - {u}) }

  function Refer<I>(t: Table<I>, u: Uuid, s: set<Uuid>): Table<I> { t.(refs := t.refs[u := s]) }

  function Named<I>(t: Table<I>, n: Name): set<Uuid> { set u | u in t.name && t.name[u] == n }

  /** Delete where name == n. */
  function DropNamed<I>(t: Table<I>, n: Name): Table<I> { Keep(t, Rows(t) - Named(t, n)) }

  /** Mutate where name == n, inserting k into the references or deleting it from them. */
  function GrowNamed<I>(t: Table<I>, n: Name, k: Uuid): Table<I> {
    t.(refs := map u | u in t.refs :: if u in Named(t, n) then t.refs[u] + {k} else t.refs[u])
  }

  function ShrinkNamed<I>(t: Table<I>, n: Name, k: Uuid): Table<I> {
    t.(refs := map u | u in t.refs :: if u in Named(t, n) then t.refs[u] - {k} else t.refs[u])
  }

  predicate Injective(names: map<Uuid, Name>) {
    forall a, b | a in names && b in names && names[a] == names[b] :: a == b
  }

  predicate Unique<I>(t: Table<I>) { Injective(t.name) }

  /** Everything that some row refers to. */
  function Union(refs: map<Uuid, set<Uuid>>): set<Uuid> { set p, k | p in refs && k in refs[p] :: k }

  function Targets<I>(t: Table<I>): set<Uuid> { Union(t.refs) }

  /** No two rows refer to the same. */
  predicate Disjoint(refs: map<Uuid, set<Uuid>>) {
    forall p, q, k | p in refs && q in refs && k in refs[p] && k in refs[q] :: p == q
  }

  predicate Exclusive<I>(t: Table<I>) { Disjoint(t.refs) }

  // ---------------------------------------------------------------- rows

  lemma KeepAll<I>(t: Table<I>, keys: set<Uuid>)
    requires WF(t) && Rows(t) <= keys
    ensures Keep(t, keys) == t
  {
    assert Part(t.name, keys) == t.name && Part(t.refs, keys) == t.refs && Part(t.info, keys) == t.info;
  }

  lemma KeepRows<I>(t: Table<I>, keys: set<Uuid>)
    requires WF(t)
    ensures WF(Keep(t, keys)) && Rows(Keep(t, keys)) == Rows(t) * keys
    ensures Unique(t) ==> Unique(Keep(t, keys))
    ensures Exclusive(t) ==> Exclusive(Keep(t, keys))
    ensures Targets(Keep(t, keys)) <= Targets(t)
  {
    var r := Keep(t, keys).refs;
    forall x | x in Union(r) ensures x in Union(t.refs) {
      var q :| q in r && x in r[q];
      assert x in t.refs[q];
    }
  }

  lemma KeepSome<I>(t: Table<I>, keys: set<Uuid>)
    requires WF(t) && keys <= Rows(t)
    ensures WF(Keep(t, keys)) && Rows(Keep(t, keys)) == keys
    ensures Unique(t) ==> Unique(Keep(t, keys))
    ensures Exclusive(t) ==> Exclusive(Keep(t, keys))
    ensures Targets(Keep(t, keys)) <= Targets(t)
  {
    KeepRows(t, keys);
    assert Rows(t) * keys == keys;
  }

  lemma ReferWF<I>(t: Table<I>, u: Uuid, s: set<Uuid>)
    requires WF(t) && u in Rows(t)
    ensures WF(Refer(t, u, s)) && Rows(Refer(t, u, s)) == Rows(t)
  {
    assert t.refs[u := s].Keys == t.refs.Keys;
  }

  /** Dropping an inserted row again, and only it. */
  lemma KeepOld<I>(t: Table<I>, u: Uuid, n: Name, s: set<Uuid>, i: I)
    requires WF(t) && u !in Rows(t)
    ensures Keep(Insert(t, u, n, s, i), Rows(t)) == t && Without(Insert(t, u, n, s, i), u) == t
  {
    var t' := Insert(t, u, n, s, i);
    assert Rows(t') - {u} == Rows(t);
    assert Part(t'.name, Rows(t)) == t.name && Part(t'.refs, Rows(t)) == t.refs && Part(t'.info, Rows(t)) == t.info;
  }

  lemma InsertWF<I>(t: Table<I>, u: Uuid, n: Name, s: set<Uuid>, i: I)
    requires WF(t)
    ensures WF(Insert(t, u, n, s, i)) && Rows(Insert(t, u, n, s, i)) == Rows(t) + {u}
  {}

  lemma InsertRows<I>(t: Table<I>, u: Uuid, n: Name, s: set<Uuid>, i: I)
    requires WF(t) && Unique(t) && u !in Rows(t)
    ensures WF(Insert(t, u, n, s, i)) && Rows(Insert(t, u, n, s, i)) == Rows(t) + {u}
    ensures Unique(Insert(t, u, n, s, i)) <==> n !in t.name.Values
    ensures Insert(t, u, n, s, i).name.Values == t.name.Values + {n}
  {
    var m := t.name[u := n];
    forall v | v in t.name.Values ensures v in m.Values {
      var a :| a in t.name && t.name[a] == v;
      assert m[a] == v;
    }
    assert m[u] == n;
    if n in t.name.Values {
      var a :| a in t.name && t.name[a] == n;
      assert m[a] == m[u];
    }
  }

  /** With unique names, at most one row goes by a name. */
  lemma NamedOne<I>(t: Table<I>, n: Name, u: Uuid)
    requires WF(t) && Unique(t) && u in Rows(t) && t.name[u] == n
    ensures Named(t, n) == {u} && DropNamed(t, n) == Without(t, u)
  {
    assert Named(t, n) == {u};
  }

  lemma GrowOne<I>(t: Table<I>, n: Name, u: Uuid, k: Uuid)
    requires WF(t) && Named(t, n) == {u}
    ensures u in Rows(t) && GrowNamed(t, n, k) == Refer(t, u, t.refs[u] + {k})
  {
    assert u in Named(t, n);
    assert GrowNamed(t, n, k).refs == t.refs[u := t.refs[u] + {k}];
  }

  lemma ShrinkOne<I>(t: Table<I>, n: Name, u: Uuid, k: Uuid)
    requires WF(t) && Named(t, n) == {u}
    ensures u in Rows(t) && ShrinkNamed(t, n, k) == Refer(t, u, t.refs[u] - {k})
  {
    assert u in Named(t, n);
    assert ShrinkNamed(t, n, k).refs == t.refs[u := t.refs[u] - {k}];
  }

  lemma NamedNone<I>(t: Table<I>, n: Name, k: Uuid)
    requires WF(t) && n !in t.name.Values
    ensures DropNamed(t, n) == t && GrowNamed(t, n, k) == t && ShrinkNamed(t, n, k) == t
  {
    forall u | u in t.name ensures t.name[u] != n {
      assert t.name[u] in t.name.Values;
    }
    assert Named(t, n) == {};
    KeepAll(t, Rows(t));
    assert GrowNamed(t, n, k).refs == t.refs && ShrinkNamed(t, n, k).refs == t.refs;
  }

  lemma NamesWithout<I>(t: Table<I>, u: Uuid)
    requires WF(t) && Unique(t) && u in Rows(t)
    ensures Without(t, u).name.Values == t.name.Values - {t.name[u]}
  {
    var m := Without(t, u).name;
    forall v | v in t.name.Values && v != t.name[u] ensures v in m.Values {
      var a :| a in t.name && t.name[a] == v;
      assert m[a] == v;
    }
  }

  lemma NamesDropped<I>(t: Table<I>, n: Name)
    requires WF(t)
    ensures DropNamed(t, n).name.Values == t.name.Values - {n}
  {
    var m := DropNamed(t, n).name;
    forall v | v in t.name.Values && v != n ensures v in m.Values {
      var a :| a in t.name && t.name[a] == v;
      assert m[a] == v;
    }
    forall a | a in m ensures m[a] != n {
      assert a !in Named(t, n);
    }
  }

  // ---------------------------------------------------------------- references

  lemma TargetsInsert<I>(t: Table<I>, u: Uuid, n: Name, k: Uuid, i: I)
    requires WF(t) && u !in Rows(t) && k !in Targets(t)
    ensures Targets(Insert(t, u, n, {k}, i)) == Targets(t) + {k}
    ensures Exclusive(t) ==> Exclusive(Insert(t, u, n, {k}, i))
  {
    var r := t.refs[u := {k}];
    forall x | x in Union(t.refs) ensures x in Union(r) {
      var q :| q in t.refs && x in t.refs[q];
      assert x in r[q];
    }
    assert k in r[u];
  }

  lemma TargetsGrow<I>(t: Table<I>, u: Uuid, k: Uuid)
    requires WF(t) && u in Rows(t) && k !in Targets(t)
    ensures Targets(Refer(t, u, t.refs[u] + {k})) == Targets(t) + {k}
    ensures Exclusive(t) ==> Exclusive(Refer(t, u, t.refs[u] + {k}))
  {
    var r := t.refs[u := t.refs[u] + {k}];
    forall x | x in Union(t.refs) ensures x in Union(r) {
      var q :| q in t.refs && x in t.refs[q];
      assert x in r[q];
    }
    assert k in r[u];
  }

  lemma TargetsShrink<I>(t: Table<I>, u: Uuid, k: Uuid)
    requires WF(t) && u in Rows(t) && k in t.refs[u] && Exclusive(t)
    ensures Targets(Refer(t, u, t.refs[u] - {k})) == Targets(t) - {k}
    ensures Exclusive(Refer(t, u, t.refs[u] - {k}))
  {
    var r := t.refs[u := t.refs[u] - {k}];
    forall x | x in Union(t.refs) && x != k ensures x in Union(r) {
      var q :| q in t.refs && x in t.refs[q];
      assert x in r[q];
    }
  }

  lemma TargetsWithout<I>(t: Table<I>, u: Uuid)
    requires WF(t) && u in Rows(t) && Exclusive(t)
    ensures Targets(Without(t, u)) == Targets(t) - t.refs[u]
  {
    var r := Without(t, u).refs;
    forall x | x in Union(t.refs) && x !in t.refs[u] ensures x in Union(r) {
      var q :| q in t.refs && x in t.refs[q];
      assert x in r[q];
    }
  }

  lemma ReferBack<I>(t: Table<I>, u: Uuid, k: Uuid)
    requires WF(t) && u in Rows(t) && k !in t.refs[u]
    ensures var t' := Refer(t, u, t.refs[u] + {k}); Refer(t', u, t'.refs[u] - {k}) == t
  {
    var t' := Refer(t, u, t.refs[u] + {k});
    assert t'.refs[u] - {k} == t.refs[u];
    assert Refer(t', u, t'.refs[u] - {k}).refs == t.refs;
  }

  lemma Target<I>(t: Table<I>, u: Uuid, k: Uuid)
    requires u in t.refs && k in t.refs[u]
    ensures k in Targets(t)
  {}

  lemma FindNamed<I>(t: Table<I>, n: Name) returns (u: Uuid)
    requires n in t.name.Values
    ensures u in Rows(t) && t.name[u] == n
  {
    u :| u in t.name && t.name[u] == n;
  }

  lemma FindOwner<I>(t: Table<I>, k: Uuid) returns (u: Uuid)
    requires WF(t) && k in Targets(t)
    ensures u in Rows(t) && k in t.refs[u]
  {
    u :| u in t.refs && k in t.refs[u];
  }
}
