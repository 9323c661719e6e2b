/** The order in which a map is enumerated does not matter, however deep the map is nested. */
module DBusMapOrder {
  import opened Common
  import opened ByteOrder
  import opened DBusType
  import opened DBusSignature
  import opened DBusWire
  import opened DBusRoundTrip
  import opened DBusMessage

  /** What a value means: as the value, but with maps for lists of entries, at every level. */
  datatype Meaning =
    | Scalar(v: Value)
    | Carried(ty: Ty, val: Meaning)
    | Several(items: seq<Meaning>)
    | Record(members: seq<Meaning>)
    | Mapping(m: map<Value, Meaning>)

  function MeaningOf(v: Value): Meaning
    decreases v
  {
    match v
    case Variant(ty, val) => Carried(ty, MeaningOf(val))
    case List(vs) => Several(MeaningsOf(vs))
    case Tuple(vs) => Record(MeaningsOf(vs))
    case Map(es) => Mapping(MapOf(es))
    case _ => Scalar(v)
  }

  function MeaningsOf(vs: seq<Value>): (r: seq<Meaning>)
    ensures |r| == |vs|
    decreases vs
  {
    if vs == [] then [] else [MeaningOf(vs[0])] + MeaningsOf(vs[1..])
  }

  function EntryMeaning(e: Entry): Meaning
    decreases e
  {
    MeaningOf(e.val)
  }

  /** Assigning the entries one after the other. */
  function MapOf(es: seq<Entry>): map<Value, Meaning>
    decreases es
  {
    if es == [] then map[] else MapOf(es[..|es| - 1])[es[|es| - 1].key := EntryMeaning(es[|es| - 1])]
  }

  // ---------------------------------------------------------------- maps

  predicate Listed(es: seq<Entry>, key: Value, p: Meaning) {
    exists i | 0 <= i < |es| :: es[i].key == key && EntryMeaning(es[i]) == p
  }

  predicate Holds(m: map<Value, Meaning>, key: Value, p: Meaning) { key in m && m[key] == p }

  lemma KeysDiffer(k: Prim, es: seq<Entry>, i: nat, j: nat)
    requires DistinctKeys(k, es) && i < j < |es|
    ensures es[i].key != es[j].key
  {
    assert !SameKey(k, es[i].key, es[j].key) && !IsNaN(k, es[i].key);
  }

  /** The map of distinct entries holds exactly what they list. */
  lemma {:induction false} MapExact(k: Prim, es: seq<Entry>, key: Value, p: Meaning)
    requires DistinctKeys(k, es)
    ensures Holds(MapOf(es), key, p) <==> Listed(es, key, p)
    decreases |es|
  {
    if es != [] {
      hide EntryMeaning, Listed, DistinctKeys;
      var n := |es| - 1;
      FrontDistinct(k, es);
      MapExact(k, es[..n], key, p);
      assert es == es[..n] + [es[n]];
      ListedSnoc(es[..n], es[n], key, p);
      if es[n].key == key {
        LastUnlisted(k, es, p);
      }
    }
  }

  lemma FrontDistinct(k: Prim, es: seq<Entry>)
    requires DistinctKeys(k, es) && es != []
    ensures DistinctKeys(k, es[..|es| - 1])
  {
    hide IsNaN, SameKey;
  }

  lemma ListedSnoc(es: seq<Entry>, e: Entry, key: Value, p: Meaning)
    ensures Listed(es + [e], key, p) <==> Listed(es, key, p) || (e.key == key && EntryMeaning(e) == p)
  {
    hide EntryMeaning;
    var all := es + [e];
    if Listed(es, key, p) {
      var i :| 0 <= i < |es| && es[i].key == key && EntryMeaning(es[i]) == p;
      assert all[i] == es[i];
    }
    assert all[|es|] == e;
  }

  /** The last key is not among the others. */
  lemma LastUnlisted(k: Prim, es: seq<Entry>, p: Meaning)
    requires DistinctKeys(k, es) && es != []
    ensures !Listed(es[..|es| - 1], es[|es| - 1].key, p)
  {
    hide EntryMeaning, IsNaN, SameKey;
    forall i | 0 <= i < |es| - 1 ensures es[i].key != es[|es| - 1].key {
      KeysDiffer(k, es, i, |es| - 1);
    }
  }

  lemma SameMap(m: map<Value, Meaning>, m': map<Value, Meaning>)
    requires forall key, p :: Holds(m, key, p) <==> Holds(m', key, p)
    ensures m == m'
  {
    forall key | key in m ensures key in m' && m'[key] == m[key] {
      assert Holds(m, key, m[key]);
    }
    forall key | key in m' ensures key in m {
      assert Holds(m', key, m'[key]);
    }
  }

  lemma ListedAgain(es: seq<Entry>, es': seq<Entry>, key: Value, p: Meaning)
    requires multiset(es) == multiset(es') && Listed(es, key, p)
    ensures Listed(es', key, p)
  {
    var i :| 0 <= i < |es| && es[i].key == key && EntryMeaning(es[i]) == p;
    assert es[i] in multiset(es');
    var j :| 0 <= j < |es'| && es'[j] == es[i];
  }

  /** However the entries of a map are listed, the map means the same. */
  lemma MapOrderIrrelevant(k: Prim, es: seq<Entry>, es': seq<Entry>)
    requires DistinctKeys(k, es) && DistinctKeys(k, es') && multiset(es) == multiset(es')
    ensures MeaningOf(Map(es)) == MeaningOf(Map(es'))
  {
    forall key, p ensures Holds(MapOf(es), key, p) <==> Holds(MapOf(es'), key, p) {
      MapExact(k, es, key, p);
      MapExact(k, es', key, p);
      if Listed(es, key, p) {
        ListedAgain(es, es', key, p);
      }
      if Listed(es', key, p) {
        ListedAgain(es', es, key, p);
      }
    }
    SameMap(MapOf(es), MapOf(es'));
  }

  // ---------------------------------------------------------------- the nesting checks see only the meaning

  predicate FitsDepth(t: Ty, p: Meaning, depth: nat)
    decreases p, 1
  {
    match (t, p)
    case (Leaf(_), Carried(ty, val)) => depth < MAX_DEPTH && FitsDepth(ty, val, depth + 1)
    case (Array(e), Several(ps)) => depth < MAX_DEPTH && AllFit(e, ps, depth + 1)
    case (Dict(k, e), Mapping(m)) => depth < MAX_DEPTH - 1 && MapFits(e, p, depth + 2)
    case (Struct(fs), Record(ps)) => depth < MAX_DEPTH && EachFits(fs, ps, depth + 1)
    case _ => true
  }

  predicate AllFit(e: Ty, ps: seq<Meaning>, depth: nat)
    decreases ps
  {
    forall i | 0 <= i < |ps| :: FitsDepth(e, ps[i], depth)
  }

  predicate MapFits(e: Ty, p: Meaning, depth: nat)
    requires p.Mapping?
    decreases p, 0
  {
    forall key | key in p.m :: FitsDepth(e, p.m[key], depth)
  }

  predicate EachFits(ts: seq<Ty>, ps: seq<Meaning>, depth: nat)
    decreases ps
  {
    forall i | 0 <= i < |ps| && i < |ts| :: FitsDepth(ts[i], ps[i], depth)
  }

  lemma {:induction false} DepthByMeaning(o: Order, t: Ty, v: Value, depth: nat, pos: nat)
    requires WellTyped(t, v) && InDomain(o, t, v, pos)
    ensures DepthOk(t, v, depth) <==> FitsDepth(t, MeaningOf(v), depth)
    decreases v, 1
  {
    hide Marshal, MarshalItems, MarshalMembers, MarshalEntries, Print, ItemsInDomain, MembersInDomain, EntriesInDomain, ItemsOk, MembersOk, EntriesOk;
    var at := pos + Padding(pos, Align(t));
    match (t, v)
    case (Leaf(_), Variant(ty, val)) => DepthByMeaning(o, ty, val, depth + 1, at + |SigBytes(Print(ty))|);
    case (Array(e), List(vs)) => ItemsByMeaning(o, e, vs, depth + 1, FirstAt(at, Align(e)));
    case (Dict(k, e), Map(es)) => MapByMeaning(o, k, e, es, depth + 2, FirstAt(at, 8));
    case (Struct(fs), Tuple(vs)) => MembersByMeaning(o, fs, vs, depth + 1, at);
    case _ =>
  }

  lemma {:induction false} ItemsByMeaning(o: Order, e: Ty, vs: seq<Value>, depth: nat, pos: nat)
    requires (forall i | 0 <= i < |vs| :: WellTyped(e, vs[i])) && ItemsInDomain(o, e, vs, pos)
    ensures ItemsOk(e, vs, depth) <==> AllFit(e, MeaningsOf(vs), depth)
    decreases vs
  {
    if vs != [] {
      DepthByMeaning(o, e, vs[0], depth, pos);
      ItemsByMeaning(o, e, vs[1..], depth, pos + |Marshal(o, e, vs[0], pos)|);
      assert MeaningsOf(vs)[1..] == MeaningsOf(vs[1..]);
      AllOrFirst(e, MeaningsOf(vs), depth);
    }
  }

  lemma AllOrFirst(e: Ty, ps: seq<Meaning>, depth: nat)
    requires ps != []
    ensures AllFit(e, ps, depth) <==> FitsDepth(e, ps[0], depth) && AllFit(e, ps[1..], depth)
  {
    hide FitsDepth;
    assert forall i | 1 <= i < |ps| :: ps[i] == ps[1..][i - 1];
  }

  lemma {:induction false} MembersByMeaning(o: Order, ts: seq<Ty>, vs: seq<Value>, depth: nat, pos: nat)
    requires |ts| == |vs| && (forall i | 0 <= i < |vs| :: WellTyped(ts[i], vs[i])) && MembersInDomain(o, ts, vs, pos)
    ensures MembersOk(ts, vs, depth) <==> EachFits(ts, MeaningsOf(vs), depth)
    decreases vs
  {
    if vs != [] {
      DepthByMeaning(o, ts[0], vs[0], depth, pos);
      MembersByMeaning(o, ts[1..], vs[1..], depth, pos + |Marshal(o, ts[0], vs[0], pos)|);
      assert MeaningsOf(vs)[1..] == MeaningsOf(vs[1..]);
      EachOrFirst(ts, MeaningsOf(vs), depth);
    }
  }

  lemma EachOrFirst(ts: seq<Ty>, ps: seq<Meaning>, depth: nat)
    requires |ts| == |ps| && ps != []
    ensures EachFits(ts, ps, depth) <==> FitsDepth(ts[0], ps[0], depth) && EachFits(ts[1..], ps[1..], depth)
  {
    hide FitsDepth;
    assert forall i | 1 <= i < |ps| :: ps[i] == ps[1..][i - 1] && ts[i] == ts[1..][i - 1];
  }

  lemma {:induction false} EntryByMeaning(o: Order, k: Prim, e: Ty, entry: Entry, depth: nat, pos: nat)
    requires WellTyped(e, entry.val) && EntryInDomain(o, k, e, entry, pos)
    ensures EntryOk(e, entry, depth) <==> FitsDepth(e, EntryMeaning(entry), depth)
    decreases entry, 2
  {
    var at := pos + Padding(pos, 8);
    DepthByMeaning(o, e, entry.val, depth, at + |Marshal(o, Leaf(k), entry.key, at)|);
  }

  lemma {:induction false} EntriesByMeaning(o: Order, k: Prim, e: Ty, es: seq<Entry>, depth: nat, pos: nat)
    requires (forall i | 0 <= i < |es| :: WellTyped(e, es[i].val)) && EntriesInDomain(o, k, e, es, pos)
    ensures EntriesOk(e, es, depth) <==> forall i | 0 <= i < |es| :: FitsDepth(e, EntryMeaning(es[i]), depth)
    decreases es, 0
  {
    if es != [] {
      EntryByMeaning(o, k, e, es[0], depth, pos);
      EntriesByMeaning(o, k, e, es[1..], depth, pos + |MarshalEntry(o, k, e, es[0], pos)|);
      assert forall i | 1 <= i < |es| :: es[i] == es[1..][i - 1];
      assert forall i | 0 <= i < |es[1..]| :: es[1..][i] == es[i + 1];
    }
  }

  lemma {:induction false} MapByMeaning(o: Order, k: Prim, e: Ty, es: seq<Entry>, depth: nat, pos: nat)
    requires (forall i | 0 <= i < |es| :: WellTyped(e, es[i].val)) && EntriesInDomain(o, k, e, es, pos) && DistinctKeys(k, es)
    ensures EntriesOk(e, es, depth) <==> MapFits(e, Mapping(MapOf(es)), depth)
    decreases es, 1
  {
    EntriesByMeaning(o, k, e, es, depth, pos);
    hide FitsDepth, EntriesOk, EntryMeaning, MapOf;
    forall key | key in MapOf(es) && EntriesOk(e, es, depth) ensures FitsDepth(e, MapOf(es)[key], depth) {
      MapExact(k, es, key, MapOf(es)[key]);
    }
    forall i | 0 <= i < |es| && MapFits(e, Mapping(MapOf(es)), depth)
      ensures FitsDepth(e, EntryMeaning(es[i]), depth)
    {
      MapExact(k, es, es[i].key, EntryMeaning(es[i]));
    }
  }

  // ---------------------------------------------------------------- decoding

  /** Two values that differ only in the order of their maps, at any depth and inside any container: where
      one decodes, so does the other, and to the same meaning. */
  lemma AnyMapOrder(o: Order, t: Ty, v: Value, v': Value, depth: nat, p: nat, p': nat, rest: seq<byte>, rest': seq<byte>)
    requires WellTyped(t, v) && InDomain(o, t, v, p) && WellTyped(t, v') && InDomain(o, t, v', p')
    requires MeaningOf(v) == MeaningOf(v') && depth <= MAX_DEPTH
    ensures DepthOk(t, v, depth) <==> DepthOk(t, v', depth)
    ensures var r := Unmarshal(o, t, depth, Marshal(o, t, v, p) + rest, p);
            var r' := Unmarshal(o, t, depth, Marshal(o, t, v', p') + rest', p');
            && (r.Ok? <==> r'.Ok?) && (r.Ok? <==> DepthOk(t, v, depth))
            && (r.Ok? ==> MeaningOf(r.value) == MeaningOf(r'.value) == MeaningOf(v))
  {
    hide *;
    DepthByMeaning(o, t, v, depth, p);
    DepthByMeaning(o, t, v', depth, p');
    DecodesTo(o, t, v, depth, p, rest);
    DecodesTo(o, t, v', depth, p', rest');
  }

  lemma DecodesTo(o: Order, t: Ty, v: Value, depth: nat, p: nat, rest: seq<byte>)
    requires WellTyped(t, v) && InDomain(o, t, v, p) && depth <= MAX_DEPTH
    ensures var r := Unmarshal(o, t, depth, Marshal(o, t, v, p) + rest, p);
            (r.Ok? <==> DepthOk(t, v, depth)) && (r.Ok? ==> r.value == v)
  {
    hide Unmarshal, Marshal, DepthOk;
    RoundTrip(o, t, v, depth, p);
  }

  // ---------------------------------------------------------------- messages

  predicate SameBody(a: seq<Var>, b: seq<Var>) {
    Types(a) == Types(b) && MeaningsOf(Vals(a)) == MeaningsOf(Vals(b))
  }

  lemma BodyDepth(o: Order, a: seq<Var>, b: seq<Var>)
    requires forall i | 0 <= i < |a| :: WellTyped(a[i].ty, a[i].val)
    requires forall i | 0 <= i < |b| :: WellTyped(b[i].ty, b[i].val)
    requires MembersInDomain(o, Types(a), Vals(a), 0) && MembersInDomain(o, Types(b), Vals(b), 0) && SameBody(a, b)
    ensures MembersOk(Types(a), Vals(a), 0) <==> MembersOk(Types(b), Vals(b), 0)
  {
    hide MembersOk, MembersInDomain, WellTyped, EachFits, MeaningsOf;
    MembersByMeaning(o, Types(a), Vals(a), 0, 0);
    MembersByMeaning(o, Types(b), Vals(b), 0, 0);
  }

  /** Everything that `Sendable` asks, but the nesting of the body. */
  predicate Fitting(o: Order, msg: Message) {
    && msg.serial < TWO32
    && (forall k | k in msg.headers :: HeaderFits(k, msg.headers[k]))
    && (forall i | 0 <= i < |msg.body| :: WellTyped(msg.body[i].ty, msg.body[i].val))
    && MembersInDomain(o, Types(msg.body), Vals(msg.body), 0)
    && SignatureHeader(msg) == PrintAll(Types(msg.body))
  }

  /** If a message can be sent, so can one whose body lists its maps otherwise, and what is received means
      the same. */
  lemma MessageMapOrder(o: Order, msg: Message, body: seq<Var>, keys: seq<byte>, rest: seq<byte>)
    requires Sendable(o, msg) && IsValid(msg) && Enumerates(keys, msg.headers)
    requires Fitting(o, msg.(body := body)) && SameBody(msg.body, body)
    requires |MessageBytes(o, msg.(body := body), keys)| <= LIMIT
    ensures var msg' := msg.(body := body);
            var r := ParseMessage(MessageBytes(o, msg', keys) + rest);
            r == Ok(msg', |MessageBytes(o, msg', keys)|) && SameBody(r.value.body, msg.body)
  {
    var msg' := msg.(body := body);
    BodyDepth(o, msg.body, body);
    ValidAnyBody(msg, body);
    MessageRoundTrip(o, msg', keys, rest);
  }

  lemma ValidAnyBody(msg: Message, body: seq<Var>)
    requires IsValid(msg) && |body| == |msg.body|
    ensures IsValid(msg.(body := body))
  {
    var m := msg.(body := body);
    assert forall k :: HeaderText(m, k) == HeaderText(msg, k);
  }
}
