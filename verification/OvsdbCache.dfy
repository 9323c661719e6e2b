/** The plugin's copy of the database, fed by update notifications (ovsdb.go, `populateCache`). */
module OvsdbCache {
  import opened Common
  import opened OvsdbTables

  type Tables<R> = map<string, map<Uuid, R>>

  /** For each changed row of each table its new contents, or None for a deleted row. */
  type Updates<R> = map<string, map<Uuid, Option<R>>>

  function Lookup<R>(tables: Tables<R>, t: string, u: Uuid): Option<R> {
    if t in tables && u in tables[t] then Some(tables[t][u]) else None
  }

  function Applied<R>(rows: map<Uuid, R>, changes: map<Uuid, Option<R>>): map<Uuid, R> {
    map u | u in rows.Keys + changes.Keys && (u in changes ==> changes[u].Some?) ::
      if u in changes then changes[u].value else rows[u]
  }

  function RowsOf<R>(tables: Tables<R>, t: string): map<Uuid, R> { if t in tables then tables[t] else map[] }

  function AllApplied<R>(tables: Tables<R>, updates: Updates<R>): Tables<R> {
    map t | t in tables.Keys + updates.Keys :: if t in updates then Applied(RowsOf(tables, t), updates[t]) else tables[t]
  }

  /** The part of m that belongs to the given keys. */
  function Those<K, A>(m: map<K, A>, keys: set<K>): map<K, A> { map k | k in m && k in keys :: m[k] }

  lemma ThoseAll<K, A>(m: map<K, A>)
    ensures Those(m, m.Keys) == m
  {}

  lemma NothingApplied<R>(rows: map<Uuid, R>, changes: map<Uuid, Option<R>>)
    ensures Applied(rows, Those(changes, {})) == rows
  {}

  lemma OneMoreRow<R>(rows: map<Uuid, R>, changes: map<Uuid, Option<R>>, done: set<Uuid>, u: Uuid)
    requires u in changes
    ensures var was := Applied(rows, Those(changes, done));
            Applied(rows, Those(changes, done + {u})) ==
            if changes[u].Some? then was[u := changes[u].value] else was - {u}
  {
    var now := Applied(rows, Those(changes, done + {u}));
    var was := Applied(rows, Those(changes, done));
    var then' := if changes[u].Some? then was[u := changes[u].value] else was - {u};
    assert forall k :: k in now <==> k in then';
    assert forall k | k in now :: now[k] == then'[k];
  }

  lemma OneMoreTable<R>(tables: Tables<R>, updates: Updates<R>, done: set<string>, t: string)
    requires t in updates && t !in done
    ensures var was := AllApplied(tables, Those(updates, done));
            AllApplied(tables, Those(updates, done + {t})) == was[t := Applied(RowsOf(was, t), updates[t])]
  {
    hide Applied, AllApplied;
    var was := AllApplied(tables, Those(updates, done));
    var now := AllApplied(tables, Those(updates, done + {t}));
    AppliedAt(tables, updates, done);
    AppliedAt(tables, updates, done + {t});
    OneMoreKey(tables.Keys, updates, done, t);
    assert RowsOf(was, t) == RowsOf(tables, t);
    assert now == was[t := Applied(RowsOf(tables, t), updates[t])];
  }

  lemma AppliedAt<R>(tables: Tables<R>, updates: Updates<R>, done: set<string>)
    ensures var all := AllApplied(tables, Those(updates, done));
            && all.Keys == tables.Keys + Those(updates, done).Keys
            && forall k | k in all ::
                 all[k] == if k in updates && k in done then Applied(RowsOf(tables, k), updates[k]) else tables[k]
  {
    hide Applied;
  }

  lemma OneMoreKey<A>(keys: set<string>, updates: map<string, A>, done: set<string>, t: string)
    requires t in updates
    ensures keys + Those(updates, done + {t}).Keys == keys + Those(updates, done).Keys + {t}
  {}

  lemma NoTables<R>(tables: Tables<R>, updates: Updates<R>)
    ensures AllApplied(tables, Those(updates, {})) == tables
  {}

  class Cache<R> {
    var tables: Tables<R>

    constructor ()
      ensures tables == map[]
    {
      tables := map[];
    }

    /** Whatever the order in which tables and rows are enumerated, the result is the same: every row
        named by the update has its new contents, and every other row is as before. */
    method PopulateCache(updates: Updates<R>)
      modifies this
      ensures tables == AllApplied(old(tables), updates)
    {
      var todo := updates.Keys;
      ghost var done := {};
      NoTables(tables, updates);
      while todo != {}
        invariant done + todo == updates.Keys && done !! todo
        invariant tables == AllApplied(old(tables), Those(updates, done))
        decreases todo
      {
        var t :| t in todo;
        OneMoreTable(old(tables), updates, done, t);
        PopulateTable(t, updates[t]);
        todo, done := todo - {t}, done + {t};
      }
      assert done == updates.Keys;
      ThoseAll(updates);
    }

    method PopulateTable(t: string, changes: map<Uuid, Option<R>>)
      modifies this
      ensures tables == old(tables)[t := Applied(RowsOf(old(tables), t), changes)]
    {
      if t !in tables {
        tables := tables[t := map[]];
      }
      ghost var rows := tables[t];
      var todo := changes.Keys;
      ghost var done := {};
      NothingApplied(rows, changes);
      while todo != {}
        invariant done + todo == changes.Keys && done !! todo
        invariant tables == old(tables)[t := Applied(rows, Those(changes, done))]
        decreases todo
      {
        var u :| u in todo;
        OneMoreRow(rows, changes, done, u);
        if changes[u].Some? {
          tables := tables[t := tables[t][u := changes[u].value]];
        } else {
          tables := tables[t := tables[t] - {u}];
        }
        todo, done := todo - {u}, done + {u};
      }
      assert done == changes.Keys;
      ThoseAll(changes);
    }
  }

  // ---------------------------------------------------------------- the mirror

  ghost predicate Mirrors<R(!new)>(cache: Tables<R>, db: Tables<R>) {
    forall t, u :: Lookup(cache, t, u) == Lookup(db, t, u)
  }

  /** The notification for a commit names every row that changed, with its new contents. */
  ghost predicate Describes<R(!new)>(updates: Updates<R>, db: Tables<R>, db': Tables<R>) {
    forall t, u :: Lookup(db', t, u) == After(updates, t, u, Lookup(db, t, u))
  }

  function After<R>(updates: Updates<R>, t: string, u: Uuid, was: Option<R>): Option<R> {
    if t in updates && u in updates[t] then updates[t][u] else was
  }

  lemma LookupApplied<R>(cache: Tables<R>, updates: Updates<R>, t: string, u: Uuid)
    ensures Lookup(AllApplied(cache, updates), t, u) == After(updates, t, u, Lookup(cache, t, u))
  {}

  function Replay<R>(cache: Tables<R>, notes: seq<Updates<R>>): Tables<R> {
    if notes == [] then cache else AllApplied(Replay(cache, notes[..|notes| - 1]), notes[|notes| - 1])
  }

  /** Notifications in commit order keep the copy equal to the database, commit after commit. */
  lemma {:induction false} CacheMirrors<R(!new)>(cache: Tables<R>, notes: seq<Updates<R>>, dbs: seq<Tables<R>>)
    requires |dbs| == |notes| + 1 && Mirrors(cache, dbs[0])
    requires forall i | 0 <= i < |notes| :: Describes(notes[i], dbs[i], dbs[i + 1])
    ensures Mirrors(Replay(cache, notes), dbs[|notes|])
  {
    if notes != [] {
      var n := |notes| - 1;
      CacheMirrors(cache, notes[..n], dbs[..n + 1]);
      var before := Replay(cache, notes[..n]);
      forall t, u ensures Lookup(Replay(cache, notes), t, u) == Lookup(dbs[n + 1], t, u) {
        LookupApplied(before, notes[n], t, u);
        assert Lookup(before, t, u) == Lookup(dbs[..n + 1][n], t, u);
        assert Describes(notes[n], dbs[n], dbs[n + 1]);
      }
    }
  }

  /** The reply to the monitor request describes every row, so it fills an empty copy. */
  lemma InitialReply<R(!new)>(updates: Updates<R>, db: Tables<R>)
    requires Describes(updates, map[], db)
    ensures Mirrors(AllApplied(map[], updates), db)
  {
    forall t, u ensures Lookup(AllApplied(map[], updates), t, u) == Lookup(db, t, u) {
      LookupApplied(map[], updates, t, u);
    }
  }
}
