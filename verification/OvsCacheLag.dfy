/** How far the cache lags: after k notifications it is the database as the k-th transaction left it. */
module OvsCacheLag {
  import opened Common
  import opened OvsdbTables
  import opened Ovsdb
  import opened OvsRuns

  /** The names in the database before the first transaction and after each one. */
  function Past(s: State, steps: seq<Step>): (r: seq<Names>)
    ensures |r| > 0
  {
    if steps == [] then [NamesOf(s.db)]
    else
      var front, last := steps[..|steps| - 1], steps[|steps| - 1];
      if last.Deliver? || Run(s, steps).None? then Past(s, front) else Past(s, front) + [NamesOf(Run(s, steps).value.db)]
  }

  function Deliveries(steps: seq<Step>): nat {
    if steps == [] then 0 else Deliveries(steps[..|steps| - 1]) + One(steps[|steps| - 1].Deliver?)
  }

  /** The cache is at past[k], and the queue holds the changes from there to now, one by one. */
  predicate Lags(s: State, past: seq<Names>, k: nat) {
    && k < |past| && s.cache == past[k] && NamesOf(s.db) == past[|past| - 1] && |s.queue| == |past| - 1 - k
    && forall i | 0 <= i < |s.queue| :: s.queue[i] == Notify(past[k + i], past[k + i + 1])
  }

  lemma DeliverLags(s: State, past: seq<Names>, k: nat)
    requires Lags(s, past, k) && s.queue != []
    ensures Lags(Do(s, Deliver), past, k + 1)
  {
    hide Notify, Receive, NamesOf;
    NotifyApplies(past[k], past[k + 1]);
    assert s.queue[0] == Notify(past[k + 0], past[k + 0 + 1]);
    var q := s.queue[1..];
    forall i | 0 <= i < |q| ensures q[i] == Notify(past[k + 1 + i], past[k + 1 + i + 1]) {
      assert q[i] == s.queue[1 + i];
    }
  }

  lemma TransactLags(s: State, step: Step, past: seq<Names>, k: nat)
    requires Lags(s, past, k) && Enabled(s, step) && !step.Deliver?
    ensures Lags(Do(s, step), past + [NamesOf(Do(s, step).db)], k)
  {
    hide Notify, NamesOf, Settled, Staged, Grown;
    var s' := Do(s, step);
    var past' := past + [NamesOf(s'.db)];
    forall i | 0 <= i < |s'.queue| ensures s'.queue[i] == Notify(past'[k + i], past'[k + i + 1]) {
      if i < |s.queue| {
        assert s'.queue[i] == s.queue[i];
      }
    }
  }

  lemma LastStep(s: State, steps: seq<Step>)
    requires steps != [] && Run(s, steps).Some?
    ensures var front, last := steps[..|steps| - 1], steps[|steps| - 1];
            && Run(s, front).Some? && Enabled(Run(s, front).value, last) && Run(s, steps).value == Do(Run(s, front).value, last)
            && Past(s, steps) == (if last.Deliver? then Past(s, front) else Past(s, front) + [NamesOf(Run(s, steps).value.db)])
            && Deliveries(steps) == if last.Deliver? then Deliveries(front) + 1 else Deliveries(front)
  {
    hide Do, NamesOf;
  }

  /** In every run: after k notifications the cached names are those the database had after k transactions, and
      the queue holds exactly the changes that the later ones made. */
  lemma {:induction false} CacheLags(d: Db, born: Born, steps: seq<Step>)
    requires Run(Start(d, born), steps).Some?
    ensures Lags(Run(Start(d, born), steps).value, Past(Start(d, born), steps), Deliveries(steps))
  {
    hide *;
    var s0 := Start(d, born);
    if steps == [] {
      StartLags(d, born);
    } else {
      var front, last := steps[..|steps| - 1], steps[|steps| - 1];
      LastStep(s0, steps);
      CacheLags(d, born, front);
      var s := Run(s0, front).value;
      if last.Deliver? {
        DeliverEnabled(s, last);
        DeliverLags(s, Past(s0, front), Deliveries(front));
      } else {
        TransactLags(s, last, Past(s0, front), Deliveries(front));
      }
    }
  }

  lemma StartLags(d: Db, born: Born)
    ensures Run(Start(d, born), []) == Some(Start(d, born)) && Lags(Start(d, born), Past(Start(d, born), []), Deliveries([]))
  {}

  lemma DeliverEnabled(s: State, step: Step)
    requires Enabled(s, step) && step.Deliver?
    ensures s.queue != []
  {}
}
