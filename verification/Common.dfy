/** What several parts share. */
module Common {
  datatype Option<+A> = None | Some(value: A)

  const TWO16: nat := 0x1_0000
  const TWO32: nat := 0x1_0000_0000
  const TWO64: nat := 0x1_0000_0000_0000_0000

  /** An entry of a log, about one of many numbered subjects. */
  datatype Event<+A> = Event(of: nat, what: A)

  /** How many entries of a log are about x. */
  function Count<A>(log: seq<Event<A>>, x: nat): nat {
    if log == [] then 0 else Count(log[..|log| - 1], x) + One(log[|log| - 1].of == x)
  }

  function One(b: bool): nat { if b then 1 else 0 }

  lemma CountAdd<A>(log: seq<Event<A>>, e: Event<A>, x: nat)
    ensures Count(log + [e], x) == Count(log, x) + One(e.of == x)
  {
    assert (log + [e])[..|log|] == log;
  }
}
