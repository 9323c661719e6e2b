/** Two pieces of modular arithmetic: serial allocation (conn.go) and address increment (utils.go). */
module Serials {
  import opened Common

  /** n is reached from `next` by counting up, modulo 2^32, over used serials only. */
  ghost predicate FirstFree(next: nat, used: set<nat>, n: nat) {
    n !in used && exists k: nat :: n == Nth(next, k) && k < TWO32 && forall j: nat | j < k :: Nth(next, j) in used
  }

  function Nth(next: nat, k: nat): nat { (next + k) % TWO32 }

  lemma FirstFreeUnique(next: nat, used: set<nat>, m: nat, n: nat)
    requires FirstFree(next, used, m) && FirstFree(next, used, n)
    ensures m == n
  {
    var j: nat :| m == Nth(next, j) && forall i: nat | i < j :: Nth(next, i) in used;
    var k: nat :| n == Nth(next, k) && forall i: nat | i < k :: Nth(next, i) in used;
    assert j >= k && k >= j;
  }

  lemma NthStep(next: nat, k: nat)
    requires next < TWO32 && k < TWO32
    ensures Nth(next, k) == if next + k < TWO32 then next + k else next + k - TWO32
    ensures (Nth(next, k) + 1) % TWO32 == Nth(next, k + 1)
  {}

  /** How far a free serial is ahead. */
  function Distance(next: nat, f: nat): (d: nat)
    requires next < TWO32 && f < TWO32
    ensures d < TWO32 && Nth(next, d) == f
  {
    if f >= next then f - next else f + TWO32 - next
  }

  /** The allocator of a connection; `issued` records what it has handed out. */
  class Allocator {
    var next: nat
    var used: set<nat>
    ghost var issued: set<nat>

    /** Holds of a new connection and after every allocation and release. */
    ghost predicate Valid()
      reads this
    {
      next < TWO32 && 0 in used && 0 !in issued
    }

    constructor ()
      ensures Valid() && next == 1 && used == {0} && issued == {}
    {
      next := 1;
      used := {0};
      issued := {};
    }

    /** Ends whenever some serial is free, with the first free one in cyclic order, which is never 0. */
    method GetSerial() returns (n: nat)
      requires Valid() && exists f: nat :: f < TWO32 && f !in used
      modifies this
      ensures Valid() && n != 0 && n < TWO32
      ensures FirstFree(old(next), old(used), n)
      ensures used == old(used) + {n} && next == (n + 1) % TWO32 && issued == old(issued) + {n}
    {
      ghost var f: nat :| f < TWO32 && f !in used;
      ghost var d := Distance(next, f);
      ghost var k := 0;
      n := next;
      while n in used
        invariant next == old(next) && used == old(used) && issued == old(issued)
        invariant k <= d && n == Nth(next, k)
        invariant forall j: nat | j < k :: Nth(next, j) in used
        decreases d - k
      {
        NthStep(next, k);
        n := (n + 1) % TWO32;
        k := k + 1;
      }
      used := used + {n};
      next := (n + 1) % TWO32;
      issued := issued + {n};
    }

    /** The points of release give back serials that were handed out. */
    method Release(n: nat)
      requires Valid() && n in issued
      modifies this
      ensures Valid() && used == old(used) - {n} && next == old(next) && issued == old(issued)
    {
      used := used - {n};
    }
  }

  // ---------------------------------------------------------------- runs

  datatype Pool = Pool(next: nat, used: set<nat>)
  datatype Event = Issue(n: nat) | Release(n: nat)

  /** A history of allocations and releases from a new connection, each release of a serial issued before. */
  ghost predicate History(events: seq<Event>, p: Pool) {
    if events == [] then p == Pool(1, {0})
    else
      var front, last := events[..|events| - 1], events[|events| - 1];
      exists q :: History(front, q) &&
        match last
        case Issue(n) => FirstFree(q.next, q.used, n) && p == Pool((n + 1) % TWO32, q.used + {n})
        case Release(n) => Issue(n) in front && p == Pool(q.next, q.used - {n})
  }

  /** The serials in use after a history: those whose last event is an allocation. */
  predicate InUse(events: seq<Event>, n: nat) {
    if events == [] then false
    else
      var last := events[|events| - 1];
      if last.n == n then last.Issue? else InUse(events[..|events| - 1], n)
  }

  /** No history ever issues 0, or a serial that is still in use. */
  lemma {:induction false} NeverZeroNorUsed(events: seq<Event>, p: Pool)
    requires History(events, p)
    ensures Issue(0) !in events
    ensures forall n: nat :: n in p.used <==> n == 0 || InUse(events, n)
    ensures forall i | 0 <= i < |events| && events[i].Issue? :: !InUse(events[..i], events[i].n)
  {
    if events != [] {
      var front, last := events[..|events| - 1], events[|events| - 1];
      var q :| History(front, q) &&
        match last
        case Issue(n) => FirstFree(q.next, q.used, n) && p == Pool((n + 1) % TWO32, q.used + {n})
        case Release(n) => Issue(n) in front && p == Pool(q.next, q.used - {n});
      NeverZeroNorUsed(front, q);
      assert events == front + [last];
      forall i | 0 <= i < |events| && events[i].Issue? ensures !InUse(events[..i], events[i].n) {
        if i < |front| {
          assert events[..i] == front[..i];
        }
      }
    }
  }
}

module Addresses {
  import opened ByteOrder

  function Ones(n: nat): (s: seq<byte>)
    ensures |s| == n
  {
    seq(n, _ => 255)
  }

  lemma {:induction false} Carry(p: seq<byte>, b: byte, k: nat)
    requires b < 255
    ensures GetUint(Big, p + [b + 1] + Zeros(k)) == GetUint(Big, p + [b] + Ones(k)) + 1
  {
    var s, t := p + [b + 1] + Zeros(k), p + [b] + Ones(k);
    if k == 0 {
      assert s[..|s| - 1] == p && t[..|t| - 1] == p;
    } else {
      assert s[..|s| - 1] == p + [b + 1] + Zeros(k - 1) && t[..|t| - 1] == p + [b] + Ones(k - 1);
      Carry(p, b, k - 1);
    }
  }

  /** t is one more than s, as big-endian numbers of the same width, unless s is the largest. */
  predicate Successor(s: seq<byte>, t: seq<byte>) {
    var n := GetUint(Big, s);
    |t| == |s| && GetUint(Big, t) == if n == Pow256(|s|) - 1 then n else n + 1
  }

  lemma Incremented(p: seq<byte>, b: byte, k: nat)
    requires b < 255
    ensures Successor(p + [b] + Ones(k), p + [b + 1] + Zeros(k))
  {
    Carry(p, b, k);
    var t := p + [b + 1] + Zeros(k);
    assert GetUint(Big, t) < Pow256(|t|);
  }

  lemma {:induction false} AllOnes(k: nat)
    ensures GetUint(Big, Ones(k)) == Pow256(k) - 1 && Successor(Ones(k), Ones(k))
  {
    if k > 0 {
      assert Ones(k)[..k - 1] == Ones(k - 1);
      AllOnes(k - 1);
    }
  }

  /** The inner loop: one more at i, nothing behind it. */
  method Bump(a: array<byte>, i: nat)
    requires i < 16 <= a.Length && a[i] < 255
    modifies a
    ensures a[..16] == old(a[..16])[..i] + [old(a[i]) + 1] + Zeros(15 - i)
    ensures a[16..] == old(a[16..])
  {
    assert old(a[..16])[..i] == a[..i];
    a[i] := a[i] + 1;
    for x := i + 1 to 16
      invariant a[..x] == old(a[..i]) + [old(a[i]) + 1] + Zeros(x - i - 1)
      invariant a[16..] == old(a[16..])
    {
      a[x] := 0;
      assert a[..x + 1] == a[..x] + [0];
    }
  }

  lemma Split16(s: seq<byte>, i: nat)
    requires i < |s| && forall j | i < j < |s| :: s[j] == 255
    ensures s == s[..i] + [s[i]] + Ones(|s| - 1 - i)
  {}

  /** What Bump writes when only ones follow i is the next number. */
  lemma NextValue(s: seq<byte>, i: nat)
    requires i < |s| && s[i] < 255 && forall j | i < j < |s| :: s[j] == 255
    ensures Successor(s, s[..i] + [s[i] + 1] + Zeros(|s| - 1 - i))
  {
    hide Successor;
    Split16(s, i);
    Incremented(s[..i], s[i], |s| - 1 - i);
  }

  lemma LargestStays(s: seq<byte>)
    requires forall j | 0 <= j < |s| :: s[j] == 255
    ensures Successor(s, s)
  {
    assert s == Ones(|s|);
    AllOnes(|s|);
  }

  /** Adds one, in place, to the 16 bytes taken as a big-endian number; all ones stay as they are. */
  method IpIncrement(a: array<byte>)
    requires a.Length >= 16
    modifies a
    ensures Successor(old(a[..16]), a[..16])
    ensures a[16..] == old(a[16..])
  {
    hide *;
    ghost var s := a[..16];
    var i := 15;
    while i >= 0
      invariant -1 <= i <= 15 && a[..16] == s && a[16..] == old(a[16..])
      invariant forall j | i < j < 16 :: s[j] == 255
    {
      if a[i] < 255 {
        NextValue(s, i);
        Bump(a, i);
        return;
      }
      i := i - 1;
    }
    LargestStays(s);
  }
}
