/** Fixed-width integers as bytes, in both byte orders. */
module ByteOrder {
  type byte = x: int | 0 <= x < 256

  datatype Order = Little | Big

  function Pow256(w: nat): (r: nat)
    ensures r >= 1
  {
    if w == 0 then 1 else 256 * Pow256(w - 1)
  }

  /** The w low-order bytes of n. */
  function PutUint(o: Order, n: nat, w: nat): (s: seq<byte>)
    ensures |s| == w
  {
    if w == 0 then []
    else if o.Little? then [n % 256] + PutUint(o, n / 256, w - 1)
    else PutUint(o, n / 256, w - 1) + [n % 256]
  }

  function GetUint(o: Order, s: seq<byte>): (n: nat)
    ensures n < Pow256(|s|)
  {
    if s == [] then 0
    else if o.Little? then s[0] + 256 * GetUint(o, s[1..])
    else GetUint(o, s[..|s| - 1]) * 256 + s[|s| - 1]
  }

  lemma {:induction false} GetPut(o: Order, n: nat, w: nat)
    requires n < Pow256(w)
    ensures GetUint(o, PutUint(o, n, w)) == n
  {
    if w > 0 {
      GetPut(o, n / 256, w - 1);
      var s := PutUint(o, n, w);
      if o.Little? {
        assert s[1..] == PutUint(o, n / 256, w - 1);
      } else {
        assert s[..w - 1] == PutUint(o, n / 256, w - 1);
      }
    }
  }

  /** The alignments that occur, all powers of two. Masking with ^(n-1), as the source does,
      rounds down to a multiple of n. */
  type Alignment = n: nat | n == 1 || n == 2 || n == 4 || n == 8 witness 1

  /** Bytes needed to bring pos to a multiple of n. */
  function Padding(pos: nat, n: Alignment): (p: nat)
    ensures p < n
  {
    if pos >= n then Padding(pos - n, n) else if pos == 0 then 0 else n - pos
  }

  lemma {:induction false} Aligned(pos: nat, n: Alignment)
    ensures Padding(pos + Padding(pos, n), n) == 0
  {
    if pos >= n {
      Aligned(pos - n, n);
    }
  }

  lemma PaddingMinus8(pos: nat, n: Alignment)
    requires pos >= 8
    ensures Padding(pos, n) == Padding(pos - 8, n)
  {
    if n < 8 {
      assert Padding(pos, n) == Padding(pos - n, n);
      assert Padding(pos - n, n) == Padding(pos - 2 * n, n);
      if n < 4 {
        assert Padding(pos - 2 * n, n) == Padding(pos - 3 * n, n);
        assert Padding(pos - 3 * n, n) == Padding(pos - 4 * n, n);
        if n < 2 {
          assert Padding(pos - 4, 1) == Padding(pos - 5, 1);
          assert Padding(pos - 5, 1) == Padding(pos - 6, 1);
          assert Padding(pos - 6, 1) == Padding(pos - 7, 1);
        }
      }
    }
  }

  lemma {:induction false} PaddingMod8(pos: nat, pos': nat, n: Alignment)
    requires pos % 8 == pos' % 8
    ensures Padding(pos, n) == Padding(pos', n)
    decreases pos + pos'
  {
    if pos >= 8 {
      PaddingMinus8(pos, n);
      PaddingMod8(pos - 8, pos', n);
    } else if pos' >= 8 {
      PaddingMinus8(pos', n);
      PaddingMod8(pos, pos' - 8, n);
    }
  }

  function Zeros(n: nat): (z: seq<byte>)
    ensures |z| == n
  {
    seq(n, _ => 0)
  }

  lemma Cut<A>(a: seq<A>, b: seq<A>)
    ensures (a + b)[..|a|] == a && (a + b)[|a|..] == b
  {}

  lemma Assoc<A>(a: seq<A>, b: seq<A>, c: seq<A>)
    ensures (a + b) + c == a + (b + c)
  {}
}
