/** Identifiers of the Chord ring: the 160-bit numbers, read modulo 2^160.

    `InRange` has the branches of the source; every other module reasons about it
    through `Dist`, the clockwise distance, which is a specification-level notion
    (the source's own `distance` is modelled, byte by byte, in module HashBytes). */
module Identifiers {

  const RING_SIZE: nat := 0x1_0000000000_0000000000_0000000000_0000000000

  type Id = x: int | 0 <= x < RING_SIZE

  datatype Option<+T> = None | Some(value: T)

  function Pow2(k: nat): (p: nat)
    ensures p > 0
  {
    if k == 0 then 1 else 2 * Pow2(k - 1)
  }

  lemma {:induction false} Pow2Monotonic(i: nat, j: nat)
    requires i <= j
    ensures Pow2(i) <= Pow2(j)
    decreases j - i
  {
    if i < j { Pow2Monotonic(i + 1, j); }
  }

  lemma Pow2Byte(k: nat)
    ensures Pow2(k + 8) == 256 * Pow2(k)
  {
    assert Pow2(k + 8) == 2 * Pow2(k + 7) == 4 * Pow2(k + 6) == 8 * Pow2(k + 5);
    assert Pow2(k + 5) == 2 * Pow2(k + 4) == 4 * Pow2(k + 3) == 8 * Pow2(k + 2);
    assert Pow2(k + 2) == 2 * Pow2(k + 1) == 4 * Pow2(k);
  }

  lemma Pow2Word(k: nat)
    ensures Pow2(k + 40) == 0x100_0000_0000 * Pow2(k)
  {
    Pow2Byte(k + 32);
    Pow2Byte(k + 24);
    Pow2Byte(k + 16);
    Pow2Byte(k + 8);
    Pow2Byte(k);
  }

  lemma RingSizeIsPow2(bits: nat)
    requires bits == 160
    ensures Pow2(bits) == RING_SIZE
  {
    Pow2Word(bits - 40);
    Pow2Word(bits - 80);
    Pow2Word(bits - 120);
    Pow2Word(bits - 160);
    assert Pow2(bits - 160) == 1;
  }

  /** Clockwise distance from `a` to `b`. */
  function Dist(a: Id, b: Id): Id {
    if a <= b then b - a else b - a + RING_SIZE
  }

  /** `a + d` on the ring. */
  function Advance(a: Id, d: Id): Id {
    if a + d < RING_SIZE then a + d else a + d - RING_SIZE
  }

  predicate InRange(id: Id, start: Id, end: Id, inclusiveEnd: bool) {
    if start == end then
      inclusiveEnd && id == start
    else if start < end then
      id > start && (if inclusiveEnd then id <= end else id < end)
    else
      id > start || (if inclusiveEnd then id <= end else id < end)
  }

  /** The three comparisons of the source mean "strictly after `start` and not past
      `end`, clockwise". When the end points coincide the interval is not the whole
      ring but the single point (closed end) or nothing (open end). */
  lemma InRangeIsCyclic(id: Id, start: Id, end: Id)
    ensures start != end ==> (InRange(id, start, end, true) <==> 0 < Dist(start, id) <= Dist(start, end))
    ensures InRange(id, start, end, false) <==> 0 < Dist(start, id) < Dist(start, end)
    ensures start == end ==> (InRange(id, start, end, true) <==> id == start)
  {
  }

  /** Going from `a` to `c` through a point `b` that lies on the way. */
  lemma DistSplits(a: Id, b: Id, c: Id)
    requires Dist(a, b) <= Dist(a, c)
    ensures Dist(a, c) == Dist(a, b) + Dist(b, c)
  {
  }

  /** A point between `p` and `r` is at least as far behind `r` as `p` is ahead of it. */
  lemma DistTurn(p: Id, z: Id, r: Id)
    requires Dist(p, z) < Dist(p, r)
    ensures Dist(r, p) <= Dist(r, z)
  {
  }

  /** Of three points, either `b` comes before `c` going clockwise from `a`, or after. */
  lemma DistOrder(a: Id, b: Id, c: Id)
    requires a != c
    ensures Dist(a, b) < Dist(a, c) || Dist(c, b) < Dist(c, a)
  {
  }
}
