/** Identifiers as the source stores them: 20 bytes, most significant first. The byte
    loops are proved to compute on the numbers the bytes stand for. */
module HashBytes {
  import opened Bytes
  import opened Identifiers

  const HASH_BYTES: nat := 20

  type Hash160 = s: seq<Byte> | |s| == HASH_BYTES witness seq(HASH_BYTES, _ => 0)

  // ---------------------------------------------------------------- the number of a byte string

  function Value(s: seq<Byte>): nat {
    if s == [] then 0 else 256 * Value(s[..|s| - 1]) + s[|s| - 1]
  }

  /** 256^n */
  function Base(n: nat): (b: nat)
    ensures b > 0
  {
    if n == 0 then 1 else 256 * Base(n - 1)
  }

  lemma {:induction false} BaseIsPow2(q: nat, r: nat)
    ensures Pow2(8 * q + r) == Pow2(r) * Base(q)
  {
    if q > 0 {
      BaseIsPow2(q - 1, r);
      Pow2Byte(8 * (q - 1) + r);
      assert Pow2(r) * Base(q) == 256 * (Pow2(r) * Base(q - 1));
    }
  }

  lemma Pow2Zero()
    ensures Pow2(0) == 1
  {
  }

  lemma BaseIsRing(n: nat)
    requires n == HASH_BYTES
    ensures Base(n) == RING_SIZE
  {
    hide Base, Pow2;
    Pow2Zero();
    BaseIsPow2(n, 0);
    RingSizeIsPow2(8 * n);
  }

  lemma {:induction false} ValueBound(s: seq<Byte>)
    ensures Value(s) < Base(|s|)
  {
    if s != [] { ValueBound(s[..|s| - 1]); }
  }

  function Number(h: Hash160): Id {
    ValueBound(h);
    BaseIsRing(|h|);
    Value(h)
  }

  lemma {:induction false} ValueFront(s: seq<Byte>)
    requires s != []
    ensures Value(s) == s[0] * Base(|s| - 1) + Value(s[1..])
  {
    if |s| > 1 {
      var init := s[..|s| - 1];
      ValueFront(init);
      assert init[1..] == s[1..][..|s| - 2];
      var lead: int := s[0];
      assert Base(|s| - 1) == 256 * Base(|s| - 2);
      assert lead * Base(|s| - 1) == 256 * (lead * Base(|s| - 2));
    } else {
      assert s[..0] == [] && s[1..] == [];
    }
  }

  /** The most significant byte comes first. */
  lemma ValueAnchor(hi: Byte, lo: Byte)
    ensures Value([hi, lo]) == 256 * hi + lo
  {
    assert [hi, lo][..1] == [hi] && [hi][..0] == [];
    assert Value([hi]) == hi;
    assert [hi, lo][1] == lo;
  }

  lemma {:induction false} ValueUpdate(s: seq<Byte>, i: nat, b: Byte)
    requires i < |s|
    ensures Value(s[i := b]) == Value(s) + (b as int - s[i] as int) * Base(|s| - 1 - i)
  {
    var init := s[..|s| - 1];
    if i == |s| - 1 {
      assert s[i := b][..|s| - 1] == init;
    } else {
      ValueUpdate(init, i, b);
      assert s[i := b][..|s| - 1] == init[i := b];
      ScaleUp(b as int - s[i] as int, Base(|s| - 2 - i));
    }
  }

  lemma ScaleUp(d: int, weight: nat)
    ensures d * (256 * weight) == 256 * (d * weight)
  {
  }

  // ---------------------------------------------------------------- comparison

  /** `memcmp`: decided by the first byte that differs. */
  function Compare(a: seq<Byte>, b: seq<Byte>): int
    requires |a| == |b|
  {
    if a == [] then 0
    else if a[0] != b[0] then a[0] as int - b[0] as int
    else Compare(a[1..], b[1..])
  }

  /** Lexicographic order of the bytes is numeric order. */
  lemma {:induction false} CompareIsNumeric(a: seq<Byte>, b: seq<Byte>)
    requires |a| == |b|
    ensures Compare(a, b) < 0 <==> Value(a) < Value(b)
    ensures Compare(a, b) == 0 <==> Value(a) == Value(b)
    ensures Compare(a, b) == 0 <==> a == b
  {
    if a != [] {
      ValueFront(a);
      ValueFront(b);
      ValueBound(a[1..]);
      ValueBound(b[1..]);
      if a[0] == b[0] {
        CompareIsNumeric(a[1..], b[1..]);
        assert a == [a[0]] + a[1..] && b == [b[0]] + b[1..];
      } else {
        LeadDecides(a[0], b[0], Value(a[1..]), Value(b[1..]), Base(|a| - 1));
        LeadDecides(b[0], a[0], Value(b[1..]), Value(a[1..]), Base(|a| - 1));
      }
    }
  }

  lemma LeadDecides(x: int, y: int, r: nat, q: nat, base: nat)
    requires r < base && q < base
    ensures x < y ==> x * base + r < y * base + q
  {
    if x < y {
      var gap: nat := y - x - 1;
      Distribute(x, 1 + gap, base);
      Distribute(1, gap, base);
    }
  }

  lemma Distribute(a: int, b: nat, c: nat)
    ensures (a + b) * c == a * c + b * c && b * c >= 0
  {
  }

  predicate InRangeBytes(id: Hash160, start: Hash160, end: Hash160, inclusiveEnd: bool) {
    if Compare(start, end) == 0 then
      inclusiveEnd && Compare(id, start) == 0
    else if Compare(start, end) < 0 then
      Compare(id, start) > 0 && (if inclusiveEnd then Compare(id, end) <= 0 else Compare(id, end) < 0)
    else
      Compare(id, start) > 0 || (if inclusiveEnd then Compare(id, end) <= 0 else Compare(id, end) < 0)
  }

  /** `in_range` on bytes is the cyclic interval on the identifiers they encode, except
      that equal end points do not mean the whole ring. */
  lemma InRangeBytesIsCyclic(id: Hash160, start: Hash160, end: Hash160, inclusiveEnd: bool)
    ensures InRangeBytes(id, start, end, inclusiveEnd) <==>
        InRange(Number(id), Number(start), Number(end), inclusiveEnd)
    ensures start != end ==>
              (InRangeBytes(id, start, end, inclusiveEnd) <==>
                 0 < Dist(Number(start), Number(id)) <= Dist(Number(start), Number(end)) &&
                 (inclusiveEnd || id != end))
  {
    CompareIsNumeric(start, end);
    CompareIsNumeric(id, start);
    CompareIsNumeric(id, end);
    InRangeIsCyclic(Number(id), Number(start), Number(end));
    hide Compare, Value;
  }

  // ---------------------------------------------------------------- adding a power of two

  /** Carry propagation, in place. */
  method AddPowerOfTwo(base: Hash160, power: int) returns (sum: Hash160)
    ensures !(0 <= power < 160) ==> sum == base
    ensures 0 <= power < 160 ==> Number(sum) == (Number(base) + Pow2(power)) % RING_SIZE
  {
    if power < 0 || power >= 160 {
      return base;
    }
    var result := new Byte[HASH_BYTES](i requires 0 <= i < HASH_BYTES => base[i]);
    assert result[..] == base;
    var byteIndex: int := 19 - power / 8;
    var bitIndex := power % 8;
    hide Value, Pow2, Base, Number;
    BitFitsByte(bitIndex);
    PowerParts(power);
    BaseIsRing(20);
    var carry := Propagate(result, byteIndex, Pow2(bitIndex));
    sum := result[..];
    ValueBound(sum);
    Wrap(Value(sum), Value(base) + Pow2(power), carry);
    NumberIsValue(sum);
    NumberIsValue(base);
  }

  /** The loop: adds `inc` to byte `byteIndex` and carries towards the first byte. */
  method Propagate(result: array<Byte>, byteIndex: nat, inc: nat) returns (carry: bool)
    requires byteIndex < result.Length && inc <= 128
    modifies result
    ensures Value(result[..]) + (if carry then Base(result.Length) else 0)
            == old(Value(result[..])) + inc * Base(result.Length - 1 - byteIndex)
  {
    hide Value, Base;
    ghost var total: int := Value(result[..]) + inc * Base(result.Length - 1 - byteIndex);
    carry := AddToByte(result, byteIndex, inc);
    var i: int := byteIndex - 1;
    while i >= 0 && carry
      invariant -1 <= i < byteIndex
      invariant Value(result[..]) + (if carry then Base(result.Length - 1 - i) else 0) == total
    {
      carry := AddToByte(result, i, 1);
      i := i - 1;
    }
  }

  lemma NumberIsValue(h: Hash160)
    ensures Number(h) == Value(h)
  {
  }

  /** 2^power is a single bit of byte `19 - power / 8`. */
  lemma PowerParts(power: nat)
    ensures Pow2(power) == Pow2(power % 8) * Base(power / 8)
  {
    BaseIsPow2(power / 8, power % 8);
  }

  /** The finger starts of the routing layer are these sums. */
  lemma AdvanceIsSum(n: Id, power: nat)
    requires power < 160
    ensures Pow2(power) < RING_SIZE && Advance(n, Pow2(power)) == (n + Pow2(power)) % RING_SIZE
  {
    RingSizeIsPow2(160);
    Pow2Monotonic(power + 1, 160);
    var sum: nat := n + Pow2(power);
    Wrap(Advance(n, Pow2(power)), sum, sum >= RING_SIZE);
  }

  /** Adds `inc` to one byte and reports the carry. */
  method AddToByte(result: array<Byte>, i: nat, inc: nat) returns (carry: bool)
    requires i < result.Length && inc <= 128
    modifies result
    ensures Value(result[..]) + (if carry then Base(result.Length - i) else 0)
            == old(Value(result[..])) + inc * Base(result.Length - 1 - i)
  {
    ghost var before := result[..];
    var s: int := result[i] as int + inc;
    ghost var b: Byte := s % 256;
    ValueUpdate(before, i, b);
    CarryStep(before[i], b, inc, s, Base(result.Length - 1 - i));
    result[i] := s % 256;
    assert result[..] == before[i := b];
    return s > 255;
  }

  lemma BitFitsByte(k: nat)
    requires k < 8
    ensures Pow2(k) <= 128
  {
    Pow2Monotonic(k, 7);
    assert Pow2(7) == 2 * Pow2(6) == 4 * Pow2(5) == 8 * Pow2(4);
    assert Pow2(4) == 2 * Pow2(3) == 4 * Pow2(2) == 8 * Pow2(1);
  }

  lemma CarryStep(was: Byte, now: Byte, inc: nat, s: int, weight: nat)
    requires s == was as int + inc && s < 512 && now == s % 256
    ensures (now as int - was as int) * weight == inc * weight - (if s > 255 then 256 * weight else 0)
  {
    if s > 255 {
      assert now as int - was as int == inc - 256;
      assert (inc - 256) * weight == inc * weight - 256 * weight;
    }
  }

  lemma Wrap(v: nat, total: int, carry: bool)
    requires v < RING_SIZE && v + (if carry then RING_SIZE else 0) == total
    ensures v == total % RING_SIZE
  {
  }

  // ---------------------------------------------------------------- distance

  /** The borrow loop, from the last byte to the first. */
  method Subtract(to: Hash160, from: Hash160) returns (diff: Hash160)
    requires Value(to) >= Value(from)
    ensures Value(diff) == Value(to) - Value(from)
  {
    hide Value, Base, SubtractedFrom;
    diff := seq(HASH_BYTES, _ => 0);
    var borrow := false;
    NothingSubtracted(diff, to, from);
    var i: int := 19;
    while i >= 0
      invariant -1 <= i <= 19 && |diff| == 20 && SubtractedFrom(diff, to, from, i + 1, borrow)
    {
      var d: int := to[i] as int - from[i] as int - if borrow then 1 else 0;
      ghost var taken := borrow;
      if d < 0 {
        d := d + 256;
        borrow := true;
      } else {
        borrow := false;
      }
      BorrowStep(diff, to, from, i, d, taken, borrow);
      diff := diff[i := d];
      i := i - 1;
    }
    AllSubtracted(diff, to, from, borrow);
  }

  /** The bytes from position `i` on are subtracted, with a borrow outstanding or not. */
  ghost predicate SubtractedFrom(diff: seq<Byte>, to: seq<Byte>, from: seq<Byte>, i: nat, borrow: bool) {
    && |diff| == |to| == |from| && i <= |diff|
    && Value(diff[i..]) == Value(to[i..]) - Value(from[i..]) + if borrow then Base(|diff| - i) else 0
  }

  lemma NothingSubtracted(diff: seq<Byte>, to: seq<Byte>, from: seq<Byte>)
    requires |diff| == |to| == |from|
    ensures SubtractedFrom(diff, to, from, |diff|, false)
  {
    assert to[|to|..] == [] && from[|to|..] == [] && diff[|to|..] == [];
  }

  lemma AllSubtracted(diff: seq<Byte>, to: seq<Byte>, from: seq<Byte>, borrow: bool)
    requires SubtractedFrom(diff, to, from, 0, borrow) && Value(to) >= Value(from)
    ensures Value(diff) == Value(to) - Value(from)
  {
    hide Value, Base;
    assert diff[0..] == diff && to[0..] == to && from[0..] == from;
    ValueBound(diff);
    ValueBound(to);
  }

  lemma BorrowStep(diff: seq<Byte>, to: seq<Byte>, from: seq<Byte>, i: nat, d: Byte, taken: bool, borrow: bool)
    requires SubtractedFrom(diff, to, from, i + 1, taken)
    requires d as int == to[i] as int - from[i] as int - (if taken then 1 else 0) + if borrow then 256 else 0
    ensures SubtractedFrom(diff[i := d], to, from, i, borrow)
  {
    hide Value, Base;
    var now, weight := diff[i := d], Base(|diff| - 1 - i);
    assert now[i..][1..] == diff[i + 1..] && to[i..][1..] == to[i + 1..] && from[i..][1..] == from[i + 1..];
    ValueFront(now[i..]);
    ValueFront(to[i..]);
    ValueFront(from[i..]);
    BaseStep(|diff| - i);
    var extra := if borrow then 256 else 0;
    Expand(to[i] as int + extra, from[i], if taken then 1 else 0, weight);
    Distribute(to[i], extra, weight);
  }

  lemma BaseStep(n: nat)
    requires n > 0
    ensures Base(n) == 256 * Base(n - 1)
  {
  }

  lemma Expand(t: int, f: int, taken: int, weight: nat)
    ensures (t - f - taken) * weight == t * weight - f * weight - taken * weight
  {
  }

  const ZERO_HASH: Hash160 := seq(HASH_BYTES, _ => 0)
  const MAX_HASH: Hash160 := seq(HASH_BYTES, _ => 0xFF)

  lemma {:induction false} ZeroIsZero(s: seq<Byte>)
    requires forall i :: 0 <= i < |s| ==> s[i] == 0
    ensures Value(s) == 0
  {
    if s != [] { ZeroIsZero(s[..|s| - 1]); }
  }

  lemma {:induction false} MaxIsMax(s: seq<Byte>)
    requires forall i :: 0 <= i < |s| ==> s[i] == 0xFF
    ensures Value(s) == Base(|s|) - 1
  {
    if s != [] { MaxIsMax(s[..|s| - 1]); }
  }

  /** `distance`, including its wrap-around branch, which adds one to `to` and ignores `from`. */
  method Distance(from: Hash160, to: Hash160) returns (d: Hash160)
    ensures Number(d) == if Number(to) >= Number(from) then Number(to) - Number(from) else Number(to) + 1
    decreases Compare(to, from) < 0
  {
    hide Value, Base, Compare, Number, Pow2;
    CompareIsNumeric(to, from);
    ZeroIsZero(ZERO_HASH);
    MaxIsMax(MAX_HASH);
    NumberIsValue(to);
    NumberIsValue(from);
    if Compare(to, from) >= 0 {
      d := Subtract(to, from);
      NumberIsValue(d);
    } else {
      CompareIsNumeric(MAX_HASH, from);
      CompareIsNumeric(to, ZERO_HASH);
      BaseIsRing(20);
      ValueBound(from);
      NumberIsValue(MAX_HASH);
      NumberIsValue(ZERO_HASH);
      Pow2Zero();
      var temp := Distance(from, MAX_HASH);
      var rest := Distance(ZERO_HASH, to);
      d := AddPowerOfTwo(rest, 0);
    }
  }

  /** It is the clockwise distance exactly when nothing wraps, or `from` is the last identifier. */
  lemma DistanceIsClockwiseIff(from: Id, to: Id)
    ensures (if to >= from then to - from else to + 1) == Dist(from, to) <==> (to >= from || from == RING_SIZE - 1)
  {
  }
}
