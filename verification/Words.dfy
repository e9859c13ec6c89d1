/** 32-bit counters, ring indices and the capacity check. */
module Words {

  /** One past the largest 32-bit word; every counter is kept modulo this value. */
  const WORD: nat := 0x1_0000_0000

  const MAX_CAPACITY: nat := 0x8000_0000

  type byte = x: int | 0 <= x < 256

  function Min(a: int, b: int): int {
    if a < b then a else b
  }

  /** Unsigned 32-bit addition and subtraction, with wrap-around. */
  function WrapAdd(a: nat, b: nat): nat {
    (a + b) % WORD
  }

  function WrapSub(a: nat, b: nat): nat {
    (a - b) % WORD
  }

  /** The bitwise `&` of two non-negative integers, one binary digit at a time. */
  function BitAnd(a: nat, b: nat): nat {
    if a == 0 || b == 0 then 0
    else 2 * BitAnd(a / 2, b / 2) + if a % 2 == 1 && b % 2 == 1 then 1 else 0
  }

  function Pow2(k: nat): nat {
    if k == 0 then 1 else 2 * Pow2(k - 1)
  }

  /** The guard of validateCapacity, negated, with the tests in the source's order. */
  predicate ValidCapacity(c: int) {
    !(c <= 0 || c > MAX_CAPACITY || BitAnd(c, c - 1) != 0)
  }

  type Capacity = c: nat | 0 < c <= MAX_CAPACITY && ValidCapacity(c) witness 1

  /** The place of byte number `k` of the stream in a ring of `cap` bytes. */
  function Slot(k: nat, cap: nat): (s: nat)
    requires cap > 0
    ensures s < cap
  {
    k % cap
  }

  /** Where a copy that starts at `start` and splits at the end of the ring puts its byte `i`. */
  function SplitIndex(start: nat, i: nat, cap: nat): nat {
    if start + i < cap then start + i else start + i - cap
  }

  // ---- The distance between two wrapped counters -------------------------------------

  lemma WrapSubIsDistance(a: nat, b: nat)
    requires b <= a < b + WORD
    ensures WrapSub(a % WORD, b % WORD) == a - b
  {
  }

  lemma WrapAddTracks(a: nat, n: nat)
    ensures WrapAdd(a % WORD, n) == (a + n) % WORD
  {
  }

  /** Two counters less than 2^32 apart show the same word only when they are equal. */
  lemma SameWordSameCounter(a: nat, b: nat)
    requires b <= a < b + WORD
    ensures a % WORD == b % WORD <==> a == b
  {
  }

  // ---- Powers of two -----------------------------------------------------------------

  lemma Pow2Positive(k: nat)
    ensures Pow2(k) >= 1
  {
  }

  lemma {:induction false} Pow2Adds(a: nat, b: nat)
    ensures Pow2(a + b) == Pow2(a) * Pow2(b)
  {
    if a != 0 {
      Pow2Adds(a - 1, b);
      assert a + b - 1 == (a - 1) + b;
      assert 2 * (Pow2(a - 1) * Pow2(b)) == (2 * Pow2(a - 1)) * Pow2(b);
    }
  }

  lemma {:induction false} Pow2Grows(a: nat, b: nat)
    requires a < b
    ensures Pow2(a) < Pow2(b)
    decreases b
  {
    Pow2Positive(a);
    if a < b - 1 {
      Pow2Grows(a, b - 1);
    }
  }

  lemma WordIsPow2()
    ensures Pow2(31) == MAX_CAPACITY && Pow2(32) == WORD
  {
    assert Pow2(8) == 256;
    Pow2Adds(8, 8);
    Pow2Adds(16, 8);
    Pow2Adds(24, 7);
  }

  // ---- Division with a variable divisor ----------------------------------------------

  lemma MulStep(m: nat, a: int, b: int)
    requires a < b
    ensures m * a + m <= m * b
    decreases b - a
  {
    MulDistributes(m, b - 1, 1);
    if a < b - 1 {
      MulStep(m, a, b - 1);
    }
  }

  /** A remainder is determined by any representation of the number. */
  lemma ModUnique(x: nat, m: nat, q: int, r: nat)
    requires r < m
    requires x == m * q + r
    ensures x % m == r && x / m == q
  {
    var q', r' := x / m, x % m;
    assert x == m * q' + r';
    if q < q' {
      MulStep(m, q, q');
    }
    if q' < q {
      MulStep(m, q', q);
    }
  }

  lemma ModOfMultiple(x: nat, m: nat, w: nat, d: nat)
    requires m > 0 && w == m * d && w > 0
    ensures (x % w) % m == x % m
  {
    var q, r := x / w, x % w;
    var q', r' := r / m, r % m;
    calc {
      x;
      w * q + r;
      (m * d) * q + r;
      { MulAssoc(m, d, q); }
      m * (d * q) + (m * q' + r');
      { MulDistributes(m, d * q, q'); }
      m * (d * q + q') + r';
    }
    ModUnique(x, m, d * q + q', r');
  }

  lemma MulAssoc(a: int, b: int, c: int)
    ensures (a * b) * c == a * (b * c)
  {
  }

  lemma MulDistributes(a: int, b: int, c: int)
    ensures a * (b + c) == a * b + a * c
  {
  }

  lemma ModDouble(x: nat, m: nat)
    requires m > 0
    ensures x % (2 * m) == 2 * ((x / 2) % m) + x % 2
  {
    var q, r := (x / 2) / m, (x / 2) % m;
    assert x / 2 == m * q + r;
    assert x == 2 * (m * q + r) + x % 2;
    assert 2 * (m * q) == (2 * m) * q;
    ModUnique(x, 2 * m, q, 2 * r + x % 2);
  }

  // ---- The capacity check and the mask -----------------------------------------------

  lemma {:induction false} BitAndSelf(a: nat)
    ensures BitAnd(a, a) == a
  {
    if a != 0 {
      BitAndSelf(a / 2);
    }
  }

  lemma {:induction false} SingleBit(c: nat) returns (k: nat)
    requires c > 0 && BitAnd(c, c - 1) == 0
    ensures c == Pow2(k)
  {
    if c == 1 {
      k := 0;
    } else if c % 2 == 1 {
      assert c / 2 == (c - 1) / 2;
      BitAndSelf(c / 2);
      assert false;
    } else {
      assert (c - 1) / 2 == c / 2 - 1;
      k := SingleBit(c / 2);
      k := k + 1;
    }
  }

  lemma {:induction false} Pow2HasSingleBit(k: nat)
    ensures Pow2(k) > 0 && BitAnd(Pow2(k), Pow2(k) - 1) == 0
  {
    if k != 0 {
      Pow2HasSingleBit(k - 1);
      var h := Pow2(k - 1);
      assert (2 * h - 1) / 2 == h - 1;
    }
  }

  /** validateCapacity accepts exactly the powers of two up to 2^31. */
  lemma CapacityCheckIsExact(c: int)
    ensures ValidCapacity(c) <==> exists k: nat :: k <= 31 && c == Pow2(k)
  {
    WordIsPow2();
    if ValidCapacity(c) {
      var k := SingleBit(c);
      if k > 31 {
        Pow2Grows(31, k);
      }
    }
    forall k: nat | k <= 31 && c == Pow2(k)
      ensures ValidCapacity(c)
    {
      Pow2HasSingleBit(k);
      if k < 31 {
        Pow2Grows(k, 31);
      }
    }
  }

  /** Masking with a power of two less one takes the remainder, for every counter value. */
  lemma {:induction false} MaskIsMod(x: nat, k: nat)
    ensures Pow2(k) > 0 && BitAnd(x, Pow2(k) - 1) == x % Pow2(k)
  {
    Pow2Positive(k);
    if k != 0 {
      var m := Pow2(k - 1);
      MaskIsMod(x / 2, k - 1);
      assert (2 * m - 1) / 2 == m - 1;
      ModDouble(x, m);
      if x != 0 && m == 1 {
        assert BitAnd(x, 1) == 2 * BitAnd(x / 2, 0) + if x % 2 == 1 then 1 else 0;
      }
    }
  }

  /** A masked 32-bit counter points at the slot of the true, unwrapped counter: the capacity
      divides 2^32, so wrapping the counter does not move the index. */
  lemma MaskedWordIsSlot(x: nat, cap: nat)
    requires ValidCapacity(cap)
    ensures BitAnd(x % WORD, cap - 1) == Slot(x, cap)
  {
    CapacityCheckIsExact(cap);
    var k: nat :| k <= 31 && cap == Pow2(k);
    MaskIsMod(x % WORD, k);
    WordIsPow2();
    Pow2Adds(k, 32 - k);
    ModOfMultiple(x, cap, WORD, Pow2(32 - k));
  }

  // ---- Ring slots --------------------------------------------------------------------

  /** Stream positions less than one capacity apart never share a slot. */
  lemma SlotsDistinct(a: nat, b: nat, cap: nat)
    requires cap > 0 && a < b < a + cap
    ensures Slot(a, cap) != Slot(b, cap)
  {
    var q, r := a / cap, a % cap;
    assert b == cap * q + (r + (b - a));
    if r + (b - a) < cap {
      ModUnique(b, cap, q, r + (b - a));
    } else {
      MulDistributes(cap, q, 1);
      ModUnique(b, cap, q + 1, r + (b - a) - cap);
    }
  }

  /** The two-segment copy puts byte `i` exactly where modular indexing puts it. */
  lemma SplitIsSlot(t: nat, i: nat, cap: nat)
    requires cap > 0 && i < cap
    ensures SplitIndex(Slot(t, cap), i, cap) == Slot(t + i, cap)
  {
    var q, r := t / cap, t % cap;
    assert t == cap * q + r;
    if r + i < cap {
      ModUnique(t + i, cap, q, r + i);
    } else {
      MulDistributes(cap, q, 1);
      ModUnique(t + i, cap, q + 1, r + i - cap);
    }
  }

  /** The same from a 32-bit counter: mask it, split at the end of the ring, and byte `i` lands in the
      slot of the true counter plus `i`, even when the counter wraps on the way. */
  lemma IndexIsSlot(t: nat, i: nat, cap: Capacity)
    requires i < cap
    ensures BitAnd(t % WORD, cap - 1) < cap
    ensures SplitIndex(BitAnd(t % WORD, cap - 1), i, cap) == Slot(t + i, cap)
  {
    MaskedWordIsSlot(t, cap);
    SplitIsSlot(t, i, cap);
  }

  // ---- A stream held in a ring -------------------------------------------------------

  /** Every byte from position `from` of the stream to its end is in its slot. */
  ghost predicate Stored(data: seq<byte>, log: seq<byte>, from: nat, cap: Capacity) {
    && |data| == cap
    && forall k {:trigger log[k]} :: from <= k < |log| ==> data[Slot(k, cap)] == log[k]
  }

  /** Copying the next byte of the stream leaves every byte the Reader still needs in place. */
  lemma PutKeepsStored(data: seq<byte>, log: seq<byte>, from: nat, cap: Capacity, b: byte)
    requires Stored(data, log, from, cap)
    requires from <= |log| < from + cap
    ensures Stored(data[Slot(|log|, cap) := b], log + [b], from, cap)
  {
    var log' := log + [b];
    forall k {:trigger log'[k]} | from <= k < |log'|
      ensures data[Slot(|log|, cap) := b][Slot(k, cap)] == log'[k]
    {
      if k < |log| {
        assert log'[k] == log[k];
        SlotsDistinct(k, |log|, cap);
      }
    }
  }

  /** The Writer learning of a newer head only shortens what has to be in place. */
  lemma StoredFromLater(data: seq<byte>, log: seq<byte>, from: nat, from': nat, cap: Capacity)
    requires Stored(data, log, from, cap) && from <= from'
    ensures Stored(data, log, from', cap)
  {
  }
}
