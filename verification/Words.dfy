// 64-bit words, and the order that `circular_less_than` gives them.
module Words {

  const W: int := 0x1_0000_0000_0000_0000
  const HALF: int := 0x8000_0000_0000_0000

  function Wrap(a: int): nat { a % W }

  function CircularLessThan(a: nat, b: nat): bool { Wrap(a - b) > HALF }

  // ---------------------------------------------------------------- quotients and remainders

  lemma AtLeastOnce(x: int, c: int)
    requires x > 0 && c > 0
    ensures x * c >= c
  {
  }

  lemma DivUnique(a: int, c: int, q: int, r: int)
    requires c > 0 && a == q * c + r && 0 <= r < c
    ensures a / c == q && a % c == r
  {
    var q', r' := a / c, a % c;
    assert a == q' * c + r';
    Quotients(c, q, r, q', r');
  }

  lemma Quotients(c: int, q: int, r: int, p: int, s: int)
    requires c > 0 && q * c + r == p * c + s && 0 <= r < c && 0 <= s < c
    ensures q == p && r == s
  {
    if q > p {
      assert q * c - p * c == (q - p) * c;
      AtLeastOnce(q - p, c);
    } else if q < p {
      assert p * c - q * c == (p - q) * c;
      AtLeastOnce(p - q, c);
    }
  }

  lemma ModMultiple(a: int, k: int, c: int)
    requires c > 0
    ensures (a + k * c) % c == a % c
  {
    assert a + k * c == (a / c + k) * c + a % c;
    DivUnique(a + k * c, c, a / c + k, a % c);
  }

  // ---------------------------------------------------------------- wrapping

  lemma WrapIs(a: int, k: int)
    requires 0 <= a - k * W < W
    ensures Wrap(a) == a - k * W
  {
    DivUnique(a, W, k, a - k * W);
  }

  lemma WrapSub(a: int, b: int)
    ensures Wrap(Wrap(a) - Wrap(b)) == Wrap(a - b)
  {
    assert a - b == Wrap(a) - Wrap(b) + (a / W - b / W) * W;
    ModMultiple(Wrap(a) - Wrap(b), a / W - b / W, W);
  }

  lemma WrapAdd(a: int, b: int)
    ensures Wrap(Wrap(a) + b) == Wrap(a + b)
  {
    assert a + b == Wrap(a) + b + (a / W) * W;
    ModMultiple(Wrap(a) + b, a / W, W);
  }

  /** Reducing modulo the word first changes nothing when the capacity divides the word. */
  lemma ModOfWrap(a: int, c: int, k: int)
    requires c > 0 && W == k * c
    ensures Wrap(a) % c == a % c
  {
    var q := a / W;
    assert a == Wrap(a) + q * W;
    assert q * W == q * (k * c) == (q * k) * c;
    ModMultiple(Wrap(a), q * k, c);
  }

  /** On counters whose true difference fits a signed word, the circular order is the true order. */
  lemma CircularOrder(a: int, b: int)
    requires -HALF < a - b <= HALF
    ensures CircularLessThan(Wrap(a), Wrap(b)) <==> a < b
  {
    WrapSub(a, b);
    if a < b { WrapIs(a - b, -1); } else { WrapIs(a - b, 0); }
  }

  /** The program's test for a positive signed difference. */
  lemma PositiveTest(x: int)
    requires -HALF <= x < HALF
    ensures CircularLessThan(0, Wrap(x)) <==> x > 0
    ensures x > 0 ==> Wrap(x) == x
  {
    if x > 0 {
      WrapIs(x, 0);
      WrapIs(-x, -1);
    } else if x < 0 {
      WrapIs(x, -1);
      WrapIs(-(x + W), -1);
    }
  }
}

// The circular arrays of block index entries: how a consumer computes the slot of its block.
module CircularIndex {
  import opened Words

  const BLOCK_SIZE: nat := 32

  /** The slot that the program computes for element `index` from any slot of the array and the block
      base stored there: a masked sum of the slot and the unsigned quotient of the wrapped difference.
      (In the program the difference is cast to signed, but the division by the unsigned block size
      converts it back.) */
  function LookupSlot(index: nat, slot: nat, key: nat, capacity: nat): nat
    requires capacity > 0
  {
    var base := index - index % BLOCK_SIZE;
    var offset := Wrap(base - key) / BLOCK_SIZE;
    Wrap(slot + offset) % capacity
  }

  lemma BaseOfIndex(i: nat)
    ensures Wrap(i) - Wrap(i) % BLOCK_SIZE == Wrap((i / BLOCK_SIZE) * BLOCK_SIZE)
  {
    ModOfWrap(i, BLOCK_SIZE, W / BLOCK_SIZE);
    var k, r := i / BLOCK_SIZE, i % BLOCK_SIZE;
    assert k * BLOCK_SIZE == (i / W) * W + (Wrap(i) - r);
    DivUnique(k * BLOCK_SIZE, W, i / W, Wrap(i) - r);
  }

  /** Dividing a wrapped difference of two block bases by the block size gives the difference of the
      block numbers modulo the number of blocks in the word. */
  lemma WrappedOffset(k: int, m: int)
    ensures Wrap(Wrap(k * BLOCK_SIZE) - Wrap(m * BLOCK_SIZE)) / BLOCK_SIZE == (k - m) % (W / BLOCK_SIZE)
  {
    WrapSub(k * BLOCK_SIZE, m * BLOCK_SIZE);
    var q := W / BLOCK_SIZE;
    var f, r := (k - m) / q, (k - m) % q;
    assert (k - m) * BLOCK_SIZE == f * W + r * BLOCK_SIZE;
    DivUnique((k - m) * BLOCK_SIZE, W, f, r * BLOCK_SIZE);
  }

  /** The capacity of an array divides the number of blocks in the word. */
  predicate FitsWord(capacity: nat) {
    capacity > 0 && (W / BLOCK_SIZE) % capacity == 0
  }

  lemma SumModulo(slot: nat, d: int, capacity: nat, q: int, j: int)
    requires capacity > 0 && q > 0 && q == j * capacity && W == (BLOCK_SIZE * j) * capacity
    ensures Wrap(slot + d % q) % capacity == (slot + d) % capacity
  {
    var f := d / q;
    ModOfWrap(slot + d % q, capacity, BLOCK_SIZE * j);
    assert d == d % q + f * q;
    assert f * q == f * (j * capacity) == (f * j) * capacity;
    ModMultiple(slot + d % q, f * j, capacity);
  }

  lemma SlotMoves(k: int, m: int, shift: int, capacity: nat)
    requires capacity > 0
    ensures ((m + shift) % capacity + (k - m)) % capacity == (k + shift) % capacity
  {
    var f := (m + shift) / capacity;
    assert k + shift == (m + shift) % capacity + (k - m) + f * capacity;
    ModMultiple((m + shift) % capacity + (k - m), f, capacity);
  }

  /** Given the slot and base of any block m, before or after it, the unsigned lookup finds the slot of
      the block of element `i`, however often the words have wrapped. */
  lemma LookupFindsSlot(i: nat, m: nat, shift: nat, capacity: nat)
    requires FitsWord(capacity)
    ensures LookupSlot(Wrap(i), (m + shift) % capacity, Wrap(m * BLOCK_SIZE), capacity)
         == (i / BLOCK_SIZE + shift) % capacity
  {
    var k, slot, q := i / BLOCK_SIZE, (m + shift) % capacity, W / BLOCK_SIZE;
    BaseOfIndex(i);
    WrappedOffset(k, m);
    hide Wrap;
    SumModulo(slot, k - m, capacity, q, q / capacity);
    SlotMoves(k, m, shift, capacity);
  }

  /** Distinct blocks fewer than `capacity` apart have distinct slots. */
  lemma SlotsDistinct(m: nat, p: nat, shift: nat, capacity: nat)
    requires capacity > 0 && (m + shift) % capacity == (p + shift) % capacity
    requires m - capacity < p < m + capacity
    ensures m == p
  {
    var f := (m + shift) / capacity - (p + shift) / capacity;
    assert m - p == f * capacity;
    assert p - m == (-f) * capacity;
    if f > 0 { AtLeastOnce(f, capacity); }
    if f < 0 { AtLeastOnce(-f, capacity); }
  }

  /** Doubling the array: the slot of block m once the block `capacity` before `bound` is in slot 0. */
  lemma DoubledSlot(m: int, bound: int, capacity: int)
    requires capacity > 0 && bound - capacity <= m < bound + capacity
    ensures (m + (capacity - bound) % (2 * capacity)) % (2 * capacity) == m - bound + capacity
  {
    var c2, j := 2 * capacity, m - bound + capacity;
    var q, r := (capacity - bound) / c2, (capacity - bound) % c2;
    assert m + r == j + (-q) * c2;
    ModMultiple(j, -q, c2);
    DivUnique(j, c2, 0, j);
  }

  /** Reading the old array from the slot after its tail: the j-th slot is that of block
      bound - capacity + j. */
  lemma RotatedSlot(m: int, bound: int, shift: int, capacity: int)
    requires capacity > 0
    ensures ((bound - 1 + shift) % capacity + 1 + (m - bound + capacity)) % capacity == (m + shift) % capacity
  {
    SlotMoves(m + capacity, bound - 1, shift, capacity);
    ModMultiple(m + shift, 1, capacity);
  }
}
