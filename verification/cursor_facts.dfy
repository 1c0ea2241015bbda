/** Facts about the cursors of a coherent state: the arithmetic of masked
    positions, how the abstraction reads a state and how to establish it
    again, and the split signal.
 */
module CursorFacts {
  import opened Modular
  import opened RingBuffer
  import opened RingInvariant

  // ---------------------------------------------------------------------
  // Cursor arithmetic

  /** A wrapped cursor keeps its physical offset. */
  lemma MaskedWrap(s: Ring, x: int)
    requires WellFormed(s)
    ensures Masked(s.mask, Wrap(x)) == x % s.size
  {
    WrapKeepsRemainder(x, s.size);
  }

  /** Advancing a cursor by at most the bytes left to the end of storage
      advances its offset by as much, landing on 0 exactly at the end. */
  lemma MaskedAdvance(s: Ring, x: uint32, d: nat)
    requires WellFormed(s) && Masked(s.mask, x) + d <= s.size
    ensures Masked(s.mask, Wrap(x + d)) == if Masked(s.mask, x) + d == s.size then 0 else Masked(s.mask, x) + d
  {
    var n := s.size;
    var m := Masked(s.mask, x);
    MaskedWrap(s, x + d);
    assert x == (x / n) * n + m;
    if m + d == n {
      assert x + d == (x / n + 1) * n + 0;
      ModUnique(x + d, n, x / n + 1, 0);
    } else {
      assert x + d == (x / n) * n + (m + d);
      ModUnique(x + d, n, x / n, m + d);
    }
  }

  /** The inflation of a front write and the collapse of a consume both jump
      from a cursor to the next boundary of storage, one more `size`, and then
      `k` bytes: the offset lands on `k`. */
  lemma MaskedSkip(s: Ring, x: uint32, k: nat)
    requires WellFormed(s) && k <= s.size
    ensures Masked(s.mask, Wrap(x + s.size + (s.size - Masked(s.mask, x)) + k)) == if k == s.size then 0 else k
  {
    var n := s.size;
    var m := Masked(s.mask, x);
    MaskedWrap(s, x + n + (n - m) + k);
    assert x == (x / n) * n + m;
    if k == n {
      assert x + n + (n - m) + k == (x / n + 3) * n + 0;
      ModUnique(x + n + (n - m) + k, n, x / n + 3, 0);
    } else {
      assert x + n + (n - m) + k == (x / n + 2) * n + k;
      ModUnique(x + n + (n - m) + k, n, x / n + 2, k);
    }
  }

  lemma MaskedSmall(s: Ring, x: uint32)
    requires WellFormed(s) && x < s.size
    ensures Masked(s.mask, x) == x
  {
    ModUnique(x, s.size, 0, x);
  }

  // ---------------------------------------------------------------------
  // The split signal

  /** Bounds on the gap of a coherent state: at most `size` when unsplit,
      strictly between `size` and `3 * size` when split. */
  lemma GapBounds(s: Ring)
    requires Coherent(s)
    ensures View(s).Unsplit? ==> Gap(s) <= s.size
    ensures View(s).Split? ==> s.size < Gap(s) <= 3 * s.size
  {
  }

  /** Reading a coherent unsplit state: one run from the read position. */
  lemma UnsplitFacts(s: Ring)
    requires Coherent(s) && View(s).Unsplit?
    ensures && Gap(s) <= s.size
            && Masked(s.mask, s.read) + Gap(s) <= s.size
  {
  }

  /** Reading a coherent split state: the tail run, then the front run. */
  lemma SplitFacts(s: Ring)
    requires Coherent(s) && View(s).Split?
    ensures && s.size < Gap(s) <= 3 * s.size
            && Masked(s.mask, s.read) + Tail(s) <= s.size
            && (Tail(s) > 0 ==> FrontLen(s) <= Masked(s.mask, s.read))
            && Gap(s) == Tail(s) + Pad(s) + s.size + FrontLen(s)
  {
  }

  /** Establishing an unsplit state from its cursor facts. */
  lemma UnsplitFromParts(r: Ring, len: nat)
    requires WellFormed(r) && r.size <= MAX_SIZE
    requires Gap(r) == len && Masked(r.mask, r.read) + len <= r.size
    ensures Coherent(r) && View(r).Unsplit? && View(r).len == len
  {
  }

  /** Establishing a split state from its cursor facts. */
  lemma SplitFromParts(r: Ring, t: nat, f: nat)
    requires WellFormed(r) && r.size <= MAX_SIZE
    requires Tail(r) == t && FrontLen(r) == f && Gap(r) == t + Pad(r) + r.size + f
    requires Masked(r.mask, r.read) + t <= r.size && (t > 0 ==> f <= Masked(r.mask, r.read))
    ensures Coherent(r) && View(r).Split? && View(r).tail == t && View(r).front == f
  {
  }

  /** The circular distance of two counters at most half the range apart is
      their forward distance. */
  lemma DifferenceOfNearCursors(a: uint32, b: uint32)
    requires Sub(b, a) <= HALF_MODULUS
    ensures Difference(a, b) == Difference(b, a) == Sub(b, a)
  {
  }

  /** Within `MAX_SIZE` the circular distance between the read and the write
      cursor is the true gap, so `is_split` holds exactly for split shapes. */
  lemma SplitSignal(s: Ring)
    requires Coherent(s)
    ensures IsSplit(s) <==> View(s).Split?
  {
    GapBounds(s);
    DifferenceOfNearCursors(s.read, s.write);
  }

  /** The debug assertion at the head of a write into a split buffer holds in
      every coherent state. */
  lemma CoherentIsValid(s: Ring)
    requires Coherent(s)
    ensures Valid(s)
  {
    SplitSignal(s);
    if View(s).Split? && s.read != s.wrap {
      assert Tail(s) != 0;
    }
  }
}
