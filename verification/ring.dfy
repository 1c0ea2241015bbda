/** The ring cursor engine of `ijcringbuffer.h`, operation by operation, as the
    C code computes it.

    The structure borrows `size` bytes of storage and keeps three free-running
    32-bit cursors. A cursor's physical position is `cursor & mask`. Whether the
    buffer is split (live bytes in a tail run at the end of storage and a front
    run at offset 0) is never stored: it is read off the circular distance
    between the read and the write cursor, which a front write inflates past
    `size` and the consume that leaves the tail collapses again.

    Storage is a sequence of bytes and `peek` returns an offset into it instead
    of a pointer.
 */
module RingBuffer {
  import opened Modular

  datatype Ring = Ring(
    data: seq<byte>,
    size: uint32,
    mask: uint32,
    read: uint32,
    write: uint32,
    wrap: uint32)

  /** What `init` establishes and nothing else changes: a power-of-two
      capacity, its mask, and storage of exactly that many bytes. */
  predicate WellFormed(s: Ring) {
    && IsPowerOfTwo(s.size)
    && s.mask == s.size - 1
    && |s.data| == s.size
  }

  /** `x & mask`. For `mask == size - 1` with `size` a power of two the low bits
      of `x` are its remainder modulo `size`. */
  function Masked(mask: uint32, x: uint32): (r: nat)
    ensures r <= mask
  {
    x % (mask + 1)
  }

  /** `Masked` is the C expression `x & mask`: in a well-formed buffer the
      remainder modulo `mask + 1` is the bitwise AND with the mask. */
  lemma MaskedIsAnd(s: Ring, x: uint32)
    requires WellFormed(s)
    ensures Masked(s.mask, x) == And(x, s.mask)
  {
    AndLowBits(x, s.size);
  }

  /** Circular distance between two counters: the shorter of the two ways
      round the 32-bit range. */
  function Difference(a: uint32, b: uint32): (d: uint32)
    ensures Wrap(a + d) == b || Wrap(b + d) == a
    ensures d <= Sub(a, b) && d <= Sub(b, a)
    ensures d <= HALF_MODULUS
    ensures d == 0 <==> a == b
  {
    var ab := Sub(a, b);
    var ba := Sub(b, a);
    if ab > ba then ba else ab
  }

  /** Takes over `data` as storage of `size` bytes; all cursors start at 0. */
  function Init(data: seq<byte>, size: uint32): (s: Ring)
    requires IsPowerOfTwo(size) && |data| == size
    ensures WellFormed(s)
    ensures s.data == data && s.size == size
    ensures s.read == s.write == s.wrap == 0
  {
    Ring(data, size, size - 1, 0, 0, 0)
  }

  /** Zeroes the three cursors; storage, size and mask stay. */
  function Reset(s: Ring): (r: Ring)
    ensures r.data == s.data && r.size == s.size && r.mask == s.mask
    ensures r.read == 0 && r.write == 0 && r.wrap == 0
    ensures IsEmpty(r) && !IsSplit(r)
  {
    s.(read := 0, write := 0, wrap := 0)
  }

  /** A front write inflates the cursor distance past `size`; nothing else
      does, so a larger distance means live data in two runs. */
  predicate IsSplit(s: Ring)
    ensures IsSplit(s) ==> s.read != s.write
  {
    Difference(s.read, s.write) > s.size
  }

  /** Offset of the next contiguous readable run. Once the tail of a split
      buffer is drained the next byte is at the front of storage. */
  function Peek(s: Ring): (off: nat)
    requires WellFormed(s)
    ensures off < s.size
  {
    if s.read == s.wrap && IsSplit(s) then 0 else Masked(s.mask, s.read)
  }

  /** Shared body of the two size queries: `continuous` leaves out the front
      run while the tail is still being read. The sum is unsigned. */
  function CountConsumeable(s: Ring, continuous: bool): (cs: uint32)
    requires WellFormed(s)
    ensures !IsSplit(s) ==> cs == Sub(s.write, s.read)
    ensures IsSplit(s) && s.read == s.wrap ==> 1 <= cs <= s.size
  {
    if IsSplit(s) then
      if s.read == s.wrap then
        var maskedWrite := Masked(s.mask, s.write);
        if maskedWrite != 0 then maskedWrite else s.size
      else
        Wrap(Masked(s.mask, Sub(s.wrap, s.read)) + if continuous then 0 else Masked(s.mask, s.write))
    else
      Sub(s.write, s.read)
  }

  /** Bytes readable at `peek` in one piece. It falls short of the total only
      while a split buffer still has unread tail bytes. */
  function ConsumeableSizeContinuous(s: Ring): (cs: uint32)
    requires WellFormed(s)
    ensures !IsSplit(s) || s.read == s.wrap ==> cs == ConsumeableSize(s)
  {
    CountConsumeable(s, true)
  }

  /** All bytes readable, across both runs. */
  function ConsumeableSize(s: Ring): (cs: uint32)
    requires WellFormed(s)
    ensures IsEmpty(s) ==> cs == 0
  {
    CountConsumeable(s, false)
  }

  predicate IsEmpty(s: Ring)
    ensures IsEmpty(s) ==> !IsSplit(s)
  {
    s.write == s.read
  }

  predicate IsFull(s: Ring)
    requires WellFormed(s)
    ensures IsFull(s) ==> !IsEmpty(s)
  {
    ConsumeableSize(s) == s.size
  }

  /** Releases `n` bytes of the current contiguous run. Reading past the
      drained tail of a split buffer moves the read cursor over the unused end
      of storage and one extra `size`, undoing the inflation of the front
      write; that returns the cursors to the unsplit regime. */
  function Consume(s: Ring, n: uint32): (r: Ring)
    requires WellFormed(s)
    requires n <= ConsumeableSizeContinuous(s)
    ensures r.data == s.data && r.size == s.size && r.mask == s.mask
    ensures r.write == s.write && r.wrap == s.wrap
    ensures n == 0 && !(s.read == s.wrap && IsSplit(s)) ==> r == s
  {
    if s.read == s.wrap && IsSplit(s) then
      s.(read := Wrap(s.read + s.size + (s.size - Masked(s.mask, s.read)) + n))
    else
      s.(read := Wrap(s.read + n))
  }

  /** `data` with `input` copied over it at offset `off`. */
  function Splice(data: seq<byte>, off: nat, input: seq<byte>): (r: seq<byte>)
    requires off + |input| <= |data|
    ensures |r| == |data|
    ensures r[..off] == data[..off]
    ensures r[off..off + |input|] == input
    ensures r[off + |input|..] == data[off + |input|..]
  {
    data[..off] + input + data[off + |input|..]
  }

  /** The debug assertion guarding a write into the gap of a split buffer:
      while the tail is unread, the front run ends at or before the read
      position. Without it the copy could run off the end of storage. */
  predicate FrontBehindTail(s: Ring)
    requires WellFormed(s)
  {
    IsSplit(s) && s.read != s.wrap ==> Masked(s.mask, s.read) >= Masked(s.mask, s.write)
  }

  /** Copies `input` at the write position and advances the write cursor
      past it: the successful ending of a write that fits where it is. */
  function WriteInPlace(s: Ring, input: seq<byte>): (r: Ring)
    requires WellFormed(s) && Masked(s.mask, s.write) + |input| <= s.size
    ensures r.data == Splice(s.data, Masked(s.mask, s.write), input)
    ensures r.size == s.size && r.mask == s.mask && r.read == s.read && r.wrap == s.wrap
    ensures Sub(r.write, s.write) == |input|
  {
    s.(data := Splice(s.data, Masked(s.mask, s.write), input), write := Wrap(s.write + |input|))
  }

  /** `(a - b) & mask` is the distance between the physical positions of `a`
      and `b` whenever `a` lies physically at or after `b`. */
  lemma MaskedSub(s: Ring, a: uint32, b: uint32)
    requires WellFormed(s)
    ensures Masked(s.mask, a) >= Masked(s.mask, b) ==> Masked(s.mask, Sub(a, b)) == Masked(s.mask, a) - Masked(s.mask, b)
  {
    var n := s.size;
    if Masked(s.mask, a) < Masked(s.mask, b) {
      return;
    }
    WrapKeepsRemainder(a - b, n);
    assert a == (a / n) * n + Masked(s.mask, a);
    assert b == (b / n) * n + Masked(s.mask, b);
    assert a - b == (Masked(s.mask, a) - Masked(s.mask, b)) + (a / n - b / n) * n;
    ModAddMultiple(Masked(s.mask, a) - Masked(s.mask, b), a / n - b / n, n);
    ModUnique(Masked(s.mask, a) - Masked(s.mask, b), n, 0, Masked(s.mask, a) - Masked(s.mask, b));
  }

  /** The `write_to_front` block: remember where the tail ends, copy to
      offset 0 and inflate the write cursor past the unused end of storage
      and one extra `size`, which is what makes the buffer read as split. */
  function WriteToFront(s: Ring, input: seq<byte>): (r: Ring)
    requires WellFormed(s) && |input| <= s.size
    ensures r.data == Splice(s.data, 0, input)
    ensures r.size == s.size && r.mask == s.mask && r.read == s.read
    ensures r.wrap == s.write
  {
    s.(wrap := s.write,
       data := Splice(s.data, 0, input),
       write := Wrap(s.write + s.size + (s.size - Masked(s.mask, s.write)) + |input|))
  }

  /** Appends `input` as one contiguous run, or rejects it and changes nothing.
      This is the code as written, zero-length writes included. */
  function ProduceAsWritten(s: Ring, input: seq<byte>): (res: (Ring, bool))
    requires WellFormed(s) && FrontBehindTail(s)
    requires |input| < MODULUS
    ensures !res.1 ==> res.0 == s
    ensures res.0.size == s.size && res.0.mask == s.mask && res.0.read == s.read
    ensures res.1 ==> exists off: nat :: off + |input| <= s.size && res.0.data == Splice(s.data, off, input)
    ensures res.0.wrap == s.wrap || res.0.wrap == s.write
  {
    var n := |input|;
    var maskedWrite := Masked(s.mask, s.write);
    if IsSplit(s) then
      var available :=
        if s.wrap == s.read then (if maskedWrite != 0 then s.size - maskedWrite else 0)
        else Masked(s.mask, Sub(s.read, s.write));
      MaskedSub(s, s.read, s.write);
      if available >= n then
        (WriteInPlace(s, input), true)
      else
        (s, false)
    else
      var empty := IsEmpty(s);
      if maskedWrite != 0 && empty && s.size >= n then
        (WriteToFront(s, input), true)
      else if maskedWrite == 0 && !empty then
        // the back is full up to the end of storage; only the front can take it
        if Masked(s.mask, s.read) >= n then (WriteToFront(s, input), true) else (s, false)
      else if s.size - maskedWrite >= n then
        (WriteInPlace(s, input), true)
      else if Masked(s.mask, s.read) >= n then
        (WriteToFront(s, input), true)
      else
        (s, false)
  }

  /** `produce` with zero-length writes accepted as a no-op. The code as
      written sends a zero-length write down the front-write path in two
      situations and corrupts the cursors there. */
  function Produce(s: Ring, input: seq<byte>): (res: (Ring, bool))
    requires WellFormed(s) && FrontBehindTail(s)
    requires |input| < MODULUS
    ensures !res.1 ==> res.0 == s
    ensures |input| == 0 ==> res == (s, true)
    ensures res.0.size == s.size && res.0.mask == s.mask && res.0.read == s.read
    ensures res.1 ==> exists off: nat :: off + |input| <= s.size && res.0.data == Splice(s.data, off, input)
  {
    if |input| == 0 then
      assert Splice(s.data, 0, input) == s.data;
      (s, true)
    else
      ProduceAsWritten(s, input)
  }
}
