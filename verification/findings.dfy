/** Four places where `ijcringbuffer.h` as written does not do what its
    comments and its other assertions show was intended, each as a concrete
    state, next to the corrected behaviour the rest of the model uses.
 */
module Findings {
  import opened Modular
  import opened RingBuffer
  import opened RingInvariant
  import opened ProduceProofs

  // ---------------------------------------------------------------------
  // 1. A zero-length write into an empty buffer takes the front-write path

  /** An empty buffer whose cursors are not at offset 0 takes the auto-reset
      branch for a zero-length write: the write cursor is inflated past the
      end of storage and the buffer, still holding nothing, reports itself
      full and no longer satisfies the invariant. The corrected `produce`
      leaves it alone. */
  lemma ZeroLengthWriteFillsEmptyBuffer()
    ensures var s := Ring([0, 0, 0, 0], 4, 3, 1, 1, 1);
      && Valid(s) && IsEmpty(s) && Live(s) == []
      && ProduceAsWritten(s, []).1
      && Produce(s, []) == (s, true)
      && var r := ProduceAsWritten(s, []).0;
         && r.write == 8 && !IsEmpty(r) && IsFull(r) && !Coherent(r)
  {
    var s := Ring([0, 0, 0, 0], 4, 3, 1, 1, 1);
    assert IsPowerOfTwo(4) by { assert IsPowerOfTwo(2); }
    assert View(s) == Unsplit(0);
    var r := ProduceAsWritten(s, []).0;
    assert r.write == 8 && r.wrap == 1;
    assert Gap(r) == 7 && View(r).Split?;
  }

  // ---------------------------------------------------------------------
  // 2. A zero-length write behind a run that ends at the end of storage

  /** A buffer whose run reaches the end of storage also goes to the front
      for a zero-length write, and records the end of the run as the end of
      a tail. Once the two live bytes are read the buffer reports `size`
      bytes that were never written; consuming them moves the read cursor
      past the write cursor, and the buffer then reports 2^32 - 4 consumable
      bytes, which the size queries' own assertion forbids. */
  lemma ZeroLengthWriteInventsBytes()
    ensures var s := Ring([0, 0, 0, 0], 4, 3, 2, 4, 0);
      && Valid(s) && Live(s) == [0, 0] && ConsumeableSize(s) == 2
      && ProduceAsWritten(s, []).1
      && var r := ProduceAsWritten(s, []).0;
         && r.write == 12 && r.wrap == 4
         && ConsumeableSizeContinuous(r) == 2
         && var t := Consume(r, 2);
            && t.read == 4 && ConsumeableSize(t) == 4 && !IsEmpty(t)
            && ConsumeableSizeContinuous(t) == 4
            && var u := Consume(t, 4);
               u.read == 16 && !IsSplit(u) && ConsumeableSize(u) == 0xFFFF_FFFC > u.size
  {
    InventingWrite();
    ReadPastTheRun();
    ReadPastTheWriteCursor();
  }

  /** The zero-length write: from read 2, write 4, wrap 0 to write 12, wrap 4. */
  lemma InventingWrite()
    ensures var s := Ring([0, 0, 0, 0], 4, 3, 2, 4, 0);
      && Valid(s) && Live(s) == [0, 0] && ConsumeableSize(s) == 2
      && ProduceAsWritten(s, []) == (Ring([0, 0, 0, 0], 4, 3, 2, 12, 4), true)
  {
    var s := Ring([0, 0, 0, 0], 4, 3, 2, 4, 0);
    assert IsPowerOfTwo(4) by { assert IsPowerOfTwo(2); }
    assert View(s) == Unsplit(2);
    assert s.data[2..4] == [0, 0];
  }

  /** Reading the two live bytes leaves four invented ones. */
  lemma ReadPastTheRun()
    ensures var r := Ring([0, 0, 0, 0], 4, 3, 2, 12, 4);
      && ConsumeableSizeContinuous(r) == 2
      && Consume(r, 2) == Ring([0, 0, 0, 0], 4, 3, 4, 12, 4)
  {
    var r := Ring([0, 0, 0, 0], 4, 3, 2, 12, 4);
    assert IsPowerOfTwo(4) by { assert IsPowerOfTwo(2); }
    assert Difference(r.read, r.write) == 10;
  }

  /** Consuming the invented bytes jumps the read cursor past the write
      cursor. */
  lemma ReadPastTheWriteCursor()
    ensures var t := Ring([0, 0, 0, 0], 4, 3, 4, 12, 4);
      && ConsumeableSize(t) == 4 && !IsEmpty(t) && ConsumeableSizeContinuous(t) == 4
      && var u := Consume(t, 4);
         u.read == 16 && !IsSplit(u) && ConsumeableSize(u) == 0xFFFF_FFFC > u.size
  {
    var t := Ring([0, 0, 0, 0], 4, 3, 4, 12, 4);
    assert IsPowerOfTwo(4) by { assert IsPowerOfTwo(2); }
    assert Difference(t.read, t.write) == 8;
    var u := Consume(t, 4);
    assert u.read == 16;
    assert Difference(u.read, u.write) == 4;
  }

  // ---------------------------------------------------------------------
  // 3. The assertion after a front write

  /** The debug assertion after a front write, as written: the masked write
      cursor equals the length of the write. */
  predicate FrontWriteAssertionAsWritten(r: Ring, n: nat)
    requires WellFormed(r)
  {
    Masked(r.mask, r.write) == n
  }

  /** A front write of a whole buffer's worth puts the write cursor at offset
      0 of storage, not at offset `size`: the assertion fails on a write that
      the code handles correctly, leaving a valid buffer holding exactly the
      bytes written. */
  lemma FullFrontWriteFailsAssertion()
    ensures var s := Ring([0, 0, 0, 0], 4, 3, 1, 1, 1);
      var input := [7, 7, 7, 7];
      && Valid(s) && ProduceAsWritten(s, input) == (WriteToFront(s, input), true)
      && var r := WriteToFront(s, input);
         && !FrontWriteAssertionAsWritten(r, |input|)
         && Valid(r) && Live(r) == input
  {
    var s := Ring([0, 0, 0, 0], 4, 3, 1, 1, 1);
    var input: seq<byte> := [7, 7, 7, 7];
    assert IsPowerOfTwo(4) by { assert IsPowerOfTwo(2); }
    assert View(s) == Unsplit(0);
    var r := WriteToFront(s, input);
    assert r.write == 12 && r.wrap == 1;
    assert r.data == input;
    assert Gap(r) == 11 && Tail(r) == 0 && FrontLen(r) == 4;
  }

  /** The intended assertion: the buffer is split and its front run is
      exactly the bytes written, which puts the masked write cursor at the
      length of the write, or at 0 when the write fills the storage. Every
      front write `produce` makes satisfies it. */
  lemma FrontWriteEndsAtLength(s: Ring, input: seq<byte>)
    requires Valid(s) && View(s).Unsplit?
    requires 1 <= |input| <= s.size
    requires Gap(s) > 0 ==> |input| <= Masked(s.mask, s.read)
    ensures var r := WriteToFront(s, input);
      && View(r).Split? && FrontLen(r) == |input|
      && Masked(r.mask, r.write) == (if |input| == s.size then 0 else |input|)
      && (FrontWriteAssertionAsWritten(r, |input|) <==> |input| < s.size)
  {
    FrontWriteCursors(s, input);
  }

  // ---------------------------------------------------------------------
  // 4. Capacities above MAX_SIZE

  /** `init` accepts a capacity of `2^30`. Filling it, reading one byte and
      writing one byte at the front inflates the cursor gap to three times
      the capacity, where the circular distance no longer exceeds the
      capacity: the buffer reads as unsplit and reports more consumable
      bytes than it has storage, which the size queries' own assertion
      forbids. `InitChecked` bounds the capacity by `MAX_SIZE`, under which
      no reachable state does this. */
  lemma OversizedCapacityMisreadsSplit(data: seq<byte>, input: seq<byte>, last: byte)
    requires |data| == 0x4000_0000 && |input| == 0x4000_0000
    ensures IsPowerOfTwo(0x4000_0000)
    ensures var s0 := Init(data, 0x4000_0000);
      && ProduceAsWritten(s0, input).1
      && var s1 := ProduceAsWritten(s0, input).0;
         && ConsumeableSizeContinuous(s1) == 0x4000_0000
         && var s2 := Consume(s1, 1);
            && FrontBehindTail(s2)
            && ProduceAsWritten(s2, [last]).1
            && var s3 := ProduceAsWritten(s2, [last]).0;
               && s3.wrap == 0x4000_0000 && s3.write == 0xC000_0001
               && !IsSplit(s3) && ConsumeableSize(s3) == 0xC000_0000 > s3.size
  {
    OversizedFillAndRead(data, input);
    OversizedFrontWrite(Consume(ProduceAsWritten(Init(data, 0x4000_0000), input).0, 1), last);
  }

  /** The first two steps: fill all `2^30` bytes, then read one. */
  lemma OversizedFillAndRead(data: seq<byte>, input: seq<byte>)
    requires |data| == 0x4000_0000 && |input| == 0x4000_0000
    ensures IsPowerOfTwo(0x4000_0000)
    ensures var s0 := Init(data, 0x4000_0000);
      && ProduceAsWritten(s0, input).1
      && var s1 := ProduceAsWritten(s0, input).0;
         && s1.read == 0 && s1.write == 0x4000_0000 && s1.wrap == 0
         && ConsumeableSizeContinuous(s1) == 0x4000_0000
         && var s2 := Consume(s1, 1);
            && WellFormed(s2) && s2.size == 0x4000_0000
            && s2.read == 1 && s2.write == 0x4000_0000 && s2.wrap == 0
  {
    ThirtiethPowerOfTwo();
    var s0 := Init(data, 0x4000_0000);
    var s1 := ProduceAsWritten(s0, input).0;
    assert s1.write == 0x4000_0000;
    assert Difference(s1.read, s1.write) == 0x4000_0000;
  }

  /** The last step: one byte written at the front of the capacity-`2^30`
      buffer that is full but for its first byte. */
  lemma OversizedFrontWrite(s: Ring, last: byte)
    requires WellFormed(s) && s.size == 0x4000_0000
    requires s.read == 1 && s.write == 0x4000_0000 && s.wrap == 0
    ensures FrontBehindTail(s) && ProduceAsWritten(s, [last]).1
    ensures var r := ProduceAsWritten(s, [last]).0;
      && r.wrap == 0x4000_0000 && r.write == 0xC000_0001
      && !IsSplit(r) && ConsumeableSize(r) == 0xC000_0000 > r.size
  {
    assert Difference(s.read, s.write) == 0x3FFF_FFFF;
    var r := ProduceAsWritten(s, [last]).0;
    assert r.write == 0xC000_0001;
    assert Difference(r.read, r.write) == 0x4000_0000;
  }

  /** `2^30` is a power of two. */
  lemma ThirtiethPowerOfTwo()
    ensures IsPowerOfTwo(0x4000_0000)
  {
    SixteenfoldIsPowerOfTwo(4);
    SixteenfoldIsPowerOfTwo(0x40);
    SixteenfoldIsPowerOfTwo(0x400);
    SixteenfoldIsPowerOfTwo(0x4000);
    SixteenfoldIsPowerOfTwo(0x4_0000);
    SixteenfoldIsPowerOfTwo(0x40_0000);
    SixteenfoldIsPowerOfTwo(0x400_0000);
    assert IsPowerOfTwo(4) by { assert IsPowerOfTwo(2); }
  }
}
