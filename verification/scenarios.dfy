/** The six scenarios of the header's self-test, replayed on the model over
    an eight-byte buffer.

    The self-test writes slices of the ASCII hex digits; what it asserts
    depends only on the lengths of the writes and on which bytes come back,
    so each lemma is stated for any bytes of the lengths the self-test uses.
    Each lemma covers a few consecutive calls of one scenario: it starts from
    the state the previous lemma ends in, described by its cursors and its
    live bytes, and states what the self-test asserts about those calls. The
    debug assertions of the calls themselves hold because every state is
    valid.
 */
module Scenarios {
  import opened Modular
  import opened RingBuffer
  import opened RingInvariant
  import opened QueryProofs
  import opened ConsumeProofs
  import opened ProduceProofs

  /** A valid buffer over eight bytes of storage with the given cursors and
      live bytes. */
  ghost predicate At(s: Ring, read: uint32, write: uint32, wrap: uint32, live: seq<byte>) {
    && Valid(s) && s.size == 8
    && s.read == read && s.write == write && s.wrap == wrap
    && Live(s) == live
  }

  /** A successful write of `input` onto a valid buffer, with its effect on
      the live bytes. */
  lemma Wrote(s: Ring, input: seq<byte>)
    requires Valid(s) && 0 < |input| <= Room(s)
    ensures var (r, ok) := Produce(s, input);
      && ok && Valid(r) && Live(r) == Live(s) + input
      && r.read == s.read && r.size == s.size
  {
    ProduceKeepsValid(s, input);
  }

  /** A refused write of `input`. */
  lemma Refused(s: Ring, input: seq<byte>)
    requires Valid(s) && Room(s) < |input| < MODULUS
    ensures Produce(s, input) == (s, false)
  {
    ProduceKeepsValid(s, input);
  }

  /** A read of `n` bytes through `peek`, then `consume`. */
  lemma Read(s: Ring, n: uint32)
    requires Valid(s) && n <= ConsumeableSizeContinuous(s)
    ensures Peek(s) + n <= s.size && n <= |Live(s)|
    ensures s.data[Peek(s)..Peek(s) + n] == Live(s)[..n]
    ensures Valid(Consume(s, n))
    ensures Live(Consume(s, n)) == Live(s)[n..]
  {
    PeekReadsFirstRun(s, n);
    ConsumeKeepsValid(s, n);
  }

  // ---------------------------------------------------------------------
  // Lines 269-287, from a fresh buffer

  /** Filling all eight bytes succeeds, one byte more is refused, and `peek`
      shows the eight bytes written. */
  lemma FillThenOverfill(s: Ring, a: seq<byte>, b: seq<byte>)
    requires At(s, 0, 0, 0, []) && |a| == 8 && |b| == 1
    ensures Produce(s, a).1
    ensures var r := Produce(s, a).0;
      && At(r, 0, 8, 0, a)
      && !Produce(r, b).1
      && ConsumeableSize(r) == 8 && Peek(r) + 8 <= 8 && r.data[Peek(r)..Peek(r) + 8] == a
  {
    Wrote(s, a);
    var r := Produce(s, a).0;
    assert r.write == 8 && r.wrap == 0;
    Refused(r, b);
    ConsumeableSizeMatchesView(r);
    Read(r, 8);
  }

  /** Reading all eight bytes empties the buffer. */
  lemma DrainAll(s: Ring, a: seq<byte>)
    requires At(s, 0, 8, 0, a) && |a| == 8
    ensures 8 <= ConsumeableSizeContinuous(s)
    ensures At(Consume(s, 8), 8, 8, 0, [])
  {
    ConsumeableSizeMatchesView(s);
    ConsumeKeepsValid(s, 8);
    assert Consume(s, 8).read == 8;
    assert |Live(Consume(s, 8))| == 0;
  }

  /** Seven bytes then fit behind the read position, from offset 0 of
      storage, and `peek` shows them. */
  lemma RefillBehind(s: Ring, a: seq<byte>)
    requires At(s, 8, 8, 0, []) && |a| == 7
    ensures Produce(s, a).1
    ensures var r := Produce(s, a).0;
      && At(r, 8, 15, 0, a)
      && ConsumeableSize(r) == 7 && Peek(r) + 7 <= 8 && r.data[Peek(r)..Peek(r) + 7] == a
  {
    Wrote(s, a);
    var r := Produce(s, a).0;
    assert r.write == 15 && r.wrap == 0;
    ConsumeableSizeMatchesView(r);
    Read(r, 7);
  }

  /** Reading six of them leaves the last one, at offset 6. */
  lemma ReadAllButOne(s: Ring, a: seq<byte>)
    requires At(s, 8, 15, 0, a)
    ensures 6 <= ConsumeableSizeContinuous(s)
    ensures At(Consume(s, 6), 14, 15, 0, a[6..])
  {
    ConsumeableSizeMatchesView(s);
    ConsumeKeepsValid(s, 6);
    assert Consume(s, 6).read == 14;
  }

  /** Six bytes do not fit behind the byte at offset 6 but do fit in front
      of it: the buffer splits, and `peek` still shows the oldest byte. */
  lemma WriteInFront(s: Ring, x: seq<byte>, a: seq<byte>)
    requires At(s, 14, 15, 0, x) && |a| == 6
    ensures Produce(s, a).1
    ensures var r := Produce(s, a).0;
      && At(r, 14, 30, 15, x + a)
      && IsSplit(r) && Peek(r) + 1 <= 8 && r.data[Peek(r)..Peek(r) + 1] == x
  {
    Wrote(s, a);
    var r := Produce(s, a).0;
    assert r.write == 30 && r.wrap == 15;
    ConsumeableSizeMatchesView(r);
    Read(r, 1);
    assert (x + a)[..1] == x;
  }

  /** Reading the tail byte moves `peek` to the front run; reading the front
      run empties the buffer. */
  lemma DrainAcrossTheSplit(s: Ring, x: seq<byte>, a: seq<byte>)
    requires At(s, 14, 30, 15, x + a) && |x| == 1
    ensures 1 <= ConsumeableSizeContinuous(s)
    ensures var t := Consume(s, 1);
      && At(t, 15, 30, 15, a)
      && ConsumeableSize(t) == 6 && 6 <= ConsumeableSizeContinuous(t)
      && Peek(t) + 6 <= 8 && t.data[Peek(t)..Peek(t) + 6] == a
      && IsEmpty(Consume(t, 6))
  {
    ConsumeableSizeMatchesView(s);
    ConsumeKeepsValid(s, 1);
    var t := Consume(s, 1);
    assert t.read == 15;
    assert (x + a)[1..] == a;
    ConsumeableSizeMatchesView(t);
    Read(t, 6);
    IsEmptyIffNoLiveBytes(Consume(t, 6));
  }

  // ---------------------------------------------------------------------
  // Lines 290-297 and 332-336, after a reset

  /** Six bytes written into a fresh buffer are all in one run. */
  lemma WriteSix(s: Ring, a: seq<byte>)
    requires At(s, 0, 0, 0, []) && |a| == 6
    ensures Produce(s, a).1
    ensures var r := Produce(s, a).0;
      At(r, 0, 6, 0, a) && ConsumeableSize(r) == 6
  {
    ProduceKeepsValid(s, a);
    var r := Produce(s, a).0;
    assert r.write == 6 && r.wrap == 0;
  }

  /** Reading five of them leaves one byte at offset 5. */
  lemma ReadFive(s: Ring, a: seq<byte>)
    requires At(s, 0, 6, 0, a) && |a| == 6
    ensures 5 <= ConsumeableSizeContinuous(s)
    ensures var t := Consume(s, 5);
      At(t, 5, 6, 0, a[5..]) && ConsumeableSize(t) == 1
  {
    ConsumeableSizeMatchesView(s);
    ConsumeKeepsValid(s, 5);
    var t := Consume(s, 5);
    assert t.read == 5;
    assert |Live(t)| == 1;
    ConsumeableSizeMatchesView(t);
  }

  /** Four bytes go to the front, one more fills the gap up to the tail,
      and then nothing more fits. */
  lemma FillTheGap(s: Ring, x: seq<byte>, a: seq<byte>, b: seq<byte>, c: seq<byte>)
    requires At(s, 5, 6, 0, x) && |a| == 4 && |b| == 1 && |c| == 1
    ensures Produce(s, a).1
    ensures var r := Produce(s, a).0;
      && At(r, 5, 20, 6, x + a)
      && Produce(r, b).1
      && var t := Produce(r, b).0;
         && At(t, 5, 21, 6, x + a + b)
         && !Produce(t, c).1
  {
    Wrote(s, a);
    var r := Produce(s, a).0;
    assert r.write == 20 && r.wrap == 6;
    Wrote(r, b);
    var t := Produce(r, b).0;
    assert t.write == 21 && t.wrap == 6;
    Refused(t, c);
  }

  /** Lines 337-340: two bytes fit exactly behind the live byte; five more
      go to the front, leaving the three older bytes as the tail. */
  lemma BehindThenFront(s: Ring, x: seq<byte>, a: seq<byte>, b: seq<byte>)
    requires At(s, 5, 6, 0, x) && |a| == 2 && |b| == 5
    ensures Produce(s, a).1
    ensures var r := Produce(s, a).0;
      && At(r, 5, 8, 0, x + a) && ConsumeableSizeContinuous(r) == 3
      && Produce(r, b).1
      && var t := Produce(r, b).0;
         && At(t, 5, 29, 8, x + a + b)
         && ConsumeableSizeContinuous(t) == 3 && ConsumeableSize(t) == 8
  {
    Wrote(s, a);
    var r := Produce(s, a).0;
    assert r.write == 8 && r.wrap == 0;
    ConsumeableSizeMatchesView(r);
    Wrote(r, b);
    var t := Produce(r, b).0;
    assert t.write == 29 && t.wrap == 8;
    ConsumeableSizeMatchesView(t);
  }

  // ---------------------------------------------------------------------
  // Lines 300-312, cursors started four steps before the 32-bit wrap

  /** The first write into an empty buffer whose cursors sit at offset 4
      goes to the front (the auto-reset), and the write cursor wraps round
      zero. */
  lemma WrapAroundFrontWrite(s: Ring, a: seq<byte>)
    requires At(s, 0xFFFF_FFFC, 0xFFFF_FFFC, 0, []) && |a| == 6
    ensures Produce(s, a).1
    ensures At(Produce(s, a).0, 0xFFFF_FFFC, 14, 0xFFFF_FFFC, a)
  {
    Wrote(s, a);
    var r := Produce(s, a).0;
    assert r.write == 14 && r.wrap == 0xFFFF_FFFC;
  }

  /** The next write extends that front run to the end of storage. */
  lemma WrapAroundExtend(s: Ring, x: seq<byte>, a: seq<byte>)
    requires At(s, 0xFFFF_FFFC, 14, 0xFFFF_FFFC, x) && |a| == 2
    ensures Produce(s, a).1
    ensures var r := Produce(s, a).0;
      && At(r, 0xFFFF_FFFC, 16, 0xFFFF_FFFC, x + a)
      && ConsumeableSize(r) == 8
      && 6 <= ConsumeableSizeContinuous(r)
      && Peek(r) + 6 <= 8 && r.data[Peek(r)..Peek(r) + 6] == x
  {
    Wrote(s, a);
    var r := Produce(s, a).0;
    assert r.write == 16 && r.wrap == 0xFFFF_FFFC;
    ConsumeableSizeMatchesView(r);
    Read(r, 6);
    assert (x + a)[..6] == x;
  }

  /** Reading six bytes across the wrap leaves the two written last. */
  lemma WrapAroundDrain(s: Ring, x: seq<byte>, a: seq<byte>)
    requires At(s, 0xFFFF_FFFC, 16, 0xFFFF_FFFC, x + a) && |x| == 6
    ensures 6 <= ConsumeableSizeContinuous(s)
    ensures var t := Consume(s, 6);
      && At(t, 14, 16, 0xFFFF_FFFC, a)
      && ConsumeableSize(t) == 2 && 2 <= ConsumeableSizeContinuous(t)
      && Peek(t) + 2 <= 8 && t.data[Peek(t)..Peek(t) + 2] == a
      && IsEmpty(Consume(t, 2))
  {
    ConsumeableSizeMatchesView(s);
    ConsumeKeepsValid(s, 6);
    var t := Consume(s, 6);
    assert t.read == 14;
    assert (x + a)[6..] == a;
    ConsumeableSizeMatchesView(t);
    Read(t, 2);
    IsEmptyIffNoLiveBytes(Consume(t, 2));
  }

  // ---------------------------------------------------------------------
  // Lines 315-329, one byte live just before the 32-bit wrap

  /** Four bytes fit behind the live byte and wrap the write cursor to 0;
      four more do not fit anywhere, three fit in front, and then nothing
      more does. */
  lemma WrapAroundSplit(s: Ring, x: seq<byte>, a: seq<byte>, b: seq<byte>, c: seq<byte>)
    requires At(s, 0xFFFF_FFFB, 0xFFFF_FFFC, 0, x) && |a| == 4 && |b| == 3 && |c| == 1
    ensures ConsumeableSize(s) == 1
    ensures Produce(s, a).1
    ensures var r := Produce(s, a).0;
      && At(r, 0xFFFF_FFFB, 0, 0, x + a)
      && ConsumeableSizeContinuous(r) == 5 && ConsumeableSize(r) == 5
      && !Produce(r, a).1
      && Produce(r, b).1
      && var t := Produce(r, b).0;
         && At(t, 0xFFFF_FFFB, 19, 0, x + a + b)
         && !Produce(t, c).1
         && ConsumeableSizeContinuous(t) == 5 && ConsumeableSize(t) == 8
  {
    ConsumeableSizeMatchesView(s);
    Wrote(s, a);
    var r := Produce(s, a).0;
    assert r.write == 0 && r.wrap == 0;
    ConsumeableSizeMatchesView(r);
    Refused(r, a);
    Wrote(r, b);
    var t := Produce(r, b).0;
    assert t.write == 19 && t.wrap == 0;
    Refused(t, c);
    ConsumeableSizeMatchesView(t);
  }

  // ---------------------------------------------------------------------
  // Lines 343-355, after a reset

  /** Lines 344-347, after the first write of `FillThenOverfill`: reading
      one byte of a full buffer leaves seven. */
  lemma ReadOne(s: Ring, a: seq<byte>)
    requires At(s, 0, 8, 0, a)
    ensures 1 <= ConsumeableSizeContinuous(s)
    ensures var t := Consume(s, 1);
      && At(t, 1, 8, 0, a[1..])
      && ConsumeableSizeContinuous(t) == 7 && ConsumeableSize(t) == 7
  {
    ConsumeableSizeMatchesView(s);
    ConsumeKeepsValid(s, 1);
    var t := Consume(s, 1);
    assert t.read == 1;
    ConsumeableSizeMatchesView(t);
  }

  /** The freed first byte takes a one-byte write at the front. */
  lemma WriteTheFirstByte(s: Ring, x: seq<byte>, a: seq<byte>)
    requires At(s, 1, 8, 0, x) && |a| == 1
    ensures Produce(s, a).1
    ensures var r := Produce(s, a).0;
      && At(r, 1, 25, 8, x + a)
      && ConsumeableSizeContinuous(r) == 7 && ConsumeableSize(r) == 8
  {
    Wrote(s, a);
    var r := Produce(s, a).0;
    assert r.write == 25 && r.wrap == 8;
    ConsumeableSizeMatchesView(r);
  }

  /** Reading the tail leaves the one byte in the front run, and `peek`
      shows it at offset 0. */
  lemma ReadToTheFront(s: Ring, x: seq<byte>, a: seq<byte>)
    requires At(s, 1, 25, 8, x + a) && |x| == 7
    ensures 7 <= ConsumeableSizeContinuous(s)
    ensures var t := Consume(s, 7);
      && At(t, 8, 25, 8, a)
      && ConsumeableSizeContinuous(t) == 1 && ConsumeableSize(t) == 1
      && Peek(t) == 0 && t.data[0..1] == a
  {
    ConsumeableSizeMatchesView(s);
    ConsumeKeepsValid(s, 7);
    var t := Consume(s, 7);
    assert t.read == 8;
    assert (x + a)[7..] == a;
    ConsumeableSizeMatchesView(t);
    Read(t, 1);
  }
}
