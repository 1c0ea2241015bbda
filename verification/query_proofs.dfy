/** The queries of `RingBuffer` against the abstraction of `RingInvariant`:
    the size queries report the shape, `peek` points at the oldest live
    bytes, and the empty and full tests mean what they say.
 */
module QueryProofs {
  import opened Modular
  import opened RingBuffer
  import opened RingInvariant
  import opened CursorFacts

  // ---------------------------------------------------------------------
  // Queries

  /** The size queries and `peek`, shape by shape. */
  lemma ConsumeableUnsplit(s: Ring)
    requires Coherent(s) && View(s).Unsplit?
    ensures ConsumeableSize(s) == ConsumeableSizeContinuous(s) == Gap(s)
    ensures Peek(s) == Masked(s.mask, s.read)
  {
    SplitSignal(s);
  }

  lemma ConsumeableFront(s: Ring)
    requires Coherent(s) && View(s).Split? && s.read == s.wrap
    ensures ConsumeableSize(s) == ConsumeableSizeContinuous(s) == FrontLen(s)
    ensures Peek(s) == 0
  {
    SplitSignal(s);
  }

  lemma ConsumeableTail(s: Ring)
    requires Coherent(s) && View(s).Split? && s.read != s.wrap
    ensures ConsumeableSizeContinuous(s) == Tail(s)
    ensures Peek(s) == Masked(s.mask, s.read)
    ensures ConsumeableSize(s) == Tail(s) + FrontLen(s)
    ensures s.size > Difference(s.wrap, s.read)
  {
    SplitSignal(s);
    MaskedSmall(s, Tail(s));
    DifferenceOfNearCursors(s.read, s.wrap);
  }

  /** The size queries report the abstract shape: the total is the number of
      live bytes and at most `size` (the assertion on the result), the
      continuous size is the first run, and while the tail is unread it is
      shorter than `size` (the assertion on the tail distance). */
  lemma ConsumeableSizeMatchesView(s: Ring)
    requires Coherent(s)
    ensures ConsumeableSize(s) == |Live(s)| <= s.size
    ensures ConsumeableSizeContinuous(s) == FirstRun(View(s)) <= ConsumeableSize(s)
    ensures IsSplit(s) && s.read != s.wrap ==> s.size > Difference(s.wrap, s.read)
  {
    SplitSignal(s);
    match View(s)
    case Unsplit(len) =>
      ConsumeableUnsplit(s);
    case Split(t, f) =>
      if s.read == s.wrap {
        ConsumeableFront(s);
      } else {
        ConsumeableTail(s);
      }
  }

  /** The first of two runs is a prefix of their concatenation. */
  lemma PrefixOfAppend(a: seq<byte>, b: seq<byte>, n: nat)
    requires n == |a|
    ensures (a + b)[..n] == a
  {
  }

  /** The first run, read at the peek offset for the continuous size. */
  ghost predicate PeekReads(s: Ring)
    requires Coherent(s)
  {
    && Peek(s) + ConsumeableSizeContinuous(s) <= s.size
    && ConsumeableSizeContinuous(s) <= |Live(s)|
    && s.data[Peek(s)..Peek(s) + ConsumeableSizeContinuous(s)] == Live(s)[..ConsumeableSizeContinuous(s)]
  }

  /** The run of an unsplit buffer is all of its live bytes. */
  lemma PeekReadsRun(s: Ring)
    requires Coherent(s) && View(s).Unsplit?
    ensures PeekReads(s)
  {
    ConsumeableUnsplit(s);
    assert Live(s)[..Gap(s)] == Live(s);
  }

  /** An unread tail is the oldest part of the live bytes. */
  lemma PeekReadsTail(s: Ring)
    requires Coherent(s) && View(s).Split? && s.read != s.wrap
    ensures PeekReads(s)
  {
    ConsumeableTail(s);
    PrefixOfAppend(TailBytes(s), FrontBytes(s), Tail(s));
  }

  /** Once the tail is drained the front run is all of the live bytes. */
  lemma PeekReadsFront(s: Ring)
    requires Coherent(s) && View(s).Split? && s.read == s.wrap
    ensures PeekReads(s)
  {
    ConsumeableFront(s);
    assert Live(s) == FrontBytes(s);
  }

  /** `peek` points at the first run: any `n` bytes from the peek offset, up
      to the continuous size, lie inside storage and are the `n` oldest live
      bytes. */
  lemma PeekReadsFirstRun(s: Ring, n: nat)
    requires Coherent(s) && n <= ConsumeableSizeContinuous(s)
    ensures Peek(s) + n <= s.size && n <= |Live(s)|
    ensures s.data[Peek(s)..Peek(s) + n] == Live(s)[..n]
  {
    if View(s).Unsplit? {
      PeekReadsRun(s);
    } else if s.read == s.wrap {
      PeekReadsFront(s);
    } else {
      PeekReadsTail(s);
    }
    PeekReadsPrefix(s, n);
  }

  /** From the whole first run to any prefix of it. */
  lemma PeekReadsPrefix(s: Ring, n: nat)
    requires Coherent(s) && PeekReads(s) && n <= ConsumeableSizeContinuous(s)
    ensures Peek(s) + n <= s.size && n <= |Live(s)|
    ensures s.data[Peek(s)..Peek(s) + n] == Live(s)[..n]
  {
    ShorterRead(s.data, Live(s), Peek(s), ConsumeableSizeContinuous(s), n);
  }

  /** Reading fewer bytes at the same offset reads a prefix of the same bytes. */
  lemma ShorterRead(data: seq<byte>, live: seq<byte>, off: nat, run: nat, n: nat)
    requires off + run <= |data| && run <= |live| && data[off..off + run] == live[..run]
    requires n <= run
    ensures off + n <= |data| && data[off..off + n] == live[..n]
  {
    assert data[off..off + n] == data[off..off + run][..n];
  }

  /** `is_empty` compares the counters themselves, and in a valid state that
      is exactly having no live bytes. */
  lemma IsEmptyIffNoLiveBytes(s: Ring)
    requires Valid(s)
    ensures IsEmpty(s) <==> Live(s) == []
    ensures IsEmpty(s) <==> ConsumeableSize(s) == 0
  {
    ConsumeableSizeMatchesView(s);
    if View(s).Split? {
      assert |Live(s)| >= FrontLen(s) >= 1;
    }
  }

  /** `is_full` holds exactly when `size` bytes are live. */
  lemma IsFullIffAllLive(s: Ring)
    requires Valid(s)
    ensures IsFull(s) <==> |Live(s)| == s.size
  {
    ConsumeableSizeMatchesView(s);
  }
}
