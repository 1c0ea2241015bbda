/** `consume` against the abstraction: it releases exactly the oldest live
    bytes and keeps the invariant.
 */
module ConsumeProofs {
  import opened Modular
  import opened RingBuffer
  import opened RingInvariant
  import opened CursorFacts
  import opened QueryProofs

  // ---------------------------------------------------------------------
  // consume

  /** Moving the read cursor forward inside the current run. */
  lemma ReadAdvance(s: Ring, n: nat)
    requires WellFormed(s) && n <= Gap(s) && Masked(s.mask, s.read) + n <= s.size
    ensures && Sub(s.write, Wrap(s.read + n)) == Gap(s) - n
            && (n <= Tail(s) ==> Sub(s.wrap, Wrap(s.read + n)) == Tail(s) - n)
            && Masked(s.mask, Wrap(s.read + n)) == if Masked(s.mask, s.read) + n == s.size then 0 else Masked(s.mask, s.read) + n
  {
    SubAdvance(s.write, s.read, n);
    if n <= Tail(s) {
      SubAdvance(s.wrap, s.read, n);
    }
    MaskedAdvance(s, s.read, n);
  }

  /** Dropping `n` bytes of the run `data[start..start + len]` leaves the run
      of `len - n` bytes from `start + n`, which begins at 0 when that is the
      end of storage. */
  lemma SliceDrop(data: seq<byte>, data': seq<byte>, start: nat, len: nat, n: nat, start': nat, len': nat)
    requires data' == data && start + len <= |data| && n <= len
    requires start' == (if start + n == |data| then 0 else start + n) && len' == len - n
    ensures start' + len' <= |data|
    ensures data'[start'..start' + len'] == data[start..start + len][n..]
  {
  }

  /** Dropping a prefix of the first of two runs. */
  lemma AppendDrop(a: seq<byte>, b: seq<byte>, n: nat)
    requires n <= |a|
    ensures (a + b)[n..] == a[n..] + b
  {
  }

  /** Dropping `n` bytes of the run of an unsplit buffer, as the bytes go. */
  lemma RunBytesDrop(s: Ring, r: Ring, n: nat)
    requires WellFormed(s) && WellFormed(r) && r.data == s.data
    requires Masked(s.mask, s.read) + Gap(s) <= s.size && n <= Gap(s) && Gap(r) == Gap(s) - n
    requires Masked(r.mask, r.read) == if Masked(s.mask, s.read) + n == s.size then 0 else Masked(s.mask, s.read) + n
    ensures n <= |RunBytes(s)| && RunBytes(r) == RunBytes(s)[n..]
  {
    SliceDrop(s.data, r.data, Masked(s.mask, s.read), Gap(s), n, Masked(r.mask, r.read), Gap(r));
  }

  /** Cursor effect of a consume inside an unsplit run. */
  lemma UnsplitConsumeShape(s: Ring, n: uint32)
    requires Valid(s) && View(s).Unsplit? && n <= ConsumeableSizeContinuous(s)
    ensures && n <= |RunBytes(s)|
            && Coherent(Consume(s, n)) && View(Consume(s, n)).Unsplit?
            && RunBytes(Consume(s, n)) == RunBytes(s)[n..]
  {
    ConsumeableUnsplit(s);
    SplitSignal(s);
    UnsplitFacts(s);
    var r := Consume(s, n);
    assert r.read == Wrap(s.read + n);
    ReadAdvance(s, n);
    UnsplitFromParts(r, Gap(s) - n);
    RunBytesDrop(s, r, n);
  }

  lemma ConsumeUnsplit(s: Ring, n: uint32)
    requires Valid(s) && View(s).Unsplit? && n <= ConsumeableSizeContinuous(s)
    ensures && Coherent(Consume(s, n))
            && n <= |Live(s)|
            && Live(Consume(s, n)) == Live(s)[n..]
  {
    UnsplitConsumeShape(s, n);
  }

  /** Dropping `n` bytes of the unread tail, as the bytes go. */
  lemma TailBytesDrop(s: Ring, r: Ring, n: nat)
    requires WellFormed(s) && WellFormed(r) && r.data == s.data
    requires Masked(s.mask, s.read) + Tail(s) <= s.size && n <= Tail(s) && Tail(r) == Tail(s) - n
    requires Masked(r.mask, r.read) == if Masked(s.mask, s.read) + n == s.size then 0 else Masked(s.mask, s.read) + n
    ensures n <= |TailBytes(s)| && TailBytes(r) == TailBytes(s)[n..]
  {
    SliceDrop(s.data, r.data, Masked(s.mask, s.read), Tail(s), n, Masked(r.mask, r.read), Tail(r));
  }

  /** Cursor effect of a consume inside the unread tail. */
  lemma TailConsumeShape(s: Ring, n: uint32)
    requires Valid(s) && View(s).Split? && s.read != s.wrap && n <= ConsumeableSizeContinuous(s)
    ensures && n <= |TailBytes(s)|
            && Coherent(Consume(s, n)) && View(Consume(s, n)).Split?
            && TailBytes(Consume(s, n)) == TailBytes(s)[n..]
            && FrontBytes(Consume(s, n)) == FrontBytes(s)
  {
    ConsumeableTail(s);
    SplitFacts(s);
    var r := Consume(s, n);
    assert r.read == Wrap(s.read + n);
    ReadAdvance(s, n);
    SplitFromParts(r, Tail(s) - n, FrontLen(s));
    TailBytesDrop(s, r, n);
  }

  lemma ConsumeTail(s: Ring, n: uint32)
    requires Valid(s) && View(s).Split? && s.read != s.wrap && n <= ConsumeableSizeContinuous(s)
    ensures && Coherent(Consume(s, n))
            && n <= |Live(s)|
            && Live(Consume(s, n)) == Live(s)[n..]
  {
    TailConsumeShape(s, n);
    AppendDrop(TailBytes(s), FrontBytes(s), n);
  }

  /** Moving the read cursor past a drained tail, the unused end of storage
      and the extra `size`, then `n` bytes into the front run. */
  lemma ReadSkip(s: Ring, n: nat)
    requires WellFormed(s) && s.read == s.wrap && n <= s.size
    requires Pad(s) + s.size + n <= Gap(s)
    ensures var read := Wrap(s.read + s.size + (s.size - Masked(s.mask, s.read)) + n);
      && Sub(s.write, read) == Gap(s) - Pad(s) - s.size - n
      && Masked(s.mask, read) == if n == s.size then 0 else n
  {
    SubAdvance(s.write, s.read, s.size + (s.size - Masked(s.mask, s.read)) + n);
    MaskedSkip(s, s.read, n);
  }

  /** Dropping `n` bytes of the front run, which is all that is live once
      the tail is drained. */
  lemma FrontBytesDrop(s: Ring, r: Ring, n: nat)
    requires WellFormed(s) && WellFormed(r) && r.data == s.data
    requires n <= FrontLen(s) && Gap(r) == FrontLen(s) - n
    requires Masked(r.mask, r.read) == if n == s.size then 0 else n
    ensures Masked(r.mask, r.read) + Gap(r) <= r.size
    ensures n <= |FrontBytes(s)| && RunBytes(r) == FrontBytes(s)[n..]
  {
    SliceDrop(s.data, r.data, 0, FrontLen(s), n, Masked(r.mask, r.read), Gap(r));
  }

  /** Cursor effect of a consume that leaves a drained tail: the state is
      unsplit again, with the rest of the front run as its one run. */
  lemma FrontConsumeShape(s: Ring, n: uint32)
    requires Valid(s) && View(s).Split? && s.read == s.wrap && n <= ConsumeableSizeContinuous(s)
    ensures && n <= |FrontBytes(s)|
            && TailBytes(s) == []
            && Masked(s.mask, Consume(s, n).read) == (if n == s.size then 0 else n)
            && Coherent(Consume(s, n)) && View(Consume(s, n)).Unsplit?
            && RunBytes(Consume(s, n)) == FrontBytes(s)[n..]
  {
    ConsumeableFront(s);
    SplitSignal(s);
    SplitFacts(s);
    var r := Consume(s, n);
    assert r.read == Wrap(s.read + s.size + (s.size - Masked(s.mask, s.read)) + n);
    ReadSkip(s, n);
    UnsplitFromParts(r, FrontLen(s) - n);
    FrontBytesDrop(s, r, n);
  }

  lemma ConsumeFront(s: Ring, n: uint32)
    requires Valid(s) && View(s).Split? && s.read == s.wrap && n <= ConsumeableSizeContinuous(s)
    ensures && Coherent(Consume(s, n))
            && n <= |Live(s)|
            && Live(Consume(s, n)) == Live(s)[n..]
            && View(Consume(s, n)).Unsplit?
            && Masked(s.mask, Consume(s, n).read) == (if n == s.size then 0 else n)
  {
    FrontConsumeShape(s, n);
    assert Live(s) == FrontBytes(s);
  }

  /** `consume` keeps the invariant and releases exactly the `n` oldest live
      bytes, so the total consumable size drops by exactly `n`. */
  lemma ConsumeKeepsValid(s: Ring, n: uint32)
    requires Valid(s) && n <= ConsumeableSizeContinuous(s)
    ensures && Valid(Consume(s, n))
            && n <= |Live(s)|
            && Live(Consume(s, n)) == Live(s)[n..]
            && ConsumeableSize(Consume(s, n)) == ConsumeableSize(s) - n
  {
    var r := Consume(s, n);
    if View(s).Unsplit? {
      ConsumeUnsplit(s, n);
    } else if s.read == s.wrap {
      ConsumeFront(s, n);
    } else {
      ConsumeTail(s, n);
    }
    CoherentIsValid(r);
    ConsumeableSizeMatchesView(s);
    ConsumeableSizeMatchesView(r);
  }
}
