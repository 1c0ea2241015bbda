/** `produce` against the abstraction: it accepts exactly the writes that fit
    in one contiguous free region, appends them to the live bytes, and keeps
    the invariant.
 */
module ProduceProofs {
  import opened Modular
  import opened RingBuffer
  import opened RingInvariant
  import opened CursorFacts
  import opened QueryProofs

  // ---------------------------------------------------------------------
  // Storage

  /** Copying behind a run extends the run by the copied bytes. */
  lemma SpliceExtendsRun(data: seq<byte>, data': seq<byte>, input: seq<byte>, start: nat, len: nat, len': nat)
    requires start + len + |input| <= |data| && data' == Splice(data, start + len, input)
    requires len' == len + |input|
    ensures data'[start..start + len'] == data[start..start + len] + input
  {
    assert data'[start..start + len] == data[start..start + len];
    assert data'[start..start + len'] == data'[start..start + len] + data'[start + len..start + len'];
  }

  /** Copying next to a run, not over it, keeps the run. */
  lemma SpliceKeepsRun(data: seq<byte>, data': seq<byte>, input: seq<byte>, off: nat, start: nat, len: nat, start': nat, len': nat)
    requires start + len <= |data| && off + |input| <= |data| && data' == Splice(data, off, input)
    requires len == 0 || off + |input| <= start || start + len <= off
    requires start' == start && len' == len
    ensures data'[start'..start' + len'] == data[start..start + len]
  {
    if len > 0 {
      forall k | start <= k < start + len
        ensures data'[k] == data[k]
      {
        if off + |input| <= start {
          assert data'[off + |input|..][k - (off + |input|)] == data[off + |input|..][k - (off + |input|)];
        } else {
          assert data'[..off][k] == data[..off][k];
        }
      }
    }
    assert data'[start..start + len] == data[start..start + len];
  }

  /** The runs of `a + b + c` may be grouped either way. */
  lemma AppendAssoc(a: seq<byte>, b: seq<byte>, c: seq<byte>)
    ensures a + (b + c) == a + b + c
  {
  }

  // ---------------------------------------------------------------------
  // Cursor effects of the two kinds of write

  /** A write in place moves the write cursor and nothing else. */
  lemma WriteAdvance(s: Ring, input: seq<byte>)
    requires WellFormed(s) && Masked(s.mask, s.write) + |input| <= s.size
    requires Gap(s) + |input| < MODULUS
    ensures var r := WriteInPlace(s, input);
      && Gap(r) == Gap(s) + |input|
      && Tail(r) == Tail(s) && Pad(r) == Pad(s)
      && Masked(r.mask, r.read) == Masked(s.mask, s.read)
      && Masked(r.mask, r.write) ==
           if Masked(s.mask, s.write) + |input| == s.size then 0 else Masked(s.mask, s.write) + |input|
  {
    SubGrow(s.write, s.read, |input|);
    MaskedAdvance(s, s.write, |input|);
  }

  /** A front write from an unsplit state: the old run becomes the tail, the
      new bytes the front run, and the gap is inflated past `size`. */
  lemma FrontWriteCursors(s: Ring, input: seq<byte>)
    requires WellFormed(s) && s.size <= MAX_SIZE && Gap(s) <= s.size
    requires 1 <= |input| <= s.size
    ensures var r := WriteToFront(s, input);
      && Gap(r) == Gap(s) + Pad(r) + s.size + |input|
      && Tail(r) == Gap(s)
      && Pad(r) == s.size - Masked(s.mask, s.write)
      && FrontLen(r) == |input|
      && Masked(r.mask, r.read) == Masked(s.mask, s.read)
      && Masked(r.mask, r.write) == if |input| == s.size then 0 else |input|
  {
    var r := WriteToFront(s, input);
    var n := |input|;
    var mw := Masked(s.mask, s.write);
    assert r.write == Wrap(s.write + s.size + (s.size - mw) + n);
    SubGrow(s.write, s.read, s.size + (s.size - mw) + n);
    MaskedSkip(s, s.write, n);
  }

  /** In an unsplit state the write cursor sits at the end of the run, or at
      offset 0 when the run reaches the end of storage. */
  lemma UnsplitWriteOffset(s: Ring)
    requires WellFormed(s) && Masked(s.mask, s.read) + Gap(s) <= s.size
    ensures Masked(s.mask, s.write) ==
      if Masked(s.mask, s.read) + Gap(s) == s.size then 0 else Masked(s.mask, s.read) + Gap(s)
  {
    MaskedAdvance(s, s.read, Gap(s));
  }

  // ---------------------------------------------------------------------
  // The three ways a write succeeds

  /** Bytes of a write behind the front run: the tail run stays and the
      front run grows. */
  lemma FrontRunBytesGrow(s: Ring, r: Ring, input: seq<byte>)
    requires WellFormed(s) && WellFormed(r) && FrontLen(s) + |input| <= s.size
    requires r.data == Splice(s.data, FrontLen(s), input) && FrontLen(r) == FrontLen(s) + |input|
    requires Masked(s.mask, s.read) + Tail(s) <= s.size && Tail(r) == Tail(s) && Masked(r.mask, r.read) == Masked(s.mask, s.read)
    requires Tail(s) == 0 || FrontLen(s) + |input| <= Masked(s.mask, s.read)
    ensures Masked(r.mask, r.read) + Tail(r) <= r.size
    ensures TailBytes(r) == TailBytes(s) && FrontBytes(r) == FrontBytes(s) + input
  {
    SpliceKeepsRun(s.data, r.data, input, FrontLen(s), Masked(s.mask, s.read), Tail(s), Masked(r.mask, r.read), Tail(r));
    SpliceExtendsRun(s.data, r.data, input, 0, FrontLen(s), FrontLen(r));
  }

  /** Cursor and storage effect of a write into a split buffer: the tail run
      stays and the front run grows by the written bytes. */
  lemma FrontRunWriteShape(s: Ring, input: seq<byte>)
    requires Coherent(s) && View(s).Split? && Masked(s.mask, s.write) == FrontLen(s)
    requires 1 <= |input|
    requires FrontLen(s) + |input| <= if Tail(s) > 0 then Masked(s.mask, s.read) else s.size
    ensures && Coherent(WriteInPlace(s, input)) && View(WriteInPlace(s, input)).Split?
            && TailBytes(WriteInPlace(s, input)) == TailBytes(s)
            && FrontBytes(WriteInPlace(s, input)) == FrontBytes(s) + input
  {
    SplitFacts(s);
    var r := WriteInPlace(s, input);
    WriteAdvance(s, input);
    SplitFromParts(r, Tail(s), FrontLen(s) + |input|);
    FrontRunBytesGrow(s, r, input);
  }

  /** Into a split buffer: the front run grows, up to the unread tail or, once
      the tail is gone, up to the end of storage. */
  lemma AppendToFrontRun(s: Ring, input: seq<byte>)
    requires Coherent(s) && View(s).Split? && Masked(s.mask, s.write) == FrontLen(s)
    requires 1 <= |input|
    requires FrontLen(s) + |input| <= if Tail(s) > 0 then Masked(s.mask, s.read) else s.size
    ensures Coherent(WriteInPlace(s, input))
    ensures Live(WriteInPlace(s, input)) == Live(s) + input
  {
    FrontRunWriteShape(s, input);
    AppendAssoc(TailBytes(s), FrontBytes(s), input);
  }

  /** Bytes of a write right behind the run of an unsplit buffer. */
  lemma RunBytesGrow(s: Ring, r: Ring, input: seq<byte>)
    requires WellFormed(s) && WellFormed(r) && Masked(s.mask, s.read) + Gap(s) + |input| <= s.size
    requires r.data == Splice(s.data, Masked(s.mask, s.read) + Gap(s), input)
    requires Masked(r.mask, r.read) == Masked(s.mask, s.read) && Gap(r) == Gap(s) + |input|
    ensures Masked(r.mask, r.read) + Gap(r) <= r.size
    ensures RunBytes(r) == RunBytes(s) + input
  {
    SpliceExtendsRun(s.data, r.data, input, Masked(s.mask, s.read), Gap(s), Gap(r));
  }

  /** Cursor and storage effect of a write right behind the run of an
      unsplit buffer. */
  lemma BehindRunWriteShape(s: Ring, input: seq<byte>)
    requires Coherent(s) && View(s).Unsplit?
    requires Masked(s.mask, s.write) == Masked(s.mask, s.read) + Gap(s)
    requires 1 <= |input| && Masked(s.mask, s.write) + |input| <= s.size
    ensures && Coherent(WriteInPlace(s, input)) && View(WriteInPlace(s, input)).Unsplit?
            && RunBytes(WriteInPlace(s, input)) == RunBytes(s) + input
  {
    UnsplitFacts(s);
    var r := WriteInPlace(s, input);
    WriteAdvance(s, input);
    UnsplitFromParts(r, Gap(s) + |input|);
    RunBytesGrow(s, r, input);
  }

  /** Into an unsplit buffer, right behind the run. */
  lemma AppendBehindRun(s: Ring, input: seq<byte>)
    requires Coherent(s) && View(s).Unsplit?
    requires Masked(s.mask, s.write) == Masked(s.mask, s.read) + Gap(s)
    requires 1 <= |input| && Masked(s.mask, s.write) + |input| <= s.size
    ensures Coherent(WriteInPlace(s, input))
    ensures Live(WriteInPlace(s, input)) == Live(s) + input
  {
    BehindRunWriteShape(s, input);
  }

  /** Bytes of a front write: the old run becomes the tail run, the written
      bytes the front run. */
  lemma InFrontBytes(s: Ring, r: Ring, input: seq<byte>)
    requires WellFormed(s) && WellFormed(r) && |input| <= s.size
    requires r.data == Splice(s.data, 0, input) && FrontLen(r) == |input|
    requires Masked(s.mask, s.read) + Gap(s) <= s.size && Tail(r) == Gap(s) && Masked(r.mask, r.read) == Masked(s.mask, s.read)
    requires Gap(s) == 0 || |input| <= Masked(s.mask, s.read)
    ensures Masked(r.mask, r.read) + Tail(r) <= r.size
    ensures TailBytes(r) == RunBytes(s) && FrontBytes(r) == input
  {
    SpliceKeepsRun(s.data, r.data, input, 0, Masked(s.mask, s.read), Gap(s), Masked(r.mask, r.read), Tail(r));
  }

  /** Cursor and storage effect of a front write from an unsplit buffer: the
      old run becomes the tail run and the written bytes the front run. */
  lemma InFrontWriteShape(s: Ring, input: seq<byte>)
    requires Coherent(s) && View(s).Unsplit?
    requires 1 <= |input| <= s.size
    requires Gap(s) > 0 ==> |input| <= Masked(s.mask, s.read)
    ensures && Coherent(WriteToFront(s, input)) && View(WriteToFront(s, input)).Split?
            && TailBytes(WriteToFront(s, input)) == RunBytes(s)
            && FrontBytes(WriteToFront(s, input)) == input
  {
    UnsplitFacts(s);
    var r := WriteToFront(s, input);
    FrontWriteCursors(s, input);
    SplitFromParts(r, Gap(s), |input|);
    InFrontBytes(s, r, input);
  }

  /** Into an unsplit buffer, at offset 0, in front of the run. */
  lemma AppendInFront(s: Ring, input: seq<byte>)
    requires Coherent(s) && View(s).Unsplit?
    requires 1 <= |input| <= s.size
    requires Gap(s) > 0 ==> |input| <= Masked(s.mask, s.read)
    ensures Coherent(WriteToFront(s, input))
    ensures Live(WriteToFront(s, input)) == Live(s) + input
  {
    InFrontWriteShape(s, input);
  }

  // ---------------------------------------------------------------------
  // Which write `produce` picks

  lemma SplitChoice(s: Ring, input: seq<byte>)
    requires Valid(s) && View(s).Split?
    requires 1 <= |input| < MODULUS
    ensures var (r, ok) := ProduceAsWritten(s, input);
      && (ok <==> |input| <= Room(s))
      && (ok ==> && r == WriteInPlace(s, input)
                 && Masked(s.mask, s.write) == FrontLen(s)
                 && FrontLen(s) + |input| <= if Tail(s) > 0 then Masked(s.mask, s.read) else s.size)
  {
    SplitSignal(s);
    MaskedSub(s, s.read, s.write);
    if s.read != s.wrap {
      assert Tail(s) != 0;
    }
  }

  lemma EmptyChoice(s: Ring, input: seq<byte>)
    requires Valid(s) && View(s).Unsplit? && Gap(s) == 0
    requires 1 <= |input| < MODULUS
    ensures var (r, ok) := ProduceAsWritten(s, input);
      && (ok <==> |input| <= Room(s))
      && (ok && Masked(s.mask, s.write) != 0 ==> r == WriteToFront(s, input))
      && (ok && Masked(s.mask, s.write) == 0 ==> r == WriteInPlace(s, input))
      && Masked(s.mask, s.write) == Masked(s.mask, s.read)
  {
    SplitSignal(s);
    assert s.read == s.write;
  }

  lemma BehindRunChoice(s: Ring, input: seq<byte>)
    requires Valid(s) && View(s).Unsplit? && Gap(s) > 0
    requires 1 <= |input| < MODULUS
    ensures var start := Masked(s.mask, s.read);
      var endOfRun := start + Gap(s);
      var behind := endOfRun < s.size && |input| <= s.size - endOfRun;
      && (|input| <= Room(s) <==> ProduceAsWritten(s, input).1)
      && (behind ==> Masked(s.mask, s.write) == endOfRun && ProduceAsWritten(s, input).0 == WriteInPlace(s, input))
      && (!behind && |input| <= start ==> ProduceAsWritten(s, input).0 == WriteToFront(s, input))
  {
    SplitSignal(s);
    UnsplitFacts(s);
    UnsplitWriteOffset(s);
    assert !IsEmpty(s);
  }

  /** A non-empty write succeeds exactly when it fits in one free region, and
      then it is appended to the live bytes and the state stays coherent. */
  lemma ProduceAppends(s: Ring, input: seq<byte>)
    requires Valid(s) && 1 <= |input| < MODULUS
    ensures var (r, ok) := ProduceAsWritten(s, input);
      && (ok <==> |input| <= Room(s))
      && (ok ==> Coherent(r) && Live(r) == Live(s) + input)
  {
    if View(s).Split? {
      SplitChoice(s, input);
      if |input| <= Room(s) {
        AppendToFrontRun(s, input);
      }
    } else if Gap(s) == 0 {
      EmptyChoice(s, input);
      UnsplitFacts(s);
      if |input| <= Room(s) {
        if Masked(s.mask, s.write) != 0 {
          AppendInFront(s, input);
        } else {
          AppendBehindRun(s, input);
        }
      }
    } else {
      BehindRunChoice(s, input);
      var start := Masked(s.mask, s.read);
      var endOfRun := start + Gap(s);
      if endOfRun < s.size && |input| <= s.size - endOfRun {
        AppendBehindRun(s, input);
      } else if |input| <= start {
        AppendInFront(s, input);
      }
    }
  }

  /** `produce` with zero-length writes as no-ops keeps the invariant on every
      input: it succeeds exactly when the bytes fit in one free region, then
      appends them to the live bytes and raises the consumable size by their
      number, and otherwise changes nothing. */
  lemma ProduceKeepsValid(s: Ring, input: seq<byte>)
    requires Valid(s) && |input| < MODULUS
    ensures var (r, ok) := Produce(s, input);
      && Valid(r)
      && (ok <==> |input| <= Room(s))
      && (ok ==> Live(r) == Live(s) + input && ConsumeableSize(r) == ConsumeableSize(s) + |input|)
      && (!ok ==> r == s)
  {
    var (r, ok) := Produce(s, input);
    if |input| == 0 {
      assert Live(s) + input == Live(s);
    } else {
      ProduceAppends(s, input);
      if ok {
        CoherentIsValid(r);
        ConsumeableSizeMatchesView(s);
        ConsumeableSizeMatchesView(r);
      }
    }
  }

  /** The round trip of an empty buffer: any record from one byte up to the
      capacity is accepted, and `peek` then shows the whole record as the
      first contiguous run, whether it went in place or to the front. */
  lemma EmptyWriteReadsBack(s: Ring, input: seq<byte>)
    requires Valid(s) && IsEmpty(s) && 1 <= |input| <= s.size
    ensures Produce(s, input).1
    ensures var r := Produce(s, input).0;
      && ConsumeableSizeContinuous(r) == |input|
      && Peek(r) + |input| <= s.size
      && r.data[Peek(r)..Peek(r) + |input|] == input
  {
    IsEmptyIffNoLiveBytes(s);
    SplitSignal(s);
    EmptyChoice(s, input);
    ProduceKeepsValid(s, input);
    if Masked(s.mask, s.write) != 0 {
      InFrontWriteShape(s, input);
    } else {
      BehindRunWriteShape(s, input);
    }
    var r := Produce(s, input).0;
    ConsumeableSizeMatchesView(r);
    PeekReadsFirstRun(r, |input|);
  }

  /** A record is never stored split: every accepted non-empty record ends
      the run holding the newest bytes, as one contiguous piece of it. */
  lemma RecordInLastRun(s: Ring, input: seq<byte>)
    requires Valid(s) && 1 <= |input| < MODULUS
    ensures Produce(s, input).1 ==> EndsLastRun(Produce(s, input).0, input)
  {
    if View(s).Split? {
      SplitRecordInLastRun(s, input);
    } else if Gap(s) == 0 {
      EmptyRecordInLastRun(s, input);
    } else {
      BehindRecordInLastRun(s, input);
    }
  }

  lemma SplitRecordInLastRun(s: Ring, input: seq<byte>)
    requires Valid(s) && View(s).Split? && 1 <= |input| < MODULUS
    ensures Produce(s, input).1 ==> EndsLastRun(Produce(s, input).0, input)
  {
    SplitChoice(s, input);
    if |input| <= Room(s) {
      InPlaceEndsFrontRun(s, input);
    }
  }

  lemma EmptyRecordInLastRun(s: Ring, input: seq<byte>)
    requires Valid(s) && View(s).Unsplit? && Gap(s) == 0 && 1 <= |input| < MODULUS
    ensures Produce(s, input).1 ==> EndsLastRun(Produce(s, input).0, input)
  {
    EmptyChoice(s, input);
    UnsplitFacts(s);
    if |input| <= Room(s) {
      if Masked(s.mask, s.write) != 0 {
        FrontWriteEndsRun(s, input);
      } else {
        BehindRunEndsRun(s, input);
      }
    }
  }

  lemma BehindRecordInLastRun(s: Ring, input: seq<byte>)
    requires Valid(s) && View(s).Unsplit? && Gap(s) > 0 && 1 <= |input| < MODULUS
    ensures Produce(s, input).1 ==> EndsLastRun(Produce(s, input).0, input)
  {
    BehindRunChoice(s, input);
    UnsplitFacts(s);
    var start := Masked(s.mask, s.read);
    if start + Gap(s) < s.size && |input| <= s.size - (start + Gap(s)) {
      BehindRunEndsRun(s, input);
    } else if |input| <= start {
      FrontWriteEndsRun(s, input);
    }
  }

  lemma InPlaceEndsFrontRun(s: Ring, input: seq<byte>)
    requires Coherent(s) && View(s).Split? && Masked(s.mask, s.write) == FrontLen(s)
    requires 1 <= |input|
    requires FrontLen(s) + |input| <= if Tail(s) > 0 then Masked(s.mask, s.read) else s.size
    ensures EndsLastRun(WriteInPlace(s, input), input)
  {
    FrontRunWriteShape(s, input);
    EndsWith(FrontBytes(s), input);
  }

  lemma BehindRunEndsRun(s: Ring, input: seq<byte>)
    requires Coherent(s) && View(s).Unsplit?
    requires Masked(s.mask, s.write) == Masked(s.mask, s.read) + Gap(s)
    requires 1 <= |input| && Masked(s.mask, s.write) + |input| <= s.size
    ensures EndsLastRun(WriteInPlace(s, input), input)
  {
    BehindRunWriteShape(s, input);
    EndsWith(RunBytes(s), input);
  }

  lemma FrontWriteEndsRun(s: Ring, input: seq<byte>)
    requires Coherent(s) && View(s).Unsplit?
    requires 1 <= |input| <= s.size
    requires Gap(s) > 0 ==> |input| <= Masked(s.mask, s.read)
    ensures EndsLastRun(WriteToFront(s, input), input)
  {
    InFrontWriteShape(s, input);
  }

  lemma EndsWith(a: seq<byte>, b: seq<byte>)
    ensures (a + b)[|a + b| - |b|..] == b
  {
  }
}
