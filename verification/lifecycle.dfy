/** A buffer over its whole life: created by `init`, cleared by `reset`, and
    driven by any sequence of writes and reads. Every state reached this way
    keeps the invariant, so the author's debug assertions hold in all of them,
    and the bytes come out in the order they went in.
 */
module Lifecycle {
  import opened Modular
  import opened RingBuffer
  import opened RingInvariant
  import opened CursorFacts
  import opened QueryProofs
  import opened ConsumeProofs
  import opened ProduceProofs

  // ---------------------------------------------------------------------
  // init and reset

  /** `init` with the capacity bounded by `MAX_SIZE`, the bound under which
      the split signal reads the cursors correctly. It starts empty. */
  function InitChecked(data: seq<byte>, size: uint32): (s: Ring)
    requires IsPowerOfTwo(size) && size <= MAX_SIZE && |data| == size
    ensures Valid(s) && Live(s) == [] && ConsumeableSize(s) == 0
    ensures s.data == data && s.size == size && s.mask == size - 1
  {
    var s := Init(data, size);
    UnsplitFromParts(s, 0);
    CoherentIsValid(s);
    ConsumeableSizeMatchesView(s);
    s
  }

  /** `reset` turns any well-formed buffer within the capacity bound into a
      valid empty one, even one whose cursors no longer make sense; storage,
      size and mask stay, and resetting twice is resetting once. */
  lemma ResetKeepsValid(s: Ring)
    requires WellFormed(s) && s.size <= MAX_SIZE
    ensures && Valid(Reset(s)) && Live(Reset(s)) == [] && ConsumeableSize(Reset(s)) == 0
            && Reset(s).data == s.data && Reset(s).size == s.size && Reset(s).mask == s.mask
            && Reset(Reset(s)) == Reset(s)
  {
    var r := Reset(s);
    UnsplitFromParts(r, 0);
    CoherentIsValid(r);
    ConsumeableSizeMatchesView(r);
  }

  // ---------------------------------------------------------------------
  // Runs of operations

  /** A write of at most 2^32 - 1 bytes: the length is an `unsigned`. */
  type Chunk = b: seq<byte> | |b| < MODULUS

  /** What a client does: write a record, or read `n` bytes of the current
      contiguous run through `peek` and release them with `consume`. */
  datatype Op = Write(bytes: Chunk) | Read(n: uint32)

  /** One operation. A read asks for no more than the continuous size, as
      `consume` demands; a larger request is not made and changes nothing.
      The result is the next state, the bytes read and the bytes accepted. */
  function Step(s: Ring, op: Op): (res: (Ring, seq<byte>, seq<byte>))
    requires Valid(s)
    ensures Valid(res.0)
    ensures res.1 + Live(res.0) == Live(s) + res.2
    ensures op.Write? ==> res.1 == [] && (res.2 == op.bytes <==> |op.bytes| <= Room(s))
    ensures op.Read? ==> res.2 == [] && (|res.1| == op.n <==> op.n <= ConsumeableSizeContinuous(s))
  {
    match op
    case Write(bytes) =>
      var (r, ok) := Produce(s, bytes);
      WriteStep(s, bytes, r, ok);
      NothingRead(Live(r), Live(s), if ok then bytes else []);
      (r, [], if ok then bytes else [])
    case Read(n) =>
      if n <= ConsumeableSizeContinuous(s) then
        ReadStep(s, n);
        NothingAccepted(s.data[Peek(s)..Peek(s) + n], Live(Consume(s, n)), Live(s));
        (Consume(s, n), s.data[Peek(s)..Peek(s) + n], [])
      else
        assert [] + Live(s) == Live(s) + [];
        (s, [], [])
  }

  /** A write keeps the buffer valid and moves nothing out: the live bytes
      grow by exactly what was accepted. */
  lemma WriteStep(s: Ring, bytes: Chunk, r: Ring, ok: bool)
    requires Valid(s) && r == Produce(s, bytes).0 && ok == Produce(s, bytes).1
    ensures Valid(r)
    ensures Live(r) == Live(s) + (if ok then bytes else [])
    ensures ok <==> |bytes| <= Room(s)
  {
    ProduceKeepsValid(s, bytes);
    assert Live(s) + [] == Live(s);
  }

  /** The byte balance of a write, which reads nothing. */
  lemma NothingRead(after: seq<byte>, before: seq<byte>, accepted: seq<byte>)
    requires after == before + accepted
    ensures [] + after == before + accepted
  {
    assert [] + after == after;
  }

  /** The byte balance of a read, which accepts nothing. */
  lemma NothingAccepted(out: seq<byte>, after: seq<byte>, before: seq<byte>)
    requires out + after == before
    ensures out + after == before + []
  {
    assert before + [] == before;
  }

  /** A read of `n` bytes of the first run through `peek`, then `consume`:
      the bytes read, followed by what stays live, are the live bytes before. */
  lemma ReadStep(s: Ring, n: uint32)
    requires Valid(s) && n <= ConsumeableSizeContinuous(s)
    ensures Peek(s) + n <= s.size
    ensures Valid(Consume(s, n))
    ensures s.data[Peek(s)..Peek(s) + n] + Live(Consume(s, n)) == Live(s)
  {
    PeekReadsFirstRun(s, n);
    ConsumeKeepsValid(s, n);
    FirstBytesThenRest(Live(s), s.data[Peek(s)..Peek(s) + n], n);
  }

  /** Reading the first `n` bytes and keeping the rest loses nothing. */
  lemma FirstBytesThenRest(live: seq<byte>, out: seq<byte>, n: nat)
    requires n <= |live| && out == live[..n]
    ensures out + live[n..] == live
  {
  }

  /** A whole run of operations: the final state, everything read and
      everything accepted, oldest first. */
  function Run(s: Ring, ops: seq<Op>): (res: (Ring, seq<byte>, seq<byte>))
    requires Valid(s)
    ensures Valid(res.0)
    ensures res.1 + Live(res.0) == Live(s) + res.2
    decreases |ops|
  {
    if ops == [] then
      assert [] + Live(s) == Live(s) + [];
      (s, [], [])
    else
      var (s1, out1, in1) := Step(s, ops[0]);
      var (s2, out2, in2) := Run(s1, ops[1..]);
      Regroup(Live(s), Live(s1), Live(s2), out1, in1, out2, in2);
      (s2, out1 + out2, in1 + in2)
  }

  /** Chaining the byte balance of two consecutive stretches of a run. */
  lemma Regroup(l0: seq<byte>, l1: seq<byte>, l2: seq<byte>, out1: seq<byte>, in1: seq<byte>, out2: seq<byte>, in2: seq<byte>)
    requires out1 + l1 == l0 + in1 && out2 + l2 == l1 + in2
    ensures (out1 + out2) + l2 == l0 + (in1 + in2)
  {
    calc {
      (out1 + out2) + l2;
      out1 + (out2 + l2);
      out1 + (l1 + in2);
      (out1 + l1) + in2;
      (l0 + in1) + in2;
    }
  }

  /** Every state a run reaches from a fresh buffer passes the debug
      assertions of the size queries and of the write into a split buffer,
      and the bytes read so far followed by the bytes still live are exactly
      the bytes accepted so far. */
  lemma ReachableStatesPassAssertions(data: seq<byte>, size: uint32, ops: seq<Op>)
    requires IsPowerOfTwo(size) && size <= MAX_SIZE && |data| == size
    ensures var (r, out, accepted) := Run(InitChecked(data, size), ops);
      && ConsumeableSize(r) <= r.size
      && ConsumeableSizeContinuous(r) <= ConsumeableSize(r)
      && (IsSplit(r) && r.read != r.wrap ==> r.size > Difference(r.wrap, r.read))
      && (IsSplit(r) && r.read != r.wrap ==> Masked(r.mask, r.read) >= Masked(r.mask, r.write))
      && out + Live(r) == accepted
  {
    var s := InitChecked(data, size);
    var (r, out, accepted) := Run(s, ops);
    ConsumeableSizeMatchesView(r);
    assert [] + accepted == accepted;
  }

  /** Reads whole contiguous runs until the buffer is empty, and returns the
      bytes in the order they were read: exactly the live bytes. */
  method Drain(s: Ring) returns (r: Ring, out: seq<byte>)
    requires Valid(s)
    ensures Valid(r) && IsEmpty(r) && out == Live(s)
  {
    r, out := s, [];
    while !IsEmpty(r)
      invariant Valid(r) && out + Live(r) == Live(s)
      decreases |Live(r)|
    {
      var n := ConsumeableSizeContinuous(r);
      ConsumeableSizeMatchesView(r);
      IsEmptyIffNoLiveBytes(r);
      ReadStep(r, n);
      ConsumeKeepsValid(r, n);
      var chunk := r.data[Peek(r)..Peek(r) + n];
      DrainStep(out, chunk, Live(Consume(r, n)), Live(r), Live(s));
      out := out + chunk;
      r := Consume(r, n);
    }
    IsEmptyIffNoLiveBytes(r);
    assert out + [] == out;
  }

  /** The loop step of `Drain`: moving a chunk from the front of the live
      bytes to the output keeps the output and the live bytes together equal
      to the start. */
  lemma DrainStep(out: seq<byte>, chunk: seq<byte>, rest: seq<byte>, live: seq<byte>, start: seq<byte>)
    requires chunk + rest == live && out + live == start
    ensures (out + chunk) + rest == start
  {
  }
}
