# ijcringbuffer in Dafny

`ijcringbuffer.h` is a single-header C library for a "continuous" ring buffer.
It takes variable-sized records and guarantees that each record is stored as
one contiguous run of bytes, or is not stored at all. A reader can therefore
consume a record straight out of storage.

The buffer borrows `size` bytes of caller storage, where `size` is a power of
two. It keeps three free-running 32-bit cursors: `read`, `write` and `wrap`.

- When a record does not fit behind the live data but fits in front of it, the
  buffer "splits". It remembers where the old data ends in `wrap`, copies the
  record to offset 0, and pushes `write` past one extra `size`.
- Whether the buffer is split is never stored. It is read off the circular
  distance between `read` and `write`.
- A write into an empty buffer whose cursors are not at offset 0 also goes to
  the front. This is the "auto-reset".

This project models the implementation part of the header: `difference`,
`init`, `reset`, `is_split`, `peek`, the two consumable-size queries,
`consume`, `is_empty`, `is_full` and `produce`. It proves what those
operations promise about an abstract view of the buffer. It also replays the
header's own self-test.

Modules, in dependency order:

- `Modular` (`modular.dfy`): unsigned 32-bit arithmetic as wrap-around on
  integers, and powers of two.
- `RingBuffer` (`ring.dfy`): the operations, computed as the C code computes
  them. Storage is a byte sequence and `peek` returns an offset.
  - `ProduceAsWritten` is `produce` exactly as written.
  - `Produce` is the same function with zero-length writes made a no-op.
- `RingInvariant` (`invariant.dfy`): the meaning of the cursors.
  - `View` maps a state to the shape of its live data: one run, or a tail run
    plus a front run.
  - `Valid` is the invariant that every reachable state keeps.
  - `Live` is the live bytes, oldest first.
  - `Room` is the longest contiguous write the buffer can take.
- `CursorFacts`, `QueryProofs`, `ConsumeProofs` and `ProduceProofs`: each
  operation against that abstraction.
- `Lifecycle` (`lifecycle.dfy`): whole runs of writes and reads starting from
  `init`.
- `Findings` (`findings.dfy`): four places where the code as written differs
  from what it evidently intends.
- `Scenarios` (`scenarios.dfy`): the self-test's six scenarios. Each is stated
  for any bytes of the lengths the self-test writes.

## Model

| member | source | states |
|---|---|---|
| `Modular.Sub` | ijcringbuffer.h:119-120 | unsigned subtraction: adding the result back to the subtrahend gives the minuend modulo 2^32 |
| `RingBuffer.Masked` | ijcringbuffer.h:150 | `x & mask` is a physical offset no larger than the mask |
| `RingBuffer.MaskedIsAnd` | ijcringbuffer.h:150 | in a well-formed buffer `Masked` is exactly the bitwise AND of the cursor with the mask |
| `Modular.PowerOfTwoIffNoCommonBits` | ijcringbuffer.h:126 | the capacity test `n > 0 && !(n & (n - 1))` accepts exactly the powers of two, the capacities the model admits |
| `Modular.AndLowBits` | ijcringbuffer.h:198 | for a power of two `n`, `x & (n - 1)` is the remainder of `x` modulo `n` |
| `RingBuffer.Difference` | ijcringbuffer.h:117-122 | the circular distance is one of the two ways round, no longer than either, at most 2^31, and zero exactly for equal counters |
| `RingBuffer.Init` | ijcringbuffer.h:124-132 | `init` on a power-of-two capacity yields a well-formed buffer over the given storage with all cursors at 0 |
| `Lifecycle.InitChecked` | ijcringbuffer.h:124-132 | within the capacity bound, a fresh buffer is valid, holds no live bytes and reports size 0 |
| `RingBuffer.Reset` | ijcringbuffer.h:134-137 | `reset` sets all three cursors to 0, keeps storage, size and mask, and so leaves the buffer empty and unsplit |
| `Lifecycle.ResetKeepsValid` | ijcringbuffer.h:134-137 | resetting any well-formed buffer within the capacity bound, including one left invalid by the zero-length writes of the first two findings, gives a valid buffer with no live bytes and size 0, storage kept; resetting is idempotent |
| `CursorFacts.SplitSignal` | ijcringbuffer.h:139-142 | in a coherent state `is_split` holds exactly when the live data is a tail plus a front run |
| `RingBuffer.IsSplit` | ijcringbuffer.h:139-142 | a split buffer is never empty; `CursorFacts.SplitSignal` proves the distance test holds exactly when the live data is a tail plus a front run |
| `RingBuffer.Peek` | ijcringbuffer.h:144-153 | `peek` points inside storage |
| `QueryProofs.PeekReadsFirstRun` | ijcringbuffer.h:144-153 | the first `n` bytes at `peek`, for any `n` up to the continuous size, are the `n` oldest live bytes |
| `RingBuffer.CountConsumeable` | ijcringbuffer.h:155-172 | unsplit, the size is the cursor gap; after the tail is drained it is between 1 and `size` |
| `RingBuffer.ConsumeableSizeContinuous` | ijcringbuffer.h:174-177 | the continuous size equals the total unless a split buffer still has unread tail bytes; `QueryProofs.ConsumeableSizeMatchesView` proves it is the first run of live bytes |
| `RingBuffer.ConsumeableSize` | ijcringbuffer.h:179-182 | an empty buffer reports 0; `QueryProofs.ConsumeableSizeMatchesView` proves it is the number of live bytes |
| `QueryProofs.ConsumeableUnsplit` | ijcringbuffer.h:167-169 | unsplit, both sizes are the gap and `peek` is the masked read cursor |
| `QueryProofs.ConsumeableFront` | ijcringbuffer.h:159-162 | with the tail drained, both sizes are the front run's length and `peek` is offset 0 |
| `QueryProofs.ConsumeableTail` | ijcringbuffer.h:163-166 | with the tail unread, the continuous size is the tail, the total is tail plus front, and the tail distance is below `size` (the assertion at line 164) |
| `QueryProofs.ConsumeableSizeMatchesView` | ijcringbuffer.h:155-182 | the total size is the number of live bytes and at most `size` (line 170); the continuous size is the first run and no more than the total |
| `RingBuffer.Consume` | ijcringbuffer.h:184-191 | `consume` moves only the read cursor, and consuming nothing outside the drained-tail case changes nothing |
| `ConsumeProofs.ConsumeUnsplit` | ijcringbuffer.h:189-190 | consuming `n` bytes of a single run drops exactly the `n` oldest live bytes |
| `ConsumeProofs.ConsumeTail` | ijcringbuffer.h:189-190 | consuming `n` bytes of an unread tail drops exactly the `n` oldest live bytes |
| `ConsumeProofs.ConsumeFront` | ijcringbuffer.h:187-188 | consuming after a drained tail jumps into the front run, drops `n` bytes and leaves one run starting at offset `n` |
| `ConsumeProofs.ConsumeKeepsValid` | ijcringbuffer.h:184-191 | any `consume` the assertion at line 186 admits keeps the invariant, drops exactly the `n` oldest live bytes and lowers the total size by `n` |
| `RingBuffer.IsEmpty` | ijcringbuffer.h:193 | an empty buffer is not split; `QueryProofs.IsEmptyIffNoLiveBytes` proves equal cursors mean no live bytes |
| `RingBuffer.IsFull` | ijcringbuffer.h:194 | a full buffer is not empty; `QueryProofs.IsFullIffAllLive` proves it holds exactly when `size` bytes are live |
| `QueryProofs.IsEmptyIffNoLiveBytes` | ijcringbuffer.h:193 | comparing the cursors is the same as having no live bytes, and the same as a total size of 0 |
| `QueryProofs.IsFullIffAllLive` | ijcringbuffer.h:194 | `is_full` holds exactly when `size` bytes are live |
| `CursorFacts.CoherentIsValid` | ijcringbuffer.h:207 | the assertion at the head of a write into a split buffer holds in every coherent state |
| `RingBuffer.MaskedSub` | ijcringbuffer.h:208 | `(read - write) & mask` is the free distance when the read offset is at or after the write offset |
| `RingBuffer.WriteInPlace` | ijcringbuffer.h:211-215 | an in-place write copies the record at the masked write offset and advances `write` by its length |
| `RingBuffer.WriteToFront` | ijcringbuffer.h:248-252 | a front write copies the record to offset 0, records the old write cursor in `wrap` and keeps `read` |
| `ProduceProofs.FrontWriteCursors` | ijcringbuffer.h:248-253 | after a front write the gap is tail + unused end + `size` + record, and the masked write cursor is the record's length modulo `size` |
| `RingBuffer.ProduceAsWritten` | ijcringbuffer.h:196-258 | `produce` as written either refuses and changes nothing, or copies the record as one run somewhere in storage |
| `RingBuffer.Produce` | ijcringbuffer.h:196-258 | as `ProduceAsWritten`, and a zero-length write succeeds without changing the buffer |
| `ProduceProofs.SplitChoice` | ijcringbuffer.h:201-217 | in a split buffer a write succeeds exactly when it fits between the front run and the unread tail (or the end of storage), and then it extends the front run in place |
| `ProduceProofs.EmptyChoice` | ijcringbuffer.h:219-243 | an empty buffer takes any record up to `size`: at the front when the write offset is not 0 (the auto-reset), in place otherwise |
| `ProduceProofs.BehindRunChoice` | ijcringbuffer.h:227-257 | a non-empty unsplit buffer writes behind the run when the record fits there, otherwise in front when it fits before the read offset, and succeeds exactly when `Room` allows |
| `ProduceProofs.ProduceAppends` | ijcringbuffer.h:196-258 | a non-empty write succeeds exactly when it fits in one free region, and then appends the record to the live bytes |
| `ProduceProofs.RecordInLastRun` | ijcringbuffer.h:13-14 | every accepted non-empty record is one contiguous piece at the end of the run holding the newest bytes, never divided between the tail and the front run |
| `ProduceProofs.EmptyWriteReadsBack` | ijcringbuffer.h:219-243 | a record of any length from 1 to the capacity written into an empty buffer is accepted, the continuous size is its length, and `peek` shows the whole record |
| `ProduceProofs.ProduceKeepsValid` | ijcringbuffer.h:196-258 | every write keeps the invariant; on success the live bytes gain the record and the total size grows by its length; on failure nothing changes (line 97) |
| `Lifecycle.Step` | ijcringbuffer.h:80-98 | one write or read keeps the invariant; the bytes read followed by the bytes still live are the old live bytes followed by the bytes accepted |
| `Lifecycle.WriteStep` | ijcringbuffer.h:97-98 | a write reads nothing and adds exactly the accepted bytes; it is accepted exactly when it fits in `Room` |
| `Lifecycle.ReadStep` | ijcringbuffer.h:88-92 | reading `n` bytes at `peek` and consuming them splits the live bytes into what was read and what stays |
| `Lifecycle.Run` | ijcringbuffer.h:76-98 | over any sequence of operations the invariant holds and no byte is lost, reordered or invented |
| `Lifecycle.ReachableStatesPassAssertions` | ijcringbuffer.h:155-207 | every state reachable from `init` passes the assertions at lines 164, 170 and 207, and everything read followed by everything live is everything accepted |
| `Lifecycle.Drain` | ijcringbuffer.h:80-94 | reading whole continuous runs until `is_empty` returns exactly the live bytes in order |
| `Findings.ZeroLengthWriteFillsEmptyBuffer` | ijcringbuffer.h:224-225 | a zero-length write into an empty buffer at a non-zero offset takes the front-write path and leaves a buffer that reports itself full |
| `Findings.ZeroLengthWriteInventsBytes` | ijcringbuffer.h:233-248 | a zero-length write into a buffer whose run reaches the end of storage takes the front-write path; after reading the two live bytes, 4 more are reported, and consuming those puts the read cursor past the write cursor, where the total size is 2^32 - 4 and the assertion at line 170 fails |
| `Findings.FullFrontWriteFailsAssertion` | ijcringbuffer.h:253 | a front write of exactly `size` bytes leaves a valid buffer holding the record, but fails the assertion as written |
| `Findings.FrontWriteEndsAtLength` | ijcringbuffer.h:253 | after any front write the buffer is split, its front run is the record, and the masked write cursor is the record length modulo `size`; the assertion as written holds exactly for records shorter than `size` |
| `Findings.OversizedCapacityMisreadsSplit` | ijcringbuffer.h:126 | with capacity 2^30, filling, reading one byte and writing one byte gives a buffer that reads as unsplit and reports 3·2^30 consumable bytes |
| `Scenarios.FillThenOverfill` | ijcringbuffer.h:272-275 | 8 bytes fill a fresh buffer, 1 more is refused, the total size is 8 and `peek` shows the 8 bytes |
| `Scenarios.DrainAll` | ijcringbuffer.h:276 | consuming all 8 bytes empties the buffer |
| `Scenarios.RefillBehind` | ijcringbuffer.h:277-279 | 7 bytes are then accepted, the total size is 7 and `peek` shows them |
| `Scenarios.ReadAllButOne` | ijcringbuffer.h:280 | consuming 6 leaves the last byte |
| `Scenarios.WriteInFront` | ijcringbuffer.h:281-282 | 6 bytes are accepted at the front, the buffer splits, and `peek` still shows the oldest byte |
| `Scenarios.DrainAcrossTheSplit` | ijcringbuffer.h:283-287 | consuming that byte leaves the 6 front bytes with `peek` on them; consuming them empties the buffer |
| `Scenarios.WriteSix` | ijcringbuffer.h:292-293 | 6 bytes are accepted into a fresh buffer and the total size is 6 |
| `Scenarios.ReadFive` | ijcringbuffer.h:294 | consuming 5 leaves 1 byte |
| `Scenarios.FillTheGap` | ijcringbuffer.h:295-297 | 4 bytes and then 1 byte are accepted at the front, and 1 more is refused |
| `Scenarios.BehindThenFront` | ijcringbuffer.h:337-340 | 2 bytes are accepted behind the run (continuous size 3), then 5 at the front (continuous 3, total 8) |
| `Scenarios.WrapAroundFrontWrite` | ijcringbuffer.h:302-304 | with the cursors 4 before the 32-bit wrap, 6 bytes go to the front and the write cursor wraps |
| `Scenarios.WrapAroundExtend` | ijcringbuffer.h:305-307 | 2 more are accepted, the total size is 8 and `peek` shows the first 6 |
| `Scenarios.WrapAroundDrain` | ijcringbuffer.h:308-312 | consuming 6 leaves 2 with `peek` on them; consuming them empties the buffer |
| `Scenarios.WrapAroundSplit` | ijcringbuffer.h:317-329 | the size queries and accept/refuse answers of the scenario that starts one byte before the 32-bit wrap |
| `Scenarios.ReadOne` | ijcringbuffer.h:344-347 | consuming 1 of 8 leaves continuous and total sizes of 7 |
| `Scenarios.WriteTheFirstByte` | ijcringbuffer.h:348-350 | 1 byte is accepted at the front; continuous size 7, total 8 |
| `Scenarios.ReadToTheFront` | ijcringbuffer.h:351-355 | consuming 7 leaves the front byte: both sizes are 1 and `peek` shows it at offset 0 |

## Left out

- Pointers and `memcpy`: storage is a byte sequence, a copy is `Splice`, and `peek` returns an offset.
- Ownership and lifetime of the caller's storage, aliasing between the record and the storage, and concurrent producers or consumers: the model is sequential and owns its storage by value.
- Macros, linkage, include guards, and the `IJCRB_assert`/`IJCRB_memcpy` overrides: they have no behaviour of their own.
- The self-test's `main` wrapper: it only calls the self-test, whose scenarios are modelled.
- Build mode: the model follows a release build. The assertions at lines 126, 186 and 207 become preconditions: line 126 of `Init` (so `init` on a capacity that is not a power of two is not modelled), lines 186 and 207 of `Consume`, `ProduceAsWritten` and `Produce`; those at lines 164 and 170 are proved as lemmas; the assertion at line 253, which fails for a front write of `size` bytes, does not stop `ProduceAsWritten`, where a debug build would abort.
- RingBuffer.Produce: requires the assertion at line 207 (`FrontBehindTail`), which the C code only checks in debug builds. `CursorFacts.CoherentIsValid` proves that every coherent state meets it.
- Lifecycle.InitChecked: bounds the capacity by `MAX_SIZE` (2^29), which `init` does not do. The fourth finding shows why the bound is needed.
- Lifecycle.Step: a read asks for at most the continuous size, as the assertion in `consume` demands. A larger request is modelled as not made. Writes go through the corrected `Produce`, where a zero-length write is a no-op; in the code as written a zero-length write can break the invariant (the first two findings), so the invariant is not promised for it.
- Lifecycle.WriteStep: states the effect of the corrected `Produce`. A zero-length write in the code as written can invent bytes and break the invariant (the first two findings).
- Lifecycle.Run: "no byte is lost, reordered or invented" holds for runs whose writes go through the corrected `Produce`. With zero-length writes the code as written invents bytes (the second finding).
- Lifecycle.ReachableStatesPassAssertions: covers the states reachable with the corrected `Produce` from a buffer whose capacity is at most `MAX_SIZE` (2^29); the fourth finding shows a larger capacity failing the assertion at line 170. With the code as written, a zero-length write can reach a state that fails the assertion at line 170 (`Findings.ZeroLengthWriteInventsBytes`).
- `Lifecycle.Chunk`: a write carries fewer than 2^32 bytes, because the length is an `unsigned`.
- `Scenarios`: each lemma starts from any valid eight-byte buffer with the cursors and live bytes the previous call leaves. The bytes are any bytes of the lengths the self-test writes. The storage contents outside the live bytes, which the self-test zeroes with `memset`, are not tracked. The fourth scenario's one live byte is a zero there and an arbitrary byte here.
- The scenarios at lines 300-312 and 315-329 set the cursors directly (lines 303 and 318-319). `Scenarios.WrapAroundFrontWrite` and `Scenarios.WrapAroundSplit` start from the state so set rather than modelling the assignment.

## Findings

| source | as written | input that shows it | evidently intended | confidence | as-written member | corrected member |
|---|---|---|---|---|---|---|
| ijcringbuffer.h:224-225 | a zero-length write into an empty buffer whose write offset is not 0 goes to `write_to_front` | capacity 4, all cursors 1, `produce(r, x, 0)` | a zero-length write succeeds and changes nothing | not executed | `Findings.ZeroLengthWriteFillsEmptyBuffer` | `ProduceProofs.ProduceKeepsValid` |
| ijcringbuffer.h:233-248 | a zero-length write into a non-empty buffer whose run ends at the end of storage passes the front check and goes to `write_to_front` | capacity 4, read 2, write 4, wrap 0, `produce(r, x, 0)`, then `consume(r, 2)` and `consume(r, 4)` | a zero-length write succeeds and changes nothing | not executed | `Findings.ZeroLengthWriteInventsBytes` | `RingBuffer.Produce` |
| ijcringbuffer.h:253 | asserts that the masked write cursor equals the record length | capacity 4, all cursors 1, `produce(r, x, 4)` | the masked write cursor equals the record length modulo `size` | not executed | `Findings.FullFrontWriteFailsAssertion` | `Findings.FrontWriteEndsAtLength` |
| ijcringbuffer.h:126 | accepts any power-of-two capacity | capacity 2^30: `produce` 2^30 bytes, `consume(r, 1)`, `produce` 1 byte | the capacity is small enough that `is_split` tells the shapes apart (at most 2^29) | not executed | `Findings.OversizedCapacityMisreadsSplit` | `Lifecycle.ReachableStatesPassAssertions` |
