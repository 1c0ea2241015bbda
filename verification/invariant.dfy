/** What the three cursors of a ring buffer mean, stated independently of the
    operations: an abstraction function from a state to the shape of its live
    data, the validity invariant the author's debug assertions check, and the
    live bytes in the order they will be read.
 */
module RingInvariant {
  import opened Modular
  import opened RingBuffer

  /** Largest capacity for which a split buffer is told apart from an unsplit
      one. The cursor gap of a split buffer reaches up to three times the
      capacity, and the circular distance only reports it faithfully while the
      way back round the 32-bit range stays longer than the capacity. */
  const MAX_SIZE: int := 0x2000_0000

  /** The live data: one run, or a tail run ending at the end of storage
      followed by a front run starting at offset 0. */
  datatype Shape = Unsplit(len: nat) | Split(tail: nat, front: nat)

  /** How far the write cursor is ahead of the read cursor. */
  function Gap(s: Ring): uint32 {
    Sub(s.write, s.read)
  }

  /** Bytes of the tail run not read yet: the wrap cursor marks its end. */
  function Tail(s: Ring): uint32 {
    Sub(s.wrap, s.read)
  }

  /** Length of the front run; a write position at offset 0 means the front
      run fills the whole storage. */
  function FrontLen(s: Ring): (f: nat)
    requires WellFormed(s)
    ensures 1 <= f <= s.size
  {
    var maskedWrite := Masked(s.mask, s.write);
    if maskedWrite == 0 then s.size else maskedWrite
  }

  /** Unused bytes between the end of the tail run and the end of storage, as
      the front write counted them (a tail reaching the end counts a whole
      `size`). */
  function Pad(s: Ring): (p: nat)
    requires WellFormed(s)
    ensures 1 <= p <= s.size
  {
    s.size - Masked(s.mask, s.wrap)
  }

  /** The abstraction function: a gap of at most `size` is one run, a larger
      gap is the inflated gap of a split buffer. */
  function View(s: Ring): Shape
    requires WellFormed(s)
  {
    if Gap(s) <= s.size then Unsplit(Gap(s)) else Split(Tail(s), FrontLen(s))
  }

  /** Cursor relations every reachable state keeps. An unsplit run does not
      cross the end of storage; a split buffer's tail does not either, its
      front stays behind an unread tail, and the write cursor sits exactly
      where the front write put it: past the tail, the unused end of storage,
      one extra `size` and the front run. */
  ghost predicate Coherent(s: Ring) {
    && WellFormed(s)
    && s.size <= MAX_SIZE
    && var start := Masked(s.mask, s.read);
    match View(s)
    case Unsplit(len) => start + len <= s.size
    case Split(t, f) =>
      && start + t <= s.size
      && (t > 0 ==> f <= start)
      && Gap(s) == t + Pad(s) + s.size + f
  }

  /** The invariant, including the debug assertion `produce` relies on. */
  ghost predicate Valid(s: Ring) {
    Coherent(s) && FrontBehindTail(s)
  }

  /** The bytes of the one run of an unsplit buffer. */
  ghost function RunBytes(s: Ring): seq<byte>
    requires WellFormed(s) && Masked(s.mask, s.read) + Gap(s) <= s.size
  {
    var start := Masked(s.mask, s.read);
    s.data[start..start + Gap(s)]
  }

  /** The unread bytes of the tail run of a split buffer. */
  ghost function TailBytes(s: Ring): seq<byte>
    requires WellFormed(s) && Masked(s.mask, s.read) + Tail(s) <= s.size
  {
    var start := Masked(s.mask, s.read);
    s.data[start..start + Tail(s)]
  }

  /** The bytes of the front run of a split buffer. */
  ghost function FrontBytes(s: Ring): seq<byte>
    requires WellFormed(s)
  {
    s.data[..FrontLen(s)]
  }

  /** The live bytes, oldest first. */
  ghost function Live(s: Ring): seq<byte>
    requires Coherent(s)
  {
    if View(s).Unsplit? then RunBytes(s) else TailBytes(s) + FrontBytes(s)
  }

  /** Length of the run a reader sees first. */
  function FirstRun(v: Shape): nat {
    match v
    case Unsplit(len) => len
    case Split(t, f) => if t > 0 then t else f
  }

  /** Length of the run holding the newest bytes: the one run, or the front
      run of a split buffer. */
  function LastRun(v: Shape): nat {
    match v
    case Unsplit(len) => len
    case Split(_, f) => f
  }

  /** The bytes of that run, oldest first. */
  ghost function LastRunBytes(s: Ring): seq<byte>
    requires Coherent(s)
  {
    if View(s).Unsplit? then RunBytes(s) else FrontBytes(s)
  }

  /** `record` is the newest piece of the run holding the newest bytes, so a
      reader meets it whole in one run and never divided between two. */
  ghost predicate EndsLastRun(s: Ring, record: seq<byte>) {
    && Coherent(s)
    && |record| <= LastRun(View(s)) == |LastRunBytes(s)|
    && LastRunBytes(s)[LastRun(View(s)) - |record|..] == record
  }

  /** The longest contiguous write the buffer can take: in an unsplit buffer
      the larger of the free space behind the run and in front of it (all of
      storage when empty); in a split buffer the gap between the end of the
      front run and the start of the unread tail, or the rest of storage once
      the tail is gone. */
  ghost function Room(s: Ring): nat
    requires Coherent(s)
  {
    var start := Masked(s.mask, s.read);
    match View(s)
    case Unsplit(len) =>
      if len == 0 then s.size
      else if s.size - (start + len) >= start then s.size - (start + len)
      else start
    case Split(t, f) => if t == 0 then s.size - f else start - f
  }
}
