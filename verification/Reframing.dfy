/** What a delimiter does to the byte stream of one client: the state it keeps and the step it takes per chunk.
    MsgDelimiter.dfy proves that the ring and the loops of the source compute these functions. */
module Reframing {
  import opened Bytes
  import opened ByteCircularBuffers

  const HEADER_SIZE := 2       // kHeaderMsgSize
  const BUFFER_SIZE := 1024    // kBufferSize: the scratch buffer, and the most one receive call returns
  const BCB_SIZE := 10240      // kBcbSize

  type SliceSize = k: int | 1 <= k < 0x1_0000 witness 1

  /** MsgDelimiterFixed and MsgDelimiterVar. */
  datatype Framing = Fixed(size: SliceSize) | Variable

  /** A delimiter as configured: its framing, the size of its ring, and how that ring copies split reads. */
  datatype Machine = Machine(framing: Framing, capacity: nat, split: SplitRead)

  /** The state of a delimiter, and the messages its client's callback has received. */
  datatype View = View(fifo: seq<byte>, rear: nat, scratch: seq<byte>, received: seq<seq<byte>>)

  predicate ValidView(m: Machine, v: View) {
    && |v.fifo| <= m.capacity
    && (if m.capacity == 0 then v.rear == 0 else v.rear < m.capacity)
    && |v.scratch| == BUFFER_SIZE
  }

  /** A new delimiter: calloc'ed scratch buffer, empty ring. */
  function Fresh(): View {
    View([], 0, Zeros(BUFFER_SIZE), [])
  }

  /** How a call can end.
      - `Refused`: BCBWrite takes nothing and the assertion around it fails (msg_delimiter.cpp:38)
      - `Spins`: a header of 0 makes the loop at msg_delimiter_var.cpp:37 run without progress
      - `Overruns`: a message longer than the scratch buffer is copied into it (msg_delimiter.cpp:11)
      - `Indeterminate`: the as-written split read leaves a header byte unset (ByteCircularBuffer.cpp:94) */
  datatype Outcome = Running(view: View) | Refused | Spins | Overruns | Indeterminate

  /** Two bytes reinterpreted as a little-endian uint16_t. */
  function LittleEndian(low: byte, high: byte): nat {
    low as nat + 0x100 * high as nat
  }

  /** The size prefix. */
  function Header(s: seq<byte>): nat
    requires |s| >= HEADER_SIZE
  {
    LittleEndian(s[0], s[1])
  }

  /** IsFlushable of either delimiter. */
  predicate Flushable(f: Framing, s: seq<byte>) {
    match f
    case Fixed(k) => |s| >= k
    case Variable => |s| > HEADER_SIZE && Header(s) <= |s|
  }

  /** The length of the message that a flushable stream starts with. */
  function HeadLength(f: Framing, s: seq<byte>): (n: nat)
    requires Flushable(f, s)
    ensures n <= |s|
  {
    match f
    case Fixed(k) => k
    case Variable => Header(s)
  }

  /** One turn of either drain loop: a consuming read of `n` bytes, then the callback. `n` can be 0. */
  function Deliver(m: Machine, v: View, n: nat): (r: View)
    requires ValidView(m, v) && n <= |v.fifo| && n <= BUFFER_SIZE
    ensures ValidView(m, r)
  {
    var scratch := CopyOut(m.split, m.capacity - v.rear, v.fifo[..n], v.scratch);
    View(v.fifo[n..], Wrap(v.rear + n, m.capacity), scratch, v.received + [scratch[..n]])
  }

  /** The as-written peek at a header that straddles the end of the array sets only one of its two bytes. */
  predicate HeaderStraddles(m: Machine, v: View) {
    m.framing.Variable? && m.split.AsWritten? && |v.fifo| > HEADER_SIZE && v.rear + HEADER_SIZE > m.capacity
  }

  /** IsFlushable and ProcessMsg. Spins is not a way to end: ChunkInvariance.SpinsIffForever shows that it stands
      for the loop that no number of turns ends. */
  function Drain(m: Machine, v: View): (o: Outcome)
    requires ValidView(m, v)
    ensures o.Running? ==> ValidView(m, o.view)
    ensures o != Refused
    decreases |v.fifo|
  {
    if HeaderStraddles(m, v) then Indeterminate
    else if !Flushable(m.framing, v.fifo) then Running(v)
    else
      var n := HeadLength(m.framing, v.fifo);
      if n == 0 then Spins
      else if n > BUFFER_SIZE then Overruns
      else Drain(m, Deliver(m, v, n))
  }

  /** The drain loop watched for at most `turns` turns: how it has ended, or where it has got to. */
  datatype Loop = Ended(outcome: Outcome) | Going(view: View)

  function LoopFor(m: Machine, v: View, turns: nat): Loop
    requires ValidView(m, v)
    decreases turns
  {
    if HeaderStraddles(m, v) then Ended(Indeterminate)
    else if !Flushable(m.framing, v.fifo) then Ended(Running(v))
    else
      var n := HeadLength(m.framing, v.fifo);
      if n > BUFFER_SIZE then Ended(Overruns)
      else if turns == 0 then Going(v)
      else LoopFor(m, Deliver(m, v, n), turns - 1)
  }

  /** BCBWrite takes a chunk when it fits, and reports 0 for an empty one. */
  predicate Accepts(m: Machine, v: View, chunk: seq<byte>) {
    0 < |chunk| && |v.fifo| + |chunk| <= m.capacity
  }

  /** MsgDelimiter::Process. */
  function Process(m: Machine, v: View, chunk: seq<byte>): (o: Outcome)
    requires ValidView(m, v)
    ensures o.Running? ==> ValidView(m, o.view)
  {
    if Accepts(m, v, chunk) then Drain(m, v.(fifo := v.fifo + chunk)) else Refused
  }

  /** A whole run: one call of Process per received chunk. */
  function Run(m: Machine, v: View, chunks: seq<seq<byte>>): (o: Outcome)
    requires ValidView(m, v)
    ensures o.Running? ==> ValidView(m, o.view)
    decreases |chunks|
  {
    if chunks == [] then Running(v)
    else
      var o := Process(m, v, chunks[0]);
      if o.Running? then Run(m, o.view, chunks[1..]) else o
  }

  // ---------------------------------------------------------------- the stream, with no ring

  /** The greedy parse of a byte stream into messages, and the tail that is no message yet. */
  datatype Parsed = Parsed(messages: seq<seq<byte>>, rest: seq<byte>)

  function Parse(f: Framing, s: seq<byte>): Parsed
    decreases |s|
  {
    if !Flushable(f, s) || HeadLength(f, s) == 0 then Parsed([], s)
    else
      var n := HeadLength(f, s);
      var tail := Parse(f, s[n..]);
      Parsed([s[..n]] + tail.messages, tail.rest)
  }

  /** Every message that the stream announces has between 1 and `maxFrame` bytes. */
  predicate Legal(f: Framing, maxFrame: nat, s: seq<byte>)
    decreases |s|
  {
    match f
    case Fixed(k) => k <= maxFrame
    case Variable =>
      |s| <= HEADER_SIZE ||
      (var n := Header(s); 1 <= n <= maxFrame && (n <= |s| ==> Legal(f, maxFrame, s[n..])))
  }

  /** No message of a stream that starts at index `rear` of the ring runs past the end of the array. */
  predicate Unsplit(f: Framing, capacity: nat, rear: nat, s: seq<byte>)
    decreases |s|
  {
    match f
    case Fixed(k) =>
      |s| < k || (rear + k <= capacity && Unsplit(f, capacity, Wrap(rear + k, capacity), s[k..]))
    case Variable =>
      |s| <= HEADER_SIZE ||
      (&& rear + HEADER_SIZE <= capacity
       && (1 <= Header(s) <= |s| ==>
             && rear + Header(s) <= capacity
             && Unsplit(f, capacity, Wrap(rear + Header(s), capacity), s[Header(s)..])))
  }

  /** The streams on which the delimiter meets its purpose. */
  predicate Sound(m: Machine, maxFrame: nat, rear: nat, s: seq<byte>) {
    Legal(m.framing, maxFrame, s) && (m.split.Offset? || Unsplit(m.framing, m.capacity, rear, s))
  }

  /** The most bytes that a drain can leave behind. */
  function MaxResidue(f: Framing, maxFrame: nat): nat {
    match f
    case Fixed(k) => k - 1
    case Variable => if maxFrame <= HEADER_SIZE then HEADER_SIZE else maxFrame - 1
  }

  predicate WellSized(chunks: seq<seq<byte>>, maxChunk: nat) {
    forall i :: 0 <= i < |chunks| ==> 1 <= |chunks[i]| <= maxChunk
  }
}
