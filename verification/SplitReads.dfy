/** The read at ByteCircularBuffer.cpp:94 as it is written: exactly when the delimiters are right in spite of it. */
module SplitReads {
  import opened Arithmetic
  import opened Bytes
  import opened ByteCircularBuffers
  import opened Reframing
  import opened ChunkInvariance
  import opened RoundTrip

  // ---------------------------------------------------------------- one read

  /** A one, then zeros: its first byte tells the two halves of a read apart. */
  function Marked(n: nat): (s: seq<byte>)
    requires n > 0
    ensures |s| == n && s[0] == 1
    ensures forall i :: 0 < i < n ==> s[i] == 0
  {
    [1] + Zeros(n - 1)
  }

  lemma SplitMovesFirstByte(lead: nat, data: seq<byte>, dest: seq<byte>)
    requires 0 < lead < |data| <= |dest|
    ensures CopyOut(AsWritten, lead, data, dest)[0] == data[lead]
  {
  }

  ghost predicate ReadsExactly(lead: nat, n: nat) {
    forall data: seq<byte>, dest: seq<byte> | |data| == n <= |dest| ::
      CopyOut(AsWritten, lead, data, dest) == CopyOut(Offset, lead, data, dest)
  }

  /** A read of `n` bytes, `lead` of them before the end of the array, is right for all contents
      if and only if it does not run past the end. */
  lemma ReadExactlyIff(lead: nat, n: nat)
    requires lead > 0
    ensures ReadsExactly(lead, n) <==> n <= lead
  {
    if n > lead {
      SplitMovesFirstByte(lead, Marked(n), Zeros(n));
      assert CopyOut(Offset, lead, Marked(n), Zeros(n))[0] == 1;
    }
  }

  /** The peek at a header that straddles the end: its first byte is lost, and its second byte takes the place of
      the first. What is decoded is the size of the message only if all bytes involved are equal. */
  lemma StraddledHeader(header: seq<byte>, unset: seq<byte>)
    requires |header| == |unset| == HEADER_SIZE
    ensures var peeked := CopyOut(AsWritten, 1, header, unset);
            && peeked == [header[1], unset[1]]
            && (Header(peeked) == Header(header) <==> header[0] == header[1] == unset[1])
  {
  }

  // ---------------------------------------------------------------- streams that are never split

  lemma UnsplitHead(m: Machine, v: View, t: seq<byte>)
    requires ValidView(m, v) && Unsplit(m.framing, m.capacity, v.rear, v.fifo + t)
    ensures !HeaderStraddles(m, v)
    ensures Flushable(m.framing, v.fifo) && HeadLength(m.framing, v.fifo) > 0 ==>
              var n := HeadLength(m.framing, v.fifo);
              && v.rear + n <= m.capacity
              && Unsplit(m.framing, m.capacity, Wrap(v.rear + n, m.capacity), v.fifo[n..] + t)
  {
    if Flushable(m.framing, v.fifo) {
      HeadStable(m.framing, v.fifo, t);
    }
  }

  lemma {:induction false} DrainUnsplit(m: Machine, v: View, t: seq<byte>)
    requires ValidView(m, v) && Unsplit(m.framing, m.capacity, v.rear, v.fifo + t)
    ensures var o := Drain(m, v);
            && o == Drain(m.(split := Offset), v)
            && (o.Running? ==> Unsplit(m.framing, m.capacity, o.view.rear, o.view.fifo + t))
    decreases |v.fifo|
  {
    UnsplitHead(m, v, t);
    if Flushable(m.framing, v.fifo) && 0 < HeadLength(m.framing, v.fifo) <= BUFFER_SIZE {
      var n := HeadLength(m.framing, v.fifo);
      DeliverExact(m, v, n);
      DrainUnsplit(m, Deliver(m, v, n), t);
    }
  }

  /** While no message runs past the end of the array, the code as written behaves as the code with the offset,
      failures included. */
  lemma {:induction false} RunUnsplit(m: Machine, v: View, chunks: seq<seq<byte>>)
    requires ValidView(m, v) && Unsplit(m.framing, m.capacity, v.rear, v.fifo + Flatten(chunks))
    ensures Run(m, v, chunks) == Run(m.(split := Offset), v, chunks)
    decreases |chunks|
  {
    if chunks != [] && Accepts(m, v, chunks[0]) {
      var c, t := chunks[0], Flatten(chunks[1..]);
      Assoc(v.fifo, c, t);
      var filled := v.(fifo := v.fifo + c);
      DrainUnsplit(m, filled, t);
      if Drain(m, filled).Running? {
        RunUnsplit(m, Drain(m, filled).view, chunks[1..]);
      }
    }
  }

  lemma {:induction false} RunAppend(m: Machine, v: View, a: seq<seq<byte>>, b: seq<seq<byte>>)
    requires ValidView(m, v)
    ensures var o := Run(m, v, a);
            Run(m, v, a + b) == if o.Running? then Run(m, o.view, b) else o
    decreases |a|
  {
    if a == [] {
      assert a + b == b;
    } else {
      assert (a + b)[0] == a[0] && (a + b)[1..] == a[1..] + b;
      var o := Process(m, v, a[0]);
      if o.Running? {
        RunAppend(m, o.view, a[1..], b);
      }
    }
  }

  /** One whole message in one chunk, into an empty ring. */
  lemma WholeMessage(m: Machine, v: View, x: seq<byte>)
    requires ValidView(m, v) && v.fifo == [] && 0 < |x| <= BUFFER_SIZE && |x| <= m.capacity
    requires Flushable(m.framing, x) && HeadLength(m.framing, x) == |x|
    ensures var filled := v.(fifo := x);
            Process(m, v, x) == if HeaderStraddles(m, filled) then Indeterminate else Running(Deliver(m, filled, |x|))
  {
    assert v.fifo + x == x;
    var next := Deliver(m, v.(fifo := x), |x|);
    assert next.fifo == [];
    assert Drain(m, next) == Running(next);
  }

  lemma RunOne(m: Machine, v: View, x: seq<byte>)
    requires ValidView(m, v)
    ensures Run(m, v, [x]) == Process(m, v, x)
  {
    var o := Process(m, v, x);
    assert [x][1..] == [];
    if o.Running? {
      assert Run(m, o.view, []) == o;
    }
  }

  // ---------------------------------------------------------------- equal slices

  /** In a ring of `a` slices the slice that starts at slice `b` ends inside the array, and so do all later ones. */
  lemma {:induction false} AlignedSlicesUnsplit(k: SliceSize, a: nat, b: nat, s: seq<byte>)
    requires b < a
    ensures Unsplit(Fixed(k), a * k, b * k, s)
    decreases |s|
  {
    if |s| >= k {
      assert (b + 1) * k == b * k + k;
      assert a * k == (b + 1) * k + (a - b - 1) * k;
      if b + 1 < a {
        MulAtLeast(a - b - 1, k);
        AlignedSlicesUnsplit(k, a, b + 1, s[k..]);
      } else {
        assert 0 * k == 0;
        AlignedSlicesUnsplit(k, a, 0, s[k..]);
      }
    }
  }

  /** Slices that end inside the array are delivered by either read, and move `rear` by one slice each. */
  lemma {:induction false} SlicesUpToEnd(m: Machine, v: View, k: SliceSize, n: nat)
    requires ValidView(m, v) && m.framing == Fixed(k) && k <= BUFFER_SIZE
    requires v.fifo == [] && v.rear + n * k < m.capacity
    ensures var o := Run(m, v, Repeat(Zeros(k), n));
            && o.Running? && o.view.fifo == [] && o.view.rear == v.rear + n * k
            && o == Run(m.(split := Offset), v, Repeat(Zeros(k), n))
    decreases n
  {
    if n > 0 {
      assert n * k == k + (n - 1) * k;
      var filled := v.(fifo := Zeros(k));
      MulAtLeast(n, k);
      WholeMessage(m, v, Zeros(k));
      WholeMessage(m.(split := Offset), v, Zeros(k));
      DeliverExact(m, filled, k);
      var next := Deliver(m, filled, k);
      assert Wrap(v.rear + k, m.capacity) == v.rear + k by {
        NotNegative(n - 1, k);
      }
      SlicesUpToEnd(m, next, k, n - 1);
      assert Repeat(Zeros(k), n)[1..] == Repeat(Zeros(k), n - 1);
    }
  }

  lemma DeliveredFirst(m: Machine, v: View, n: nat)
    requires ValidView(m, v) && 0 < n <= |v.fifo| && n <= BUFFER_SIZE
    ensures var x := Deliver(m, v, n).received[|v.received|];
            |x| == n && x[0] == CopyOut(m.split, m.capacity - v.rear, v.fifo[..n], v.scratch)[0]
  {
  }

  /** A marked slice across the end of the array is delivered by the offset read and spoilt by the other. */
  lemma SplitSliceDiffers(m: Machine, v: View, k: SliceSize)
    requires ValidView(m, v) && m == Machine(Fixed(k), m.capacity, AsWritten) && k <= BUFFER_SIZE
    requires v.fifo == [] && k <= m.capacity && v.rear + k > m.capacity
    ensures Run(m, v, [Marked(k)]) != Run(m.(split := Offset), v, [Marked(k)])
  {
    var x, fixed := Marked(k), m.(split := Offset);
    var filled := v.(fifo := x);
    WholeMessage(m, v, x);
    WholeMessage(fixed, v, x);
    RunOne(m, v, x);
    RunOne(fixed, v, x);
    SplitMovesFirstByte(m.capacity - v.rear, x, v.scratch);
    DeliveredFirst(m, filled, k);
    DeliveredFirst(fixed, filled, k);
  }

  /** Slices that fit neither the ring nor the scratch buffer: none is ever delivered, split or not. */
  lemma {:induction false} NoSliceDelivered(m: Machine, v: View, k: SliceSize, chunks: seq<seq<byte>>)
    requires ValidView(m, v) && m.framing == Fixed(k) && (k > m.capacity || k > BUFFER_SIZE)
    ensures Run(m, v, chunks) == Run(m.(split := Offset), v, chunks)
    decreases |chunks|
  {
    if chunks != [] && Accepts(m, v, chunks[0]) && |v.fifo| + |chunks[0]| < k {
      NoSliceDelivered(m, v.(fifo := v.fifo + chunks[0]), k, chunks[1..]);
    }
  }

  ghost predicate FixedUnharmed(k: SliceSize, capacity: nat) {
    forall chunks ::
      Run(Machine(Fixed(k), capacity, AsWritten), Fresh(), chunks) == Run(Machine(Fixed(k), capacity, Offset), Fresh(), chunks)
  }

  lemma AlignedUnharmed(k: SliceSize, capacity: nat, chunks: seq<seq<byte>>)
    requires 0 < capacity && capacity % k == 0
    ensures Run(Machine(Fixed(k), capacity, AsWritten), Fresh(), chunks) ==
            Run(Machine(Fixed(k), capacity, Offset), Fresh(), chunks)
  {
    var q := capacity / k;
    assert capacity == q * k && q > 0;
    assert 0 * k == 0;
    AlignedSlicesUnsplit(k, q, 0, Flatten(chunks));
    EmptyUnit(Flatten(chunks));
    RunUnsplit(Machine(Fixed(k), capacity, AsWritten), Fresh(), chunks);
  }

  lemma UnalignedHarmed(k: SliceSize, capacity: nat) returns (chunks: seq<seq<byte>>)
    requires k <= BUFFER_SIZE && k <= capacity && capacity % k != 0
    ensures Run(Machine(Fixed(k), capacity, AsWritten), Fresh(), chunks) !=
            Run(Machine(Fixed(k), capacity, Offset), Fresh(), chunks)
  {
    var m, good := Machine(Fixed(k), capacity, AsWritten), Machine(Fixed(k), capacity, Offset);
    var q := capacity / k;
    assert capacity == q * k + capacity % k;
    var slices, last := Repeat(Zeros(k), q), [Marked(k)];
    SlicesUpToEnd(m, Fresh(), k, q);
    SplitSliceDiffers(m, Run(m, Fresh(), slices).view, k);
    RunAppend(m, Fresh(), slices, last);
    RunAppend(good, Fresh(), slices, last);
    chunks := slices + last;
  }

  /** Main theorem. As written, fixed framing behaves on all inputs as it would with the offset if and only if the
      slice size divides the ring, or slices are so large that none is ever delivered. */
  lemma FixedUnharmedIff(k: SliceSize, capacity: nat)
    ensures FixedUnharmed(k, capacity) <==> capacity % k == 0 || k > capacity || k > BUFFER_SIZE
  {
    if k > capacity || k > BUFFER_SIZE {
      forall chunks
        ensures Run(Machine(Fixed(k), capacity, AsWritten), Fresh(), chunks) ==
                Run(Machine(Fixed(k), capacity, Offset), Fresh(), chunks)
      {
        NoSliceDelivered(Machine(Fixed(k), capacity, AsWritten), Fresh(), k, chunks);
      }
    } else if capacity % k == 0 {
      forall chunks
        ensures Run(Machine(Fixed(k), capacity, AsWritten), Fresh(), chunks) ==
                Run(Machine(Fixed(k), capacity, Offset), Fresh(), chunks)
      {
        AlignedUnharmed(k, capacity, chunks);
      }
    } else {
      var chunks := UnalignedHarmed(k, capacity);
    }
  }

  /** The slices of 27 bytes that connection_manager.cpp:214 has in mind do not divide the ring of 10240. */
  lemma TwentySevenIsHarmed()
    ensures !FixedUnharmed(27, BCB_SIZE)
  {
    FixedUnharmedIff(27, BCB_SIZE);
  }

  // ---------------------------------------------------------------- size-prefixed messages

  /** No message of these lengths, sent from index `start` of the ring, runs past the end of the array. */
  predicate NoStraddle(capacity: nat, start: nat, lengths: seq<nat>)
    decreases |lengths|
  {
    lengths == [] ||
    (start + lengths[0] <= capacity && NoStraddle(capacity, Wrap(start + lengths[0], capacity), lengths[1..]))
  }

  predicate Lengths(lengths: seq<nat>) {
    forall i :: 0 <= i < |lengths| ==> HEADER_SIZE <= lengths[i] <= BUFFER_SIZE
  }

  /** The lengths of the messages that are read at all: a final bare header is not. */
  function DueLengths(lengths: seq<nat>): (due: seq<nat>)
    ensures |due| <= |lengths|
  {
    if lengths != [] && lengths[|lengths| - 1] == HEADER_SIZE then lengths[..|lengths| - 1] else lengths
  }

  ghost predicate FramesOf(lengths: seq<nat>, frames: seq<seq<byte>>) {
    && |frames| == |lengths| && AllFrames(frames)
    && forall i :: 0 <= i < |frames| ==> |frames[i]| == lengths[i]
  }

  /** All but the last of several messages are due, so the due ones after the first are those of the others. */
  lemma DueTail(lengths: seq<nat>)
    requires |lengths| > 1 || (|lengths| == 1 && lengths[0] != HEADER_SIZE)
    ensures DueLengths(lengths) == [lengths[0]] + DueLengths(lengths[1..])
  {
    if |lengths| > 1 {
      assert lengths[1..][|lengths| - 2] == lengths[|lengths| - 1];
    }
  }

  lemma {:induction false} NoStraddleUnsplit(capacity: nat, start: nat, lengths: seq<nat>, frames: seq<seq<byte>>)
    requires Lengths(lengths) && FramesOf(lengths, frames) && NoStraddle(capacity, start, DueLengths(lengths))
    ensures Unsplit(Variable, capacity, start, Flatten(frames))
    decreases |lengths|
  {
    if frames != [] {
      var x, t := frames[0], Flatten(frames[1..]);
      if |x + t| > HEADER_SIZE {
        FrameAtHead(x, t);
        assert |frames| == 1 ==> t == [];
        DueTail(lengths);
        NoStraddleUnsplit(capacity, Wrap(start + |x|, capacity), lengths[1..], frames[1..]);
      }
    }
  }

  /** A message whose payload differs everywhere from the low byte of its header. */
  function Contrast(n: nat): (x: seq<byte>)
    requires HEADER_SIZE <= n <= BUFFER_SIZE
    ensures IsFrame(x) && |x| == n
    ensures forall i :: HEADER_SIZE <= i < n ==> x[i] != x[0]
  {
    var filler: byte := if n % 0x100 == 0 then 1 else 0;
    Encode(seq(n - HEADER_SIZE, i => filler))
  }

  function Contrasts(lengths: seq<nat>): (frames: seq<seq<byte>>)
    requires Lengths(lengths)
    ensures |frames| == |lengths|
  {
    if lengths == [] then [] else [Contrast(lengths[0])] + Contrasts(lengths[1..])
  }

  lemma {:induction false} ContrastsAreFrames(lengths: seq<nat>)
    requires Lengths(lengths)
    ensures FramesOf(lengths, Contrasts(lengths))
    decreases |lengths|
  {
    if lengths != [] {
      ContrastsAreFrames(lengths[1..]);
    }
  }

  lemma {:induction false} DrainKeepsReceived(m: Machine, v: View)
    requires ValidView(m, v)
    ensures Drain(m, v).Running? ==> v.received <= Drain(m, v).view.received
    decreases |v.fifo|
  {
    if !HeaderStraddles(m, v) && Flushable(m.framing, v.fifo) && 0 < HeadLength(m.framing, v.fifo) <= BUFFER_SIZE {
      DrainKeepsReceived(m, Deliver(m, v, HeadLength(m.framing, v.fifo)));
    }
  }

  /** What was delivered stays delivered. */
  lemma {:induction false} RunKeepsReceived(m: Machine, v: View, chunks: seq<seq<byte>>)
    requires ValidView(m, v)
    ensures Run(m, v, chunks).Running? ==> v.received <= Run(m, v, chunks).view.received
    decreases |chunks|
  {
    if chunks != [] && Process(m, v, chunks[0]).Running? {
      DrainKeepsReceived(m, v.(fifo := v.fifo + chunks[0]));
      RunKeepsReceived(m, Process(m, v, chunks[0]).view, chunks[1..]);
    }
  }

  predicate AsWrittenVariable(m: Machine) {
    m.framing == Variable && m.split.AsWritten? && m.capacity >= MaxResidue(Variable, BUFFER_SIZE) + BUFFER_SIZE
  }

  /** A whole message with a payload, into an empty ring. */
  lemma WholeFrame(m: Machine, v: View, x: seq<byte>)
    requires ValidView(m, v) && AsWrittenVariable(m)
    requires v.fifo == [] && IsFrame(x) && |x| > HEADER_SIZE
    ensures Process(m, v, x) ==
            if v.rear + HEADER_SIZE > m.capacity then Indeterminate else Running(Deliver(m, v.(fifo := x), |x|))
  {
    EmptyUnit(x);
    FrameAtHead(x, []);
    WholeMessage(m, v, x);
  }

  /** A bare header, into an empty ring, waits. */
  lemma BareHeaderWaits(m: Machine, v: View, x: seq<byte>)
    requires ValidView(m, v) && AsWrittenVariable(m) && v.fifo == [] && |x| == HEADER_SIZE
    ensures Process(m, v, x) == Running(v.(fifo := x))
  {
    EmptyUnit(x);
  }

  /** A message behind a bare header: the header is delivered, and the message arrives as in an empty ring. */
  lemma BehindBareHeader(m: Machine, v: View, x: seq<byte>)
    requires ValidView(m, v) && AsWrittenVariable(m)
    requires IsFrame(v.fifo) && |v.fifo| == HEADER_SIZE && IsFrame(x)
    ensures Process(m, v, x) ==
            if v.rear + HEADER_SIZE > m.capacity then Indeterminate
            else Process(m, AfterBareHeader(m, v), x)
  {
    var h, filled := v.fifo, v.(fifo := v.fifo + x);
    FrameAtHead(h, x);
    EmptyUnit(x);
    if v.rear + HEADER_SIZE <= m.capacity {
      DeliverExact(m, filled, HEADER_SIZE);
      BareHeaderScratch(m, v, x);
    }
  }

  /** The state in which a bare header that waited has been delivered. */
  function AfterBareHeader(m: Machine, v: View): (r: View)
    requires ValidView(m, v) && AsWrittenVariable(m) && |v.fifo| == HEADER_SIZE
    ensures ValidView(m, r) && r.fifo == []
  {
    Deliver(m, v, HEADER_SIZE)
  }

  lemma BareHeaderScratch(m: Machine, v: View, x: seq<byte>)
    requires ValidView(m, v) && AsWrittenVariable(m) && |v.fifo| == HEADER_SIZE && |v.fifo + x| <= m.capacity
    ensures Deliver(m, v.(fifo := v.fifo + x), HEADER_SIZE) == AfterBareHeader(m, v).(fifo := x)
  {
    assert (v.fifo + x)[..HEADER_SIZE] == v.fifo == v.fifo[..HEADER_SIZE];
    assert (v.fifo + x)[HEADER_SIZE..] == x;
  }

  /** The run has failed, or has not delivered `frames` (but for a final bare header). */
  predicate Spoilt(o: Outcome, received: seq<seq<byte>>, frames: seq<seq<byte>>) {
    o.Running? ==> o.view.received != received + Due(frames)
  }

  lemma DueFrames(x: seq<byte>, others: seq<seq<byte>>)
    requires others != [] || |x| != HEADER_SIZE
    ensures Due([x] + others) == [x] + Due(others)
  {
    var frames := [x] + others;
    if others != [] {
      assert frames[|frames| - 1] == others[|others| - 1];
    }
  }

  /** A message that is delivered as sent leaves the rest of the run to be spoilt. */
  lemma SpoiltShift(o: Outcome, received: seq<seq<byte>>, x: seq<byte>, others: seq<seq<byte>>)
    requires others != [] || |x| != HEADER_SIZE
    requires Spoilt(o, received + [x], others)
    ensures Spoilt(o, received, [x] + others)
  {
    DueFrames(x, others);
    Assoc(received, [x], Due(others));
  }

  lemma StraddleShift(capacity: nat, start: nat, lengths: seq<nat>)
    requires |lengths| > 1 || (|lengths| == 1 && lengths[0] != HEADER_SIZE)
    requires !NoStraddle(capacity, start, DueLengths(lengths)) && start + lengths[0] <= capacity
    ensures !NoStraddle(capacity, Wrap(start + lengths[0], capacity), DueLengths(lengths[1..]))
  {
    DueTail(lengths);
    assert DueLengths(lengths)[1..] == DueLengths(lengths[1..]);
  }

  lemma RunHead(m: Machine, v: View, next: View, chunks: seq<seq<byte>>)
    requires ValidView(m, v) && ValidView(m, next) && chunks != []
    requires Process(m, v, chunks[0]) == Process(m, next, chunks[0])
    ensures Run(m, v, chunks) == Run(m, next, chunks)
  {
  }

  lemma AfterBareHeaderView(m: Machine, v: View)
    requires ValidView(m, v) && AsWrittenVariable(m) && |v.fifo| == HEADER_SIZE && v.rear + HEADER_SIZE <= m.capacity
    ensures var r := AfterBareHeader(m, v);
            r.rear == Wrap(v.rear + HEADER_SIZE, m.capacity) && r.received == v.received + [v.fifo]
  {
    DeliverExact(m, v, HEADER_SIZE);
    assert v.fifo[..HEADER_SIZE] == v.fifo;
  }

  lemma WholeFrameView(m: Machine, v: View, x: seq<byte>)
    requires ValidView(m, v) && v.fifo == [] && 0 < |x| <= BUFFER_SIZE && v.rear + |x| <= m.capacity
    ensures var r := Deliver(m, v.(fifo := x), |x|);
            r.fifo == [] && r.rear == Wrap(v.rear + |x|, m.capacity) && r.received == v.received + [x]
  {
    DeliverExact(m, v.(fifo := x), |x|);
    assert x[..|x|] == x && x[|x|..] == [];
  }

  lemma RunStep(m: Machine, v: View, next: View, chunks: seq<seq<byte>>)
    requires ValidView(m, v) && ValidView(m, next) && chunks != [] && Process(m, v, chunks[0]) == Running(next)
    ensures Run(m, v, chunks) == Run(m, next, chunks[1..])
  {
  }

  /** The first message ends inside the array: it is delivered, and leaves an empty ring for the others. */
  lemma PayloadStep(m: Machine, v: View, lengths: seq<nat>) returns (next: View)
    requires ValidView(m, v) && AsWrittenVariable(m) && Lengths(lengths) && v.fifo == []
    requires lengths != [] && lengths[0] > HEADER_SIZE && v.rear + lengths[0] <= m.capacity
    ensures ValidView(m, next) && next.fifo == [] && next.rear == Wrap(v.rear + lengths[0], m.capacity)
    ensures next.received == v.received + [Contrast(lengths[0])]
    ensures Run(m, v, Contrasts(lengths)) == Run(m, next, Contrasts(lengths[1..]))
  {
    var x := Contrast(lengths[0]);
    next := Deliver(m, v.(fifo := x), |x|);
    WholeFrame(m, v, x);
    WholeFrameView(m, v, x);
    assert Contrasts(lengths)[0] == x && Contrasts(lengths)[1..] == Contrasts(lengths[1..]);
    RunStep(m, v, next, Contrasts(lengths));
  }

  /** The first message is a bare header: it waits. */
  lemma HeaderStep(m: Machine, v: View, lengths: seq<nat>) returns (held: View)
    requires ValidView(m, v) && AsWrittenVariable(m) && Lengths(lengths) && v.fifo == []
    requires lengths != [] && lengths[0] == HEADER_SIZE
    ensures ValidView(m, held) && held.fifo == Contrast(HEADER_SIZE)
    ensures held.rear == v.rear && held.received == v.received
    ensures Run(m, v, Contrasts(lengths)) == Run(m, held, Contrasts(lengths[1..]))
  {
    var x := Contrast(HEADER_SIZE);
    held := v.(fifo := x);
    BareHeaderWaits(m, v, x);
    assert Contrasts(lengths)[0] == x && Contrasts(lengths)[1..] == Contrasts(lengths[1..]);
    RunStep(m, v, held, Contrasts(lengths));
  }

  /** The first message straddles the end: either its header does, or it is not delivered as it was sent. */
  lemma PayloadSpoils(m: Machine, v: View, lengths: seq<nat>)
    requires ValidView(m, v) && AsWrittenVariable(m) && Lengths(lengths) && v.fifo == []
    requires lengths != [] && lengths[0] > HEADER_SIZE && v.rear + lengths[0] > m.capacity
    ensures Spoilt(Run(m, v, Contrasts(lengths)), v.received, Contrasts(lengths))
  {
    var x, others := Contrast(lengths[0]), Contrasts(lengths[1..]);
    assert Contrasts(lengths)[0] == x && Contrasts(lengths)[1..] == others;
    WholeFrame(m, v, x);
    if v.rear + HEADER_SIZE <= m.capacity {
      RunStep(m, v, Deliver(m, v.(fifo := x), |x|), Contrasts(lengths));
      DueFrames(x, others);
      StraddledNotDelivered(m, v, x, others, [x] + Due(others));
    }
  }

  /** Send such messages one per chunk: if one that is due straddles the end, what arrives is not what was sent. */
  lemma {:induction false} StraddleSpoils(m: Machine, v: View, lengths: seq<nat>)
    requires ValidView(m, v) && AsWrittenVariable(m) && Lengths(lengths) && v.fifo == []
    requires !NoStraddle(m.capacity, v.rear, DueLengths(lengths))
    ensures Spoilt(Run(m, v, Contrasts(lengths)), v.received, Contrasts(lengths))
    decreases |lengths|
  {
    if lengths[0] == HEADER_SIZE {
      SpoiltWithHeader(m, v, lengths);
    } else if v.rear + lengths[0] <= m.capacity {
      SpoiltWithPayload(m, v, lengths);
    } else {
      PayloadSpoils(m, v, lengths);
    }
  }

  lemma {:induction false} SpoiltWithHeader(m: Machine, v: View, lengths: seq<nat>)
    requires ValidView(m, v) && AsWrittenVariable(m) && Lengths(lengths) && v.fifo == []
    requires lengths != [] && lengths[0] == HEADER_SIZE
    requires !NoStraddle(m.capacity, v.rear, DueLengths(lengths))
    ensures Spoilt(Run(m, v, Contrasts(lengths)), v.received, Contrasts(lengths))
    decreases |lengths|, 1
  {
    var held := HeaderStep(m, v, lengths);
    SpoiltBehindHeader(m, held, lengths);
    SpoiltAlike(m, v, held, lengths);
  }

  lemma {:induction false} SpoiltWithPayload(m: Machine, v: View, lengths: seq<nat>)
    requires ValidView(m, v) && AsWrittenVariable(m) && Lengths(lengths) && v.fifo == []
    requires lengths != [] && lengths[0] > HEADER_SIZE && v.rear + lengths[0] <= m.capacity
    requires !NoStraddle(m.capacity, v.rear, DueLengths(lengths))
    ensures Spoilt(Run(m, v, Contrasts(lengths)), v.received, Contrasts(lengths))
    decreases |lengths|, 1
  {
    StraddleShift(m.capacity, v.rear, lengths);
    var next := PayloadStep(m, v, lengths);
    StraddleSpoils(m, next, lengths[1..]);
    SpoiltAfterPayload(m, v, next, lengths);
  }

  lemma SpoiltAlike(m: Machine, v: View, held: View, lengths: seq<nat>)
    requires ValidView(m, v) && ValidView(m, held) && Lengths(lengths) && lengths != []
    requires held.received == v.received
    requires Run(m, v, Contrasts(lengths)) == Run(m, held, Contrasts(lengths[1..]))
    requires Spoilt(Run(m, held, Contrasts(lengths[1..])), held.received, Contrasts(lengths))
    ensures Spoilt(Run(m, v, Contrasts(lengths)), v.received, Contrasts(lengths))
  {
  }

  lemma SpoiltAfterPayload(m: Machine, v: View, next: View, lengths: seq<nat>)
    requires ValidView(m, v) && ValidView(m, next) && Lengths(lengths) && lengths != [] && lengths[0] > HEADER_SIZE
    requires next.received == v.received + [Contrast(lengths[0])]
    requires Run(m, v, Contrasts(lengths)) == Run(m, next, Contrasts(lengths[1..]))
    requires Spoilt(Run(m, next, Contrasts(lengths[1..])), next.received, Contrasts(lengths[1..]))
    ensures Spoilt(Run(m, v, Contrasts(lengths)), v.received, Contrasts(lengths))
  {
    SpoiltShift(Run(m, v, Contrasts(lengths)), v.received, Contrast(lengths[0]), Contrasts(lengths[1..]));
  }

  /** The same with the first of them, a bare header, already in the ring. */
  lemma {:induction false} SpoiltBehindHeader(m: Machine, v: View, lengths: seq<nat>)
    requires ValidView(m, v) && AsWrittenVariable(m) && Lengths(lengths)
    requires lengths != [] && lengths[0] == HEADER_SIZE && v.fifo == Contrast(HEADER_SIZE)
    requires !NoStraddle(m.capacity, v.rear, DueLengths(lengths))
    ensures Spoilt(Run(m, v, Contrasts(lengths[1..])), v.received, Contrasts(lengths))
    decreases |lengths|, 0
  {
    var others := Contrasts(lengths[1..]);
    if |lengths| > 1 {
      BehindBareHeader(m, v, others[0]);
      if v.rear + HEADER_SIZE <= m.capacity {
        StraddleShift(m.capacity, v.rear, lengths);
        AfterBareHeaderView(m, v);
        var next := AfterBareHeader(m, v);
        RunHead(m, v, next, others);
        StraddleSpoils(m, next, lengths[1..]);
        SpoiltShift(Run(m, next, others), v.received, v.fifo, others);
      }
    }
  }

  lemma StraddledNotDelivered(m: Machine, v: View, x: seq<byte>, others: seq<seq<byte>>, due: seq<seq<byte>>)
    requires ValidView(m, v) && m.split.AsWritten? && |x| <= BUFFER_SIZE && |x| <= m.capacity
    requires v.rear + HEADER_SIZE <= m.capacity < v.rear + |x|
    requires forall i :: HEADER_SIZE <= i < |x| ==> x[i] != x[0]
    requires due != [] && due[0] == x
    ensures var o := Run(m, Deliver(m, v.(fifo := x), |x|), others);
            o.Running? ==> o.view.received != v.received + due
  {
    var next := Deliver(m, v.(fifo := x), |x|);
    RunKeepsReceived(m, next, others);
    SplitMovesFirstByte(m.capacity - v.rear, x, v.scratch);
    assert next.received[|v.received|][0] != x[0];
    assert (v.received + due)[|v.received|] == x;
  }

  /** Every list of messages of these lengths, in every chunking, is delivered as it was sent. */
  ghost predicate VariableUnharmed(capacity: nat, lengths: seq<nat>) {
    forall frames, chunks ::
      FramesOf(lengths, frames) && WellSized(chunks, BUFFER_SIZE) && Flatten(chunks) == Flatten(frames) ==>
        DeliversAll(capacity, chunks, frames)
  }

  /** But for a final bare header, which waits. */
  predicate DeliversAll(capacity: nat, chunks: seq<seq<byte>>, frames: seq<seq<byte>>) {
    var o := Run(Machine(Variable, capacity, AsWritten), Fresh(), chunks);
    o.Running? && o.view.received == Due(frames) && o.view.fifo == Withheld(frames)
  }

  /** Main theorem. As written, size-prefixed framing delivers all messages of given lengths, bare headers among them,
      if and only if none that is read straddles the end of the array. */
  lemma VariableUnharmedIff(capacity: nat, lengths: seq<nat>)
    requires Lengths(lengths) && capacity >= MaxResidue(Variable, BUFFER_SIZE) + BUFFER_SIZE
    ensures VariableUnharmed(capacity, lengths) <==> NoStraddle(capacity, 0, DueLengths(lengths))
  {
    if NoStraddle(capacity, 0, DueLengths(lengths)) {
      forall frames, chunks |
        FramesOf(lengths, frames) && WellSized(chunks, BUFFER_SIZE) && Flatten(chunks) == Flatten(frames)
        ensures DeliversAll(capacity, chunks, frames)
      {
        UnstraddledDelivered(capacity, lengths, frames, chunks);
      }
    } else {
      var frames := Contrasts(lengths);
      ContrastsAreFrames(lengths);
      StraddleSpoils(Machine(Variable, capacity, AsWritten), Fresh(), lengths);
      EmptyUnit(Due(frames));
      assert WellSized(frames, BUFFER_SIZE);
      assert !DeliversAll(capacity, frames, frames);
    }
  }

  lemma UnstraddledDelivered(capacity: nat, lengths: seq<nat>, frames: seq<seq<byte>>, chunks: seq<seq<byte>>)
    requires Lengths(lengths) && capacity >= MaxResidue(Variable, BUFFER_SIZE) + BUFFER_SIZE
    requires NoStraddle(capacity, 0, DueLengths(lengths))
    requires FramesOf(lengths, frames) && WellSized(chunks, BUFFER_SIZE) && Flatten(chunks) == Flatten(frames)
    ensures DeliversAll(capacity, chunks, frames)
  {
    EmptyUnit(Flatten(frames));
    EmptyUnit(Due(frames));
    NoStraddleUnsplit(capacity, 0, lengths, frames);
    ParseSent(frames);
    RunIsParse(Machine(Variable, capacity, AsWritten), BUFFER_SIZE, BUFFER_SIZE, Fresh(), chunks);
  }
}
