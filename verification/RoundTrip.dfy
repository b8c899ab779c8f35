/** What the receiver delivers for what a sender sends. */
module RoundTrip {
  import opened Arithmetic
  import opened Bytes
  import opened ByteCircularBuffers
  import opened Reframing
  import opened ChunkInvariance

  // ---------------------------------------------------------------- size-prefixed messages

  /** The longest payload that fits the scratch buffer behind its header. */
  const MAX_PAYLOAD := BUFFER_SIZE - HEADER_SIZE

  /** A message as the sender builds it: a 16-bit size that counts itself, then the payload. */
  function Encode(payload: seq<byte>): (x: seq<byte>)
    requires |payload| <= MAX_PAYLOAD
    ensures IsFrame(x) && x[HEADER_SIZE..] == payload
    ensures x[0] as nat == |x| % 0x100 && x[1] as nat == |x| / 0x100
  {
    var n := |payload| + HEADER_SIZE;
    [(n % 0x100) as byte, (n / 0x100) as byte] + payload
  }

  predicate IsFrame(x: seq<byte>) {
    HEADER_SIZE <= |x| <= BUFFER_SIZE && Header(x) == |x|
  }

  predicate AllFrames(frames: seq<seq<byte>>) {
    forall i :: 0 <= i < |frames| ==> IsFrame(frames[i])
  }

  /** A header-only message: the `<=` at msg_delimiter_var.cpp:22 makes it wait for one more byte. */
  predicate EndsInBareHeader(frames: seq<seq<byte>>) {
    frames != [] && |frames[|frames| - 1]| == HEADER_SIZE
  }

  lemma FrameAtHead(x: seq<byte>, t: seq<byte>)
    requires IsFrame(x) && |x + t| > HEADER_SIZE
    ensures Flushable(Variable, x + t) && HeadLength(Variable, x + t) == |x|
    ensures (x + t)[..|x|] == x && (x + t)[|x|..] == t
  {
  }

  lemma ParseFrame(x: seq<byte>, t: seq<byte>)
    requires IsFrame(x) && |x + t| > HEADER_SIZE
    ensures Parse(Variable, x + t) == Parsed([x] + Parse(Variable, t).messages, Parse(Variable, t).rest)
    ensures Legal(Variable, BUFFER_SIZE, t) ==> Legal(Variable, BUFFER_SIZE, x + t)
  {
    FrameAtHead(x, t);
  }

  /** A header-only message is released by what follows it. */
  lemma HeadFollowed(frames: seq<seq<byte>>, t: seq<byte>)
    requires frames != [] && AllFrames(frames) && (EndsInBareHeader(frames) ==> t != [])
    ensures |frames[0] + (Flatten(frames[1..]) + t)| > HEADER_SIZE
    ensures AllFrames(frames[1..]) && (EndsInBareHeader(frames[1..]) ==> t != [])
  {
    if |frames| > 1 {
      assert frames[1..][0] == frames[1];
      assert frames[1..][|frames| - 2] == frames[|frames| - 1];
      assert |Flatten(frames[1..])| >= |frames[1]|;
    }
  }

  /** Frames in front of a stream come out in order, whatever the stream, unless nothing follows a bare header. */
  lemma {:induction false} ParseFrames(frames: seq<seq<byte>>, t: seq<byte>)
    requires AllFrames(frames) && (EndsInBareHeader(frames) ==> t != [])
    ensures Parse(Variable, Flatten(frames) + t) ==
            Parsed(frames + Parse(Variable, t).messages, Parse(Variable, t).rest)
    ensures Legal(Variable, BUFFER_SIZE, t) ==> Legal(Variable, BUFFER_SIZE, Flatten(frames) + t)
    decreases |frames|
  {
    if frames == [] {
      EmptyUnit(t);
      EmptyUnit(Parse(Variable, t).messages);
    } else {
      var x, others := frames[0], frames[1..];
      HeadFollowed(frames, t);
      ParseFrame(x, Flatten(others) + t);
      ParseFrames(others, t);
      Assoc(x, Flatten(others), t);
      Assoc([x], others, Parse(Variable, t).messages);
      assert frames == [x] + others;
    }
  }

  /** Frames that end in a bare header: all come out but that one, which stays in the ring. */
  lemma ParseWithheld(firsts: seq<seq<byte>>, x: seq<byte>)
    requires AllFrames(firsts) && IsFrame(x) && |x| == HEADER_SIZE
    ensures Parse(Variable, Flatten(firsts + [x])) == Parsed(firsts, x)
    ensures Legal(Variable, BUFFER_SIZE, Flatten(firsts + [x]))
  {
    FlattenSnoc(firsts, x);
    ParseFrames(firsts, x);
    EmptyUnit(firsts);
  }

  /** The messages that are delivered once `frames` have arrived, and what then waits. */
  function Due(frames: seq<seq<byte>>): seq<seq<byte>> {
    if EndsInBareHeader(frames) then frames[..|frames| - 1] else frames
  }

  function Withheld(frames: seq<seq<byte>>): seq<byte> {
    if EndsInBareHeader(frames) then frames[|frames| - 1] else []
  }

  lemma ParseSent(frames: seq<seq<byte>>)
    requires AllFrames(frames)
    ensures Parse(Variable, Flatten(frames)) == Parsed(Due(frames), Withheld(frames))
    ensures Legal(Variable, BUFFER_SIZE, Flatten(frames))
  {
    if EndsInBareHeader(frames) {
      var last := |frames| - 1;
      assert frames == frames[..last] + [frames[last]];
      ParseWithheld(frames[..last], frames[last]);
    } else {
      ParseFrames(frames, []);
      EmptyUnit(Flatten(frames));
      EmptyUnit(frames);
    }
  }

  /** Main theorem. What the sender encoded is what is delivered, message by message, however it is chunked.
      Only a final bare header is withheld, and then it is all that waits. */
  lemma {:induction false} VariableRoundTrip(frames: seq<seq<byte>>, chunks: seq<seq<byte>>)
    requires AllFrames(frames)
    requires WellSized(chunks, BUFFER_SIZE) && Flatten(chunks) == Flatten(frames)
    ensures var o := Run(ServerMachine(Variable), Fresh(), chunks);
            o.Running? && o.view.received == Due(frames) && o.view.fifo == Withheld(frames)
  {
    ParseSent(frames);
    ServedRunIsParse(Variable, chunks);
  }

  /** Whatever byte comes next, it releases a withheld bare header. */
  lemma {:induction false} BareHeaderReleased(frames: seq<seq<byte>>, b: byte, chunks: seq<seq<byte>>)
    requires AllFrames(frames)
    requires WellSized(chunks, BUFFER_SIZE) && Flatten(chunks) == Flatten(frames) + [b]
    ensures var o := Run(ServerMachine(Variable), Fresh(), chunks);
            o.Running? && o.view.received == frames && o.view.fifo == [b]
  {
    ParseFrames(frames, [b]);
    EmptyUnit(frames);
    ServedRunIsParse(Variable, chunks);
  }

  /** The payloads come back: stripping the headers of what is delivered undoes the encoding. */
  lemma {:induction false} PayloadsRoundTrip(payloads: seq<seq<byte>>, chunks: seq<seq<byte>>)
    requires forall i :: 0 <= i < |payloads| ==> |payloads[i]| <= MAX_PAYLOAD
    requires payloads != [] ==> payloads[|payloads| - 1] != []
    requires WellSized(chunks, BUFFER_SIZE)
    requires Flatten(chunks) == Flatten(seq(|payloads|, i requires 0 <= i < |payloads| => Encode(payloads[i])))
    ensures var o := Run(ServerMachine(Variable), Fresh(), chunks);
            && o.Running? && o.view.fifo == []
            && |o.view.received| == |payloads|
            && forall i :: 0 <= i < |payloads| ==>
                 |o.view.received[i]| >= HEADER_SIZE && o.view.received[i][HEADER_SIZE..] == payloads[i]
  {
    var frames := seq(|payloads|, i requires 0 <= i < |payloads| => Encode(payloads[i]));
    assert AllFrames(frames);
    assert forall i :: 0 <= i < |frames| ==> |frames[i]| == |payloads[i]| + HEADER_SIZE;
    VariableRoundTrip(frames, chunks);
  }

  // ---------------------------------------------------------------- equal slices

  function SliceStart(k: nat, i: nat): nat {
    i * k
  }

  /** Slice number `i` of a stream cut into slices of `k` bytes. */
  ghost predicate IsSlice(k: nat, i: nat, s: seq<byte>, x: seq<byte>) {
    SliceStart(k, i) + k <= |s| && x == s[SliceStart(k, i)..][..k]
  }

  /** The closed form of fixed framing: |s| div k consecutive slices, and the last |s| mod k bytes. */
  ghost predicate IsCut(k: SliceSize, s: seq<byte>, messages: seq<seq<byte>>, rest: seq<byte>) {
    && |messages| == |s| / k
    && (forall i :: 0 <= i < |messages| ==> IsSlice(k, i, s, messages[i]))
    && |rest| == |s| % k
    && rest == s[|s| - |rest|..]
  }

  lemma {:induction false} FixedClosedForm(k: SliceSize, s: seq<byte>)
    ensures IsCut(k, s, Parse(Fixed(k), s).messages, Parse(Fixed(k), s).rest)
    decreases |s|
  {
    var p := Parse(Fixed(k), s);
    if |s| < k {
      DivModUnique(|s|, k, 0, |s|);
    } else {
      var t := s[k..];
      FixedClosedForm(k, t);
      DivModStep(|s|, k);
      forall i | 0 <= i < |p.messages|
        ensures IsSlice(k, i, s, p.messages[i])
      {
        if i == 0 {
          assert SliceStart(k, 0) == 0;
        } else {
          assert IsSlice(k, i - 1, t, Parse(Fixed(k), t).messages[i - 1]);
          SliceShift(k, i, s);
        }
      }
    }
  }

  lemma SliceShift(k: nat, i: nat, s: seq<byte>)
    requires i > 0 && k <= |s| && SliceStart(k, i - 1) + k <= |s| - k
    ensures SliceStart(k, i) == SliceStart(k, i - 1) + k
    ensures s[k..][SliceStart(k, i - 1)..][..k] == s[SliceStart(k, i)..][..k]
  {
    assert i * k == (i - 1) * k + k;
  }

  /** Main theorem: fixed framing in closed form, whatever the chunking. */
  lemma {:induction false} FixedReassembles(k: SliceSize, chunks: seq<seq<byte>>)
    requires k <= BUFFER_SIZE && WellSized(chunks, BUFFER_SIZE)
    ensures var o := Run(ServerMachine(Fixed(k)), Fresh(), chunks);
            o.Running? && IsCut(k, Flatten(chunks), o.view.received, o.view.fifo)
  {
    ServedRunIsParse(Fixed(k), chunks);
    FixedClosedForm(k, Flatten(chunks));
  }

  // ---------------------------------------------------------------- the two framings compared

  /** Every message that the stream announces has `k` bytes. */
  predicate Uniform(k: nat, s: seq<byte>)
    decreases |s|
  {
    |s| <= HEADER_SIZE || (0 < k == Header(s) && (k <= |s| ==> Uniform(k, s[k..])))
  }

  lemma {:induction false} UniformParse(k: SliceSize, s: seq<byte>)
    requires HEADER_SIZE < k && Uniform(k, s)
    ensures Parse(Fixed(k), s) == Parse(Variable, s)
    ensures k <= BUFFER_SIZE ==> Legal(Variable, BUFFER_SIZE, s)
    decreases |s|
  {
    if k <= |s| {
      UniformParse(k, s[k..]);
    }
  }

  lemma {:induction false} UniformPrefix(k: nat, s: seq<byte>, t: seq<byte>)
    requires Uniform(k, s + t)
    ensures Uniform(k, s)
    decreases |s|
  {
    if |s| > HEADER_SIZE && k <= |s| {
      assert (s + t)[k..] == s[k..] + t;
      UniformPrefix(k, s[k..], t);
    }
  }

  /** On a stream of equal messages the two delimiters have delivered the same and keep the same, after every chunk. */
  lemma {:induction false} FramingsAgree(k: SliceSize, chunks: seq<seq<byte>>, j: nat)
    requires HEADER_SIZE < k <= BUFFER_SIZE
    requires WellSized(chunks, BUFFER_SIZE) && Uniform(k, Flatten(chunks))
    requires j <= |chunks|
    ensures var o := Run(ServerMachine(Fixed(k)), Fresh(), chunks[..j]);
            var o' := Run(ServerMachine(Variable), Fresh(), chunks[..j]);
            o.Running? && o'.Running? && o.view.received == o'.view.received && o.view.fifo == o'.view.fifo
  {
    FlattenAppend(chunks[..j], chunks[j..]);
    assert chunks == chunks[..j] + chunks[j..];
    var s := Flatten(chunks[..j]);
    UniformPrefix(k, s, Flatten(chunks[j..]));
    UniformParse(k, s);
    ServedRunIsParse(Fixed(k), chunks[..j]);
    ServedRunIsParse(Variable, chunks[..j]);
  }
}
