/** How large the ring has to be so that the write assertion at msg_delimiter.cpp:38 never fails. */
module Capacity {
  import opened Bytes
  import opened ByteCircularBuffers
  import opened Reframing
  import opened ChunkInvariance
  import opened RoundTrip

  /** The streams a ring must carry: legal ones, in chunks of 1 to `maxChunk` bytes. */
  ghost predicate Input(f: Framing, maxFrame: nat, maxChunk: nat, chunks: seq<seq<byte>>) {
    WellSized(chunks, maxChunk) && Legal(f, maxFrame, Flatten(chunks))
  }

  ghost predicate NeverFails(f: Framing, capacity: nat, maxFrame: nat, maxChunk: nat) {
    forall chunks :: Input(f, maxFrame, maxChunk, chunks) ==> Run(Machine(f, capacity, Offset), Fresh(), chunks).Running?
  }

  /** The ring of msg_delimiter.h:5 holds at most 1023 bytes between two calls, and at most 2047 during one. */
  lemma ServerRingBound(f: Framing, chunks: seq<seq<byte>>, j: nat)
    requires Served(f, chunks) && j < |chunks|
    ensures var o := Run(ServerMachine(f), Fresh(), chunks[..j]);
            && o.Running?
            && |o.view.fifo| <= 1023
            && |o.view.fifo + chunks[j]| <= 2047
            && Accepts(ServerMachine(f), o.view, chunks[j])
  {
    FlattenAppend(chunks[..j], chunks[j..]);
    assert chunks == chunks[..j] + chunks[j..];
    LegalPrefix(f, BUFFER_SIZE, Flatten(chunks[..j]), Flatten(chunks[j..]));
    ServedRunIsParse(f, chunks[..j]);
    ParseIsMaximal(f, BUFFER_SIZE, Flatten(chunks[..j]));
  }

  // ---------------------------------------------------------------- the bound is exact

  /** A message of `n` bytes. */
  function Sample(n: nat): (x: seq<byte>)
    requires HEADER_SIZE <= n <= BUFFER_SIZE
    ensures IsFrame(x) && |x| == n
  {
    Encode(Zeros(n - HEADER_SIZE))
  }

  /** The first `n` bytes of an endless stream of such messages. */
  function Samples(size: nat, n: nat): (s: seq<byte>)
    requires HEADER_SIZE <= size <= BUFFER_SIZE
    ensures |s| == n
    ensures forall i :: 0 <= i < size && i < n ==> s[i] == Sample(size)[i]
    decreases n
  {
    if n <= size then Sample(size)[..n] else Sample(size) + Samples(size, n - size)
  }

  lemma {:induction false} SamplesLegal(size: nat, n: nat)
    requires HEADER_SIZE <= size <= BUFFER_SIZE
    ensures Legal(Variable, size, Samples(size, n))
    decreases n
  {
    if n > HEADER_SIZE {
      assert Header(Samples(size, n)) == Header(Sample(size)) == size;
      if n == size {
        assert Samples(size, n)[size..] == [];
      } else if n > size {
        assert Samples(size, n)[size..] == Samples(size, n - size);
        SamplesLegal(size, n - size);
      }
    }
  }

  /** A stream sent byte by byte up to `full`, and the rest of it in one chunk. */
  function Trickle(s: seq<byte>, i: nat, full: nat): (chunks: seq<seq<byte>>)
    requires i <= full <= |s|
    ensures Flatten(chunks) == s[i..]
    decreases full - i
  {
    if i == full then
      FlattenCons(s[full..], []);
      assert [s[full..]] + [] == [s[full..]] && s[full..] + [] == s[full..];
      [s[full..]]
    else
      var others := Trickle(s, i + 1, full);
      FlattenCons([s[i]], others);
      [[s[i]]] + others
  }

  lemma {:induction false} TrickleSized(s: seq<byte>, i: nat, full: nat, maxChunk: nat)
    requires i <= full < |s| && |s| - full <= maxChunk
    ensures WellSized(Trickle(s, i, full), maxChunk)
    decreases full - i
  {
    if i < full {
      TrickleSized(s, i + 1, full, maxChunk);
    }
  }

  /** When nothing is flushable up to `full`, the bytes pile up, and the last chunk or an earlier one is refused. */
  lemma {:induction false} TrickleRefused(m: Machine, v: View, s: seq<byte>, i: nat, full: nat)
    requires ValidView(m, v) && m.split.Offset?
    requires i <= full <= |s| && v.fifo == s[..i] && |s| > m.capacity
    requires forall j :: 0 <= j <= full ==> !Flushable(m.framing, s[..j])
    ensures Run(m, v, Trickle(s, i, full)) == Refused
    decreases full - i
  {
    var chunks := Trickle(s, i, full);
    if i == full {
      assert chunks[0] == s[full..];
    } else {
      assert chunks[0] == [s[i]] && chunks[1..] == Trickle(s, i + 1, full);
      if Accepts(m, v, [s[i]]) {
        assert s[..i] + [s[i]] == s[..i + 1];
        TrickleRefused(m, v.(fifo := s[..i + 1]), s, i + 1, full);
      }
    }
  }

  lemma TrickleAll(m: Machine, s: seq<byte>, full: nat, maxChunk: nat) returns (chunks: seq<seq<byte>>)
    requires m.split.Offset? && m.capacity < |s| == full + maxChunk && maxChunk >= 1
    requires forall j :: 0 <= j <= full ==> !Flushable(m.framing, s[..j])
    ensures WellSized(chunks, maxChunk) && Flatten(chunks) == s && Run(m, Fresh(), chunks) == Refused
  {
    chunks := Trickle(s, 0, full);
    TrickleSized(s, 0, full, maxChunk);
    TrickleRefused(m, Fresh(), s, 0, full);
  }

  /** A stream whose first `MaxResidue` bytes hold no complete message. */
  function Stall(f: Framing, maxFrame: nat, n: nat): (s: seq<byte>)
    requires HEADER_SIZE <= maxFrame <= BUFFER_SIZE
    ensures |s| == n
  {
    match f
    case Fixed(k) => Zeros(n)
    case Variable => Samples(maxFrame, n)
  }

  lemma StallUnflushable(f: Framing, maxFrame: nat, n: nat)
    requires HEADER_SIZE <= maxFrame <= BUFFER_SIZE && MaxResidue(f, maxFrame) <= n
    ensures forall j :: 0 <= j <= MaxResidue(f, maxFrame) ==> !Flushable(f, Stall(f, maxFrame, n)[..j])
  {
    forall j | 0 <= j <= MaxResidue(f, maxFrame)
      ensures !Flushable(f, Stall(f, maxFrame, n)[..j])
    {
      if f.Variable? && j > HEADER_SIZE {
        var s := Samples(maxFrame, n);
        assert s[0] == Sample(maxFrame)[0] && s[1] == Sample(maxFrame)[1];
        assert Header(s[..j]) == Header(Sample(maxFrame)) == maxFrame;
      }
    }
  }

  lemma StallLegal(f: Framing, maxFrame: nat, n: nat)
    requires HEADER_SIZE <= maxFrame <= BUFFER_SIZE && (f.Fixed? ==> f.size <= maxFrame)
    ensures Legal(f, maxFrame, Stall(f, maxFrame, n))
  {
    SamplesLegal(maxFrame, n);
  }

  lemma RoomSuffices(f: Framing, capacity: nat, maxFrame: nat, maxChunk: nat, chunks: seq<seq<byte>>)
    requires maxFrame <= BUFFER_SIZE && Input(f, maxFrame, maxChunk, chunks)
    requires capacity >= MaxResidue(f, maxFrame) + maxChunk
    ensures Run(Machine(f, capacity, Offset), Fresh(), chunks).Running?
  {
    EmptyUnit(Flatten(chunks));
    RunIsParse(Machine(f, capacity, Offset), maxFrame, maxChunk, Fresh(), chunks);
  }

  lemma LessIsRefused(f: Framing, capacity: nat, maxFrame: nat, maxChunk: nat) returns (chunks: seq<seq<byte>>)
    requires HEADER_SIZE <= maxFrame <= BUFFER_SIZE && maxChunk >= 1
    requires f.Fixed? ==> f.size <= maxFrame
    requires capacity < MaxResidue(f, maxFrame) + maxChunk
    ensures Input(f, maxFrame, maxChunk, chunks)
    ensures Run(Machine(f, capacity, Offset), Fresh(), chunks) == Refused
  {
    var full := MaxResidue(f, maxFrame);
    var s := Stall(f, maxFrame, full + maxChunk);
    StallUnflushable(f, maxFrame, full + maxChunk);
    StallLegal(f, maxFrame, full + maxChunk);
    chunks := TrickleAll(Machine(f, capacity, Offset), s, full, maxChunk);
  }

  /** Main theorem. A ring never refuses a legal input if and only if it has room for the longest residue and one
      more chunk. */
  lemma CapacityExact(f: Framing, capacity: nat, maxFrame: nat, maxChunk: nat)
    requires HEADER_SIZE <= maxFrame <= BUFFER_SIZE && maxChunk >= 1
    requires f.Fixed? ==> f.size <= maxFrame
    ensures NeverFails(f, capacity, maxFrame, maxChunk) <==> capacity >= MaxResidue(f, maxFrame) + maxChunk
  {
    if capacity >= MaxResidue(f, maxFrame) + maxChunk {
      forall chunks | Input(f, maxFrame, maxChunk, chunks)
        ensures Run(Machine(f, capacity, Offset), Fresh(), chunks).Running?
      {
        RoomSuffices(f, capacity, maxFrame, maxChunk, chunks);
      }
    } else {
      var chunks := LessIsRefused(f, capacity, maxFrame, maxChunk);
    }
  }
}
