/** What is delivered depends on the byte stream alone, not on how the transport cut it into chunks. */
module ChunkInvariance {
  import opened Bytes
  import opened ByteCircularBuffers
  import opened Reframing

  /** A complete message at the head of a stream is the same message whatever arrives later. */
  lemma HeadStable(f: Framing, s: seq<byte>, t: seq<byte>)
    requires Flushable(f, s)
    ensures Flushable(f, s + t) && HeadLength(f, s + t) == HeadLength(f, s)
    ensures (s + t)[..HeadLength(f, s)] == s[..HeadLength(f, s)]
    ensures (s + t)[HeadLength(f, s)..] == s[HeadLength(f, s)..] + t
  {
  }

  /** Parsing may stop anywhere and go on from the unparsed tail. */
  lemma {:induction false} ParseAppend(f: Framing, s: seq<byte>, t: seq<byte>)
    ensures var p, q := Parse(f, s), Parse(f, Parse(f, s).rest + t);
            Parse(f, s + t) == Parsed(p.messages + q.messages, q.rest)
    decreases |s|
  {
    if Flushable(f, s) && HeadLength(f, s) > 0 {
      var n := HeadLength(f, s);
      HeadStable(f, s, t);
      ParseAppend(f, s[n..], t);
      var p, q := Parse(f, s[n..]), Parse(f, Parse(f, s).rest + t);
      Assoc([s[..n]], p.messages, q.messages);
    } else {
      var q := Parse(f, s + t);
      assert [] + q.messages == q.messages;
    }
  }

  /** Nothing is lost, added or reordered by parsing, and what is left is not flushable. */
  lemma {:induction false} ParseConserves(f: Framing, s: seq<byte>)
    ensures Flatten(Parse(f, s).messages) + Parse(f, s).rest == s
    decreases |s|
  {
    if Flushable(f, s) && HeadLength(f, s) > 0 {
      var n := HeadLength(f, s);
      var p := Parse(f, s[n..]);
      ParseConserves(f, s[n..]);
      FlattenCons(s[..n], p.messages);
      Assoc(s[..n], Flatten(p.messages), p.rest);
      assert s == s[..n] + s[n..];
    } else {
      assert Flatten([]) + s == s;
    }
  }

  /** Every parsed message has the length its framing says: the slice size, or the size it is prefixed with. */
  lemma {:induction false} MessagesWellFormed(f: Framing, s: seq<byte>)
    ensures var ms := Parse(f, s).messages;
            && |ms| <= |s|
            && forall i :: 0 <= i < |ms| ==> MessageOf(f, ms[i])
    decreases |s|
  {
    if Flushable(f, s) && HeadLength(f, s) > 0 {
      MessagesWellFormed(f, s[HeadLength(f, s)..]);
    }
  }

  predicate MessageOf(f: Framing, x: seq<byte>) {
    match f
    case Fixed(k) => |x| == k
    case Variable => |x| >= 1 && (|x| >= HEADER_SIZE ==> Header(x) == |x|)
  }

  /** On a legal stream the tail is not flushable, and shorter than one message. */
  lemma {:induction false} ParseIsMaximal(f: Framing, maxFrame: nat, s: seq<byte>)
    requires Legal(f, maxFrame, s)
    ensures var rest := Parse(f, s).rest;
            !Flushable(f, rest) && |rest| <= MaxResidue(f, maxFrame)
    decreases |s|
  {
    if Flushable(f, s) {
      ParseIsMaximal(f, maxFrame, s[HeadLength(f, s)..]);
    }
  }

  /** One step of `Sound`: the message at the head is well formed, and what follows it is sound too. */
  lemma SoundHead(m: Machine, maxFrame: nat, v: View, t: seq<byte>)
    requires ValidView(m, v) && maxFrame <= BUFFER_SIZE
    requires Sound(m, maxFrame, v.rear, v.fifo + t)
    ensures !HeaderStraddles(m, v)
    ensures Flushable(m.framing, v.fifo) ==>
              var n := HeadLength(m.framing, v.fifo);
              && 1 <= n <= maxFrame
              && (m.split.Offset? || v.rear + n <= m.capacity)
              && Sound(m, maxFrame, Wrap(v.rear + n, m.capacity), v.fifo[n..] + t)
  {
    if Flushable(m.framing, v.fifo) {
      HeadStable(m.framing, v.fifo, t);
    }
  }

  /** A read that is not split by the as-written copy puts out exactly what it took. */
  lemma DeliverExact(m: Machine, v: View, n: nat)
    requires ValidView(m, v) && n <= |v.fifo| && n <= BUFFER_SIZE
    requires m.split.Offset? || v.rear + n <= m.capacity
    ensures var r := Deliver(m, v, n);
            && r.received == v.received + [v.fifo[..n]]
            && Deliver(m.(split := Offset), v, n) == r
  {
    assert Overlay(v.scratch, 0, v.fifo[..n])[..n] == v.fifo[..n];
  }

  /** Draining parses the bytes that wait, keeps the stream sound, and leaves nothing flushable. */
  lemma {:induction false} DrainIsParse(m: Machine, maxFrame: nat, v: View, t: seq<byte>)
    requires ValidView(m, v) && maxFrame <= BUFFER_SIZE
    requires Sound(m, maxFrame, v.rear, v.fifo + t)
    ensures var o, p := Drain(m, v), Parse(m.framing, v.fifo);
            && o.Running?
            && o.view.fifo == p.rest
            && o.view.received == v.received + p.messages
            && Sound(m, maxFrame, o.view.rear, p.rest + t)
    decreases |v.fifo|
  {
    SoundHead(m, maxFrame, v, t);
    if Flushable(m.framing, v.fifo) {
      var n := HeadLength(m.framing, v.fifo);
      var next := Deliver(m, v, n);
      DeliverExact(m, v, n);
      DrainIsParse(m, maxFrame, next, t);
      var tail := Parse(m.framing, v.fifo[n..]);
      Assoc(v.received, [v.fifo[..n]], tail.messages);
    } else {
      assert v.received + [] == v.received;
    }
  }

  /** The tail that parsing leaves is flushable if and only if its header is 0. */
  lemma {:induction false} StuckOnZeroHeader(f: Framing, s: seq<byte>)
    ensures var rest := Parse(f, s).rest;
            Flushable(f, rest) <==> f.Variable? && |rest| > HEADER_SIZE && Header(rest) == 0
    decreases |s|
  {
    if Flushable(f, s) && HeadLength(f, s) > 0 {
      StuckOnZeroHeader(f, s[HeadLength(f, s)..]);
    }
  }

  /** A turn of the loop takes nothing from the ring if and only if the header is 0. Then it changes nothing but
      that the callback gets an empty message, and the loop goes on. */
  lemma ZeroTurn(m: Machine, v: View)
    requires ValidView(m, v) && Flushable(m.framing, v.fifo) && HeadLength(m.framing, v.fifo) <= BUFFER_SIZE
    ensures var n := HeadLength(m.framing, v.fifo);
            && (Deliver(m, v, n).fifo == v.fifo <==> n == 0)
            && (n == 0 ==> Deliver(m, v, n) == v.(received := v.received + [[]]))
  {
    var n := HeadLength(m.framing, v.fifo);
    if n == 0 {
      assert v.fifo[..0] == [] && v.fifo[0..] == v.fifo;
      assert Overlay(v.scratch, 0, []) == v.scratch && v.scratch[..0] == [];
    }
  }

  /** On a header of 0 any number of turns deliver that many empty messages, and the loop is where it was. */
  lemma {:induction false} ZeroTurns(m: Machine, v: View, turns: nat)
    requires ValidView(m, v) && !HeaderStraddles(m, v)
    requires Flushable(m.framing, v.fifo) && HeadLength(m.framing, v.fifo) == 0
    ensures LoopFor(m, v, turns) == Going(v.(received := v.received + Repeat([], turns)))
    decreases turns
  {
    if turns == 0 {
      assert v.received + [] == v.received;
    } else {
      ZeroTurn(m, v);
      ZeroTurns(m, v.(received := v.received + [[]]), turns - 1);
      Assoc(v.received, [[]], Repeat([], turns - 1));
    }
  }

  /** A drain that does not spin ends as `Drain` says, in no more turns than there are bytes. */
  lemma {:induction false} LoopEnds(m: Machine, v: View, turns: nat)
    requires ValidView(m, v) && Drain(m, v) != Spins && turns >= |v.fifo|
    ensures LoopFor(m, v, turns) == Ended(Drain(m, v))
    decreases |v.fifo|
  {
    if !HeaderStraddles(m, v) && Flushable(m.framing, v.fifo) && HeadLength(m.framing, v.fifo) <= BUFFER_SIZE {
      LoopEnds(m, Deliver(m, v, HeadLength(m.framing, v.fifo)), turns - 1);
    }
  }

  lemma {:induction false} SpinsGoesOn(m: Machine, v: View, turns: nat)
    requires ValidView(m, v) && Drain(m, v) == Spins
    ensures LoopFor(m, v, turns).Going?
    decreases |v.fifo|
  {
    var n := HeadLength(m.framing, v.fifo);
    if n == 0 {
      ZeroTurns(m, v, turns);
    } else if turns > 0 {
      SpinsGoesOn(m, Deliver(m, v, n), turns - 1);
    }
  }

  /** `Spins` says that no number of turns ends the loop. */
  lemma SpinsIffForever(m: Machine, v: View)
    requires ValidView(m, v)
    ensures Drain(m, v) == Spins <==> forall turns: nat :: LoopFor(m, v, turns).Going?
  {
    if Drain(m, v) == Spins {
      forall turns: nat
        ensures LoopFor(m, v, turns).Going?
      {
        SpinsGoesOn(m, v, turns);
      }
    } else {
      LoopEnds(m, v, |v.fifo|);
      assert !LoopFor(m, v, |v.fifo|).Going?;
    }
  }

  predicate FitScratch(messages: seq<seq<byte>>) {
    forall i :: 0 <= i < |messages| ==> |messages[i]| <= BUFFER_SIZE
  }

  /** How a drain ends, for every input: it overruns the scratch buffer if and only if a parsed message is longer
      than it, it spins if and only if the tail is flushable (its header is 0), and otherwise it delivers the parse. */
  lemma {:induction false} DrainOutcome(m: Machine, v: View)
    requires ValidView(m, v) && m.split.Offset?
    ensures var o, p := Drain(m, v), Parse(m.framing, v.fifo);
            && (o == Overruns <==> !FitScratch(p.messages))
            && (o == Spins <==> FitScratch(p.messages) && Flushable(m.framing, p.rest))
            && (o.Running? <==> FitScratch(p.messages) && !Flushable(m.framing, p.rest))
            && (o.Running? ==> o.view.fifo == p.rest && o.view.received == v.received + p.messages)
    decreases |v.fifo|
  {
    var f := m.framing;
    var p := Parse(f, v.fifo);
    if Flushable(f, v.fifo) && HeadLength(f, v.fifo) > 0 {
      var n := HeadLength(f, v.fifo);
      var tail := Parse(f, v.fifo[n..]);
      assert p.messages[0] == v.fifo[..n] && p.messages[1..] == tail.messages;
      if n <= BUFFER_SIZE {
        DeliverExact(m, v, n);
        DrainOutcome(m, Deliver(m, v, n));
        Assoc(v.received, [v.fifo[..n]], tail.messages);
        FitCons(v.fifo[..n], tail.messages);
      }
    } else {
      assert v.received + [] == v.received;
    }
  }

  lemma FitCons(x: seq<byte>, messages: seq<seq<byte>>)
    ensures FitScratch([x] + messages) <==> |x| <= BUFFER_SIZE && FitScratch(messages)
  {
    if FitScratch([x] + messages) {
      forall i | 0 <= i < |messages|
        ensures |messages[i]| <= BUFFER_SIZE
      {
        assert messages[i] == ([x] + messages)[i + 1];
      }
      assert ([x] + messages)[0] == x;
    }
  }

  /** Every turn of a drain loop moves bytes from the ring to the callback and loses none, legal stream or not. */
  lemma DeliverConserves(m: Machine, v: View, n: nat)
    requires ValidView(m, v) && n <= |v.fifo| && n <= BUFFER_SIZE
    requires m.split.Offset? || v.rear + n <= m.capacity
    ensures var r := Deliver(m, v, n);
            Flatten(r.received) + r.fifo == Flatten(v.received) + v.fifo
  {
    DeliverExact(m, v, n);
    FlattenSnoc(v.received, v.fifo[..n]);
    Assoc(Flatten(v.received), v.fifo[..n], v.fifo[n..]);
    assert v.fifo == v.fifo[..n] + v.fifo[n..];
  }

  lemma {:induction false} DrainConserves(m: Machine, v: View)
    requires ValidView(m, v) && m.split.Offset?
    ensures var o := Drain(m, v);
            o.Running? ==> Flatten(o.view.received) + o.view.fifo == Flatten(v.received) + v.fifo
    decreases |v.fifo|
  {
    if Flushable(m.framing, v.fifo) && 0 < HeadLength(m.framing, v.fifo) <= BUFFER_SIZE {
      var n := HeadLength(m.framing, v.fifo);
      DeliverConserves(m, v, n);
      DrainConserves(m, Deliver(m, v, n));
    }
  }

  /** Conservation over whole runs, for every stream: delivered bytes, then waiting bytes, are the accepted bytes. */
  lemma {:induction false} RunConserves(m: Machine, v: View, chunks: seq<seq<byte>>)
    requires ValidView(m, v) && m.split.Offset?
    ensures var o := Run(m, v, chunks);
            o.Running? ==>
              Flatten(o.view.received) + o.view.fifo == Flatten(v.received) + v.fifo + Flatten(chunks)
    decreases |chunks|
  {
    var got := Flatten(v.received);
    if chunks == [] {
      assert got + v.fifo + [] == got + v.fifo;
    } else if Process(m, v, chunks[0]).Running? {
      var filled := v.(fifo := v.fifo + chunks[0]);
      DrainConserves(m, filled);
      RunConserves(m, Drain(m, filled).view, chunks[1..]);
      Assoc(got, v.fifo, chunks[0]);
      Assoc(got + v.fifo, chunks[0], Flatten(chunks[1..]));
    }
  }

  lemma {:induction false} LegalPrefix(f: Framing, maxFrame: nat, s: seq<byte>, t: seq<byte>)
    requires Legal(f, maxFrame, s + t)
    ensures Legal(f, maxFrame, s)
    decreases |s|
  {
    if f.Variable? && |s| > HEADER_SIZE && Header(s) <= |s| {
      HeadStable(f, s, t);
      LegalPrefix(f, maxFrame, s[Header(s)..], t);
    }
  }

  /** Main theorem. Given room for one residue and one chunk, every run over a sound stream, however it is
      chunked, is accepted throughout, delivers the greedy parse of the whole stream, and keeps its tail. */
  lemma {:induction false} RunIsParse(m: Machine, maxFrame: nat, maxChunk: nat, v: View, chunks: seq<seq<byte>>)
    requires ValidView(m, v) && maxFrame <= BUFFER_SIZE
    requires WellSized(chunks, maxChunk) && MaxResidue(m.framing, maxFrame) + maxChunk <= m.capacity
    requires !Flushable(m.framing, v.fifo)
    requires |v.fifo| <= MaxResidue(m.framing, maxFrame)
    requires Sound(m, maxFrame, v.rear, v.fifo + Flatten(chunks))
    ensures var o, p := Run(m, v, chunks), Parse(m.framing, v.fifo + Flatten(chunks));
            && o.Running?
            && o.view.fifo == p.rest
            && o.view.received == v.received + p.messages
    decreases |chunks|
  {
    var f, s := m.framing, v.fifo;
    if chunks == [] {
      assert s + [] == s;
      assert v.received + [] == v.received;
    } else {
      var c, t := chunks[0], Flatten(chunks[1..]);
      Assoc(s, c, t);
      var filled := v.(fifo := s + c);
      DrainIsParse(m, maxFrame, filled, t);
      LegalPrefix(f, maxFrame, s + c, t);
      ParseIsMaximal(f, maxFrame, s + c);
      ParseAppend(f, s + c, t);
      var next := Drain(m, filled).view;
      RunIsParse(m, maxFrame, maxChunk, next, chunks[1..]);
      var p, q := Parse(f, s + c), Parse(f, next.fifo + t);
      Assoc(v.received, p.messages, q.messages);
    }
  }

  /** The precondition of a delimiter in the server: reads that offset their second half, the ring of
      msg_delimiter.h:5, messages that fit the scratch buffer and chunks that fit the receive buffer. */
  ghost predicate Served(f: Framing, chunks: seq<seq<byte>>) {
    WellSized(chunks, BUFFER_SIZE) && Legal(f, BUFFER_SIZE, Flatten(chunks))
  }

  function ServerMachine(f: Framing): Machine {
    Machine(f, BCB_SIZE, Offset)
  }

  lemma ServedRunIsParse(f: Framing, chunks: seq<seq<byte>>)
    requires Served(f, chunks)
    ensures var o, p := Run(ServerMachine(f), Fresh(), chunks), Parse(f, Flatten(chunks));
            o.Running? && o.view.fifo == p.rest && o.view.received == p.messages
  {
    assert [] + Flatten(chunks) == Flatten(chunks);
    RunIsParse(ServerMachine(f), BUFFER_SIZE, BUFFER_SIZE, Fresh(), chunks);
    var p := Parse(f, Flatten(chunks));
    assert [] + p.messages == p.messages;
  }

  /** Two chunkings of one stream give the same messages, the same waiting bytes, and no failure. */
  lemma ChunkingIsIrrelevant(f: Framing, chunks: seq<seq<byte>>, chunks': seq<seq<byte>>)
    requires Served(f, chunks) && WellSized(chunks', BUFFER_SIZE)
    requires Flatten(chunks) == Flatten(chunks')
    ensures var o, o' := Run(ServerMachine(f), Fresh(), chunks), Run(ServerMachine(f), Fresh(), chunks');
            && o.Running? && o'.Running?
            && o.view.received == o'.view.received
            && o.view.fifo == o'.view.fifo
  {
    ServedRunIsParse(f, chunks);
    ServedRunIsParse(f, chunks');
  }
}
