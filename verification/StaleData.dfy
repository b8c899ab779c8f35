/** The dispatch loop as it is written, which hands data on for every connection, ready or not (client_service.cpp:236,
    outside the test at line 226): exactly when the connections get what they sent in spite of it. */
module StaleData {
  import opened Bytes
  import opened ByteCircularBuffers
  import opened Reframing
  import opened ChunkInvariance
  import opened Dispatch

  // ---------------------------------------------------------------- how much a connection has been handed

  /** The bytes that a delimiter has taken in; without one, the number of times the callback was called. */
  function Weight(e: Endpoint): nat {
    match e
    case Raw(_, received) => |received|
    case Framed(_, v) => |Flatten(v.received)| + |v.fifo|
  }

  /** What a chunk adds to that. */
  function Gain(e: Endpoint, chunk: seq<byte>): nat {
    match e
    case Raw(registered, _) => if registered then 1 else 0
    case Framed(_, _) => |chunk|
  }

  /** Whether anything comes of handing data to the connection. */
  predicate Heard(e: Endpoint) {
    e.Framed? || e.registered
  }

  predicate SameKind(e: Endpoint, e': Endpoint) {
    e.Framed? == e'.Framed? && (e.Raw? ==> e.registered == e'.registered)
  }

  lemma {:induction false} DrainWeight(m: Machine, v: View)
    requires ValidView(m, v)
    ensures var o := Drain(m, v);
            o.Running? ==> |Flatten(o.view.received)| + |o.view.fifo| == |Flatten(v.received)| + |v.fifo|
    decreases |v.fifo|
  {
    if !HeaderStraddles(m, v) && Flushable(m.framing, v.fifo) && 0 < HeadLength(m.framing, v.fifo) <= BUFFER_SIZE {
      var n := HeadLength(m.framing, v.fifo);
      var next := Deliver(m, v, n);
      FlattenSnoc(v.received, next.scratch[..n]);
      DrainWeight(m, next);
    }
  }

  /** Whatever a connection survives to be handed adds to its weight, and strictly so if it is heard. */
  lemma FeedWeight(e: Endpoint, chunk: seq<byte>)
    requires ValidEndpoint(e) && Feed(e, chunk).Some?
    ensures var r := Feed(e, chunk).value;
            && SameKind(e, r)
            && Weight(r) == Weight(e) + Gain(e, chunk)
            && (Heard(e) ==> Gain(e, chunk) > 0)
            && (!Heard(e) ==> r == e)
  {
    if e.Framed? {
      DrainWeight(e.machine, e.view.(fifo := e.view.fifo + chunk));
    }
  }

  function Gains(e: Endpoint, chunks: seq<seq<byte>>): nat {
    if chunks == [] then 0 else Gain(e, chunks[0]) + Gains(e, chunks[1..])
  }

  lemma {:induction false} GainsOfKind(e: Endpoint, e': Endpoint, chunks: seq<seq<byte>>)
    requires SameKind(e, e')
    ensures Gains(e, chunks) == Gains(e', chunks)
    decreases |chunks|
  {
    if chunks != [] {
      GainsOfKind(e, e', chunks[1..]);
    }
  }

  lemma {:induction false} GainsAreBytes(e: Endpoint, chunks: seq<seq<byte>>)
    requires e.Framed?
    ensures Gains(e, chunks) == |Flatten(chunks)|
    decreases |chunks|
  {
    if chunks != [] {
      GainsAreBytes(e, chunks[1..]);
    }
  }

  lemma {:induction false} ServeAloneWeight(e: Endpoint, chunks: seq<seq<byte>>)
    requires ValidEndpoint(e) && ServeAlone(e, chunks).Some?
    ensures Weight(ServeAlone(e, chunks).value) == Weight(e) + Gains(e, chunks)
    decreases |chunks|
  {
    if chunks != [] {
      FeedWeight(e, chunks[0]);
      ServeAloneWeight(Feed(e, chunks[0]).value, chunks[1..]);
      GainsOfKind(e, Feed(e, chunks[0]).value, chunks[1..]);
    }
  }

  // ---------------------------------------------------------------- rounds missed

  /** How often connection `i` was not ready. */
  function Missed(events: seq<Event>, i: nat): nat
    decreases |events|
  {
    if events == [] then 0
    else
      var others := Missed(events[1..], i);
      match events[0]
      case Round(inputs) => if i < |inputs| && inputs[i].None? then 1 + others else others
      case Join(_, _) => others
  }

  /** Connection `i` is ready in every round that it takes part in. */
  predicate ReadyThroughout(events: seq<Event>, i: nat) {
    forall r :: 0 <= r < |events| && events[r].Round? && i < |events[r].inputs| ==> events[r].inputs[i].Some?
  }

  /** And so is every connection that is heard. */
  predicate HeardReady(all: seq<Endpoint>, events: seq<Event>) {
    forall i :: 0 <= i < |all| && Heard(all[i]) ==> ReadyThroughout(events, i)
  }

  lemma {:induction false} NoneMissedIff(events: seq<Event>, i: nat)
    ensures Missed(events, i) == 0 <==> ReadyThroughout(events, i)
    decreases |events|
  {
    if events != [] {
      NoneMissedIff(events[1..], i);
      if ReadyThroughout(events, i) {
        ReadyTail(events, i);
      }
      if Missed(events, i) == 0 {
        forall r | 0 <= r < |events| && events[r].Round? && i < |events[r].inputs|
          ensures events[r].inputs[i].Some?
        {
          assert r > 0 ==> events[r] == events[1..][r - 1];
        }
      }
    }
  }

  // ---------------------------------------------------------------- the loop as written

  /** As written, a round hands every connection something: what it sent, if it is ready. */
  lemma FedAlways(inputs: seq<Option<seq<byte>>>, data: seq<byte>, len: nat, i: nat)
    requires Receivable(inputs) && len <= |data| == BUFFER_SIZE && i < |inputs|
    ensures var fed := Fed(Always, inputs, data, len)[i];
            fed.Some? && (inputs[i].Some? ==> fed == inputs[i])
  {
    FedAt(Always, inputs, |inputs|, i, data, len);
  }

  /** One round as written: the weight of connection `i` grows by its own chunk, or, if it was not ready, by
      somebody else's. */
  lemma AlwaysRoundWeight(es: seq<Endpoint>, inputs: seq<Option<seq<byte>>>, data: seq<byte>, len: nat, i: nat)
    requires ValidEndpoints(es) && Receivable(inputs) && |inputs| == |es| && len <= |data| == BUFFER_SIZE
    requires i < |es| && FeedAll(es, Fed(Always, inputs, data, len)).Some?
    ensures var next := FeedAll(es, Fed(Always, inputs, data, len)).value;
            && SameKind(es[i], next[i])
            && (inputs[i].Some? ==> Weight(next[i]) == Weight(es[i]) + Gain(es[i], inputs[i].value))
            && (inputs[i].None? ==> Weight(next[i]) >= Weight(es[i]) + if Heard(es[i]) then 1 else 0)
  {
    var fed := Fed(Always, inputs, data, len);
    FeedFirstAt(es, fed, |es|);
    FedAlways(inputs, data, len, i);
    FeedWeight(es[i], fed[i].value);
  }

  /** A whole run as written: each connection has at least what it sent, and one more for each round it missed. */
  lemma {:induction false} AlwaysWeight(es: seq<Endpoint>, events: seq<Event>, data: seq<byte>, len: nat, i: nat)
    requires ValidEndpoints(es) && Events(events, |es|) && len <= |data| == BUFFER_SIZE
    requires ServeBy(Always, es, events, data, len).Some? && i < |Everyone(es, events)|
    ensures var r, e := ServeBy(Always, es, events, data, len).value, Everyone(es, events)[i];
            && |r| == |Everyone(es, events)|
            && Weight(r[i]) >= Weight(e) + Gains(e, Own(events, i)) + if Heard(e) then Missed(events, i) else 0
    decreases |events|
  {
    if events != [] {
      match events[0]
      case Join(newcomer, unset) =>
        JoinEveryone(es, events);
        AlwaysWeight(es + [newcomer], events[1..], data, unset, i);
      case Round(inputs) =>
        var next := FeedAll(es, Fed(Always, inputs, data, len)).value;
        var (data', len') := ReceiveFirst(inputs, |es|, data, len);
        AlwaysWeight(next, events[1..], Overlay(data', 0, Zeros(len')), len', i);
        if i < |es| {
          AlwaysRoundWeight(es, inputs, data, len, i);
          GainsOfKind(es[i], next[i], Own(events[1..], i));
          OwnHead(es[i], events, i);
        }
    }
  }

  lemma OwnHead(e: Endpoint, events: seq<Event>, i: nat)
    requires events != [] && events[0].Round? && i < |events[0].inputs|
    ensures var input := events[0].inputs[i];
            Gains(e, Own(events, i)) ==
            Gains(e, Own(events[1..], i)) + if input.Some? then Gain(e, input.value) else 0
  {
    var input, others := events[0].inputs[i], Own(events[1..], i);
    if input.Some? {
      assert ([input.value] + others)[1..] == others;
    }
  }

  lemma {:induction false} FeedFirstSame(
    es: seq<Endpoint>, fed: seq<Option<seq<byte>>>, fed': seq<Option<seq<byte>>>, n: nat)
    requires ValidEndpoints(es) && n <= |fed| == |fed'| == |es|
    requires forall i :: 0 <= i < n ==> FeedMaybe(es[i], fed[i]) == FeedMaybe(es[i], fed'[i])
    ensures FeedFirst(es, fed, n) == FeedFirst(es, fed', n)
  {
    if n > 0 {
      FeedFirstSame(es, fed, fed', n - 1);
      FeedFirstAt(es, fed, n - 1);
    }
  }

  lemma ReadyRound(es: seq<Endpoint>, inputs: seq<Option<seq<byte>>>, data: seq<byte>, len: nat)
    requires ValidEndpoints(es) && Receivable(inputs) && |inputs| == |es| && len <= |data| == BUFFER_SIZE
    requires forall i :: 0 <= i < |es| && Heard(es[i]) ==> inputs[i].Some?
    ensures FeedAll(es, Fed(Always, inputs, data, len)) == FeedAll(es, inputs)
  {
    var fed := Fed(Always, inputs, data, len);
    forall i | 0 <= i < |es|
      ensures FeedMaybe(es[i], fed[i]) == FeedMaybe(es[i], inputs[i])
    {
      FedAlways(inputs, data, len, i);
    }
    FeedFirstSame(es, fed, inputs, |es|);
  }

  lemma ReadyTail(events: seq<Event>, i: nat)
    requires events != [] && ReadyThroughout(events, i)
    ensures ReadyThroughout(events[1..], i)
  {
    assert forall r :: 0 <= r < |events| - 1 ==> events[1..][r] == events[r + 1];
  }

  lemma RoundKinds(es: seq<Endpoint>, inputs: seq<Option<seq<byte>>>, next: seq<Endpoint>)
    requires ValidEndpoints(es) && |inputs| == |es| && FeedAll(es, inputs) == Some(next)
    ensures |next| == |es| && forall i :: 0 <= i < |es| ==> SameKind(es[i], next[i])
  {
    FeedFirstAt(es, inputs, |es|);
    forall i | 0 <= i < |es|
      ensures SameKind(es[i], next[i])
    {
      if inputs[i].Some? {
        FeedWeight(es[i], inputs[i].value);
      }
    }
  }

  lemma HeardReadyTail(es: seq<Endpoint>, next: seq<Endpoint>, newcomers: seq<Endpoint>, events: seq<Event>)
    requires events != [] && |next| == |es| && forall i :: 0 <= i < |es| ==> SameKind(es[i], next[i])
    requires HeardReady(es + newcomers, events)
    ensures HeardReady(next + newcomers, events[1..])
  {
    forall i | 0 <= i < |next + newcomers| && Heard((next + newcomers)[i])
      ensures ReadyThroughout(events[1..], i)
    {
      assert Heard((es + newcomers)[i]);
      ReadyTail(events, i);
    }
  }

  lemma KindsKept(es: seq<Endpoint>, events: seq<Event>)
    requires ValidEndpoints(es) && Events(events, |es|) && events != [] && events[0].Round?
    requires FeedAll(es, events[0].inputs).Some? && HeardReady(Everyone(es, events), events)
    ensures HeardReady(Everyone(FeedAll(es, events[0].inputs).value, events[1..]), events[1..])
  {
    var next := FeedAll(es, events[0].inputs).value;
    RoundKinds(es, events[0].inputs, next);
    HeardReadyTail(es, next, Newcomers(events[1..]), events);
  }

  lemma JoinReady(es: seq<Endpoint>, events: seq<Event>)
    requires ValidEndpoints(es) && Events(events, |es|) && events != [] && events[0].Join?
    requires HeardReady(Everyone(es, events), events)
    ensures HeardReady(Everyone(es + [events[0].newcomer], events[1..]), events[1..])
  {
    JoinEveryone(es, events);
    forall i | 0 <= i < |Everyone(es, events)| && Heard(Everyone(es, events)[i])
      ensures ReadyThroughout(events[1..], i)
    {
      ReadyTail(events, i);
    }
  }

  lemma {:induction false} ReadyServed(es: seq<Endpoint>, events: seq<Event>, data: seq<byte>, len: nat)
    requires ValidEndpoints(es) && Events(events, |es|) && len <= |data| == BUFFER_SIZE
    requires HeardReady(Everyone(es, events), events)
    ensures ServeBy(Always, es, events, data, len) == Serve(es, events)
    decreases |events|
  {
    if events != [] {
      match events[0]
      case Join(newcomer, unset) =>
        JoinReady(es, events);
        ReadyServed(es + [newcomer], events[1..], data, unset);
      case Round(inputs) =>
        var (data', len') := ReceiveFirst(inputs, |es|, data, len);
        forall i | 0 <= i < |es| && Heard(es[i])
          ensures inputs[i].Some?
        {
          assert Heard(Everyone(es, events)[i]);
          assert ReadyThroughout(events, i);
        }
        ReadyRound(es, inputs, data, len);
        if FeedAll(es, inputs).Some? {
          KindsKept(es, events);
          ReadyServed(FeedAll(es, inputs).value, events[1..], Overlay(data', 0, Zeros(len')), len');
        }
    }
  }

  /** The connections have been given as much, each of them. */
  ghost predicate WeighAlike(a: Option<seq<Endpoint>>, b: Option<seq<Endpoint>>) {
    && a.Some? && b.Some? && |a.value| == |b.value|
    && forall i :: 0 <= i < |b.value| ==> Weight(a.value[i]) == Weight(b.value[i])
  }

  lemma AlikeOnlyIfReady(es: seq<Endpoint>, events: seq<Event>, data: seq<byte>, len: nat)
    requires ValidEndpoints(es) && Events(events, |es|) && len <= |data| == BUFFER_SIZE
    requires WeighAlike(ServeBy(Always, es, events, data, len), Serve(es, events))
    ensures HeardReady(Everyone(es, events), events)
  {
    var all := Everyone(es, events);
    Isolation(es, events);
    forall i | 0 <= i < |all| && Heard(all[i])
      ensures ReadyThroughout(events, i)
    {
      ServeAloneWeight(all[i], Own(events, i));
      AlwaysWeight(es, events, data, len, i);
      NoneMissedIff(events, i);
    }
  }

  /** Main theorem. On every run that the connections would survive, the loop as written ends as the loop that hands
      on only when ready, in any respect down to the number of bytes, if and only if every connection that is heard
      is ready in every round it takes part in. */
  lemma AsWrittenServesIff(es: seq<Endpoint>, events: seq<Event>, data: seq<byte>, len: nat)
    requires ValidEndpoints(es) && Events(events, |es|) && len <= |data| == BUFFER_SIZE
    requires Serve(es, events).Some?
    ensures ServeBy(Always, es, events, data, len) == Serve(es, events) <==> HeardReady(Everyone(es, events), events)
    ensures WeighAlike(ServeBy(Always, es, events, data, len), Serve(es, events))
            <==> HeardReady(Everyone(es, events), events)
  {
    if HeardReady(Everyone(es, events), events) {
      ReadyServed(es, events, data, len);
    } else if WeighAlike(ServeBy(Always, es, events, data, len), Serve(es, events)) {
      AlikeOnlyIfReady(es, events, data, len);
    }
  }

  /** Main theorem. As written, what is delivered for each connection, and what waits, are the parse of the bytes that
      it sent, if and only if every connection is ready in every round it takes part in. */
  lemma AsWrittenReframesIff(framings: seq<Framing>, es: seq<Endpoint>, events: seq<Event>, data: seq<byte>, len: nat)
    requires AllServed(framings, es, events) && len <= |data| == BUFFER_SIZE
    ensures Reframed(framings, events, ServeBy(Always, es, events, data, len))
            <==> forall i :: 0 <= i < |framings| ==> ReadyThroughout(events, i)
  {
    var all := Everyone(es, events);
    if forall i :: 0 <= i < |framings| ==> ReadyThroughout(events, i) {
      ReadyServed(es, events, data, len);
      EveryClientReframed(framings, es, events, data, len);
      ServeByReady(es, events, data, len);
    } else if Reframed(framings, events, ServeBy(Always, es, events, data, len)) {
      forall i | 0 <= i < |framings|
        ensures ReadyThroughout(events, i)
      {
        assert all[i] == Framed(ServerMachine(framings[i]), Fresh());
        AlwaysWeight(es, events, data, len, i);
        GainsAreBytes(all[i], Own(events, i));
        ParseConserves(framings[i], Flatten(Own(events, i)));
        NoneMissedIff(events, i);
      }
    }
  }
}
