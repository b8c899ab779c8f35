/** What one round of the dispatch loop, and a whole run of it, does to the connections. */
module Dispatch {
  import opened Bytes
  import opened ByteCircularBuffers
  import opened Reframing
  import opened ChunkInvariance

  /** A connection: without a delimiter, or with one. Without one, what it is handed goes straight to the `received`
      callback, if the server has one registered. */
  datatype Endpoint = Raw(registered: bool, received: seq<seq<byte>>) | Framed(machine: Machine, view: View)

  predicate ValidEndpoint(e: Endpoint) {
    e.Framed? ==> ValidView(e.machine, e.view)
  }

  predicate ValidEndpoints(es: seq<Endpoint>) {
    forall i :: 0 <= i < |es| ==> ValidEndpoint(es[i])
  }

  /** Handing a chunk to a connection (client_service.cpp:236-240). `None`: the process does not survive it. */
  function Feed(e: Endpoint, chunk: seq<byte>): (r: Option<Endpoint>)
    requires ValidEndpoint(e)
    ensures r.Some? ==> ValidEndpoint(r.value)
  {
    match e
    case Raw(registered, received) => Some(if registered then Raw(registered, received + [chunk]) else e)
    case Framed(m, v) =>
      var o := Process(m, v, chunk);
      if o.Running? then Some(Framed(m, o.view)) else None
  }

  function FeedMaybe(e: Endpoint, chunk: Option<seq<byte>>): (r: Option<Endpoint>)
    requires ValidEndpoint(e)
    ensures r.Some? ==> ValidEndpoint(r.value)
  {
    if chunk.Some? then Feed(e, chunk.value) else Some(e)
  }

  /** The first `n` connections of a round: connection `i` is handed `fed[i]`, in the order of the list. */
  function FeedFirst(es: seq<Endpoint>, fed: seq<Option<seq<byte>>>, n: nat): (r: Option<seq<Endpoint>>)
    requires ValidEndpoints(es) && n <= |fed| == |es|
    ensures r.Some? ==> |r.value| == |es| && ValidEndpoints(r.value)
  {
    if n == 0 then Some(es)
    else
      var before := FeedFirst(es, fed, n - 1);
      if before.None? then None
      else
        var next := FeedMaybe(before.value[n - 1], fed[n - 1]);
        if next.None? then None else Some(before.value[n - 1 := next.value])
  }

  function FeedAll(es: seq<Endpoint>, fed: seq<Option<seq<byte>>>): (r: Option<seq<Endpoint>>)
    requires ValidEndpoints(es) && |fed| == |es|
    ensures r.Some? ==> |r.value| == |es| && ValidEndpoints(r.value)
  {
    FeedFirst(es, fed, |es|)
  }

  /** Each connection is handed its own chunk once, and the round survives while each of them does. */
  lemma {:induction false} FeedFirstAt(es: seq<Endpoint>, fed: seq<Option<seq<byte>>>, n: nat)
    requires ValidEndpoints(es) && n <= |fed| == |es|
    ensures FeedFirst(es, fed, n).Some? <==> forall i :: 0 <= i < n ==> FeedMaybe(es[i], fed[i]).Some?
    ensures FeedFirst(es, fed, n).Some? ==>
              forall i :: 0 <= i < |es| ==>
                Some(FeedFirst(es, fed, n).value[i]) == if i < n then FeedMaybe(es[i], fed[i]) else Some(es[i])
  {
    if n > 0 {
      FeedFirstAt(es, fed, n - 1);
    }
  }

  lemma {:induction false} FeedFirstDies(es: seq<Endpoint>, fed: seq<Option<seq<byte>>>, i: nat, n: nat)
    requires ValidEndpoints(es) && i <= n <= |fed| == |es| && FeedFirst(es, fed, i).None?
    ensures FeedFirst(es, fed, n).None?
    decreases n - i
  {
    if i < n {
      FeedFirstDies(es, fed, i + 1, n);
    }
  }

  /** When the loop body hands data on: `Always`, as written, for every connection (client_service.cpp:236, outside the
      test at line 226); `WhenReady`, for those that have just been read. */
  datatype Rule = Always | WhenReady

  /** recvfrom into the shared buffer, for a ready connection: the buffer, and the length of the last receive. */
  function Receive(input: Option<seq<byte>>, data: seq<byte>, len: nat): (r: (seq<byte>, nat))
    requires len <= |data| == BUFFER_SIZE && (input.Some? ==> |input.value| <= BUFFER_SIZE)
    ensures r.1 <= |r.0| == BUFFER_SIZE
    ensures input.Some? ==> r.0[..r.1] == input.value
  {
    if input.Some? then (Overlay(data, 0, input.value), |input.value|) else (data, len)
  }

  predicate Receivable(inputs: seq<Option<seq<byte>>>) {
    forall i :: 0 <= i < |inputs| && inputs[i].Some? ==> |inputs[i].value| <= BUFFER_SIZE
  }

  /** The buffer after the first `n` connections; `inputs[i]` is what connection `i` has to read, if it is ready. */
  function ReceiveFirst(inputs: seq<Option<seq<byte>>>, n: nat, data: seq<byte>, len: nat): (r: (seq<byte>, nat))
    requires Receivable(inputs) && n <= |inputs| && len <= |data| == BUFFER_SIZE
    ensures r.1 <= |r.0| == BUFFER_SIZE
  {
    if n == 0 then (data, len)
    else
      var (data', len') := ReceiveFirst(inputs, n - 1, data, len);
      Receive(inputs[n - 1], data', len')
  }

  /** What a round hands to connection `i`, from the buffer as the connections before it left it. */
  function Handed(rule: Rule, inputs: seq<Option<seq<byte>>>, i: nat, data: seq<byte>, len: nat): Option<seq<byte>>
    requires Receivable(inputs) && i < |inputs| && len <= |data| == BUFFER_SIZE
  {
    var (data', len') := ReceiveFirst(inputs, i + 1, data, len);
    if rule == Always || inputs[i].Some? then Some(data'[..len']) else None
  }

  function FedFirst(rule: Rule, inputs: seq<Option<seq<byte>>>, n: nat, data: seq<byte>, len: nat):
    (fed: seq<Option<seq<byte>>>)
    requires Receivable(inputs) && n <= |inputs| && len <= |data| == BUFFER_SIZE
    ensures |fed| == n
  {
    if n == 0 then [] else FedFirst(rule, inputs, n - 1, data, len) + [Handed(rule, inputs, n - 1, data, len)]
  }

  /** What a round hands to each connection. */
  function Fed(rule: Rule, inputs: seq<Option<seq<byte>>>, data: seq<byte>, len: nat): (fed: seq<Option<seq<byte>>>)
    requires Receivable(inputs) && len <= |data| == BUFFER_SIZE
    ensures |fed| == |inputs|
  {
    FedFirst(rule, inputs, |inputs|, data, len)
  }

  lemma {:induction false} FedAt(rule: Rule, inputs: seq<Option<seq<byte>>>, n: nat, i: nat, data: seq<byte>, len: nat)
    requires Receivable(inputs) && i < n <= |inputs| && len <= |data| == BUFFER_SIZE
    ensures FedFirst(rule, inputs, n, data, len)[i] == Handed(rule, inputs, i, data, len)
  {
    if i < n - 1 {
      FedAt(rule, inputs, n - 1, i, data, len);
    }
  }

  // ---------------------------------------------------------------- who is handed what

  /** Handed on when ready, each connection is handed what it sent, and nothing else. */
  lemma ReadyFedOwn(inputs: seq<Option<seq<byte>>>, data: seq<byte>, len: nat)
    requires Receivable(inputs) && len <= |data| == BUFFER_SIZE
    ensures Fed(WhenReady, inputs, data, len) == inputs
  {
    forall i | 0 <= i < |inputs|
      ensures Fed(WhenReady, inputs, data, len)[i] == inputs[i]
    {
      FedAt(WhenReady, inputs, |inputs|, i, data, len);
    }
  }

  /** Why: as written, a connection that is not ready is handed the bytes of the last ready one before it. */
  lemma {:induction false} StaleDataHandedOn(inputs: seq<Option<seq<byte>>>, data: seq<byte>, len: nat, i: nat, j: nat)
    requires Receivable(inputs) && len <= |data| == BUFFER_SIZE
    requires i <= j < |inputs| && inputs[i].Some? && forall k :: i < k <= j ==> inputs[k].None?
    ensures Handed(Always, inputs, j, data, len) == inputs[i]
    decreases j
  {
    if i < j {
      StaleDataHandedOn(inputs, data, len, i, j - 1);
    }
  }

  /** Before any connection of the round has been ready, it is the bytes of the last receive of an earlier one. */
  lemma {:induction false} NothingReceived(inputs: seq<Option<seq<byte>>>, n: nat, data: seq<byte>, len: nat)
    requires Receivable(inputs) && n <= |inputs| && len <= |data| == BUFFER_SIZE
    requires forall k :: 0 <= k < n ==> inputs[k].None?
    ensures ReceiveFirst(inputs, n, data, len) == (data, len)
  {
    if n > 0 {
      NothingReceived(inputs, n - 1, data, len);
    }
  }

  lemma EarlierDataHandedOn(inputs: seq<Option<seq<byte>>>, data: seq<byte>, len: nat, j: nat)
    requires Receivable(inputs) && len <= |data| == BUFFER_SIZE
    requires j < |inputs| && forall k :: 0 <= k <= j ==> inputs[k].None?
    ensures Fed(Always, inputs, data, len)[j] == Some(data[..len])
  {
    NothingReceived(inputs, j + 1, data, len);
    FedAt(Always, inputs, |inputs|, j, data, len);
  }

  /** The last ready connection of a round. */
  predicate LastReady(inputs: seq<Option<seq<byte>>>, i: nat) {
    i < |inputs| && inputs[i].Some? && forall k :: i < k < |inputs| ==> inputs[k].None?
  }

  /** After a round the buffer begins with what the last ready connection sent; if there is none, nothing changes. */
  lemma {:induction false} LastReceived(inputs: seq<Option<seq<byte>>>, n: nat, data: seq<byte>, len: nat, i: nat)
    requires Receivable(inputs) && n <= |inputs| && len <= |data| == BUFFER_SIZE
    requires i < n && inputs[i].Some? && forall k :: i < k < n ==> inputs[k].None?
    ensures var (data', len') := ReceiveFirst(inputs, n, data, len); data'[..len'] == inputs[i].value
    decreases n
  {
    if i < n - 1 {
      LastReceived(inputs, n - 1, data, len, i);
    }
  }

  lemma BufferOfRound(inputs: seq<Option<seq<byte>>>, data: seq<byte>, len: nat)
    requires Receivable(inputs) && len <= |data| == BUFFER_SIZE
    ensures var (data', len') := ReceiveFirst(inputs, |inputs|, data, len);
            && (forall i: nat :: LastReady(inputs, i) ==> data'[..len'] == inputs[i].value)
            && ((forall i :: 0 <= i < |inputs| ==> inputs[i].None?) ==> data' == data && len' == len)
  {
    forall i: nat | LastReady(inputs, i)
      ensures var (data', len') := ReceiveFirst(inputs, |inputs|, data, len); data'[..len'] == inputs[i].value
    {
      LastReceived(inputs, |inputs|, data, len, i);
    }
    if forall i :: 0 <= i < |inputs| ==> inputs[i].None? {
      NothingReceived(inputs, |inputs|, data, len);
    }
  }

  // ---------------------------------------------------------------- whole runs

  /** What happens to the service: a round of its loop, or a new connection, which gives it a new thread, in which
      the length of the last receive has not been set yet and holds `unset`. */
  datatype Event = Round(inputs: seq<Option<seq<byte>>>) | Join(newcomer: Endpoint, unset: nat)

  /** A run that starts with `n` connections. */
  predicate Events(events: seq<Event>, n: nat)
    decreases |events|
  {
    events == [] ||
    match events[0]
    case Round(inputs) => |inputs| == n && Receivable(inputs) && Events(events[1..], n)
    case Join(newcomer, unset) => ValidEndpoint(newcomer) && unset <= BUFFER_SIZE && Events(events[1..], n + 1)
  }

  /** The loop, handing on when ready. */
  function Serve(es: seq<Endpoint>, events: seq<Event>): (r: Option<seq<Endpoint>>)
    requires ValidEndpoints(es) && Events(events, |es|)
    ensures r.Some? ==> ValidEndpoints(r.value)
    decreases |events|
  {
    if events == [] then Some(es)
    else
      match events[0]
      case Join(newcomer, _) => Serve(es + [newcomer], events[1..])
      case Round(inputs) =>
        var next := FeedAll(es, inputs);
        if next.None? then None else Serve(next.value, events[1..])
  }

  /** The loop under either rule, from a given buffer; it clears what it last received after every round
      (client_service.cpp:242). */
  function ServeBy(rule: Rule, es: seq<Endpoint>, events: seq<Event>, data: seq<byte>, len: nat):
    (r: Option<seq<Endpoint>>)
    requires ValidEndpoints(es) && Events(events, |es|) && len <= |data| == BUFFER_SIZE
    ensures r.Some? ==> ValidEndpoints(r.value)
    decreases |events|
  {
    if events == [] then Some(es)
    else
      match events[0]
      case Join(newcomer, unset) => ServeBy(rule, es + [newcomer], events[1..], data, unset)
      case Round(inputs) =>
        var next := FeedAll(es, Fed(rule, inputs, data, len));
        var (data', len') := ReceiveFirst(inputs, |es|, data, len);
        if next.None? then None else ServeBy(rule, next.value, events[1..], Overlay(data', 0, Zeros(len')), len')
  }

  /** Handing on `chunk` either succeeds or fails the write assertion; the delimiter neither spins nor overruns. */
  predicate Defined(e: Endpoint, chunk: seq<byte>)
    requires ValidEndpoint(e)
  {
    e.Framed? ==> Process(e.machine, e.view, chunk) !in {Spins, Overruns, Indeterminate}
  }

  predicate AllDefined(es: seq<Endpoint>, fed: seq<Option<seq<byte>>>)
    requires ValidEndpoints(es) && |fed| == |es|
  {
    forall i :: 0 <= i < |es| && fed[i].Some? ==> Defined(es[i], fed[i].value)
  }

  /** Every round of a run stays inside defined behaviour. */
  predicate RunDefined(rule: Rule, es: seq<Endpoint>, events: seq<Event>, data: seq<byte>, len: nat)
    requires ValidEndpoints(es) && Events(events, |es|) && len <= |data| == BUFFER_SIZE
    decreases |events|
  {
    events == [] ||
    match events[0]
    case Join(newcomer, unset) => RunDefined(rule, es + [newcomer], events[1..], data, unset)
    case Round(inputs) =>
      var fed := Fed(rule, inputs, data, len);
      var next := FeedAll(es, fed);
      var (data', len') := ReceiveFirst(inputs, |es|, data, len);
      && AllDefined(es, fed)
      && (next.Some? ==> RunDefined(rule, next.value, events[1..], Overlay(data', 0, Zeros(len')), len'))
  }

  /** One turn of the loop over the connections: the buffer, and the connections so far, from those before. */
  lemma RoundStep(
    rule: Rule, es: seq<Endpoint>, inputs: seq<Option<seq<byte>>>, data: seq<byte>, len: nat, i: nat,
    now: seq<Endpoint>, data': seq<byte>, len': nat)
    requires ValidEndpoints(es) && Receivable(inputs) && i < |inputs| == |es| && len <= |data| == BUFFER_SIZE
    requires AllDefined(es, Fed(rule, inputs, data, len))
    requires FeedFirst(es, Fed(rule, inputs, data, len), i) == Some(now)
    requires (data', len') == ReceiveFirst(inputs, i, data, len)
    ensures var fed, (bytes, n) := Fed(rule, inputs, data, len), Receive(inputs[i], data', len');
            var handed := if rule == Always || inputs[i].Some? then Some(bytes[..n]) else None;
            var next := FeedMaybe(now[i], handed);
            && (bytes, n) == ReceiveFirst(inputs, i + 1, data, len)
            && (handed.Some? ==> Defined(now[i], handed.value))
            && (next.Some? ==> FeedFirst(es, fed, i + 1) == Some(now[i := next.value]))
            && (next.None? ==> FeedAll(es, fed).None?)
  {
    var fed := Fed(rule, inputs, data, len);
    FedAt(rule, inputs, |inputs|, i, data, len);
    FeedFirstAt(es, fed, i);
    if FeedMaybe(now[i], fed[i]).None? {
      FeedFirstDies(es, fed, i + 1, |es|);
    }
  }

  lemma {:induction false} SurvivorsDefined(rule: Rule, es: seq<Endpoint>, events: seq<Event>, data: seq<byte>, len: nat)
    requires ValidEndpoints(es) && Events(events, |es|) && len <= |data| == BUFFER_SIZE
    requires ServeBy(rule, es, events, data, len).Some?
    ensures RunDefined(rule, es, events, data, len)
    decreases |events|
  {
    if events != [] {
      match events[0]
      case Join(newcomer, unset) =>
        SurvivorsDefined(rule, es + [newcomer], events[1..], data, unset);
      case Round(inputs) =>
        var fed := Fed(rule, inputs, data, len);
        FeedFirstAt(es, fed, |es|);
        var (data', len') := ReceiveFirst(inputs, |es|, data, len);
        SurvivorsDefined(rule, FeedAll(es, fed).value, events[1..], Overlay(data', 0, Zeros(len')), len');
    }
  }

  /** Handed on when ready, the buffer makes no difference. */
  lemma {:induction false} ServeByReady(es: seq<Endpoint>, events: seq<Event>, data: seq<byte>, len: nat)
    requires ValidEndpoints(es) && Events(events, |es|) && len <= |data| == BUFFER_SIZE
    ensures ServeBy(WhenReady, es, events, data, len) == Serve(es, events)
    decreases |events|
  {
    if events != [] {
      match events[0]
      case Join(newcomer, unset) =>
        ServeByReady(es + [newcomer], events[1..], data, unset);
      case Round(inputs) =>
        ReadyFedOwn(inputs, data, len);
        var (data', len') := ReceiveFirst(inputs, |es|, data, len);
        if FeedAll(es, inputs).Some? {
          ServeByReady(FeedAll(es, inputs).value, events[1..], Overlay(data', 0, Zeros(len')), len');
        }
    }
  }

  // ---------------------------------------------------------------- the buffer from round to round

  /** The buffer after a run. */
  function BufferAfter(events: seq<Event>, n: nat, data: seq<byte>, len: nat): (r: (seq<byte>, nat))
    requires Events(events, n) && len <= |data| == BUFFER_SIZE
    ensures r.1 <= |r.0| == BUFFER_SIZE
    decreases |events|
  {
    if events == [] then (data, len)
    else
      match events[0]
      case Join(_, unset) => BufferAfter(events[1..], n + 1, data, unset)
      case Round(inputs) =>
        var (data', len') := ReceiveFirst(inputs, n, data, len);
        BufferAfter(events[1..], n, Overlay(data', 0, Zeros(len')), len')
  }

  /** A run can be stopped anywhere and taken up again from its connections and its buffer. */
  lemma {:induction false} ServeByAppend(
    rule: Rule, es: seq<Endpoint>, a: seq<Event>, b: seq<Event>, data: seq<byte>, len: nat)
    requires ValidEndpoints(es) && Events(a, |es|) && Events(a + b, |es|) && len <= |data| == BUFFER_SIZE
    ensures var r, (data', len') := ServeBy(rule, es, a, data, len), BufferAfter(a, |es|, data, len);
            r.Some? ==>
              Events(b, |r.value|) && ServeBy(rule, es, a + b, data, len) == ServeBy(rule, r.value, b, data', len')
    decreases |a|
  {
    if a == [] {
      EmptyUnit(b);
    } else {
      assert (a + b)[0] == a[0] && (a + b)[1..] == a[1..] + b;
      match a[0]
      case Join(newcomer, unset) =>
        ServeByAppend(rule, es + [newcomer], a[1..], b, data, unset);
      case Round(inputs) =>
        var next := FeedAll(es, Fed(rule, inputs, data, len));
        var (data', len') := ReceiveFirst(inputs, |es|, data, len);
        if next.Some? {
          ServeByAppend(rule, next.value, a[1..], b, Overlay(data', 0, Zeros(len')), len');
        }
    }
  }

  lemma {:induction false} EventsPrefix(a: seq<Event>, b: seq<Event>, n: nat)
    requires Events(a + b, n)
    ensures Events(a, n)
    decreases |a|
  {
    if a != [] {
      assert (a + b)[0] == a[0] && (a + b)[1..] == a[1..] + b;
      EventsPrefix(a[1..], b, if a[0].Join? then n + 1 else n);
    }
  }

  lemma OneRound(rule: Rule, es: seq<Endpoint>, inputs: seq<Option<seq<byte>>>, data: seq<byte>, len: nat)
    requires ValidEndpoints(es) && |inputs| == |es| && Receivable(inputs) && len <= |data| == BUFFER_SIZE
    ensures Events([Round(inputs)], |es|)
    ensures ServeBy(rule, es, [Round(inputs)], data, len) == FeedAll(es, Fed(rule, inputs, data, len))
    ensures var (data', len') := ReceiveFirst(inputs, |es|, data, len);
            BufferAfter([Round(inputs)], |es|, data, len) == (Overlay(data', 0, Zeros(len')), len')
  {
    assert [Round(inputs)][1..] == [];
  }

  lemma ClearedBuffer(data: seq<byte>, len: nat)
    requires len <= |data|
    ensures Overlay(data, 0, Zeros(len))[..len] == Zeros(len)
  {
  }

  /** Two rounds in a row, from any buffer. */
  lemma SecondRound(
    es: seq<Endpoint>, first: seq<Option<seq<byte>>>, second: seq<Option<seq<byte>>>,
    data: seq<byte>, len: nat, i: nat, j: nat)
    requires ValidEndpoints(es) && |first| == |second| == |es| && Receivable(first) && Receivable(second)
    requires len <= |data| == BUFFER_SIZE
    requires LastReady(first, i) && j < |second| && forall k :: 0 <= k <= j ==> second[k].None?
    ensures Events([Round(first)], |es|) && Events([Round(second)], |es|)
    ensures var (data', len') := BufferAfter([Round(first)], |es|, data, len);
            var r := ServeBy(Always, es, [Round(second)], data', len');
            r.Some? ==> |r.value| == |es| && Feed(es[j], Zeros(|first[i].value|)) == Some(r.value[j])
  {
    OneRound(Always, es, first, data, len);
    LastReceived(first, |first|, data, len, i);
    var (data0, len0) := ReceiveFirst(first, |es|, data, len);
    var (data', len') := BufferAfter([Round(first)], |es|, data, len);
    assert len0 == |data0[..len0]| == |first[i].value|;
    ClearedBuffer(data0, len0);
    OneRound(Always, es, second, data', len');
    EarlierDataHandedOn(second, data', len', j);
    if FeedAll(es, Fed(Always, second, data', len')).Some? {
      FeedFirstAt(es, Fed(Always, second, data', len'), |es|);
    }
  }

  lemma {:induction false} BufferAppend(a: seq<Event>, b: seq<Event>, n: nat, n': nat, data: seq<byte>, len: nat)
    requires Events(a, n) && Events(a + b, n) && Events(b, n') && n' == n + |Newcomers(a)|
    requires len <= |data| == BUFFER_SIZE
    ensures var (data', len') := BufferAfter(a, n, data, len);
            BufferAfter(a + b, n, data, len) == BufferAfter(b, n', data', len')
    decreases |a|
  {
    if a == [] {
      EmptyUnit(b);
    } else {
      assert (a + b)[0] == a[0] && (a + b)[1..] == a[1..] + b;
      match a[0]
      case Join(_, unset) =>
        BufferAppend(a[1..], b, n + 1, n', data, unset);
      case Round(inputs) =>
        var (data', len') := ReceiveFirst(inputs, n, data, len);
        BufferAppend(a[1..], b, n, n', Overlay(data', 0, Zeros(len')), len');
    }
  }

  /** As written, a connection that is not ready, with none ready before it in the round, is handed as many zeros as
      the last receive of the round before had bytes: after any run, whatever the connection. */
  lemma ZerosHandedOn(
    es: seq<Endpoint>, events: seq<Event>, first: seq<Option<seq<byte>>>, second: seq<Option<seq<byte>>>,
    data: seq<byte>, len: nat, i: nat, j: nat)
    requires ValidEndpoints(es) && len <= |data| == BUFFER_SIZE
    requires Events(events + [Round(first)], |es|) && Events(events + [Round(first)] + [Round(second)], |es|)
    requires ServeBy(Always, es, events + [Round(first)] + [Round(second)], data, len).Some?
    requires LastReady(first, i)
    requires j < |second| && forall k :: 0 <= k <= j ==> second[k].None?
    ensures var before := ServeBy(Always, es, events + [Round(first)], data, len);
            var after := ServeBy(Always, es, events + [Round(first)] + [Round(second)], data, len);
            && before.Some? && |before.value| == |after.value| == |second|
            && Feed(before.value[j], Zeros(|first[i].value|)) == Some(after.value[j])
  {
    var one, two := [Round(first)], [Round(second)];
    EventsPrefix(events, one, |es|);
    SurvivesPrefix(Always, es, events + one, two, data, len);
    SurvivesPrefix(Always, es, events, one, data, len);
    var mid := ServeBy(Always, es, events, data, len).value;
    var (data0, len0) := BufferAfter(events, |es|, data, len);
    ServeByAppend(Always, es, events, one, data, len);
    ServeByAppend(Always, es, events + one, two, data, len);
    var before := ServeBy(Always, es, events + one, data, len).value;
    RoundWidths(mid, before, first, second, data0, len0);
    WidthAfter(Always, es, events, data, len);
    BufferAppend(events, one, |es|, |mid|, data, len);
    SecondRound(before, first, second, data0, len0, i, j);
  }

  lemma RoundWidths(
    mid: seq<Endpoint>, before: seq<Endpoint>, first: seq<Option<seq<byte>>>, second: seq<Option<seq<byte>>>,
    data: seq<byte>, len: nat)
    requires ValidEndpoints(mid) && Events([Round(first)], |mid|) && len <= |data| == BUFFER_SIZE
    requires ServeBy(Always, mid, [Round(first)], data, len) == Some(before) && Events([Round(second)], |before|)
    ensures |mid| == |before| == |first| == |second| && Receivable(first) && Receivable(second)
  {
    OneRound(Always, mid, first, data, len);
  }

  lemma {:induction false} WidthAfter(rule: Rule, es: seq<Endpoint>, events: seq<Event>, data: seq<byte>, len: nat)
    requires ValidEndpoints(es) && Events(events, |es|) && len <= |data| == BUFFER_SIZE
    ensures var r := ServeBy(rule, es, events, data, len);
            r.Some? ==> |r.value| == |es| + |Newcomers(events)|
    decreases |events|
  {
    if events != [] {
      match events[0]
      case Join(newcomer, unset) =>
        WidthAfter(rule, es + [newcomer], events[1..], data, unset);
      case Round(inputs) =>
        var (data', len') := ReceiveFirst(inputs, |es|, data, len);
        var next := FeedAll(es, Fed(rule, inputs, data, len));
        if next.Some? {
          WidthAfter(rule, next.value, events[1..], Overlay(data', 0, Zeros(len')), len');
        }
    }
  }

  lemma {:induction false} SurvivesPrefix(
    rule: Rule, es: seq<Endpoint>, a: seq<Event>, b: seq<Event>, data: seq<byte>, len: nat)
    requires ValidEndpoints(es) && Events(a, |es|) && Events(a + b, |es|) && len <= |data| == BUFFER_SIZE
    requires ServeBy(rule, es, a + b, data, len).Some?
    ensures ServeBy(rule, es, a, data, len).Some?
    decreases |a|
  {
    if a != [] {
      assert (a + b)[0] == a[0] && (a + b)[1..] == a[1..] + b;
      match a[0]
      case Join(newcomer, unset) =>
        SurvivesPrefix(rule, es + [newcomer], a[1..], b, data, unset);
      case Round(inputs) =>
        var (data', len') := ReceiveFirst(inputs, |es|, data, len);
        var next := FeedAll(es, Fed(rule, inputs, data, len)).value;
        SurvivesPrefix(rule, next, a[1..], b, Overlay(data', 0, Zeros(len')), len');
    }
  }

  // ---------------------------------------------------------------- isolation

  /** The connections that join, in order. */
  function Newcomers(events: seq<Event>): seq<Endpoint>
    decreases |events|
  {
    if events == [] then []
    else
      match events[0]
      case Join(newcomer, _) => [newcomer] + Newcomers(events[1..])
      case Round(_) => Newcomers(events[1..])
  }

  lemma {:induction false} NewcomersValid(events: seq<Event>, n: nat)
    requires Events(events, n)
    ensures ValidEndpoints(Newcomers(events))
    decreases |events|
  {
    if events != [] {
      NewcomersValid(events[1..], if events[0].Join? then n + 1 else n);
    }
  }

  /** All connections of a run, in the state in which each of them begins. */
  function Everyone(es: seq<Endpoint>, events: seq<Event>): (all: seq<Endpoint>)
    requires ValidEndpoints(es) && Events(events, |es|)
    ensures ValidEndpoints(all) && |all| >= |es|
  {
    NewcomersValid(events, |es|);
    es + Newcomers(events)
  }

  /** The chunks that connection `i` sends in the course of a run. */
  function Own(events: seq<Event>, i: nat): seq<seq<byte>>
    decreases |events|
  {
    if events == [] then []
    else
      var others := Own(events[1..], i);
      match events[0]
      case Round(inputs) => if i < |inputs| && inputs[i].Some? then [inputs[i].value] + others else others
      case Join(_, _) => others
  }

  /** A connection that is served alone. */
  function ServeAlone(e: Endpoint, chunks: seq<seq<byte>>): (r: Option<Endpoint>)
    requires ValidEndpoint(e)
    ensures r.Some? ==> ValidEndpoint(r.value)
    decreases |chunks|
  {
    if chunks == [] then Some(e)
    else
      var next := Feed(e, chunks[0]);
      if next.None? then None else ServeAlone(next.value, chunks[1..])
  }

  /** The result of a run, connection by connection. */
  ghost predicate EachAlone(all: seq<Endpoint>, events: seq<Event>, r: Option<seq<Endpoint>>)
    requires ValidEndpoints(all)
  {
    && (r.Some? <==> forall i :: 0 <= i < |all| ==> ServeAlone(all[i], Own(events, i)).Some?)
    && (r.Some? ==>
          && |r.value| == |all|
          && forall i :: 0 <= i < |all| ==> ServeAlone(all[i], Own(events, i)) == Some(r.value[i]))
  }

  lemma JoinEveryone(es: seq<Endpoint>, events: seq<Event>)
    requires ValidEndpoints(es) && Events(events, |es|) && events != [] && events[0].Join?
    ensures Everyone(es, events) == Everyone(es + [events[0].newcomer], events[1..])
  {
    Assoc(es, [events[0].newcomer], Newcomers(events[1..]));
  }

  /** What connection `i` sends begins with what it has to read in the first round, if it is in that round. */
  lemma AloneStep(e: Endpoint, events: seq<Event>, i: nat)
    requires ValidEndpoint(e) && events != [] && events[0].Round?
    ensures var inputs := events[0].inputs;
            var head := if i < |inputs| then FeedMaybe(e, inputs[i]) else Some(e);
            ServeAlone(e, Own(events, i)) ==
            if head.None? then None else ServeAlone(head.value, Own(events[1..], i))
  {
    var inputs, others := events[0].inputs, Own(events[1..], i);
    if i < |inputs| && inputs[i].Some? {
      assert ([inputs[i].value] + others)[1..] == others;
    }
  }

  lemma AloneThroughRound(es: seq<Endpoint>, events: seq<Event>)
    requires ValidEndpoints(es) && Events(events, |es|) && events != [] && events[0].Round?
    requires FeedAll(es, events[0].inputs).Some?
    ensures var all := Everyone(es, events);
            var all' := Everyone(FeedAll(es, events[0].inputs).value, events[1..]);
            && |all'| == |all|
            && forall i :: 0 <= i < |all| ==>
                 ServeAlone(all[i], Own(events, i)) == ServeAlone(all'[i], Own(events[1..], i))
  {
    var all := Everyone(es, events);
    var all' := Everyone(FeedAll(es, events[0].inputs).value, events[1..]);
    FeedFirstAt(es, events[0].inputs, |es|);
    forall i | 0 <= i < |all|
      ensures ServeAlone(all[i], Own(events, i)) == ServeAlone(all'[i], Own(events[1..], i))
    {
      AloneStep(all[i], events, i);
    }
  }

  lemma AloneDies(es: seq<Endpoint>, events: seq<Event>) returns (i: nat)
    requires ValidEndpoints(es) && Events(events, |es|) && events != [] && events[0].Round?
    requires FeedAll(es, events[0].inputs).None?
    ensures i < |Everyone(es, events)| && ServeAlone(Everyone(es, events)[i], Own(events, i)).None?
  {
    FeedFirstAt(es, events[0].inputs, |es|);
    i :| 0 <= i < |es| && FeedMaybe(es[i], events[0].inputs[i]).None?;
    AloneStep(Everyone(es, events)[i], events, i);
  }

  /** Isolation: the loop serves every connection as if it were the only one, from when it joins, whatever the others
      do, in every interleaving; and it survives if and only if each of them alone would. */
  lemma {:induction false} Isolation(es: seq<Endpoint>, events: seq<Event>)
    requires ValidEndpoints(es) && Events(events, |es|)
    ensures EachAlone(Everyone(es, events), events, Serve(es, events))
    decreases |events|
  {
    if events == [] {
      EmptyUnit(es);
    } else if events[0].Join? {
      Isolation(es + [events[0].newcomer], events[1..]);
      JoinEveryone(es, events);
    } else if FeedAll(es, events[0].inputs).Some? {
      AloneThroughRound(es, events);
      Isolation(FeedAll(es, events[0].inputs).value, events[1..]);
    } else {
      var i := AloneDies(es, events);
    }
  }

  lemma {:induction false} ServeAloneIsRun(m: Machine, v: View, chunks: seq<seq<byte>>)
    requires ValidView(m, v)
    ensures var o := Run(m, v, chunks);
            ServeAlone(Framed(m, v), chunks) == if o.Running? then Some(Framed(m, o.view)) else None
    decreases |chunks|
  {
    if chunks != [] && Process(m, v, chunks[0]).Running? {
      ServeAloneIsRun(m, Process(m, v, chunks[0]).view, chunks[1..]);
    }
  }

  // ---------------------------------------------------------------- what is delivered

  /** A connection without a delimiter that is served alone: the callback, if there is one, gets every chunk as it is. */
  lemma {:induction false} RawAlone(registered: bool, received: seq<seq<byte>>, chunks: seq<seq<byte>>)
    ensures ServeAlone(Raw(registered, received), chunks)
            == Some(Raw(registered, received + if registered then chunks else []))
    decreases |chunks|
  {
    EmptyUnit(received);
    if chunks != [] {
      RawAlone(registered, if registered then received + [chunks[0]] else received, chunks[1..]);
      Assoc(received, [chunks[0]], chunks[1..]);
      assert chunks == [chunks[0]] + chunks[1..];
    }
  }

  /** Main theorem. In any run that hands on when ready, what is delivered for a connection without a delimiter is
      exactly the chunks that it sent, in order, whatever the others do. */
  lemma RawGetsOwn(es: seq<Endpoint>, events: seq<Event>, data: seq<byte>, len: nat, i: nat)
    requires ValidEndpoints(es) && Events(events, |es|) && len <= |data| == BUFFER_SIZE
    requires i < |Everyone(es, events)| && Everyone(es, events)[i].Raw?
    requires ServeBy(WhenReady, es, events, data, len).Some?
    ensures var r, e := ServeBy(WhenReady, es, events, data, len).value, Everyone(es, events)[i];
            && |r| == |Everyone(es, events)|
            && r[i] == Raw(e.registered, e.received + if e.registered then Own(events, i) else [])
  {
    var e := Everyone(es, events)[i];
    ServeByReady(es, events, data, len);
    Isolation(es, events);
    RawAlone(e.registered, e.received, Own(events, i));
  }

  function NewEndpoints(framings: seq<Framing>): (es: seq<Endpoint>)
    ensures |es| == |framings| && ValidEndpoints(es)
  {
    seq(|framings|, i requires 0 <= i < |framings| => Framed(ServerMachine(framings[i]), Fresh()))
  }

  /** A run in which every connection begins with a new delimiter and sends a legal stream. */
  ghost predicate AllServed(framings: seq<Framing>, es: seq<Endpoint>, events: seq<Event>) {
    && ValidEndpoints(es) && Events(events, |es|)
    && Everyone(es, events) == NewEndpoints(framings)
    && forall i :: 0 <= i < |framings| ==> Served(framings[i], Own(events, i))
  }

  /** Connection by connection, what was delivered and what waits are the parse of what that connection sent. */
  ghost predicate Reframed(framings: seq<Framing>, events: seq<Event>, r: Option<seq<Endpoint>>) {
    && r.Some? && |r.value| == |framings|
    && forall i :: 0 <= i < |framings| ==>
         && r.value[i].Framed?
         && r.value[i].view.received == Parse(framings[i], Flatten(Own(events, i))).messages
         && r.value[i].view.fifo == Parse(framings[i], Flatten(Own(events, i))).rest
  }

  lemma NewEndpointServed(f: Framing, chunks: seq<seq<byte>>)
    requires Served(f, chunks)
    ensures var e := ServeAlone(Framed(ServerMachine(f), Fresh()), chunks);
            && e.Some? && e.value.Framed?
            && e.value.view.received == Parse(f, Flatten(chunks)).messages
            && e.value.view.fifo == Parse(f, Flatten(chunks)).rest
  {
    ServedRunIsParse(f, chunks);
    ServeAloneIsRun(ServerMachine(f), Fresh(), chunks);
  }

  /** Main theorem. Any number of connections, in any interleaving of rounds, and joining at any time: handing on when
      ready, the server survives, and what is delivered for each is the parse of the bytes which it sent. */
  lemma EveryClientReframed(framings: seq<Framing>, es: seq<Endpoint>, events: seq<Event>, data: seq<byte>, len: nat)
    requires AllServed(framings, es, events) && len <= |data| == BUFFER_SIZE
    ensures RunDefined(WhenReady, es, events, data, len)
    ensures Reframed(framings, events, ServeBy(WhenReady, es, events, data, len))
  {
    var all := Everyone(es, events);
    forall i | 0 <= i < |framings|
      ensures var e := ServeAlone(all[i], Own(events, i));
              && e.Some? && e.value.Framed?
              && e.value.view.received == Parse(framings[i], Flatten(Own(events, i))).messages
              && e.value.view.fifo == Parse(framings[i], Flatten(Own(events, i))).rest
    {
      assert all[i] == Framed(ServerMachine(framings[i]), Fresh());
      NewEndpointServed(framings[i], Own(events, i));
    }
    Isolation(es, events);
    ServeByReady(es, events, data, len);
    SurvivorsDefined(WhenReady, es, events, data, len);
  }
}
