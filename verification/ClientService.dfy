/** The service thread of client_service.cpp: its dispatch loop over the connections and its shared receive buffer. */
module ClientServices {
  import opened Bytes
  import opened Reframing
  import opened Dispatch
  import opened MsgDelimiters

  class ClientService {
    const rule: Rule
    const data: array<byte>
    var dataLen: int
    var clients: seq<TcpClient>
    var entered: bool  // whether the current thread has run its entry

    /** `dataLen` is a local of the thread, which nothing sets before the first receive. */
    constructor (rule: Rule)
      ensures Valid() && clients == [] && !entered && this.rule == rule && fresh(data)
    {
      this.rule := rule;
      data := new byte[BUFFER_SIZE](i => 0);
      var unset :| 0 <= unset <= BUFFER_SIZE;
      dataLen := unset;
      clients, entered := [], false;
    }

    ghost function Parts(): set<object>
      reads this
    {
      set c, o | c in clients && o in c.Repr() :: o
    }

    /** The connections and their delimiters share nothing with each other or with the service. */
    ghost predicate Separate()
      reads this
    {
      && data.Length == BUFFER_SIZE
      && (forall i :: 0 <= i < |clients| ==> this !in clients[i].Repr() && data !in clients[i].Repr())
      && (forall i, j :: 0 <= i < j < |clients| ==> clients[i].Repr() !! clients[j].Repr())
    }

    ghost predicate Valid()
      reads this, Parts()
    {
      && Separate() && 0 <= dataLen <= BUFFER_SIZE
      && forall i :: 0 <= i < |clients| ==> clients[i].Valid()
    }

    ghost predicate InStates(es: seq<Endpoint>)
      requires Valid()
      reads this, Parts()
    {
      |es| == |clients| && ValidEndpoints(es) && forall i :: 0 <= i < |clients| ==> clients[i].State() == es[i]
    }

    method AddClient(client: TcpClient)
      modifies this`clients
      ensures clients == old(clients) + [client]
      ensures old(Valid()) && client.Valid() && client.Repr() !! old(Parts()) + {this, data} ==> Valid()
      ensures old(Valid()) && Valid() && client.Valid() ==>
                forall es :: old(InStates(es)) && ValidEndpoint(client.State()) ==> InStates(es + [client.State()])
    {
      clients := clients + [client];
    }

    /** Stops the thread, adds the connection, and starts a new thread, with a `dataLen` of its own. */
    method Listen(client: TcpClient)
      modifies this`clients, this`entered, this`dataLen
      ensures clients == old(clients) + [client] && !entered && 0 <= dataLen <= BUFFER_SIZE
      ensures old(Valid()) && client.Valid() && client.Repr() !! old(Parts()) + {this, data} ==> Valid()
      ensures old(Valid()) && Valid() && client.Valid() ==>
                forall es :: old(InStates(es)) && ValidEndpoint(client.State()) ==> InStates(es + [client.State()])
    {
      AddClient(client);
      StartThread();
    }

    /** A new thread: it has yet to enter, and its `dataLen` has not been set. */
    method StartThread()
      modifies this`entered, this`dataLen
      ensures !entered && 0 <= dataLen <= BUFFER_SIZE
      ensures old(Valid()) ==> Valid() && forall es :: old(InStates(es)) ==> InStates(es)
    {
      var unset :| 0 <= unset <= BUFFER_SIZE;
      dataLen, entered := unset, false;
    }

    /** client_service.cpp:226-228. */
    method ReceiveInto(input: Option<seq<byte>>)
      requires Valid() && (input.Some? ==> |input.value| <= BUFFER_SIZE)
      modifies data, this`dataLen
      ensures Valid() && (data[..], dataLen) == Receive(input, old(data[..]), old(dataLen))
      ensures forall es :: old(InStates(es)) ==> InStates(es)
    {
      if input.Some? {
        var bytes := input.value;
        forall j | 0 <= j < |bytes| {
          data[j] := bytes[j];
        }
        assert data[..] == Overlay(old(data[..]), 0, bytes);
        dataLen := |bytes|;
      }
    }

    /** The body of the loop over the connections (client_service.cpp:224-240), for connection `i`. */
    method ServeClient(i: nat, input: Option<seq<byte>>, ghost es: seq<Endpoint>) returns (alive: bool)
      requires Valid() && InStates(es) && i < |clients|
      requires input.Some? ==> |input.value| <= BUFFER_SIZE
      requires var (bytes, len) := Receive(input, data[..], dataLen);
               rule == Always || input.Some? ==> Defined(es[i], bytes[..len])
      modifies data, this`dataLen, clients[i].Repr()
      ensures Valid() && (data[..], dataLen) == Receive(input, old(data[..]), old(dataLen))
      ensures var next := FeedMaybe(es[i], if rule == Always || input.Some? then Some(data[..dataLen]) else None);
              (alive <==> next.Some?) && (alive ==> InStates(es[i := next.value]))
    {
      ReceiveInto(input);
      alive := true;
      if rule == Always || input.Some? {
        alive := HandOnAt(i, es);
      }
    }

    /** Handing on to connection `i` leaves the others as they are. */
    method HandOnAt(i: nat, ghost es: seq<Endpoint>) returns (alive: bool)
      requires Valid() && InStates(es) && i < |clients| && Defined(es[i], data[..dataLen])
      modifies clients[i].Repr()
      ensures Valid() && data[..] == old(data[..])
      ensures var next := Feed(es[i], data[..dataLen]);
              (alive <==> next.Some?) && (alive ==> InStates(es[i := next.value]))
    {
      alive := HandOn(clients[i], data, dataLen);
    }

    /** One round of the loop (client_service.cpp:222-242): `inputs[i]` is what connection `i` has to read if the
        select at line 220 reports it ready. */
    method DispatchRound(inputs: seq<Option<seq<byte>>>, ghost es: seq<Endpoint>) returns (alive: bool)
      requires Valid() && InStates(es) && |inputs| == |clients| && Receivable(inputs)
      requires AllDefined(es, Fed(rule, inputs, data[..], dataLen))
      modifies data, this`dataLen, Parts()
      ensures Valid() && clients == old(clients)
      ensures var next := FeedAll(es, Fed(rule, inputs, old(data[..]), old(dataLen)));
              (alive <==> next.Some?) && (alive ==> InStates(next.value))
      ensures alive ==> (data[..], dataLen) == ReceiveFirst(inputs, |inputs|, old(data[..]), old(dataLen))
      ensures alive ==> forall i: nat :: LastReady(inputs, i) ==> data[..dataLen] == inputs[i].value
      ensures alive && (forall i :: 0 <= i < |inputs| ==> inputs[i].None?) ==>
                data[..] == old(data[..]) && dataLen == old(dataLen)
    {
      ghost var data', len' := data[..], dataLen;
      ghost var fed := Fed(rule, inputs, data', len');
      ghost var now := es;
      for i := 0 to |clients|
        invariant Valid() && InStates(now)
        invariant FeedFirst(es, fed, i) == Some(now)
        invariant (data[..], dataLen) == ReceiveFirst(inputs, i, data', len')
      {
        RoundStep(rule, es, inputs, data', len', i, now, data[..], dataLen);
        var alive' := ServeClient(i, inputs[i], now);
        if !alive' {
          return false;
        }
        now := FeedFirst(es, fed, i + 1).value;
      }
      BufferOfRound(inputs, data', len');
      alive := true;
    }

    /** The loop at client_service.cpp:218, for as many rounds as there are before another connection joins. */
    method DispatchLoop(rounds: seq<Event>, ghost es: seq<Endpoint>) returns (alive: bool)
      requires Valid() && InStates(es) && Events(rounds, |es|)
      requires forall r :: 0 <= r < |rounds| ==> rounds[r].Round?
      requires RunDefined(rule, es, rounds, data[..], dataLen)
      modifies data, this`dataLen, Parts()
      ensures Valid() && clients == old(clients)
      ensures var served := ServeBy(rule, es, rounds, old(data[..]), old(dataLen));
              (alive <==> served.Some?) && (alive ==> InStates(served.value))
    {
      ghost var now := es;
      ghost var served := ServeBy(rule, es, rounds, data[..], dataLen);
      for r := 0 to |rounds|
        invariant Valid() && InStates(now) && Events(rounds[r..], |now|)
        invariant served == ServeBy(rule, now, rounds[r..], data[..], dataLen)
        invariant RunDefined(rule, now, rounds[r..], data[..], dataLen)
      {
        assert rounds[r..][0] == rounds[r] && rounds[r..][1..] == rounds[r + 1..];
        ghost var fed := Fed(rule, rounds[r].inputs, data[..], dataLen);
        var alive' := DispatchRound(rounds[r].inputs, now);
        if !alive' {
          return false;
        }
        now := FeedAll(now, fed).value;
        ClearData();
      }
      alive := true;
    }

    /** client_service.cpp:242. */
    method ClearData()
      requires Valid()
      modifies data
      ensures Valid() && data[..] == Overlay(old(data[..]), 0, Zeros(dataLen))
      ensures forall es :: old(InStates(es)) ==> InStates(es)
    {
      forall j | 0 <= j < dataLen {
        data[j] := 0;
      }
    }
  }

  /** client_service.cpp:236-240. */
  method HandOn(client: TcpClient, data: array<byte>, dataLen: int) returns (alive: bool)
    requires client.Valid() && data !in client.Repr() && data.Length == BUFFER_SIZE && 0 <= dataLen <= BUFFER_SIZE
    requires Defined(client.State(), data[..dataLen])
    modifies client.Repr()
    ensures client.Valid()
    ensures client.msgDelimiter == null ==>
              alive && client.received ==
                       old(client.received) + if client.registered then [old(data[..dataLen])] else []
    ensures alive <==> Feed(old(client.State()), old(data[..dataLen])).Some?
    ensures alive ==> client.State() == Feed(old(client.State()), old(data[..dataLen])).value
  {
    if client.msgDelimiter != null {
      alive := client.msgDelimiter.Process(client, data, dataLen as uint16);
    } else if client.registered {
      client.received := client.received + [data[..dataLen]];
      alive := true;
    } else {
      alive := true;
    }
  }
}
