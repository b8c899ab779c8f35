/** TcpServer of tcp_server.cpp: its methods take the steps of Registry. */
module TcpServers {
  import opened Bytes
  import opened Reframing
  import opened Dispatch
  import opened Registry
  import opened MsgDelimiters
  import opened ClientDbs
  import opened ClientServices

  /** The acceptor, reduced to whether its thread was started. */
  class ConnectionManager {
    var started: bool

    constructor ()
      ensures !started
    {
      started := false;
    }

    method StartThread()
      modifies this
      ensures started
    {
      started := true;
    }
  }

  class TcpServer {
    var state: bv32
    var connectionManager: ConnectionManager?
    var clientDb: ClientDB?
    var clientService: ClientService?

    /** The state of the protocol, between two calls. */
    ghost function Model(): Server<TcpClient>
      reads this, clientDb, clientService
    {
      Server(
        FlagsOf(state),
        connectionManager != null,
        if clientDb == null then None else Some(clientDb.clients),
        if clientService == null then None else Some(Service(clientService.clients, clientService.entered)),
        Idle)
    }

    /** `memory` is what the `state` word happens to hold: the source does not set it before the first SetBit. */
    constructor (memory: bv32, rule: Rule)
      ensures Model() == Constructed(memory)
      ensures IsSet(state, INITIALIZED) && clientDb.clients == [] && clientService.clients == []
      ensures fresh(clientDb) && fresh(clientService) && fresh(connectionManager)
    {
      connectionManager := new ConnectionManager();
      clientDb := new ClientDB();
      clientService := new ClientService(rule);
      state := memory;
      new;
      SetBit(INITIALIZED);
    }

    /** Sets one flag of tcp_server.h:18-22 and leaves the others alone. */
    method SetBit(bit: bv32)
      requires IsFlag(bit)
      modifies this`state
      ensures FlagsOf(state) == WithFlag(old(FlagsOf(state)), bit, true) && IsSet(state, bit)
    {
      var word := state | bit;
      SetMask(state, bit);
      state := word;
    }

    method UnSetBit(bit: bv32)
      requires IsFlag(bit)
      modifies this`state
      ensures FlagsOf(state) == WithFlag(old(FlagsOf(state)), bit, false) && !IsSet(state, bit)
    {
      var word := state & !bit;
      ClearMask(state, bit);
      state := word;
    }

    /** Whether the flag of that mask is raised in the protocol's reading of the word. */
    method IsBitSet(bit: bv32) returns (set': bool)
      requires IsFlag(bit)
      ensures set' <==> HasFlag(Model().flags, bit)
    {
      set' := state & bit != 0;
    }

    method Start()
      requires connectionManager != null && clientService != null && clientDb != null
      modifies this`state, connectionManager
      ensures Model() == old(Model()).Start()
      ensures IsSet(state, RUNNING) && connectionManager.started
    {
      connectionManager.StartThread();
      SetBit(RUNNING);
    }

    method AddClient(client: TcpClient)
      requires clientDb != null && clientService != null
      modifies clientDb, clientService`clients, clientService`entered, clientService`dataLen
      ensures Model() == old(Model()).Add(client)
      ensures clientDb.clients == old(clientDb.clients) + [client]
      ensures clientService.clients == old(clientService.clients) + [client] && !clientService.entered
    {
      clientDb.Update(client);
      clientService.Listen(client);
    }

    method StopConnectionAcceptance()
      modifies this`state, this`connectionManager
      ensures Model() == old(Model()).StopAccepting()
      ensures IsSet(state, NOT_ACCEPTING)
      ensures connectionManager == if old(IsSet(state, NOT_ACCEPTING)) then old(connectionManager) else null
    {
      var stopped := IsBitSet(NOT_ACCEPTING);
      if stopped {
        return;
      }
      SetBit(NOT_ACCEPTING);
      connectionManager := null;
    }

    method StartConnectionAcceptance()
      modifies this`state, this`connectionManager
      ensures Model() == old(Model()).StartAccepting()
      ensures !IsSet(state, NOT_ACCEPTING)
      ensures old(IsSet(state, NOT_ACCEPTING)) ==>
                connectionManager != null && fresh(connectionManager) && connectionManager.started
      ensures !old(IsSet(state, NOT_ACCEPTING)) ==> connectionManager == old(connectionManager)
    {
      var stopped := IsBitSet(NOT_ACCEPTING);
      if !stopped {
        return;
      }
      UnSetBit(NOT_ACCEPTING);
      connectionManager := new ConnectionManager();
      connectionManager.StartThread();
    }

    method StopClientService()
      modifies this`state, this`clientService
      ensures Model() == old(Model()).StopService()
      ensures IsSet(state, NOT_LISTENING)
      ensures clientService == if old(IsSet(state, NOT_LISTENING)) then old(clientService) else null
    {
      var stopped := IsBitSet(NOT_LISTENING);
      if stopped {
        return;
      }
      SetBit(NOT_LISTENING);
      clientService := null;
    }

    /** The entry of the service's thread (client_service.cpp:209-211). */
    method EnterServiceThread()
      requires clientService != null && clientDb != null
      modifies clientService`clients, clientService`entered
      ensures Model() == old(Model()).EnterThread()
      ensures clientService.entered
      ensures clientService.clients ==
              old(clientService.clients) + if IsSet(state, NOT_LISTENING) then clientDb.clients else []
    {
      var stopped := IsBitSet(NOT_LISTENING);
      if stopped {
        var copied := clientDb.Copy(clientService.clients);
        clientService.clients := copied;
      }
      clientService.entered := true;
    }

    /** `during`: what other threads do in the second that StartThread sleeps (client_service.cpp:267), in the order
        in which it happens: the service's thread enters, or the accepting thread adds a connection, which gives the
        service a new thread. */
    method StartClientService(rule: Rule, during: seq<Step<TcpClient>>)
      requires clientDb != null
      requires Model().flags.notListening ==>
                 DuringStart(during) && Executable(Model().BeginService(), during)
      modifies this`state, this`clientService, clientDb
      ensures !old(Model()).flags.notListening ==> Model() == old(Model())
      ensures old(Model()).flags.notListening ==>
                && Model() == Exec(old(Model()).BeginService(), during).FinishService()
                && clientService != null && fresh(clientService)
      ensures !IsSet(state, NOT_LISTENING)
    {
      var stopped := IsBitSet(NOT_LISTENING);
      if !stopped {
        return;
      }
      ghost var begun := Model().BeginService();
      clientService := new ClientService(rule);
      Interleave(during, begun);
      StartingKept(begun, during);
      UnSetBit(NOT_LISTENING);
    }

    /** The other threads' calls; `begun` is the state with the history of the start, which no field holds. */
    method Interleave(during: seq<Step<TcpClient>>, ghost begun: Server<TcpClient>)
      requires clientService != null && clientDb != null && Model() == begun.(progress := Idle)
      requires DuringStart(during) && Executable(begun, during)
      modifies clientService`clients, clientService`entered, clientService`dataLen, clientDb
      ensures Model() == Exec(begun, during).(progress := Idle)
    {
      ghost var now := begun;
      for k := 0 to |during|
        invariant Executable(now, during[k..]) && Exec(now, during[k..]) == Exec(begun, during)
        invariant Model() == now.(progress := Idle)
      {
        assert during[k..][0] == during[k] && during[k..][1..] == during[k + 1..];
        if during[k].EnterThread? {
          EnterServiceThread();
        } else {
          AddClient(during[k].c);
        }
        now := Next(now, during[k]);
      }
    }

    /** tcp_server.cpp:206-209. */
    method StopAcceptor()
      modifies this`state, this`connectionManager
      ensures Model() == old(Model()).StopAcceptor()
    {
      if connectionManager != null {
        StopConnectionAcceptance();
        SetBit(NOT_ACCEPTING);
      }
    }

    /** tcp_server.cpp:211-214. */
    method StopListener()
      modifies this`state, this`clientService
      ensures Model() == old(Model()).StopListener()
    {
      if clientService != null {
        StopClientService();
        SetBit(NOT_LISTENING);
      }
    }

    /** Up to `delete this`; the destructor's assertions hold if and only if the flags of the live components are
        clear. */
    method Stop()
      requires clientDb != null && NoDuplicates(clientDb.clients)
      modifies this, clientDb
      ensures Model() == old(Model()).Stop()
      ensures connectionManager == null && clientDb == null && clientService == null <==>
              !old(connectionManager != null && Model().flags.notAccepting) &&
              !old(clientService != null && Model().flags.notListening)
      ensures !IsSet(state, RUNNING)
      ensures old(clientDb).aborted == old(clientDb.aborted) + PurgeOrder(old(clientDb.clients))
    {
      StopSatisfiesDestructorIff(Model());
      StopAcceptor();
      StopListener();
      clientDb.Purge();
      clientDb := null;
      UnSetBit(RUNNING);
    }
  }
}
