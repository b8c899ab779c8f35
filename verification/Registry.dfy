/** The server's protocol as a state machine: flags, component pointers, and the two lists of connections.
    TcpServer.dfy proves that the methods of the source, on a 32-bit word of flags, take these steps.
    `C` stands for a connection's address. */
module Registry {
  import opened Bytes

  const INITIALIZED: bv32 := 1
  const RUNNING: bv32 := 2
  const NOT_ACCEPTING: bv32 := 4
  const NOT_LISTENING: bv32 := 8

  const MULTI_THREADED: bv32 := 16

  predicate IsSet(word: bv32, bit: bv32) {
    word & bit != 0
  }

  /** A word of flags, read flag by flag (tcp_server.h:18-22). */
  datatype Flags = Flags(initialized: bool, running: bool, notAccepting: bool, notListening: bool, multiThreaded: bool)

  function FlagsOf(word: bv32): Flags {
    Flags(
      IsSet(word, INITIALIZED),
      IsSet(word, RUNNING),
      IsSet(word, NOT_ACCEPTING),
      IsSet(word, NOT_LISTENING),
      IsSet(word, MULTI_THREADED))
  }

  predicate IsFlag(bit: bv32) {
    bit == INITIALIZED || bit == RUNNING || bit == NOT_ACCEPTING || bit == NOT_LISTENING || bit == MULTI_THREADED
  }

  predicate HasFlag(f: Flags, bit: bv32)
    requires IsFlag(bit)
  {
    if bit == INITIALIZED then f.initialized
    else if bit == RUNNING then f.running
    else if bit == NOT_ACCEPTING then f.notAccepting
    else if bit == NOT_LISTENING then f.notListening
    else f.multiThreaded
  }

  /** `f` with the flag `bit` set to `value`. */
  function WithFlag(f: Flags, bit: bv32, value: bool): Flags {
    f.(initialized := if bit == INITIALIZED then value else f.initialized,
       running := if bit == RUNNING then value else f.running,
       notAccepting := if bit == NOT_ACCEPTING then value else f.notAccepting,
       notListening := if bit == NOT_LISTENING then value else f.notListening,
       multiThreaded := if bit == MULTI_THREADED then value else f.multiThreaded)
  }

  /** `|=` with the mask of one flag sets that flag and leaves the others alone. */
  lemma SetMask(word: bv32, bit: bv32)
    requires IsFlag(bit)
    ensures FlagsOf(word | bit) == WithFlag(FlagsOf(word), bit, true)
  {
  }

  /** `&= ~` clears it. */
  lemma ClearMask(word: bv32, bit: bv32)
    requires IsFlag(bit)
    ensures FlagsOf(word & !bit) == WithFlag(FlagsOf(word), bit, false)
  {
  }

  /** A client service: its own list, and whether its current thread has run its entry (client_service.cpp:209). */
  datatype Service<C> = Service(clients: seq<C>, entered: bool)

  /** Where StartClientService is. While it is between creating the service's thread and clearing NOT_LISTENING,
      the history of this start is kept: how many connections the database had when it began, how many have been
      added since, and how often a thread of the service has entered, before the first of them and after it. */
  datatype Progress = Idle | Starting(inherited: nat, entriesBefore: nat, adds: nat, entriesAfter: nat)
  {
    function AfterEntry(): Progress {
      match this
      case Idle => Idle
      case Starting(_, before, adds, after) =>
        if adds == 0 then this.(entriesBefore := before + 1) else this.(entriesAfter := after + 1)
    }

    function AfterAdd(): Progress {
      if Idle? then Idle else this.(adds := adds + 1)
    }

    /** Exactly one entry, before any connection was added; or no entry, and nothing that it could have copied. */
    predicate InOrder() {
      Starting? ==>
        || (entriesBefore == 1 && entriesAfter == 0)
        || (entriesBefore == 0 && entriesAfter == 0 && inherited == 0)
    }
  }

  datatype Server<C(==)> = Server(
    flags: Flags, acceptor: bool, db: Option<seq<C>>, service: Option<Service<C>>, progress: Progress)
  {
    /** Each flag says what its pointer says. */
    predicate Consistent() {
      && (flags.notAccepting <==> !acceptor)
      && (flags.notListening <==> service.None? || progress.Starting?)
      && (progress.Starting? ==> service.Some?)
      && db.Some?
    }

    /** A live service that is not being started. */
    predicate Settled() {
      service.Some? && progress.Idle?
    }

    predicate Agrees() {
      Settled() ==> Some(service.value.clients) == db
    }

    // -------------------------------------------------------------- the steps

    function Start(): Server<C> {
      this.(flags := flags.(running := true))
    }

    function StopAccepting(): Server<C> {
      if flags.notAccepting then this else this.(flags := flags.(notAccepting := true), acceptor := false)
    }

    function StartAccepting(): Server<C> {
      if !flags.notAccepting then this else this.(flags := flags.(notAccepting := false), acceptor := true)
    }

    function StopService(): Server<C> {
      if flags.notListening then this else this.(flags := flags.(notListening := true), service := None)
    }

    /** StartClientService up to the creation of the thread (tcp_server.cpp:190-192). */
    function BeginService(): Server<C>
      requires db.Some?
    {
      if !flags.notListening then this
      else this.(service := Some(Service([], false)), progress := Starting(|db.value|, 0, 0, 0))
    }

    /** The service thread's entry (client_service.cpp:209-211). */
    function EnterThread(): Server<C>
      requires service.Some? && db.Some?
    {
      var list := service.value.clients;
      this.(
        service := Some(Service(if flags.notListening then list + db.value else list, true)),
        progress := progress.AfterEntry())
    }

    /** The end of StartClientService (tcp_server.cpp:193). */
    function FinishService(): Server<C> {
      if progress.Starting? then this.(flags := flags.(notListening := false), progress := Idle) else this
    }

    /** AddClient: into the database, and into the service, whose thread is replaced by a new one. */
    function Add(c: C): Server<C>
      requires service.Some? && db.Some?
    {
      this.(
        db := Some(db.value + [c]),
        service := Some(Service(service.value.clients + [c], false)),
        progress := progress.AfterAdd())
    }

    /** tcp_server.cpp:206-209. */
    function StopAcceptor(): Server<C> {
      if acceptor then
        var s := StopAccepting();
        s.(flags := s.flags.(notAccepting := true))
      else this
    }

    /** tcp_server.cpp:211-214. */
    function StopListener(): Server<C> {
      if service.Some? then
        var s := StopService();
        s.(flags := s.flags.(notListening := true))
      else this
    }

    /** TcpServer::Stop (tcp_server.cpp:203-227). */
    function Stop(): Server<C> {
      var s := StopAcceptor().StopListener();
      s.(db := None, flags := s.flags.(running := false))
    }

    /** The three assertions of the destructor (tcp_server.cpp:232-234). */
    predicate DestructorHolds() {
      !acceptor && db.None? && service.None?
    }
  }

  /** A constructed server; `memory` is what its `state` word held before the first SetBit (tcp_server.cpp:70). */
  function Constructed<C(==)>(memory: bv32): Server<C> {
    Server(FlagsOf(memory).(initialized := true), true, Some([]), Some(Service([], false)), Idle)
  }

  datatype Step<C> =
    | Start
    | StopAccepting
    | StartAccepting
    | StopService
    | BeginService
    | EnterThread
    | FinishService
    | Add(c: C)

  /** Who can move: the thread that is inside StartClientService makes no other call; a thread enters once; and a
      connection is new, and is added by the accepting thread, which nothing stops, whenever there is a service. */
  predicate Enabled<C(==)>(s: Server<C>, step: Step<C>) {
    match step
    case FinishService => s.progress.Starting?
    case EnterThread => s.service.Some? && !s.service.value.entered && s.db.Some?
    case Add(c) => s.service.Some? && s.db.Some? && c !in s.db.value
    case BeginService => s.progress.Idle? && s.db.Some?
    case _ => s.progress.Idle?
  }

  function Next<C(==)>(s: Server<C>, step: Step<C>): Server<C>
    requires Enabled(s, step)
  {
    match step
    case Start => s.Start()
    case StopAccepting => s.StopAccepting()
    case StartAccepting => s.StartAccepting()
    case StopService => s.StopService()
    case BeginService => s.BeginService()
    case EnterThread => s.EnterThread()
    case FinishService => s.FinishService()
    case Add(c) => s.Add(c)
  }

  predicate Executable<C(==)>(s: Server<C>, steps: seq<Step<C>>)
    decreases |steps|
  {
    steps == [] || (Enabled(s, steps[0]) && Executable(Next(s, steps[0]), steps[1..]))
  }

  function Exec<C(==)>(s: Server<C>, steps: seq<Step<C>>): Server<C>
    requires Executable(s, steps)
    decreases |steps|
  {
    if steps == [] then s else Exec(Next(s, steps[0]), steps[1..])
  }

  /** What other threads can do while the service is being started. */
  predicate DuringStart<C>(steps: seq<Step<C>>) {
    forall k :: 0 <= k < |steps| ==> steps[k].EnterThread? || steps[k].Add?
  }

  lemma {:induction false} StartingKept<C>(s: Server<C>, steps: seq<Step<C>>)
    requires s.progress.Starting? && DuringStart(steps) && Executable(s, steps)
    ensures Exec(s, steps).progress.Starting?
    decreases |steps|
  {
    if steps != [] {
      StartingKept(Next(s, steps[0]), steps[1..]);
    }
  }

  // ---------------------------------------------------------------- flags and pointers

  /** The flags are right from the start if and only if the unset memory happens to hold neither of them. */
  lemma ConstructedConsistentIff<C>(memory: bv32)
    ensures Constructed<C>(memory).Consistent() <==> memory & (NOT_ACCEPTING | NOT_LISTENING) == 0
  {
    assert memory & (NOT_ACCEPTING | NOT_LISTENING) == 0 <==> memory & NOT_ACCEPTING == 0 && memory & NOT_LISTENING == 0;
  }

  lemma StepKeepsConsistent<C>(s: Server<C>, step: Step<C>)
    requires s.Consistent() && Enabled(s, step)
    ensures Next(s, step).Consistent()
  {
  }

  lemma {:induction false} RunKeepsConsistent<C>(s: Server<C>, steps: seq<Step<C>>)
    requires s.Consistent() && Executable(s, steps)
    ensures Exec(s, steps).Consistent()
    decreases |steps|
  {
    if steps != [] {
      StepKeepsConsistent(s, steps[0]);
      RunKeepsConsistent(Next(s, steps[0]), steps[1..]);
    }
  }

  /** Stop satisfies the destructor if and only if no component is live while its flag says that it is not. */
  lemma StopSatisfiesDestructorIff<C>(s: Server<C>)
    ensures s.Stop().DestructorHolds() <==>
            && !(s.acceptor && s.flags.notAccepting)
            && !(s.service.Some? && s.flags.notListening)
  {
  }

  /** A word of memory that holds neither of the two flags. */
  predicate Unflagged(memory: bv32) {
    memory & (NOT_ACCEPTING | NOT_LISTENING) == 0
  }

  /** Stop clears RUNNING, drops the database, and touches no flag but the three that it is about. */
  lemma StopClears<C>(s: Server<C>)
    ensures var t := s.Stop();
            && !t.flags.running && t.db.None?
            && t.flags.initialized == s.flags.initialized && t.flags.multiThreaded == s.flags.multiThreaded
            && (s.acceptor ==> t.flags.notAccepting) && (s.service.Some? ==> t.flags.notListening)
  {
  }

  /** From any state whose flags are right, accepting can be stopped and started again, and nothing else changes. */
  lemma AcceptingRestarts<C>(s: Server<C>)
    requires s.Consistent()
    ensures var t := s.StopAccepting();
            !t.acceptor && t.flags.notAccepting && t == s.(acceptor := false, flags := t.flags)
    ensures var t := s.StopAccepting().StartAccepting();
            t.acceptor && !t.flags.notAccepting && t == s.(acceptor := true, flags := s.flags.(notAccepting := false))
    ensures s.StartAccepting().acceptor && s.StartAccepting().StartAccepting() == s.StartAccepting()
    ensures s.StopAccepting().StopAccepting() == s.StopAccepting()
  {
  }

  /** And so can the service, with the connections that the database has. */
  lemma ServiceRestarts<C>(s: Server<C>)
    requires s.Consistent() && s.Settled()
    ensures var t := s.StopService();
            t.service.None? && t.flags.notListening && t.db == s.db && t.acceptor == s.acceptor
    ensures var t := s.StopService().BeginService().EnterThread().FinishService();
            && t.Settled() && !t.flags.notListening
            && Some(t.service.value.clients) == s.db == t.db
            && t.acceptor == s.acceptor && t.flags == s.flags
  {
    EmptyUnit(s.db.value);
  }

  // ---------------------------------------------------------------- what a run amounts to

  /** Whether the server accepts after `steps`: the last of the two calls decides. */
  predicate AcceptingAfter<C>(before: bool, steps: seq<Step<C>>)
    decreases |steps|
  {
    if steps == [] then before
    else if steps[0].StopAccepting? then AcceptingAfter(false, steps[1..])
    else if steps[0].StartAccepting? then AcceptingAfter(true, steps[1..])
    else AcceptingAfter(before, steps[1..])
  }

  /** Whether there is a service: likewise. */
  predicate ServedAfter<C>(before: bool, steps: seq<Step<C>>)
    decreases |steps|
  {
    if steps == [] then before
    else if steps[0].StopService? then ServedAfter(false, steps[1..])
    else if steps[0].BeginService? then ServedAfter(true, steps[1..])
    else ServedAfter(before, steps[1..])
  }

  /** The connections that are added in the course of `steps`. */
  function AddedIn<C>(steps: seq<Step<C>>): seq<C>
    decreases |steps|
  {
    if steps == [] then []
    else if steps[0].Add? then [steps[0].c] + AddedIn(steps[1..])
    else AddedIn(steps[1..])
  }

  predicate HasStart<C>(steps: seq<Step<C>>) {
    exists k :: 0 <= k < |steps| && steps[k].Start?
  }

  lemma HasStartCons<C>(steps: seq<Step<C>>)
    requires steps != []
    ensures HasStart(steps) <==> steps[0].Start? || HasStart(steps[1..])
  {
    if HasStart(steps[1..]) {
      var k :| 0 <= k < |steps| - 1 && steps[1..][k].Start?;
      assert steps[k + 1].Start?;
    }
    if HasStart(steps) && !steps[0].Start? {
      var k :| 0 <= k < |steps| && steps[k].Start?;
      assert steps[1..][k - 1].Start?;
    }
  }

  lemma {:induction false} RunComponents<C>(s: Server<C>, steps: seq<Step<C>>)
    requires s.Consistent() && Executable(s, steps)
    ensures var t := Exec(s, steps);
            && t.acceptor == AcceptingAfter(s.acceptor, steps)
            && t.service.Some? == ServedAfter(s.service.Some?, steps)
    decreases |steps|
  {
    if steps != [] {
      StepKeepsConsistent(s, steps[0]);
      RunComponents(Next(s, steps[0]), steps[1..]);
    }
  }

  lemma StepRecords<C>(s: Server<C>, step: Step<C>)
    requires s.Consistent() && Enabled(s, step)
    ensures var t := Next(s, step);
            && t.db == Some(s.db.value + if step.Add? then [step.c] else [])
            && t.flags.running == (s.flags.running || step.Start?)
            && t.flags.initialized == s.flags.initialized
            && t.flags.multiThreaded == s.flags.multiThreaded
  {
    EmptyUnit(s.db.value);
  }

  lemma {:induction false} RunRecords<C>(s: Server<C>, steps: seq<Step<C>>)
    requires s.Consistent() && Executable(s, steps)
    ensures var t := Exec(s, steps);
            && t.db == Some(s.db.value + AddedIn(steps))
            && t.flags.running == (s.flags.running || HasStart(steps))
            && t.flags.initialized == s.flags.initialized
            && t.flags.multiThreaded == s.flags.multiThreaded
    decreases |steps|
  {
    EmptyUnit(s.db.value);
    if steps != [] {
      StepKeepsConsistent(s, steps[0]);
      StepRecords(s, steps[0]);
      RunRecords(Next(s, steps[0]), steps[1..]);
      HasStartCons(steps);
      if steps[0].Add? {
        Assoc(s.db.value, [steps[0].c], AddedIn(steps[1..]));
      }
    }
  }

  /** Main theorem. After any run the server accepts, and has a service, as the last call about it says; the database
      has the added connections in order; it is running if it was started, or the memory said so from the first. */
  lemma ServerAmountsTo<C>(memory: bv32, steps: seq<Step<C>>)
    requires Unflagged(memory) && Executable(Constructed<C>(memory), steps)
    ensures var t := Exec(Constructed<C>(memory), steps);
            && t.acceptor == AcceptingAfter(true, steps)
            && t.service.Some? == ServedAfter(true, steps)
            && t.db == Some(AddedIn(steps))
            && (t.flags.running <==> memory & RUNNING != 0 || HasStart(steps))
            && t.flags.initialized
            && (t.flags.multiThreaded <==> memory & MULTI_THREADED != 0)
  {
    ConstructedConsistentIff<C>(memory);
    RunComponents(Constructed<C>(memory), steps);
    RunRecords(Constructed<C>(memory), steps);
    EmptyUnit(AddedIn(steps));
  }

  /** Main theorem. After any run of starts, stops, adds and thread entries, in any interleaving, the flags agree
      with the pointers, and Stop satisfies the destructor's assertions. */
  lemma LifecycleSafe<C>(memory: bv32, steps: seq<Step<C>>)
    requires Unflagged(memory) && Executable(Constructed<C>(memory), steps)
    ensures var s := Exec(Constructed<C>(memory), steps);
            && (s.flags.notAccepting <==> !s.acceptor)
            && (s.progress.Idle? ==> (s.flags.notListening <==> s.service.None?))
            && (s.progress.Idle? ==> s.Stop().DestructorHolds())
  {
    ConstructedConsistentIff<C>(memory);
    RunKeepsConsistent(Constructed<C>(memory), steps);
    StopSatisfiesDestructorIff(Exec(Constructed<C>(memory), steps));
  }

  // ---------------------------------------------------------------- the two lists

  predicate NoDuplicates<C(==)>(s: seq<C>) {
    forall i, j :: 0 <= i < j < |s| ==> s[i] != s[j]
  }

  predicate IsSuffix<C(==)>(tail: seq<C>, s: seq<C>) {
    |tail| <= |s| && tail == s[|s| - |tail|..]
  }

  /** What the history of a start says of the lists: with no entry after an add, the service has either everything
      or just what was added; with one, it has more than there is. */
  predicate HistoryTold<C(==)>(db: seq<C>, service: Service<C>, p: Progress)
    requires p.Starting?
  {
    && |db| == p.inherited + p.adds
    && p.entriesBefore <= 1
    && (p.adds == 0 ==> (service.entered <==> p.entriesBefore == 1) && p.entriesAfter == 0)
    && (p.entriesAfter == 0 ==> service.clients == if p.entriesBefore == 1 then db else db[p.inherited..])
    && (p.entriesAfter > 0 ==> |service.clients| > |db|)
    && (p.adds > 0 ==> service.clients != [] && service.clients[|service.clients| - 1] == db[|db| - 1])
  }

  /** What holds of the lists under every schedule. */
  predicate Tracked<C(==)>(s: Server<C>) {
    && s.Consistent()
    && NoDuplicates(s.db.value)
    && (s.progress.Starting? ==> HistoryTold(s.db.value, s.service.value, s.progress))
  }

  lemma StepKeepsTracked<C>(s: Server<C>, step: Step<C>)
    requires Tracked(s) && Enabled(s, step)
    ensures Tracked(Next(s, step))
  {
    StepKeepsConsistent(s, step);
    if s.progress.Starting? {
      var db, list, p := s.db.value, s.service.value.clients, s.progress;
      match step
      case EnterThread =>
        EntryKeepsHistory(db, s.service.value, p);
      case Add(c) =>
        AddKeepsHistory(db, s.service.value, p, c);
      case _ =>
    }
  }

  lemma EntryKeepsHistory<C>(db: seq<C>, service: Service<C>, p: Progress)
    requires p.Starting? && HistoryTold(db, service, p) && !service.entered
    ensures HistoryTold(db, Service(service.clients + db, true), p.AfterEntry())
  {
    if p.adds == 0 {
      assert service.clients == [] && [] + db == db;
    }
  }

  lemma AddKeepsHistory<C>(db: seq<C>, service: Service<C>, p: Progress, c: C)
    requires p.Starting? && HistoryTold(db, service, p)
    ensures HistoryTold(db + [c], Service(service.clients + [c], false), p.AfterAdd())
  {
    assert (db + [c])[p.inherited..] == db[p.inherited..] + [c];
  }

  predicate InOrder<C(==)>(s: Server<C>, step: Step<C>) {
    step.FinishService? ==> s.progress.InOrder()
  }

  predicate InOrderThroughout<C(==)>(s: Server<C>, steps: seq<Step<C>>)
    requires Executable(s, steps)
    decreases |steps|
  {
    steps == [] || (InOrder(s, steps[0]) && InOrderThroughout(Next(s, steps[0]), steps[1..]))
  }

  /** In every state of the run with a settled live service, its list is the database's. */
  predicate AgreesThroughout<C(==)>(s: Server<C>, steps: seq<Step<C>>)
    requires Executable(s, steps)
    decreases |steps|
  {
    s.Agrees() && (steps == [] || AgreesThroughout(Next(s, steps[0]), steps[1..]))
  }

  lemma StepAgreesIff<C>(s: Server<C>, step: Step<C>)
    requires Tracked(s) && s.Agrees() && Enabled(s, step)
    ensures Next(s, step).Agrees() <==> InOrder(s, step)
  {
  }

  lemma {:induction false} AgreesIffInOrder<C>(s: Server<C>, steps: seq<Step<C>>)
    requires Tracked(s) && s.Agrees() && Executable(s, steps)
    ensures AgreesThroughout(s, steps) <==> InOrderThroughout(s, steps)
    decreases |steps|
  {
    if steps != [] {
      StepKeepsTracked(s, steps[0]);
      StepAgreesIff(s, steps[0]);
      if Next(s, steps[0]).Agrees() {
        AgreesIffInOrder(Next(s, steps[0]), steps[1..]);
      }
    }
  }

  /** Main theorem. Over any run, the lists agree in every settled state if and only if every completed start of
      the service has exactly one thread entry, before any connection that is added during it; or has none, and
      began with an empty database. */
  lemma RegistryAgreesIff<C>(memory: bv32, steps: seq<Step<C>>)
    requires Unflagged(memory) && Executable(Constructed<C>(memory), steps)
    ensures AgreesThroughout(Constructed<C>(memory), steps) <==> InOrderThroughout(Constructed<C>(memory), steps)
  {
    ConstructedConsistentIff<C>(memory);
    AgreesIffInOrder(Constructed<C>(memory), steps);
  }

  /** An entry after a connection was added during the same start. */
  predicate LateEntry<C(==)>(s: Server<C>, step: Step<C>) {
    step.EnterThread? && s.progress.Starting? && s.progress.adds > 0
  }

  predicate NoLateEntryThroughout<C(==)>(s: Server<C>, steps: seq<Step<C>>)
    requires Executable(s, steps)
    decreases |steps|
  {
    steps == [] || (!LateEntry(s, steps[0]) && NoLateEntryThroughout(Next(s, steps[0]), steps[1..]))
  }

  /** In every state of the run the service has no connection twice. */
  predicate SingleThroughout<C(==)>(s: Server<C>, steps: seq<Step<C>>)
    requires Executable(s, steps)
    decreases |steps|
  {
    && (s.service.Some? ==> NoDuplicates(s.service.value.clients))
    && (steps == [] || SingleThroughout(Next(s, steps[0]), steps[1..]))
  }

  /** The service has the last part of the database. */
  predicate HasSuffix<C(==)>(s: Server<C>) {
    s.db.Some? && (s.service.Some? ==> IsSuffix(s.service.value.clients, s.db.value))
  }

  lemma StepKeepsSuffix<C>(s: Server<C>, step: Step<C>)
    requires Tracked(s) && HasSuffix(s) && Enabled(s, step) && !LateEntry(s, step)
    ensures HasSuffix(Next(s, step))
  {
    if step.EnterThread? && s.progress.Starting? {
      assert s.service.value.clients == [] && [] + s.db.value == s.db.value;
    }
  }

  lemma LateEntryDoubles<C>(s: Server<C>, step: Step<C>)
    requires Tracked(s) && Enabled(s, step) && LateEntry(s, step)
    ensures !NoDuplicates(Next(s, step).service.value.clients)
  {
    var list, db := s.service.value.clients, s.db.value;
    assert (list + db)[|list| - 1] == (list + db)[|list| + |db| - 1];
  }

  lemma {:induction false} SingleIffNoLateEntry<C>(s: Server<C>, steps: seq<Step<C>>)
    requires Tracked(s) && HasSuffix(s) && Executable(s, steps)
    ensures SingleThroughout(s, steps) <==> NoLateEntryThroughout(s, steps)
    ensures NoLateEntryThroughout(s, steps) ==> HasSuffix(Exec(s, steps))
    decreases |steps|
  {
    if steps != [] {
      StepKeepsTracked(s, steps[0]);
      if LateEntry(s, steps[0]) {
        LateEntryDoubles(s, steps[0]);
      } else {
        StepKeepsSuffix(s, steps[0]);
        SingleIffNoLateEntry(Next(s, steps[0]), steps[1..]);
      }
    }
  }

  lemma {:induction false} RunKeepsTracked<C>(s: Server<C>, steps: seq<Step<C>>)
    requires Tracked(s) && Executable(s, steps)
    ensures Tracked(Exec(s, steps))
    decreases |steps|
  {
    if steps != [] {
      StepKeepsTracked(s, steps[0]);
      RunKeepsTracked(Next(s, steps[0]), steps[1..]);
    }
  }

  /** Main theorem. Under every schedule the database has no connection twice. The service has none twice if and only
      if no thread enters after an add of the same start; and then all it can lack are the oldest ones. */
  lemma ListsSoundIff<C>(memory: bv32, steps: seq<Step<C>>)
    requires Unflagged(memory) && Executable(Constructed<C>(memory), steps)
    ensures var s0 := Constructed<C>(memory);
            && Exec(s0, steps).db.Some? && NoDuplicates(Exec(s0, steps).db.value)
            && (SingleThroughout(s0, steps) <==> NoLateEntryThroughout(s0, steps))
            && (NoLateEntryThroughout(s0, steps) ==> HasSuffix(Exec(s0, steps)))
  {
    ConstructedConsistentIff<C>(memory);
    RunKeepsTracked(Constructed<C>(memory), steps);
    SingleIffNoLateEntry(Constructed<C>(memory), steps);
  }

  function Adds<C>(cs: seq<C>): (steps: seq<Step<C>>)
    ensures |steps| == |cs|
  {
    seq(|cs|, k requires 0 <= k < |cs| => Step.Add(cs[k]))
  }

  /** Connections added one after the other end up at the end of both lists. */
  lemma {:induction false} ExecAdds<C>(s: Server<C>, cs: seq<C>)
    requires s.service.Some? && s.db.Some? && NoDuplicates(s.db.value + cs)
    ensures Executable(s, Adds(cs))
    ensures var t := Exec(s, Adds(cs));
            && t.db == Some(s.db.value + cs)
            && t.service.Some? && t.service.value.clients == s.service.value.clients + cs
            && t.service.value.entered == (s.service.value.entered && cs == [])
            && t.flags == s.flags && t.acceptor == s.acceptor && t.progress.Starting? == s.progress.Starting?
    decreases |cs|
  {
    var db, list := s.db.value, s.service.value.clients;
    if cs == [] {
      EmptyUnit(db);
      EmptyUnit(list);
    } else {
      assert (db + cs)[|db|] == cs[0];
      forall k | 0 <= k < |db|
        ensures db[k] != cs[0]
      {
        assert (db + cs)[k] != (db + cs)[|db|];
      }
      assert db + [cs[0]] + cs[1..] == db + cs && list + [cs[0]] + cs[1..] == list + cs;
      ExecAdds(s.Add(cs[0]), cs[1..]);
      assert Adds(cs) == [Step.Add(cs[0])] + Adds(cs[1..]);
      ExecCons(s, Step.Add(cs[0]), Adds(cs[1..]));
    }
  }

  /** What a late entry leaves: the connections added before it, and then the whole database, they among it. */
  lemma LateCopy<C>(s: Server<C>, cs: seq<C>)
    requires s.Consistent() && s.service.None? && NoDuplicates(s.db.value + cs)
    ensures Executable(s.BeginService(), Adds(cs))
    ensures var t := Exec(s.BeginService(), Adds(cs));
            && Enabled(t, Step.EnterThread)
            && t.EnterThread().service.value.clients == cs + (s.db.value + cs)
            && t.EnterThread().service.value.entered
            && t.EnterThread().db == Some(s.db.value + cs)
  {
    ExecAdds(s.BeginService(), cs);
    EmptyUnit(cs);
  }

  /** What the sleep at client_service.cpp:267 is there to avoid: a restart whose thread enters late loses every
      connection that the service had. */
  lemma LateEntryLosesClients<C>(s: Server<C>)
    requires s.Consistent() && s.Settled()
    ensures var t := s.StopService().BeginService().FinishService();
            && t.Settled()
            && t.EnterThread().Settled()
            && t.EnterThread().service.value.clients == []
            && t.EnterThread().db == s.db
  {
  }

  lemma ExecCons<C>(s: Server<C>, step: Step<C>, steps: seq<Step<C>>)
    requires Enabled(s, step) && Executable(Next(s, step), steps)
    ensures Executable(s, [step] + steps) && Exec(s, [step] + steps) == Exec(Next(s, step), steps)
  {
    assert ([step] + steps)[1..] == steps;
  }

  /** And what the sleep does not avoid: the accepting thread adds a connection while the service is being started,
      which gives the service a new thread, and the copy of that thread puts every connection in the list twice. */
  function DoublingRun<C>(c: C, d: C): seq<Step<C>> {
    [Step.Add(c)] + ([Step.StopService] + ([Step.BeginService] + ([Step.EnterThread] +
      ([Step.Add(d)] + ([Step.EnterThread] + ([Step.FinishService] + []))))))
  }

  lemma AddDuringStartDoubles<C>(c: C, d: C)
    requires c != d
    ensures Executable(Constructed<C>(0), DoublingRun(c, d))
    ensures var s := Exec(Constructed<C>(0), DoublingRun(c, d));
            s.Settled() && s.db == Some([c, d]) && s.service.value.clients == [c, d, c, d]
  {
    var s0 := Constructed<C>(0);
    ConstructedConsistentIff<C>(0);
    var s1 := s0.Add(c);
    var s2 := s1.StopService();
    var s3 := s2.BeginService();
    var s4 := s3.EnterThread();
    var s5 := s4.Add(d);
    var s6 := s5.EnterThread();
    var s7 := s6.FinishService();
    assert [] + [c] == [c] && [] + [c] + [d] == [c, d];
    assert s5.service.value.clients == [c, d] && s5.db == Some([c, d]);
    assert [c, d] + [c, d] == [c, d, c, d];
    ExecCons(s6, Step.FinishService, []);
    ExecCons(s5, Step.EnterThread, [Step.FinishService] + []);
    ExecCons(s4, Step.Add(d), [Step.EnterThread] + ([Step.FinishService] + []));
    ExecCons(s3, Step.EnterThread, [Step.Add(d)] + ([Step.EnterThread] + ([Step.FinishService] + [])));
    var begun := [Step.EnterThread] + ([Step.Add(d)] + ([Step.EnterThread] + ([Step.FinishService] + [])));
    ExecCons(s2, Step.BeginService, begun);
    ExecCons(s1, Step.StopService, [Step.BeginService] + begun);
    ExecCons(s0, Step.Add(c), [Step.StopService] + ([Step.BeginService] + begun));
  }
}
