/**
 The receive dispatcher as interleaved atomic steps: one reader thread, clients that
 register and unregister a context under a mutex (a packet wait keeps its context on
 its own stack), and threads that pause and resume the reader through two flags.
 */
module RxDispatch {
  import opened Bytes
  import opened Neighbors

  const MAX_HANDLERS := 8

  type Frame = seq<byte>
  type Id = nat

  // ---- State ----

  datatype Thread = Reader | ByClient(client: Id) | ByPauser(pauser: Id)

  datatype Slot = Free | InUse(ctx: Id)

  /** Where the reader thread stands; the comments give the statement it is about to execute. */
  datatype Pc =
    | Top                               // while(running)
    | Sleeping                          // wait for the interrupt flag
    | Woken                             // if(!running) break
    | TestPause                         // if(pause_count > 0)
    | SetAck                            // acked_pause = true
    | ClearAck                          // acked_pause = false
    | DrainTop                          // while(running)
    | DrainTest                         // if(pause_count > 0) break
    | Receiving                         // receive_packet
    | Locking(frame: Frame)             // acquire the mutex
    | Scanning(frame: Frame, i: nat)    // loop test and in_use test of slot i
    | InPredicate(frame: Frame, i: nat) // slot i's predicate
    | InHandler(frame: Frame, i: nat)   // slot i's handler, up to setting `matched`
    | InSignal(frame: Frame, i: nat)    // the handler's semaphore release
    | Stopped

  datatype Phase =
    | Created                         // context set up, rx_register called
    | Registering                     // holds the mutex
    | Filled(taken: Option<nat>)      // slot written, mutex still held
    | Registered(slot: nat)           // rx_register has returned
    | Asleep(slot: nat)               // triggered, waiting on the semaphore
    | Reading(slot: nat)              // semaphore acquired, about to read the length
    | Leaving(slot: nat)              // rx_unregister called
    | Unregistering(slot: nat)        // holds the mutex
    | Cleared                         // slot cleared, mutex still held
    | Returned                        // rx_unregister has returned
    | Refused                         // no free slot

  /** The one-shot state of a packet wait; of any other client only the history is kept. */
  datatype Wait = Wait(
    matched: bool,
    matchedLength: nat,
    signal: nat,
    got: bool,
    length: nat,
    due: seq<Frame>,          // history: frames whose critical section began while registered
    asked: seq<Frame>,        // history: frames the user predicate was asked about
    answered: seq<bool>,      // history: its answers
    handled: seq<Frame>,      // history: frames the handler of any other client was run with
    released: nat,            // history: semaphore releases
    acquired: nat)            // history: semaphore acquisitions

  datatype Client = Client(phase: Phase, isWait: bool, wait: Wait)

  const NEW_WAIT: Wait := Wait(false, 0, 0, false, 0, [], [], [], [], 0, 0)

  datatype PausePhase =
    | Incrementing                    // holds the mutex
    | Resetting                       // count raised
    | Unlocking                       // flag reset
    | Polling                         // rx_dispatch_pause polls the flag
    | Holding(seen: bool)             // rx_dispatch_pause has returned
    | Decrementing(seen: bool)        // rx_dispatch_resume holds the mutex
    | ResumeUnlocking                 // count lowered
    | Over

  datatype State = State(
    running: bool,
    pauseCount: byte,
    acked: bool,
    mutex: Option<Thread>,
    slots: seq<Slot>,
    pc: Pc,
    clients: map<Id, Client>,
    pausers: map<Id, PausePhase>)

  ghost predicate Init(s: State) {
    s == State(true, 0, false, None, seq(8, _ => Free), Top, map[], map[])
  }

  // ---- Steps ----

  datatype ReaderStep =
    | PassesTop | Wakes | ChecksRunning | TestsPause | SetsAck | ClearsAck | PassesDrainTop | TestsPauseAgain
    | Receives(received: Option<Frame>) | Locks | Scans | Asks(answer: bool) | Handles | Signals

  datatype ClientStep =
    | Starts(wait: bool) | LocksToRegister | FillsSlot | UnlocksRegister
    | Triggers | AcquiresSignal | ReadsLength | GivesUp
    | LocksToUnregister | ClearsSlot | UnlocksUnregister

  datatype PauserStep =
    | LocksToPause | Increments | ResetsAck | UnlocksPause | SeesAck | StopsPolling
    | LocksToResume | Decrements | UnlocksResume

  datatype Step =
    | StopRunning
    | ReaderDoes(reader: ReaderStep)
    | ClientDoes(client: Id, move: ClientStep)
    | PauserDoes(pauser: Id, pause: PauserStep)

  predicate ClientIn(s: State, c: Id, phase: Phase) {
    c in s.clients && s.clients[c].phase == phase
  }

  predicate PauserIn(s: State, p: Id, phase: PausePhase) {
    p in s.pausers && s.pausers[p] == phase
  }

  function SlotOf(phase: Phase): Option<nat> {
    match phase
    case Filled(taken) => taken
    case Registered(i) => Some(i)
    case Asleep(i) => Some(i)
    case Reading(i) => Some(i)
    case Leaving(i) => Some(i)
    case Unregistering(i) => Some(i)
    case _ => None
  }

  /** The context the reader's current call works on. */
  function CalledSlot(pc: Pc): Option<nat> {
    match pc
    case InPredicate(_, i) => Some(i)
    case InHandler(_, i) => Some(i)
    case InSignal(_, i) => Some(i)
    case _ => None
  }

  ghost predicate ReaderCan(s: State, step: ReaderStep) {
    match step
    case PassesTop => s.pc == Top
    case Wakes => s.pc == Sleeping
    case ChecksRunning => s.pc == Woken
    case TestsPause => s.pc == TestPause
    case SetsAck => s.pc == SetAck
    case ClearsAck => s.pc == ClearAck
    case PassesDrainTop => s.pc == DrainTop
    case TestsPauseAgain => s.pc == DrainTest
    case Receives(_) => s.pc == Receiving
    case Locks => s.pc.Locking? && s.mutex == None
    case Scans => s.pc.Scanning?
    case Asks(_) => s.pc.InPredicate? && CalledOk(s)
    case Handles => s.pc.InHandler? && CalledOk(s)
    case Signals => s.pc.InSignal? && CalledOk(s)
  }

  ghost predicate ClientCan(s: State, c: Id, step: ClientStep) {
    if step.Starts? then c !in s.clients
    else
      c in s.clients &&
      var phase := s.clients[c].phase;
      match step
      case LocksToRegister => phase == Created && s.mutex == None
      case FillsSlot => phase == Registering
      case UnlocksRegister => phase.Filled?
      case Triggers => phase.Registered?
      case AcquiresSignal => phase.Asleep? && s.clients[c].wait.signal > 0
      case ReadsLength => phase.Reading?
      case GivesUp => phase.Asleep?
      case LocksToUnregister => phase.Leaving? && s.mutex == None
      case ClearsSlot => phase.Unregistering? && phase.slot < |s.slots|
      case _ => phase == Cleared
  }

  ghost predicate PauserCan(s: State, p: Id, step: PauserStep) {
    if step.LocksToPause? then p !in s.pausers && s.mutex == None
    else
      p in s.pausers &&
      var phase := s.pausers[p];
      match step
      case Increments => phase == Incrementing
      case ResetsAck => phase == Resetting
      case UnlocksPause => phase == Unlocking
      case SeesAck => phase == Polling && s.acked
      case StopsPolling => phase == Polling
      case LocksToResume => phase.Holding? && s.mutex == None
      case Decrements => phase.Decrementing?
      case _ => phase == ResumeUnlocking
  }

  ghost predicate Enabled(s: State, step: Step) {
    match step
    case StopRunning => true
    case ReaderDoes(reader) => ReaderCan(s, reader)
    case ClientDoes(c, move) => ClientCan(s, c, move)
    case PauserDoes(p, pause) => PauserCan(s, p, pause)
  }

  /** The slot the reader is calling through is in use; a call through a cleared slot has no meaning. */
  predicate CalledOk(s: State) {
    var i := CalledSlot(s.pc);
    i.Some? && i.value < |s.slots| && s.slots[i.value].InUse? && s.slots[i.value].ctx in s.clients
  }

  function WithClient(s: State, c: Id, client: Client): State {
    s.(clients := s.clients[c := client])
  }

  function WithPauser(s: State, p: Id, phase: PausePhase): State {
    s.(pausers := s.pausers[p := phase])
  }

  function FirstFree(slots: seq<Slot>, i: nat): (r: Option<nat>)
    requires i <= |slots|
    ensures r.Some? ==> i <= r.value < |slots| && slots[r.value].Free?
    ensures r.Some? ==> forall k :: i <= k < r.value ==> slots[k].InUse?
    ensures r.None? ==> forall k :: i <= k < |slots| ==> slots[k].InUse?
    decreases |slots| - i
  {
    if i == |slots| then None else if slots[i].Free? then Some(i) else FirstFree(slots, i + 1)
  }

  ghost function ApplyReader(s: State, step: ReaderStep): State
    requires ReaderCan(s, step)
  {
    match step
    case PassesTop => s.(pc := if s.running then Sleeping else Stopped)
    case Wakes => s.(pc := Woken)
    case ChecksRunning => s.(pc := if s.running then TestPause else Stopped)
    case TestsPause => s.(pc := if s.pauseCount > 0 then SetAck else ClearAck)
    case SetsAck => s.(acked := true, pc := Top)
    case ClearsAck => s.(acked := false, pc := DrainTop)
    case PassesDrainTop => s.(pc := if s.running then DrainTest else Top)
    case TestsPauseAgain => s.(pc := if s.pauseCount > 0 then Top else Receiving)
    case Receives(received) =>
      s.(pc := if received.Some? && received.value != [] then Locking(received.value) else Top)
    case Locks =>
      s.(mutex := Some(Reader), pc := Scanning(s.pc.frame, 0), clients := AllDue(s.clients, s.pc.frame))
    case Scans =>
      if s.pc.i >= |s.slots| then s.(mutex := None, pc := DrainTop)
      else if s.slots[s.pc.i].Free? then s.(pc := Scanning(s.pc.frame, s.pc.i + 1))
      else s.(pc := InPredicate(s.pc.frame, s.pc.i))
    case Asks(answer) =>
      var frame, i := s.pc.frame, s.pc.i;
      var c := s.slots[i].ctx;
      var client := s.clients[c];
      if !client.isWait then
        WithClient(s, c, client.(wait := Noted(client.wait, frame, answer))).(
        pc := if answer then InHandler(frame, i) else Scanning(frame, i + 1))
      else if client.wait.matched then s.(pc := Scanning(frame, i + 1))
      else WithClient(s, c, client.(wait := Told(client.wait, frame, answer))).(
           pc := if answer then InHandler(frame, i) else Scanning(frame, i + 1))
    case Handles =>
      var frame, i := s.pc.frame, s.pc.i;
      var c := s.slots[i].ctx;
      var client := s.clients[c];
      if !client.isWait then
        WithClient(s, c, client.(wait := client.wait.(handled := client.wait.handled + [frame]))).(
        pc := Scanning(frame, i + 1))
      else if client.wait.matched then s.(pc := Scanning(frame, i + 1))
      else WithClient(s, c, client.(wait := client.wait.(matched := true))).(pc := InSignal(frame, i))
    case Signals =>
      var frame, i := s.pc.frame, s.pc.i;
      var client := s.clients[s.slots[i].ctx];
      WithClient(s, s.slots[i].ctx, client.(wait := Signalled(client.wait))).(pc := Scanning(frame, i + 1))
  }

  /** A predicate has answered. */
  function Noted(wait: Wait, frame: Frame, answer: bool): Wait {
    wait.(asked := wait.asked + [frame], answered := wait.answered + [answer])
  }

  /** The user's predicate of a wait has answered; a match has its length noted. */
  function Told(wait: Wait, frame: Frame, answer: bool): Wait {
    wait.(asked := wait.asked + [frame], answered := wait.answered + [answer],
          matchedLength := if answer then |frame| else wait.matchedLength)
  }

  function Signalled(wait: Wait): Wait {
    wait.(signal := wait.signal + 1, released := wait.released + 1)
  }

  /** Every registered client is now owed the frame. */
  ghost function AllDue(clients: map<Id, Client>, frame: Frame): map<Id, Client> {
    map c | c in clients :: Owed(clients[c], frame)
  }

  function Owed(client: Client, frame: Frame): Client {
    if SlotOf(client.phase).None? then client else client.(wait := client.wait.(due := client.wait.due + [frame]))
  }

  ghost function ApplyClient(s: State, c: Id, step: ClientStep): State
    requires ClientCan(s, c, step)
  {
    if step.Starts? then WithClient(s, c, Client(Created, step.wait, NEW_WAIT))
    else
      var client := s.clients[c];
      var phase, wait := client.phase, client.wait;
      match step
      case LocksToRegister => WithClient(s, c, client.(phase := Registering)).(mutex := Some(ByClient(c)))
      case FillsSlot =>
        var free := FirstFree(s.slots, 0);
        WithClient(s, c, client.(phase := Filled(free))).(
        slots := if free.None? then s.slots else s.slots[free.value := InUse(c)])
      case UnlocksRegister =>
        WithClient(s, c,
          client.(phase := if phase.taken.Some? then Registered(phase.taken.value) else Refused)).(mutex := None)
      case Triggers => WithClient(s, c, client.(phase := Asleep(phase.slot)))
      case AcquiresSignal =>
        WithClient(s, c,
          client.(phase := Reading(phase.slot),
            wait := wait.(signal := wait.signal - 1, acquired := wait.acquired + 1)))
      case ReadsLength =>
        WithClient(s, c,
          client.(phase := Leaving(phase.slot), wait := wait.(got := true, length := wait.matchedLength)))
      case GivesUp => WithClient(s, c, client.(phase := Leaving(phase.slot)))
      case LocksToUnregister =>
        WithClient(s, c, client.(phase := Unregistering(phase.slot))).(mutex := Some(ByClient(c)))
      case ClearsSlot => WithClient(s, c, client.(phase := Cleared)).(slots := s.slots[phase.slot := Free])
      case _ => WithClient(s, c, client.(phase := Returned)).(mutex := None)
  }

  ghost function ApplyPauser(s: State, p: Id, step: PauserStep): State
    requires PauserCan(s, p, step)
  {
    match step
    case LocksToPause => WithPauser(s, p, Incrementing).(mutex := Some(ByPauser(p)))
    case Increments => WithPauser(s, p, Resetting).(pauseCount := (s.pauseCount + 1) % 0x100)
    case ResetsAck => WithPauser(s, p, Unlocking).(acked := false)
    case UnlocksPause => WithPauser(s, p, Polling).(mutex := None)
    case SeesAck => WithPauser(s, p, Holding(true))
    case StopsPolling => WithPauser(s, p, Holding(false))
    case LocksToResume => WithPauser(s, p, Decrementing(s.pausers[p].seen)).(mutex := Some(ByPauser(p)))
    case Decrements =>
      WithPauser(s, p, ResumeUnlocking).(pauseCount := if s.pauseCount > 0 then s.pauseCount - 1 else 0)
    case UnlocksResume => WithPauser(s, p, Over).(mutex := None)
  }

  ghost function Apply(s: State, step: Step): State
    requires Enabled(s, step)
  {
    match step
    case StopRunning => s.(running := false)
    case ReaderDoes(reader) => ApplyReader(s, reader)
    case ClientDoes(c, move) => ApplyClient(s, c, move)
    case PauserDoes(p, pause) => ApplyPauser(s, p, pause)
  }

  /** A run from s through the listed steps. */
  ghost predicate CanRun(s: State, steps: seq<Step>)
    decreases |steps|
  {
    steps != [] ==> Enabled(s, steps[0]) && CanRun(Apply(s, steps[0]), steps[1..])
  }

  ghost function RunOf(s: State, steps: seq<Step>): State
    requires CanRun(s, steps)
    decreases |steps|
  {
    if steps == [] then s else RunOf(Apply(s, steps[0]), steps[1..])
  }

  // ---- The mutex ----

  predicate ReaderInside(pc: Pc) {
    pc.Scanning? || pc.InPredicate? || pc.InHandler? || pc.InSignal?
  }

  predicate ClientInside(phase: Phase) {
    phase.Registering? || phase.Filled? || phase.Unregistering? || phase.Cleared?
  }

  predicate PauserInside(phase: PausePhase) {
    phase.Incrementing? || phase.Resetting? || phase.Unlocking? || phase.Decrementing? || phase.ResumeUnlocking?
  }

  /** Exactly the thread inside a critical section holds the mutex. */
  predicate MutexOk(s: State) {
    && (s.mutex == Some(Reader) <==> ReaderInside(s.pc))
    && (forall c :: c in s.clients ==> (s.mutex == Some(ByClient(c)) <==> ClientInside(s.clients[c].phase)))
    && (forall p :: p in s.pausers ==> (s.mutex == Some(ByPauser(p)) <==> PauserInside(s.pausers[p])))
    && (s.mutex.Some? && s.mutex.value.ByClient? ==> s.mutex.value.client in s.clients)
    && (s.mutex.Some? && s.mutex.value.ByPauser? ==> s.mutex.value.pauser in s.pausers)
  }

  // What the three kinds of step leave alone.

  predicate SamePhases(a: map<Id, Client>, b: map<Id, Client>) {
    a.Keys == b.Keys && forall c :: c in a ==> a[c].phase == b[c].phase && a[c].isWait == b[c].isWait
  }

  ghost predicate SameExcept<T(!new)>(a: map<Id, T>, b: map<Id, T>, c: Id) {
    && c in b && b.Keys == a.Keys + {c}
    && forall k :: k in a && k != c ==> a[k] == b[k]
  }

  lemma ReaderFrame(s: State, step: ReaderStep)
    requires ReaderCan(s, step)
    ensures ReaderFrameOk(s, ApplyReader(s, step))
  {
    hide ApplyReader, ReaderCan, ReaderFrameOk;
    match step {
      case Locks => LocksFrame(s);
      case Asks(answer) => AsksFrame(s, answer);
      case Handles => HandlesFrame(s);
      case Signals => SignalsFrame(s);
      case _ => OutsideFrame(s, step);
    }
  }

  /** What no step of the reader changes. */
  predicate ReaderFrameOk(s: State, t: State) {
    t.slots == s.slots && t.pausers == s.pausers && t.pauseCount == s.pauseCount && SamePhases(s.clients, t.clients)
  }

  lemma LocksFrame(s: State)
    requires ReaderCan(s, Locks)
    ensures ReaderFrameOk(s, ApplyReader(s, Locks))
  {
    hide AllDue;
    AllDuePhases(s.clients, s.pc.frame);
  }

  lemma AsksFrame(s: State, answer: bool)
    requires ReaderCan(s, Asks(answer))
    ensures ReaderFrameOk(s, ApplyReader(s, Asks(answer)))
  {
    hide Told;
  }

  lemma HandlesFrame(s: State)
    requires ReaderCan(s, Handles)
    ensures ReaderFrameOk(s, ApplyReader(s, Handles))
  {
  }

  lemma SignalsFrame(s: State)
    requires ReaderCan(s, Signals)
    ensures ReaderFrameOk(s, ApplyReader(s, Signals))
  {
    hide Signalled;
  }

  lemma OutsideFrame(s: State, step: ReaderStep)
    requires ReaderCan(s, step) && !step.Locks? && !step.Asks? && !step.Handles? && !step.Signals?
    ensures ReaderFrameOk(s, ApplyReader(s, step))
  {
    hide AllDue, Told, Signalled, CalledOk;
  }

  lemma AllDuePhases(clients: map<Id, Client>, frame: Frame)
    ensures SamePhases(clients, AllDue(clients, frame))
  {
  }

  lemma ClientFrame(s: State, c: Id, step: ClientStep)
    requires ClientCan(s, c, step)
    ensures var t := ApplyClient(s, c, step);
      && t.pc == s.pc && t.pausers == s.pausers && t.pauseCount == s.pauseCount && t.acked == s.acked
      && SameExcept(s.clients, t.clients, c)
  {
    hide SlotOf, FirstFree;
  }

  lemma PauserFrame(s: State, p: Id, step: PauserStep)
    requires PauserCan(s, p, step)
    ensures var t := ApplyPauser(s, p, step);
      && t.pc == s.pc && t.clients == s.clients && t.slots == s.slots
      && SameExcept(s.pausers, t.pausers, p)
  {
  }

  /** A critical section entered, left, or neither. */
  predicate MutexMove(was: Option<Thread>, now: Option<Thread>, who: Thread, inside: bool, insideNow: bool) {
    || (now == was && inside == insideNow)
    || (was == None && now == Some(who) && !inside && insideNow)
    || (was == Some(who) && now == None && inside && !insideNow)
  }

  lemma ReaderMutex(s: State, step: ReaderStep)
    requires MutexOk(s) && ReaderCan(s, step)
    ensures var t := ApplyReader(s, step); MutexMove(s.mutex, t.mutex, Reader, ReaderInside(s.pc), ReaderInside(t.pc))
  {
    hide AllDue, Told, Signalled, CalledOk, SlotOf, MutexOk;
    ReaderHolds(s);
  }

  lemma ReaderHolds(s: State)
    requires MutexOk(s)
    ensures s.mutex == Some(Reader) <==> ReaderInside(s.pc)
  {
  }

  lemma ClientMutex(s: State, c: Id, step: ClientStep)
    requires MutexOk(s) && ClientCan(s, c, step)
    ensures var t := ApplyClient(s, c, step);
      c in t.clients &&
      var inside := c in s.clients && ClientInside(s.clients[c].phase);
      MutexMove(s.mutex, t.mutex, ByClient(c), inside, ClientInside(t.clients[c].phase))
  {
  }

  lemma PauserMutex(s: State, p: Id, step: PauserStep)
    requires MutexOk(s) && PauserCan(s, p, step)
    ensures var t := ApplyPauser(s, p, step);
      p in t.pausers &&
      MutexMove(s.mutex, t.mutex, ByPauser(p), p in s.pausers && PauserInside(s.pausers[p]), PauserInside(t.pausers[p]))
  {
  }

  lemma MutexKept(s: State, step: Step)
    requires MutexOk(s) && Enabled(s, step)
    ensures MutexOk(Apply(s, step))
  {
    hide ApplyReader, ApplyClient, ApplyPauser, ReaderCan, ClientCan, PauserCan;
    match step {
      case StopRunning =>
      case ReaderDoes(reader) =>
        ReaderFrame(s, reader);
        ReaderMutex(s, reader);
      case ClientDoes(c, move) =>
        ClientFrame(s, c, move);
        ClientMutex(s, c, move);
      case PauserDoes(p, pause) =>
        PauserFrame(s, p, pause);
        PauserMutex(s, p, pause);
    }
  }

  // ---- Slots ----

  predicate InRange(s: State, phase: Phase) {
    SlotOf(phase).Some? ==> SlotOf(phase).value < |s.slots|
  }

  /** Slots and clients point at each other. */
  predicate SlotsOk(s: State) {
    && |s.slots| == MAX_HANDLERS
    && (forall i :: 0 <= i < |s.slots| && s.slots[i].InUse? ==>
      s.slots[i].ctx in s.clients && SlotOf(s.clients[s.slots[i].ctx].phase) == Some(i))
    && (forall c :: c in s.clients ==> InRange(s, s.clients[c].phase))
    && (forall c :: c in s.clients && SlotOf(s.clients[c].phase).Some? ==>
      s.slots[SlotOf(s.clients[c].phase).value] == InUse(c))
  }

  lemma ClientSlots(s: State, c: Id, step: ClientStep)
    requires SlotsOk(s) && ClientCan(s, c, step)
    ensures var t := ApplyClient(s, c, step);
      c in t.clients &&
      var was, now := if c in s.clients then SlotOf(s.clients[c].phase) else None, SlotOf(t.clients[c].phase);
      || (t.slots == s.slots && now == was)
      || (was == None && now.Some? && now.value < |s.slots| && s.slots[now.value].Free? &&
        t.slots == s.slots[now.value := InUse(c)])
      || (was.Some? && now == None && t.slots == s.slots[was.value := Free])
  {
  }

  lemma SlotsKeptByClient(s: State, c: Id, step: ClientStep)
    requires SlotsOk(s) && ClientCan(s, c, step)
    ensures SlotsOk(ApplyClient(s, c, step))
  {
    hide ApplyClient, ClientCan;
    ClientFrame(s, c, step);
    ClientSlots(s, c, step);
  }

  lemma SlotsKept(s: State, step: Step)
    requires SlotsOk(s) && Enabled(s, step)
    ensures SlotsOk(Apply(s, step))
  {
    hide ApplyReader, ApplyClient, ApplyPauser, ReaderCan, ClientCan, PauserCan;
    match step {
      case StopRunning =>
      case ReaderDoes(reader) => ReaderFrame(s, reader);
      case ClientDoes(c, move) => SlotsKeptByClient(s, c, move);
      case PauserDoes(p, pause) => PauserFrame(s, p, pause);
    }
  }

  // ---- Calls ----

  /** A call in progress, and the scan, are inside the table; the called slot is in use. */
  predicate CallsOk(s: State) {
    && (s.pc.Scanning? ==> s.pc.i <= MAX_HANDLERS)
    && (CalledSlot(s.pc).Some? ==> CalledSlot(s.pc).value < |s.slots| && s.slots[CalledSlot(s.pc).value].InUse?)
  }

  lemma CallsKeptByReader(s: State, step: ReaderStep)
    requires SlotsOk(s) && CallsOk(s) && ReaderCan(s, step)
    ensures CallsOk(ApplyReader(s, step))
  {
    hide AllDue, Told, Signalled, SlotOf;
  }

  /** While the reader is inside, no client changes the table. */
  lemma SlotsStill(s: State, c: Id, step: ClientStep)
    requires MutexOk(s) && ClientCan(s, c, step) && ReaderInside(s.pc)
    ensures ApplyClient(s, c, step).slots == s.slots
  {
  }

  lemma CallsKept(s: State, step: Step)
    requires MutexOk(s) && SlotsOk(s) && CallsOk(s) && Enabled(s, step)
    ensures CallsOk(Apply(s, step))
  {
    hide ApplyReader, ApplyClient, ApplyPauser, ReaderCan, ClientCan, PauserCan, MutexOk, SlotsOk;
    match step {
      case StopRunning =>
      case ReaderDoes(reader) => CallsKeptByReader(s, reader);
      case ClientDoes(c, move) =>
        ClientFrame(s, c, move);
        if ReaderInside(s.pc) {
          SlotsStill(s, c, move);
        }
      case PauserDoes(p, pause) => PauserFrame(s, p, pause);
    }
  }

  // ---- Unregistering ----

  predicate RegistryOk(s: State) {
    MutexOk(s) && SlotsOk(s) && CallsOk(s)
  }

  lemma InitRegistry(s: State)
    requires Init(s)
    ensures RegistryOk(s)
  {
  }

  lemma RegistryKept(s: State, step: Step)
    requires RegistryOk(s) && Enabled(s, step)
    ensures RegistryOk(Apply(s, step))
  {
    hide Apply, Enabled, MutexOk, SlotsOk, CallsOk;
    MutexKept(s, step);
    SlotsKept(s, step);
    CallsKept(s, step);
  }

  /** The step runs the predicate or handler of client c, or releases its semaphore. */
  ghost predicate Touches(s: State, step: Step, c: Id) {
    && step.ReaderDoes? && (step.reader.Asks? || step.reader.Handles? || step.reader.Signals?)
    && CalledOk(s) && s.slots[CalledSlot(s.pc).value].ctx == c
  }

  /** Every call goes through a slot in use, to a client that has not finished unregistering. */
  lemma NoDanglingCall(s: State)
    requires RegistryOk(s) && CalledSlot(s.pc).Some?
    ensures CalledOk(s)
    ensures var phase := s.clients[s.slots[CalledSlot(s.pc).value].ctx].phase;
      phase.Registered? || phase.Asleep? || phase.Reading? || phase.Leaving?
  {
  }

  /** The reader writes only to clients that have a slot. */
  lemma ReaderWrites(s: State, step: ReaderStep, c: Id)
    requires SlotsOk(s) && ReaderCan(s, step) && c in s.clients && SlotOf(s.clients[c].phase) == None
    ensures var t := ApplyReader(s, step); c in t.clients && t.clients[c] == s.clients[c]
    ensures CalledOk(s) ==> s.slots[CalledSlot(s.pc).value].ctx != c
  {
    if CalledOk(s) {
      var i := CalledSlot(s.pc).value;
      assert SlotOf(s.clients[s.slots[i].ctx].phase) == Some(i);
    }
  }

  lemma ReturnedIsFinal(s: State, c: Id, move: ClientStep)
    requires ClientCan(s, c, move)
    ensures !ClientIn(s, c, Returned)
  {
  }

  lemma ReturnedUntouchedByStep(s: State, step: Step, c: Id)
    requires RegistryOk(s) && Enabled(s, step) && ClientIn(s, c, Returned)
    ensures !Touches(s, step, c)
    ensures c in Apply(s, step).clients && Apply(s, step).clients[c] == s.clients[c]
  {
    hide ApplyReader, ApplyClient, ApplyPauser, ReaderCan, ClientCan, PauserCan, MutexOk, CallsOk, SlotsOk;
    match step {
      case StopRunning =>
      case ReaderDoes(reader) => ReaderWrites(s, reader, c);
      case ClientDoes(d, move) =>
        ClientFrame(s, d, move);
        ReturnedIsFinal(s, d, move);
      case PauserDoes(p, pause) => PauserFrame(s, p, pause);
    }
  }

  /**
   Once rx_unregister has returned, no callback of that client ever runs again and its
   wait state and semaphore are never written, whatever all the threads do next.
   */
  lemma {:induction false} ReturnedUntouched(s: State, steps: seq<Step>, c: Id)
    requires RegistryOk(s) && CanRun(s, steps) && ClientIn(s, c, Returned)
    ensures ClientIn(RunOf(s, steps), c, Returned) && RunOf(s, steps).clients[c] == s.clients[c]
    ensures forall k :: 0 <= k < |steps| ==> CanRun(s, steps[..k]) && !Touches(RunOf(s, steps[..k]), steps[k], c)
    decreases |steps|
  {
    hide Apply, Enabled, RegistryOk, Touches;
    if steps != [] {
      ReturnedUntouchedByStep(s, steps[0], c);
      RegistryKept(s, steps[0]);
      var t := Apply(s, steps[0]);
      ReturnedUntouched(t, steps[1..], c);
      forall k | 0 <= k < |steps|
        ensures CanRun(s, steps[..k]) && !Touches(RunOf(s, steps[..k]), steps[k], c)
      {
        if k > 0 {
          assert steps[..k][0] == steps[0] && steps[..k][1..] == steps[1..][..k - 1] && steps[1..][k - 1] == steps[k];
        }
      }
    }
  }

  // ---- Pausing ----

  /** The reader is asleep or about to look at the pause count before anything else. */
  predicate Quiet(pc: Pc) {
    pc.Top? || pc.Sleeping? || pc.Woken? || pc.TestPause? || pc.SetAck? || pc.Stopped?
  }

  /** The pause has been counted and not yet been taken back. */
  predicate Held(phase: PausePhase) {
    phase.Resetting? || phase.Unlocking? || phase.Polling? || phase.Holding? || phase.Decrementing?
  }

  function HeldBy(pausers: map<Id, PausePhase>): set<Id> {
    set p | p in pausers && Held(pausers[p])
  }

  /** The counter is one byte wide; it counts right as long as no more than 255 pauses are held. */
  predicate CountOk(s: State) {
    s.pauseCount as int == |HeldBy(s.pausers)|
  }

  predicate SawAck(phase: PausePhase) {
    (phase.Holding? || phase.Decrementing?) && phase.seen
  }

  /** An acknowledgement that stands after a pauser's reset, or that it has seen, was given by a quiet reader. */
  predicate PauseOk(s: State) {
    && (forall p :: p in s.pausers && (s.pausers[p] == Unlocking || s.pausers[p] == Polling) && s.acked ==> Quiet(s.pc))
    && (forall p :: p in s.pausers && SawAck(s.pausers[p]) ==> Quiet(s.pc))
  }

  lemma HeldCounted(s: State, p: Id)
    requires CountOk(s) && p in s.pausers && Held(s.pausers[p])
    ensures s.pauseCount > 0
  {
    assert p in HeldBy(s.pausers);
  }

  /** With a pause held, a quiet reader stays quiet, and an acknowledgement is given only by a quiet one. */
  lemma QuietKept(s: State, step: ReaderStep)
    requires ReaderCan(s, step)
    ensures var t := ApplyReader(s, step);
      && (Quiet(s.pc) && s.pauseCount > 0 ==> Quiet(t.pc))
      && (t.acked ==> s.acked || Quiet(t.pc))
  {
  }

  lemma PauseKeptByReader(s: State, step: ReaderStep)
    requires CountOk(s) && PauseOk(s) && ReaderCan(s, step)
    ensures PauseOk(ApplyReader(s, step))
  {
    hide ApplyReader, ReaderCan, Quiet, CountOk;
    var t := ApplyReader(s, step);
    ReaderFrame(s, step);
    QuietKept(s, step);
    forall p | p in t.pausers &&
      (((t.pausers[p] == Unlocking || t.pausers[p] == Polling) && t.acked) || SawAck(t.pausers[p]))
      ensures Quiet(t.pc)
    {
      HeldCounted(s, p);
    }
  }

  lemma PauserFlags(s: State, p: Id, step: PauserStep)
    requires PauserCan(s, p, step)
    ensures var t := ApplyPauser(s, p, step);
      p in t.pausers && (t.acked ==> s.acked) &&
      var was, now := if p in s.pausers then s.pausers[p] else Over, t.pausers[p];
      && (now == Unlocking ==> !t.acked)
      && (now == Polling ==> was == Unlocking)
      && (SawAck(now) ==> SawAck(was) || (was == Polling && s.acked))
  {
  }

  lemma PauseKeptByPauser(s: State, p: Id, step: PauserStep)
    requires PauseOk(s) && PauserCan(s, p, step)
    ensures PauseOk(ApplyPauser(s, p, step))
  {
    hide ApplyPauser, PauserCan, Quiet;
    PauserFrame(s, p, step);
    PauserFlags(s, p, step);
  }

  lemma PauseKept(s: State, step: Step)
    requires CountOk(s) && PauseOk(s) && Enabled(s, step)
    ensures PauseOk(Apply(s, step))
  {
    hide ApplyReader, ApplyClient, ApplyPauser, ReaderCan, ClientCan, PauserCan, CountOk;
    match step {
      case StopRunning =>
      case ReaderDoes(reader) => PauseKeptByReader(s, reader);
      case ClientDoes(c, move) => ClientFrame(s, c, move);
      case PauserDoes(p, pause) => PauseKeptByPauser(s, p, pause);
    }
  }

  predicate WithinCounter(s: State) {
    |HeldBy(s.pausers)| <= 255
  }

  lemma PauserCount(s: State, p: Id, step: PauserStep)
    requires PauserCan(s, p, step)
    ensures var t := ApplyPauser(s, p, step);
      p in t.pausers &&
      var was, now := p in s.pausers && Held(s.pausers[p]), Held(t.pausers[p]);
      || (was == now && t.pauseCount == s.pauseCount)
      || (!was && now && t.pauseCount as int == (s.pauseCount as int + 1) % 256)
      || (was && !now && t.pauseCount as int == if s.pauseCount > 0 then s.pauseCount as int - 1 else 0)
  {
  }

  lemma CountKept(s: State, step: Step)
    requires CountOk(s) && Enabled(s, step) && WithinCounter(Apply(s, step))
    ensures CountOk(Apply(s, step))
  {
    hide ApplyReader, ApplyClient, ApplyPauser, ReaderCan, ClientCan, PauserCan, Held;
    match step {
      case StopRunning =>
      case ReaderDoes(reader) => ReaderFrame(s, reader);
      case ClientDoes(c, move) => ClientFrame(s, c, move);
      case PauserDoes(p, pause) =>
        PauserFrame(s, p, pause);
        PauserCount(s, p, pause);
        HeldChange(s.pausers, ApplyPauser(s, p, pause).pausers, p);
    }
  }

  lemma HeldChange(a: map<Id, PausePhase>, b: map<Id, PausePhase>, p: Id)
    requires SameExcept(a, b, p)
    ensures var was, now := p in a && Held(a[p]), Held(b[p]);
      |HeldBy(b)| == |HeldBy(a)| + (if now then 1 else 0) - (if was then 1 else 0)
  {
    hide Held;
    SameWithout(HeldBy(a), HeldBy(b), p);
    SizeWithout(HeldBy(a), p);
    SizeWithout(HeldBy(b), p);
  }

  lemma SameWithout(a: set<Id>, b: set<Id>, p: Id)
    requires forall q: Id :: q != p ==> (q in a <==> q in b)
    ensures a - {p} == b - {p}
  {
  }

  lemma SizeWithout(ids: set<Id>, p: Id)
    ensures |ids| == |ids - {p}| + if p in ids then 1 else 0
  {
    if p in ids {
      assert ids == (ids - {p}) + {p};
    } else {
      assert ids == ids - {p};
    }
  }

  /** In no state on the way are more pauses held than the limit. */
  ghost predicate HeldAtMost(s: State, steps: seq<Step>, limit: nat)
    requires CanRun(s, steps)
    decreases |steps|
  {
    |HeldBy(s.pausers)| <= limit && (steps != [] ==> HeldAtMost(Apply(s, steps[0]), steps[1..], limit))
  }

  predicate PauseInvariant(s: State) {
    CountOk(s) && PauseOk(s)
  }

  lemma InitPause(s: State)
    requires Init(s)
    ensures PauseInvariant(s)
  {
    assert HeldBy(s.pausers) == {};
  }

  /**
   A pauser that has seen the acknowledgement keeps the reader away from receive_packet
   until it takes its pause back: no interleaving has a receive in between.
   */
  lemma {:induction false} NoReceiveWhilePaused(s: State, steps: seq<Step>, p: Id)
    requires PauseInvariant(s) && CanRun(s, steps) && HeldAtMost(s, steps, 255)
    requires p in s.pausers && SawAck(s.pausers[p])
    requires PauserDoes(p, Decrements) !in steps
    ensures forall k :: 0 <= k < |steps| ==> !(steps[k].ReaderDoes? && steps[k].reader.Receives?)
    ensures PauseInvariant(RunOf(s, steps)) && Quiet(RunOf(s, steps).pc)
    decreases |steps|
  {
    hide Apply, CountOk, PauseOk, WithinCounter;
    QuietOf(s, p);
    if steps != [] {
      var t := Apply(s, steps[0]);
      HeldNext(s, steps);
      CountKept(s, steps[0]);
      PauseKept(s, steps[0]);
      SawAckKept(s, steps[0], p);
      NoReceive(s, steps[0]);
      NoReceiveWhilePaused(t, steps[1..], p);
      forall k | 0 <= k < |steps|
        ensures !(steps[k].ReaderDoes? && steps[k].reader.Receives?)
      {
        if k > 0 {
          assert steps[k] == steps[1..][k - 1];
        }
      }
    }
  }

  /** The two invariants hold in every state reached while no more than 255 pauses are held. */
  lemma {:induction false} ReachablePause(s: State, steps: seq<Step>)
    requires PauseInvariant(s) && CanRun(s, steps) && HeldAtMost(s, steps, 255)
    ensures PauseInvariant(RunOf(s, steps))
    decreases |steps|
  {
    hide Apply, CountOk, PauseOk, WithinCounter, Enabled;
    if steps != [] {
      HeldNext(s, steps);
      CountKept(s, steps[0]);
      PauseKept(s, steps[0]);
      ReachablePause(Apply(s, steps[0]), steps[1..]);
    }
  }

  /** The handshake over whole runs: after the acknowledgement is seen, and before the resume, nothing is received. */
  lemma PauseHandshake(s: State, before: seq<Step>, after: seq<Step>, p: Id)
    requires Init(s) && CanRun(s, before) && CanRun(RunOf(s, before), after)
    requires HeldAtMost(s, before, 255) && HeldAtMost(RunOf(s, before), after, 255)
    requires PauserIn(RunOf(s, before), p, Holding(true))
    requires PauserDoes(p, Decrements) !in after
    ensures forall k :: 0 <= k < |after| ==> !(after[k].ReaderDoes? && after[k].reader.Receives?)
  {
    hide Init, CanRun, RunOf, HeldAtMost, PauseInvariant;
    InitPause(s);
    ReachablePause(s, before);
    NoReceiveWhilePaused(RunOf(s, before), after, p);
  }

  lemma QuietOf(s: State, p: Id)
    requires PauseOk(s) && p in s.pausers && SawAck(s.pausers[p])
    ensures Quiet(s.pc)
  {
  }

  lemma HeldNext(s: State, steps: seq<Step>)
    requires CanRun(s, steps) && HeldAtMost(s, steps, 255) && steps != []
    ensures HeldAtMost(Apply(s, steps[0]), steps[1..], 255) && WithinCounter(Apply(s, steps[0]))
  {
    hide Apply;
  }

  lemma NoReceive(s: State, step: Step)
    requires Quiet(s.pc) && Enabled(s, step)
    ensures !(step.ReaderDoes? && step.reader.Receives?)
  {
  }

  lemma SawAckKept(s: State, step: Step, p: Id)
    requires Enabled(s, step) && step != PauserDoes(p, Decrements)
    requires p in s.pausers && SawAck(s.pausers[p])
    ensures p in Apply(s, step).pausers && SawAck(Apply(s, step).pausers[p])
  {
    hide ApplyReader, ApplyClient, ReaderCan, ClientCan;
    match step {
      case StopRunning =>
      case ReaderDoes(reader) => ReaderFrame(s, reader);
      case ClientDoes(c, move) => ClientFrame(s, c, move);
      case PauserDoes(q, pause) =>
    }
  }

  // ---- One pause too many ----

  lemma {:induction false} RunConcat(s: State, a: seq<Step>, b: seq<Step>)
    requires CanRun(s, a) && CanRun(RunOf(s, a), b)
    ensures CanRun(s, a + b) && RunOf(s, a + b) == RunOf(RunOf(s, a), b)
    decreases |a|
  {
    hide Apply, Enabled;
    if a == [] {
      assert a + b == b;
    } else {
      assert (a + b)[1..] == a[1..] + b && (a + b)[0] == a[0];
      RunConcat(Apply(s, a[0]), a[1..], b);
    }
  }

  lemma RunCons(s: State, step: Step, rest: seq<Step>)
    requires Enabled(s, step) && CanRun(Apply(s, step), rest)
    ensures CanRun(s, [step] + rest) && RunOf(s, [step] + rest) == RunOf(Apply(s, step), rest)
  {
    hide Apply, Enabled;
    assert ([step] + rest)[1..] == rest;
  }

  lemma RunNothing(s: State)
    ensures CanRun(s, []) && RunOf(s, []) == s
  {
  }

  lemma RunTwo(s: State, a: Step, b: Step)
    requires Enabled(s, a) && Enabled(Apply(s, a), b)
    ensures CanRun(s, [a, b]) && RunOf(s, [a, b]) == Apply(Apply(s, a), b)
  {
    hide CanRun, RunOf, Apply, Enabled;
    RunNothing(Apply(Apply(s, a), b));
    RunCons(Apply(s, a), b, []);
    RunCons(s, a, [b] + []);
    assert [a] + ([b] + []) == [a, b];
  }

  lemma RunThree(s: State, a: Step, b: Step, c: Step)
    requires Enabled(s, a) && Enabled(Apply(s, a), b) && Enabled(Apply(Apply(s, a), b), c)
    ensures CanRun(s, [a, b, c]) && RunOf(s, [a, b, c]) == Apply(Apply(Apply(s, a), b), c)
  {
    hide CanRun, RunOf, Apply, Enabled;
    RunTwo(Apply(s, a), b, c);
    RunCons(s, a, [b, c]);
    assert [a] + [b, c] == [a, b, c];
  }

  /** Pausers 0 to n-1 hold, and the first has seen its acknowledgement. */
  ghost predicate Nested(s: State, n: nat) {
    && s.running && s.mutex == None && s.pauseCount as int == n % 256
    && (forall p: Id :: p in s.pausers <==> p < n)
    && (forall p :: p in s.pausers ==> s.pausers[p].Holding?)
    && (n > 0 ==> s.pausers[0] == Holding(true))
  }

  /** Pauser n is on its way; the others hold. */
  ghost predicate Pausing(s: State, n: nat, phase: PausePhase) {
    && s.running && s.pauseCount as int == (n + 1) % 256
    && (forall p: Id :: p in s.pausers <==> p <= n)
    && s.pausers[n] == phase
    && (forall p :: p in s.pausers && p != n ==> s.pausers[p].Holding?)
    && (n > 0 ==> s.pausers[0] == Holding(true))
  }

  /** No pauser but the first n takes a step. */
  predicate OnlyFirst(steps: seq<Step>, n: nat) {
    forall k :: 0 <= k < |steps| && steps[k].PauserDoes? ==> steps[k].pauser < n
  }

  lemma PauseBegins(s: State, n: nat) returns (steps: seq<Step>)
    requires Nested(s, n)
    ensures CanRun(s, steps) && OnlyFirst(steps, n + 1)
    ensures var t := RunOf(s, steps); Pausing(t, n, Unlocking) && t.mutex == Some(ByPauser(n)) && t.pc == s.pc
  {
    hide CanRun, RunOf, ApplyReader, ReaderCan, ApplyClient, ClientCan;
    RunThree(s, PauserDoes(n, LocksToPause), PauserDoes(n, Increments), PauserDoes(n, ResetsAck));
    steps := [PauserDoes(n, LocksToPause), PauserDoes(n, Increments), PauserDoes(n, ResetsAck)];
  }

  lemma PauseUnlocks(s: State, n: nat) returns (steps: seq<Step>)
    requires Pausing(s, n, Unlocking) && s.mutex == Some(ByPauser(n))
    ensures CanRun(s, steps) && OnlyFirst(steps, n + 1)
    ensures var t := RunOf(s, steps); Pausing(t, n, Polling) && t.mutex == None && t.pc == s.pc
  {
    hide CanRun, RunOf, ApplyReader, ReaderCan, ApplyClient, ClientCan;
    RunNothing(Apply(s, PauserDoes(n, UnlocksPause)));
    RunCons(s, PauserDoes(n, UnlocksPause), []);
    steps := [PauserDoes(n, UnlocksPause)] + [];
  }

  /** A pause whose polling is cut short. */
  lemma PauseGivesUp(s: State, n: nat) returns (steps: seq<Step>)
    requires Pausing(s, n, Polling) && s.mutex == None && n > 0
    ensures CanRun(s, steps) && OnlyFirst(steps, n + 1)
    ensures var t := RunOf(s, steps); Nested(t, n + 1) && t.pc == s.pc
  {
    hide CanRun, RunOf, ApplyReader, ReaderCan, ApplyClient, ClientCan;
    RunNothing(Apply(s, PauserDoes(n, StopsPolling)));
    RunCons(s, PauserDoes(n, StopsPolling), []);
    steps := [PauserDoes(n, StopsPolling)] + [];
  }

  /** One more pause. */
  lemma NestOneMore(s: State, n: nat) returns (steps: seq<Step>)
    requires Nested(s, n) && n > 0
    ensures CanRun(s, steps) && OnlyFirst(steps, n + 1)
    ensures var t := RunOf(s, steps); Nested(t, n + 1) && t.pc == s.pc
  {
    hide CanRun, RunOf, Nested, Pausing;
    var a := PauseBegins(s, n);
    var b := PauseUnlocks(RunOf(s, a), n);
    RunConcat(s, a, b);
    var c := PauseGivesUp(RunOf(s, a + b), n);
    RunConcat(s, a + b, c);
    steps := a + b + c;
  }

  /** The first pause, acknowledged. */
  lemma NestFirst(s: State) returns (steps: seq<Step>)
    requires Init(s)
    ensures CanRun(s, steps) && OnlyFirst(steps, 1)
    ensures var t := RunOf(s, steps); Nested(t, 1) && t.pc == Sleeping
  {
    hide CanRun, RunOf, Pausing;
    var a := PauseBegins(s, 0);
    var b := PauseUnlocks(RunOf(s, a), 0);
    RunConcat(s, a, b);
    var c := FirstAck(RunOf(s, a + b));
    RunConcat(s, a + b, c);
    steps := a + b + c;
  }

  lemma FirstAck(s: State) returns (steps: seq<Step>)
    requires Pausing(s, 0, Polling) && s.mutex == None && s.pc == Top
    ensures CanRun(s, steps) && OnlyFirst(steps, 1)
    ensures var t := RunOf(s, steps); Nested(t, 1) && t.pc == Sleeping
  {
    hide CanRun, RunOf, Nested, Pausing;
    var a := ReaderWakes(s);
    var b := ReaderAcks(RunOf(s, a));
    RunConcat(s, a, b);
    var c := PauserSees(RunOf(s, a + b));
    RunConcat(s, a + b, c);
    steps := a + b + c;
  }

  lemma ReaderWakes(s: State) returns (steps: seq<Step>)
    requires Pausing(s, 0, Polling) && s.mutex == None && s.pc == Top
    ensures CanRun(s, steps) && OnlyFirst(steps, 1)
    ensures var t := RunOf(s, steps); Pausing(t, 0, Polling) && t.mutex == None && t.pc == TestPause
  {
    hide CanRun, RunOf, ApplyClient, ClientCan, ApplyPauser, PauserCan, AllDue, CalledOk, Told, Signalled;
    RunThree(s, ReaderDoes(PassesTop), ReaderDoes(Wakes), ReaderDoes(ChecksRunning));
    steps := [ReaderDoes(PassesTop), ReaderDoes(Wakes), ReaderDoes(ChecksRunning)];
  }

  lemma ReaderAcks(s: State) returns (steps: seq<Step>)
    requires Pausing(s, 0, Polling) && s.mutex == None && s.pc == TestPause
    ensures CanRun(s, steps) && OnlyFirst(steps, 1)
    ensures var t := RunOf(s, steps); Pausing(t, 0, Polling) && t.mutex == None && t.pc == Top && t.acked
  {
    hide CanRun, RunOf, ApplyClient, ClientCan, ApplyPauser, PauserCan, AllDue, CalledOk, Told, Signalled;
    RunTwo(s, ReaderDoes(TestsPause), ReaderDoes(SetsAck));
    steps := [ReaderDoes(TestsPause), ReaderDoes(SetsAck)];
  }

  lemma PauserSees(s: State) returns (steps: seq<Step>)
    requires Pausing(s, 0, Polling) && s.mutex == None && s.pc == Top && s.acked
    ensures CanRun(s, steps) && OnlyFirst(steps, 1)
    ensures var t := RunOf(s, steps); Nested(t, 1) && t.pc == Sleeping
  {
    hide CanRun, RunOf, ApplyClient, ClientCan, AllDue, CalledOk, Told, Signalled;
    RunTwo(s, PauserDoes(0, SeesAck), ReaderDoes(PassesTop));
    steps := [PauserDoes(0, SeesAck), ReaderDoes(PassesTop)];
  }

  lemma {:induction false} NestMany(s: State, n: nat) returns (steps: seq<Step>)
    requires Init(s) && n > 0
    ensures CanRun(s, steps) && OnlyFirst(steps, n)
    ensures var t := RunOf(s, steps); Nested(t, n) && t.pc == Sleeping
    decreases n
  {
    hide Apply, Enabled, Nested;
    if n == 1 {
      steps := NestFirst(s);
    } else {
      var a := NestMany(s, n - 1);
      var b := NestOneMore(RunOf(s, a), n - 1);
      RunConcat(s, a, b);
      steps := a + b;
    }
  }

  /** A pauser that never takes a step holds nothing. */
  lemma {:induction false} FewHeld(s: State, steps: seq<Step>, n: nat)
    requires CanRun(s, steps) && OnlyFirst(steps, n) && forall p :: p in s.pausers ==> p < n
    ensures HeldAtMost(s, steps, n)
    decreases |steps|
  {
    hide Apply, Enabled;
    HeldBelow(s.pausers, n);
    if steps != [] {
      PausersBelow(s, steps[0], n);
      assert forall k :: 0 <= k < |steps[1..]| ==> steps[1..][k] == steps[k + 1];
      FewHeld(Apply(s, steps[0]), steps[1..], n);
    }
  }

  lemma PausersBelow(s: State, step: Step, n: nat)
    requires Enabled(s, step) && (step.PauserDoes? ==> step.pauser < n) && forall p :: p in s.pausers ==> p < n
    ensures forall p :: p in Apply(s, step).pausers ==> p < n
  {
    hide ApplyReader, ApplyClient, ApplyPauser, ReaderCan, ClientCan, PauserCan;
    match step {
      case PauserDoes(p, pause) => PauserFrame(s, p, pause);
      case _ => PausersStill(s, step);
    }
  }

  lemma {:induction false} HeldBelow(pausers: map<Id, PausePhase>, n: nat)
    requires forall p :: p in pausers ==> p < n
    ensures |HeldBy(pausers)| <= n
  {
    hide Held;
    var ids := HeldBy(pausers);
    BelowSize(ids, n);
  }

  lemma {:induction false} BelowSize(ids: set<Id>, n: nat)
    requires forall p :: p in ids ==> p < n
    ensures |ids| <= n
  {
    if n > 0 {
      SizeWithout(ids, n - 1);
      BelowSize(ids - {n - 1}, n - 1);
    } else {
      assert ids == {};
    }
  }

  /**
   The bound is exact: with one pause more held at once the claim fails. In this run never
   more than 256 are held; the 256th turns the counter to zero, and the reader receives
   while the first pauser, which has seen its acknowledgement, still holds.
   */
  lemma CounterWraps(s: State) returns (steps: seq<Step>, k: nat)
    requires Init(s)
    ensures CanRun(s, steps) && k < |steps| && CanRun(s, steps[..k])
    ensures var t := RunOf(s, steps[..k]); 0 in t.pausers && t.pausers[0] == Holding(true)
    ensures steps[k] == ReaderDoes(Receives(None))
    ensures forall j :: k <= j < |steps| ==> !steps[j].PauserDoes?
    ensures HeldAtMost(s, steps, 256)
  {
    var a := NestMany(s, 256);
    var t := RunOf(s, a);
    var b := WrappedReceive(t);
    RunConcat(s, a, b);
    RunSplit(t, b, 6);
    RunConcat(s, a, b[..6]);
    steps, k := a + b, |a| + 6;
    assert steps[..k] == a + b[..6];
    FewHeld(s, steps, 256);
  }

  lemma {:induction false} RunSplit(s: State, steps: seq<Step>, k: nat)
    requires CanRun(s, steps) && k <= |steps|
    ensures CanRun(s, steps[..k])
    ensures (forall j :: 0 <= j < k ==> !steps[j].PauserDoes?) ==> RunOf(s, steps[..k]).pausers == s.pausers
    decreases |steps|
  {
    hide Enabled;
    if k > 0 {
      RunSplit(Apply(s, steps[0]), steps[1..], k - 1);
      assert steps[..k][1..] == steps[1..][..k - 1];
      if forall j :: 0 <= j < k ==> !steps[j].PauserDoes? {
        assert forall j :: 0 <= j < k - 1 ==> steps[1..][j] == steps[j + 1];
        PausersStill(s, steps[0]);
      }
    }
  }

  lemma PausersStill(s: State, step: Step)
    requires Enabled(s, step) && !step.PauserDoes?
    ensures Apply(s, step).pausers == s.pausers
  {
    hide ApplyReader, ApplyClient, ReaderCan, ClientCan;
    match step {
      case StopRunning =>
      case ReaderDoes(reader) => ReaderFrame(s, reader);
      case ClientDoes(c, move) => ClientFrame(s, c, move);
    }
  }

  /** With the counter at zero the sleeping reader goes on to receive. */
  lemma WrappedReceive(s: State) returns (steps: seq<Step>)
    requires Nested(s, 256) && s.pc == Sleeping
    ensures CanRun(s, steps) && |steps| == 7 && steps[6] == ReaderDoes(Receives(None))
    ensures forall j :: 0 <= j < |steps| ==> steps[j].ReaderDoes?
  {
    var a := WrappedWake(s);
    var b := DrainReceive(RunOf(s, a));
    RunConcat(s, a, b);
    steps := a + b;
  }

  lemma WrappedWake(s: State) returns (steps: seq<Step>)
    requires s.running && s.pc == Sleeping && s.pauseCount == 0
    ensures CanRun(s, steps) && |steps| == 3 && forall j :: 0 <= j < |steps| ==> steps[j].ReaderDoes?
    ensures var t := RunOf(s, steps); t.running && t.pc == ClearAck && t.pauseCount == 0
  {
    hide CanRun, RunOf, ApplyClient, ClientCan, ApplyPauser, PauserCan, AllDue, CalledOk, Told, Signalled;
    RunThree(s, ReaderDoes(Wakes), ReaderDoes(ChecksRunning), ReaderDoes(TestsPause));
    steps := [ReaderDoes(Wakes), ReaderDoes(ChecksRunning), ReaderDoes(TestsPause)];
  }

  lemma DrainReceive(s: State) returns (steps: seq<Step>)
    requires s.running && s.pc == ClearAck && s.pauseCount == 0
    ensures CanRun(s, steps) && |steps| == 4 && steps[3] == ReaderDoes(Receives(None))
    ensures forall j :: 0 <= j < |steps| ==> steps[j].ReaderDoes?
  {
    hide CanRun, RunOf, ApplyClient, ClientCan, ApplyPauser, PauserCan, AllDue, CalledOk, Told, Signalled;
    var a, b := [ReaderDoes(ClearsAck), ReaderDoes(PassesDrainTop)],
      [ReaderDoes(TestsPauseAgain), ReaderDoes(Receives(None))];
    RunTwo(s, ReaderDoes(ClearsAck), ReaderDoes(PassesDrainTop));
    RunTwo(RunOf(s, a), ReaderDoes(TestsPauseAgain), ReaderDoes(Receives(None)));
    RunConcat(s, a, b);
    steps := a + b;
  }

  // ---- How soon a pause or a stop takes effect ----

  /** How many packets the steps receive. */
  function Receipts(steps: seq<Step>): nat {
    if steps == [] then 0
    else (if steps[0].ReaderDoes? && steps[0].reader.Receives? then 1 else 0) + Receipts(steps[1..])
  }

  /** At every step of the run some pause is counted. */
  ghost predicate PausedThroughout(s: State, steps: seq<Step>)
    requires CanRun(s, steps)
    decreases |steps|
  {
    steps != [] ==> s.pauseCount > 0 && PausedThroughout(Apply(s, steps[0]), steps[1..])
  }

  lemma NoNewReceipt(s: State, step: Step)
    requires Enabled(s, step) && (s.pauseCount > 0 || (!s.running && s.pc != DrainTest))
    ensures var t := Apply(s, step);
      && (t.pc == Receiving ==> s.pc == Receiving && !(step.ReaderDoes? && step.reader.Receives?))
      && (step.ReaderDoes? && step.reader.Receives? ==> s.pc == Receiving)
  {
    hide ApplyClient, ClientCan, ApplyPauser, PauserCan, AllDue, Told, Noted, Signalled;
    PcMoves(s, step);
  }

  /** Only the reader moves its program counter. */
  lemma PcMoves(s: State, step: Step)
    requires Enabled(s, step)
    ensures !step.ReaderDoes? ==> Apply(s, step).pc == s.pc
    ensures step != StopRunning ==> Apply(s, step).running == s.running
  {
    hide AllDue, Told, Noted, Signalled, FirstFree, SlotOf, CalledOk;
  }

  /** While pauses are counted at most one packet is received: the one the reader was about to receive. */
  lemma {:induction false} PauseStopsReceipt(s: State, steps: seq<Step>)
    requires CanRun(s, steps) && PausedThroughout(s, steps)
    ensures Receipts(steps) <= if s.pc == Receiving then 1 else 0
    decreases |steps|
  {
    hide Apply, Enabled;
    if steps != [] {
      NoNewReceipt(s, steps[0]);
      PauseStopsReceipt(Apply(s, steps[0]), steps[1..]);
    }
  }

  lemma StoppedStep(s: State, step: Step)
    requires Enabled(s, step) && !s.running && s.pc != DrainTest
    ensures Apply(s, step).pc != DrainTest
  {
    hide ApplyClient, ClientCan, ApplyPauser, PauserCan, AllDue, Told, Noted, Signalled;
    PcMoves(s, step);
  }

  /** After a stop at most one packet is received, from whatever state. */
  lemma {:induction false} StoppedReceipts(s: State, steps: seq<Step>)
    requires !s.running && CanRun(s, steps)
    ensures Receipts(steps) <= if s.pc == Receiving || s.pc == DrainTest then 1 else 0
    decreases |steps|
  {
    hide Apply, Enabled;
    if steps != [] {
      if s.pc != DrainTest {
        StoppedStep(s, steps[0]);
        NoNewReceipt(s, steps[0]);
      } else {
        NoReceiptFrom(s, steps[0]);
      }
      StaysStopped(s, steps[0]);
      StoppedReceipts(Apply(s, steps[0]), steps[1..]);
    }
  }

  lemma NoReceiptFrom(s: State, step: Step)
    requires Enabled(s, step) && s.pc == DrainTest
    ensures !(step.ReaderDoes? && step.reader.Receives?)
  {
  }

  lemma StaysStopped(s: State, step: Step)
    requires Enabled(s, step) && !s.running
    ensures !Apply(s, step).running
  {
    hide AllDue, Told, Noted, Signalled, FirstFree, SlotOf, CalledOk;
  }

  /** From the moment the dispatcher is stopped, the reader receives at most one more packet. */
  lemma StopEndsReceipt(s: State, steps: seq<Step>)
    requires CanRun(s, [StopRunning] + steps)
    ensures Receipts([StopRunning] + steps) <= 1
  {
    assert ([StopRunning] + steps)[1..] == steps;
    StoppedReceipts(Apply(s, StopRunning), steps);
  }

  /** The reader drains the chip, or is about to. */
  predicate Draining(pc: Pc) {
    pc.DrainTop? || pc.DrainTest? || pc.Receiving? || pc.Locking? || ReaderInside(pc)
  }

  lemma ReaderAck(s: State, step: ReaderStep)
    requires ReaderCan(s, step) && (s.acked ==> !Draining(s.pc))
    ensures var t := ApplyReader(s, step); t.acked ==> !Draining(t.pc)
  {
    hide AllDue, Told, Noted, Signalled, CalledOk;
  }

  lemma PauserAck(s: State, p: Id, step: PauserStep)
    requires PauserCan(s, p, step)
    ensures var t := ApplyPauser(s, p, step); t.pc == s.pc && (t.acked ==> s.acked)
  {
  }

  lemma AckStep(s: State, step: Step)
    requires Enabled(s, step) && (s.acked ==> !Draining(s.pc))
    ensures var t := Apply(s, step); t.acked ==> !Draining(t.pc)
  {
    hide ApplyReader, ReaderCan, ApplyClient, ClientCan, ApplyPauser, PauserCan, Draining;
    match step {
      case StopRunning =>
      case ReaderDoes(reader) => ReaderAck(s, reader);
      case ClientDoes(c, move) => ClientFrame(s, c, move);
      case PauserDoes(p, pause) => PauserAck(s, p, pause);
    }
  }

  /** In every reachable state: while an acknowledgement stands the reader is not draining the chip. */
  lemma {:induction false} AckMeansQuiet(s: State, steps: seq<Step>)
    requires CanRun(s, steps) && (s.acked ==> !Draining(s.pc))
    ensures var t := RunOf(s, steps); t.acked ==> !Draining(t.pc)
    decreases |steps|
  {
    hide Apply, Enabled, Draining;
    if steps != [] {
      AckStep(s, steps[0]);
      AckMeansQuiet(Apply(s, steps[0]), steps[1..]);
    }
  }

  lemma ReachableAck(s: State, steps: seq<Step>)
    requires Init(s) && CanRun(s, steps)
    ensures var t := RunOf(s, steps); t.acked ==> !Draining(t.pc)
  {
    hide CanRun, RunOf;
    AckMeansQuiet(s, steps);
  }

  lemma Resumes(s: State) returns (steps: seq<Step>)
    requires Nested(s, 1) && s.pc == Sleeping
    ensures CanRun(s, steps)
    ensures var t := RunOf(s, steps); PauserIn(t, 0, Over) && t.running && t.pauseCount == 0 && t.pc == Sleeping
  {
    hide CanRun, RunOf, ApplyReader, ReaderCan, ApplyClient, ClientCan;
    steps := [PauserDoes(0, LocksToResume), PauserDoes(0, Decrements), PauserDoes(0, UnlocksResume)];
    RunThree(s, steps[0], steps[1], steps[2]);
  }

  /** A pause can be acknowledged and taken back, and then the reader receives again. */
  lemma PauseCanEnd(s: State) returns (pause: seq<Step>, resume: seq<Step>, rest: seq<Step>)
    requires Init(s)
    ensures CanRun(s, pause) && PauserIn(RunOf(s, pause), 0, Holding(true))
    ensures CanRun(s, pause + resume) && PauserIn(RunOf(s, pause + resume), 0, Over)
    ensures CanRun(s, pause + resume + rest) && rest != [] && rest[|rest| - 1] == ReaderDoes(Receives(None))
  {
    hide CanRun, RunOf;
    pause := NestFirst(s);
    resume := Resumes(RunOf(s, pause));
    RunConcat(s, pause, resume);
    var t := RunOf(s, pause + resume);
    var b := WrappedWake(t);
    var c := DrainReceive(RunOf(t, b));
    RunConcat(t, b, c);
    rest := b + c;
    RunConcat(s, pause + resume, rest);
  }

  // ---- The packet wait ----

  /** The frame of the section in progress has not been put to the client in this slot yet. */
  predicate Pending(pc: Pc, slot: Option<nat>) {
    slot.Some? &&
    match pc
    case Scanning(_, i) => slot.value >= i
    case InPredicate(_, i) => slot.value >= i
    case InHandler(_, i) => slot.value > i
    case InSignal(_, i) => slot.value > i
    case _ => false
  }

  predicate HasMatch(w: Wait) {
    w.answered != [] && w.answered[|w.answered| - 1]
  }

  /** The predicate was asked about every owed frame in order, up to its first yes. */
  predicate AskedOk(w: Wait, pending: bool) {
    && |w.asked| == |w.answered|
    && (forall k :: 0 <= k < |w.answered| - 1 ==> !w.answered[k])
    && (pending ==> w.due != [])
    && (!HasMatch(w) ==> w.asked == if pending then w.due[..|w.due| - 1] else w.due)
    && (HasMatch(w) ==> |w.asked| <= |w.due| && w.asked == w.due[..|w.asked|])
    && (HasMatch(w) && pending ==> |w.asked| < |w.due|)
    && (HasMatch(w) ==> w.matchedLength == |w.asked[|w.asked| - 1]|)
  }

  /** The one-shot: at most one release, for the match; the waiter takes it at most once. */
  predicate SignalOk(w: Wait, phase: Phase, handling: bool, signalling: bool) {
    && (w.matched ==> HasMatch(w))
    && (HasMatch(w) && !w.matched ==> handling)
    && (handling ==> HasMatch(w))
    && (signalling ==> w.matched)
    && w.released == (if w.matched && !signalling then 1 else 0)
    && w.signal + w.acquired == w.released
    && (phase.Reading? || w.got ==> w.acquired == 1)
    && (phase.Created? || phase.Registering? || phase.Filled? || phase.Registered? || phase.Asleep? ==>
          w.acquired == 0 && !w.got)
    && (w.got ==> HasMatch(w) && w.length == w.matchedLength)
    && (!phase.Reading? ==> (w.got <==> w.acquired == 1))
  }

  /** The frames that were accepted, in order. */
  function Accepted(asked: seq<Frame>, answered: seq<bool>): seq<Frame>
    requires |asked| == |answered|
  {
    if asked == [] then []
    else
      var n := |asked| - 1;
      Accepted(asked[..n], answered[..n]) + (if answered[n] then [asked[n]] else [])
  }

  /** Any other client was asked about every owed frame in order, and its handler was run with every accepted one. */
  predicate ListenOk(w: Wait, pending: bool, handling: Option<Frame>) {
    && |w.asked| == |w.answered|
    && (pending ==> w.due != [])
    && w.asked == (if pending then w.due[..|w.due| - 1] else w.due)
    && Accepted(w.asked, w.answered) == w.handled + (if handling.Some? then [handling.value] else [])
  }

  /** The frame of the critical section in progress. */
  function FrameOf(pc: Pc): Option<Frame> {
    match pc
    case Scanning(frame, _) => Some(frame)
    case InPredicate(frame, _) => Some(frame)
    case InHandler(frame, _) => Some(frame)
    case InSignal(frame, _) => Some(frame)
    case _ => None
  }

  /** The history of a wait agrees with its state and with where the reader stands. */
  predicate WaitFits(client: Client, pc: Pc) {
    var wait, slot := client.wait, SlotOf(client.phase);
    && (Pending(pc, slot) ==> wait.due != [] && FrameOf(pc) == Some(wait.due[|wait.due| - 1]))
    && (if client.isWait then
          && AskedOk(wait, Pending(pc, slot))
          && SignalOk(wait, client.phase, pc.InHandler? && slot == Some(pc.i), pc.InSignal? && slot == Some(pc.i))
        else
          && ListenOk(wait, Pending(pc, slot), if pc.InHandler? && slot == Some(pc.i) then Some(pc.frame) else None)
          && !(pc.InSignal? && slot == Some(pc.i)))
  }

  predicate WaitOk(s: State, c: Id)
    requires c in s.clients
  {
    WaitFits(s.clients[c], s.pc)
  }

  predicate WaitsOk(s: State) {
    forall c :: c in s.clients ==> WaitOk(s, c)
  }

  // What a move of the reader means for one wait.

  lemma FitsOutside(client: Client, a: Pc, b: Pc)
    requires FrameOf(a) == None && FrameOf(b) == None
    ensures WaitFits(client, a) == WaitFits(client, b)
  {
    hide AskedOk, SignalOk, ListenOk, SlotOf;
  }

  lemma FitsLocks(client: Client, frame: Frame)
    requires WaitFits(client, Locking(frame))
    ensures WaitFits(Owed(client, frame), Scanning(frame, 0))
  {
    hide AskedOk, SignalOk, ListenOk, SlotOf;
    if client.isWait {
      OneMoreDue(client.wait, frame);
    } else {
      OneMoreOwed(client.wait, frame);
    }
    DueSignal(client.wait, frame, client.phase);
  }

  lemma OneMoreDue(w: Wait, frame: Frame)
    requires AskedOk(w, false)
    ensures AskedOk(w.(due := w.due + [frame]), true)
  {
    assert (w.due + [frame])[..|w.due|] == w.due;
  }

  lemma OneMoreOwed(w: Wait, frame: Frame)
    requires ListenOk(w, false, None)
    ensures ListenOk(w.(due := w.due + [frame]), true, None)
  {
    assert (w.due + [frame])[..|w.due|] == w.due;
  }

  lemma DueSignal(w: Wait, frame: Frame, phase: Phase)
    ensures SignalOk(w.(due := w.due + [frame]), phase, false, false) == SignalOk(w, phase, false, false)
  {
  }

  lemma FitsScans(client: Client, frame: Frame, i: nat)
    requires WaitFits(client, Scanning(frame, i))
    ensures (SlotOf(client.phase).Some? ==> SlotOf(client.phase).value < i) ==> WaitFits(client, DrainTop)
    ensures SlotOf(client.phase) != Some(i) ==> WaitFits(client, Scanning(frame, i + 1))
    ensures WaitFits(client, InPredicate(frame, i))
  {
    hide AskedOk, SignalOk, ListenOk, SlotOf;
  }

  /** A call through another slot. */
  lemma FitsOther(client: Client, pc: Pc, frame: Frame, i: nat)
    requires SlotOf(client.phase) != Some(i) && WaitFits(client, pc)
    requires pc == InPredicate(frame, i) || pc == InHandler(frame, i) || pc == InSignal(frame, i)
    ensures WaitFits(client, Scanning(frame, i + 1)) && WaitFits(client, InHandler(frame, i)) &&
      WaitFits(client, InSignal(frame, i))
  {
    hide AskedOk, SignalOk, ListenOk, SlotOf;
  }

  lemma FitsAsks(client: Client, frame: Frame, i: nat, answer: bool)
    requires SlotOf(client.phase) == Some(i) && client.isWait && WaitFits(client, InPredicate(frame, i))
    ensures !client.wait.matched ==>
      var pc := if answer then InHandler(frame, i) else Scanning(frame, i + 1);
      WaitFits(client.(wait := Told(client.wait, frame, answer)), pc)
    ensures client.wait.matched ==> WaitFits(client, Scanning(frame, i + 1))
  {
    hide AskedOk, HasMatch, Told, SlotOf;
    AskedSettled(client.wait);
    if !client.wait.matched {
      ToldOk(client.wait, frame, answer);
      ToldSignal(client.wait, frame, answer);
    }
  }

  lemma FitsAsksListener(client: Client, frame: Frame, i: nat, answer: bool)
    requires SlotOf(client.phase) == Some(i) && !client.isWait && WaitFits(client, InPredicate(frame, i))
    ensures var pc := if answer then InHandler(frame, i) else Scanning(frame, i + 1);
      WaitFits(client.(wait := Noted(client.wait, frame, answer)), pc)
  {
    hide ListenOk, Noted, SlotOf, Accepted;
    NotedOk(client.wait, frame, answer);
  }

  lemma NotedOk(w: Wait, frame: Frame, answer: bool)
    requires ListenOk(w, true, None) && w.due[|w.due| - 1] == frame
    ensures ListenOk(Noted(w, frame, answer), false, if answer then Some(frame) else None)
  {
    var n := |w.asked|;
    assert w.due == w.due[..|w.due| - 1] + [frame];
    assert (w.asked + [frame])[..n] == w.asked && (w.answered + [answer])[..n] == w.answered;
  }

  lemma FitsHandlesListener(client: Client, frame: Frame, i: nat)
    requires SlotOf(client.phase) == Some(i) && !client.isWait && WaitFits(client, InHandler(frame, i))
    ensures WaitFits(client.(wait := client.wait.(handled := client.wait.handled + [frame])), Scanning(frame, i + 1))
  {
    hide SlotOf, Accepted;
    assert client.wait.handled + [frame] + [] == client.wait.handled + [frame];
  }

  lemma ToldOk(w: Wait, frame: Frame, answer: bool)
    requires AskedOk(w, true) && !HasMatch(w) && w.due[|w.due| - 1] == frame
    ensures AskedOk(Told(w, frame, answer), false)
    ensures HasMatch(Told(w, frame, answer)) == answer
  {
    assert w.due == w.due[..|w.due| - 1] + [frame];
  }

  lemma AskedSettled(w: Wait)
    ensures AskedOk(w, true) && HasMatch(w) ==> AskedOk(w, false)
  {
  }

  lemma ToldSignal(w: Wait, frame: Frame, answer: bool)
    ensures var t := Told(w, frame, answer);
      && t.matched == w.matched && t.released == w.released && t.signal == w.signal && t.acquired == w.acquired
      && t.got == w.got && t.length == w.length && t.due == w.due
  {
  }

  lemma FitsHandles(client: Client, frame: Frame, i: nat)
    requires SlotOf(client.phase) == Some(i) && client.isWait && WaitFits(client, InHandler(frame, i))
    ensures if client.wait.matched then WaitFits(client, Scanning(frame, i + 1))
            else WaitFits(client.(wait := client.wait.(matched := true)), InSignal(frame, i))
  {
    hide AskedOk, HasMatch, SlotOf;
    AskedSame(client.wait, client.wait.(matched := true), false);
  }

  lemma FitsSignals(client: Client, frame: Frame, i: nat)
    requires SlotOf(client.phase) == Some(i) && WaitFits(client, InSignal(frame, i))
    ensures WaitFits(client.(wait := Signalled(client.wait)), Scanning(frame, i + 1))
  {
    hide AskedOk, HasMatch, SlotOf;
    AskedSame(client.wait, Signalled(client.wait), false);
  }

  // The moves.

  lemma WaitKeptOutside(s: State, step: ReaderStep, c: Id)
    requires RegistryOk(s) && ReaderCan(s, step) && c in s.clients && WaitOk(s, c)
    requires !step.Locks? && !step.Scans? && !step.Asks? && !step.Handles? && !step.Signals?
    ensures var t := ApplyReader(s, step); c in t.clients && WaitOk(t, c)
  {
    hide WaitFits, RegistryOk, AllDue, Told, Signalled, CalledOk;
    FitsOutside(s.clients[c], s.pc, ApplyReader(s, step).pc);
  }

  lemma WaitKeptByLocks(s: State, c: Id)
    requires RegistryOk(s) && ReaderCan(s, Locks) && c in s.clients && WaitOk(s, c)
    ensures var t := ApplyReader(s, Locks); c in t.clients && WaitOk(t, c)
  {
    hide WaitFits, RegistryOk, Owed;
    FitsLocks(s.clients[c], s.pc.frame);
  }

  lemma WaitKeptByScans(s: State, c: Id)
    requires RegistryOk(s) && ReaderCan(s, Scans) && c in s.clients && WaitOk(s, c)
    ensures var t := ApplyReader(s, Scans); c in t.clients && WaitOk(t, c)
  {
    hide WaitFits, MutexOk, CallsOk, SlotOf;
    FitsScans(s.clients[c], s.pc.frame, s.pc.i);
  }

  /** The call in progress concerns client c, or c's slot is another one. */
  lemma CalledOrNot(s: State, c: Id)
    requires SlotsOk(s) && CalledOk(s) && c in s.clients
    ensures s.slots[CalledSlot(s.pc).value].ctx == c <==> SlotOf(s.clients[c].phase) == CalledSlot(s.pc)
  {
  }

  lemma WaitKeptByAsks(s: State, answer: bool, c: Id)
    requires RegistryOk(s) && ReaderCan(s, Asks(answer)) && c in s.clients && WaitOk(s, c)
    ensures var t := ApplyReader(s, Asks(answer)); c in t.clients && WaitOk(t, c)
  {
    hide WaitFits, Told, SlotsOk, MutexOk, CallsOk, SlotOf;
    CalledOrNot(s, c);
    if s.slots[s.pc.i].ctx != c {
      FitsOther(s.clients[c], s.pc, s.pc.frame, s.pc.i);
    } else if s.clients[c].isWait {
      FitsAsks(s.clients[c], s.pc.frame, s.pc.i, answer);
    } else {
      FitsAsksListener(s.clients[c], s.pc.frame, s.pc.i, answer);
    }
  }

  lemma WaitKeptByHandles(s: State, c: Id)
    requires RegistryOk(s) && ReaderCan(s, Handles) && c in s.clients && WaitOk(s, c)
    ensures var t := ApplyReader(s, Handles); c in t.clients && WaitOk(t, c)
  {
    hide WaitFits, SlotsOk, MutexOk, CallsOk, SlotOf;
    CalledOrNot(s, c);
    if s.slots[s.pc.i].ctx != c {
      FitsOther(s.clients[c], s.pc, s.pc.frame, s.pc.i);
    } else if s.clients[c].isWait {
      FitsHandles(s.clients[c], s.pc.frame, s.pc.i);
    } else {
      FitsHandlesListener(s.clients[c], s.pc.frame, s.pc.i);
    }
  }

  lemma WaitKeptBySignals(s: State, c: Id)
    requires RegistryOk(s) && ReaderCan(s, Signals) && c in s.clients && WaitOk(s, c)
    ensures var t := ApplyReader(s, Signals); c in t.clients && WaitOk(t, c)
  {
    hide WaitFits, SlotsOk, MutexOk, CallsOk, SlotOf, Signalled;
    CalledOrNot(s, c);
    if s.slots[s.pc.i].ctx != c {
      FitsOther(s.clients[c], s.pc, s.pc.frame, s.pc.i);
    } else {
      FitsSignals(s.clients[c], s.pc.frame, s.pc.i);
    }
  }

  lemma AskedSame(v: Wait, w: Wait, pending: bool)
    requires v.asked == w.asked && v.answered == w.answered && v.due == w.due && v.matchedLength == w.matchedLength
    ensures AskedOk(v, pending) == AskedOk(w, pending) && HasMatch(v) == HasMatch(w)
  {
  }

  lemma ListenSame(v: Wait, w: Wait)
    requires v.asked == w.asked && v.answered == w.answered && v.due == w.due && v.handled == w.handled
    ensures forall pending, handling :: ListenOk(v, pending, handling) == ListenOk(w, pending, handling)
  {
  }

  /** A client's own steps neither ask nor signal; while the reader is inside they keep its slot. */
  lemma ClientWait(s: State, c: Id, step: ClientStep)
    requires RegistryOk(s) && ClientCan(s, c, step)
    ensures var t := ApplyClient(s, c, step);
      && c in t.clients
      && (c in s.clients ==>
        && t.clients[c].isWait == s.clients[c].isWait
        && t.clients[c].wait.asked == s.clients[c].wait.asked
        && t.clients[c].wait.answered == s.clients[c].wait.answered
        && t.clients[c].wait.due == s.clients[c].wait.due
        && t.clients[c].wait.handled == s.clients[c].wait.handled
        && t.clients[c].wait.matchedLength == s.clients[c].wait.matchedLength
        && t.clients[c].wait.matched == s.clients[c].wait.matched
        && t.clients[c].wait.released == s.clients[c].wait.released)
      && (c in s.clients && ReaderInside(s.pc) ==> SlotOf(t.clients[c].phase) == SlotOf(s.clients[c].phase))
      && (c !in s.clients ==> t.clients[c].wait == NEW_WAIT && t.clients[c].phase == Created)
  {
    hide SlotsOk, CallsOk;
  }

  lemma SignalKept(s: State, c: Id, step: ClientStep, handling: bool, signalling: bool)
    requires ClientCan(s, c, step) && c in s.clients &&
      SignalOk(s.clients[c].wait, s.clients[c].phase, handling, signalling)
    ensures var t := ApplyClient(s, c, step);
      c in t.clients && SignalOk(t.clients[c].wait, t.clients[c].phase, handling, signalling)
  {
    hide HasMatch;
    var t := ApplyClient(s, c, step);
    if step.AcquiresSignal? || step.ReadsLength? {
      AskedSame(s.clients[c].wait, t.clients[c].wait, false);
    }
  }

  lemma WaitKeptByClient(s: State, c: Id, step: ClientStep)
    requires RegistryOk(s) && ClientCan(s, c, step) && (c in s.clients ==> WaitOk(s, c))
    ensures var t := ApplyClient(s, c, step); c in t.clients && WaitOk(t, c)
  {
    hide ApplyClient, ClientCan, AskedOk, HasMatch, RegistryOk;
    var t := ApplyClient(s, c, step);
    ClientFrame(s, c, step);
    ClientWait(s, c, step);
    NewWaitOk();
    if c in s.clients && !s.clients[c].isWait {
      ListenSame(s.clients[c].wait, t.clients[c].wait);
    } else if c in s.clients {
      var slot := SlotOf(s.clients[c].phase);
      AskedSame(s.clients[c].wait, t.clients[c].wait, Pending(s.pc, slot));
      SignalKept(s, c, step, s.pc.InHandler? && slot == Some(s.pc.i), s.pc.InSignal? && slot == Some(s.pc.i));
    }
  }

  lemma NewWaitOk()
    ensures AskedOk(NEW_WAIT, false) && !HasMatch(NEW_WAIT) && ListenOk(NEW_WAIT, false, None)
  {
  }

  lemma WaitsKept(s: State, step: Step)
    requires RegistryOk(s) && WaitsOk(s) && Enabled(s, step)
    ensures WaitsOk(Apply(s, step))
  {
    hide ApplyReader, ApplyClient, ApplyPauser, ReaderCan, ClientCan, PauserCan, RegistryOk, WaitOk;
    var t := Apply(s, step);
    match step {
      case StopRunning =>
        forall c | c in t.clients
          ensures WaitOk(t, c)
        {
          WaitSame(s, t, c);
        }
      case ReaderDoes(reader) =>
        ReaderFrame(s, reader);
        forall c | c in t.clients
          ensures WaitOk(t, c)
        {
          WaitKeptByReader(s, reader, c);
        }
      case ClientDoes(c, move) =>
        ClientFrame(s, c, move);
        WaitKeptByClient(s, c, move);
        forall d | d in t.clients && d != c
          ensures WaitOk(t, d)
        {
          WaitSame(s, t, d);
        }
      case PauserDoes(p, pause) =>
        PauserFrame(s, p, pause);
        forall c | c in t.clients
          ensures WaitOk(t, c)
        {
          WaitSame(s, t, c);
        }
    }
  }

  lemma WaitSame(s: State, t: State, c: Id)
    requires c in s.clients && c in t.clients && s.clients[c] == t.clients[c] && s.pc == t.pc
    ensures WaitOk(s, c) == WaitOk(t, c)
  {
    hide AskedOk, SignalOk;
  }

  lemma WaitKeptByReader(s: State, step: ReaderStep, c: Id)
    requires RegistryOk(s) && ReaderCan(s, step) && c in s.clients && WaitOk(s, c)
    ensures var t := ApplyReader(s, step); c in t.clients && WaitOk(t, c)
  {
    hide ApplyReader, ReaderCan, RegistryOk, WaitOk;
    match step {
      case Locks => WaitKeptByLocks(s, c);
      case Scans => WaitKeptByScans(s, c);
      case Asks(answer) => WaitKeptByAsks(s, answer, c);
      case Handles => WaitKeptByHandles(s, c);
      case Signals => WaitKeptBySignals(s, c);
      case _ => WaitKeptOutside(s, step, c);
    }
  }

  /** What every reachable state satisfies. */
  lemma {:induction false} ReachableWaits(s: State, steps: seq<Step>)
    requires RegistryOk(s) && WaitsOk(s) && CanRun(s, steps)
    ensures RegistryOk(RunOf(s, steps)) && WaitsOk(RunOf(s, steps))
    decreases |steps|
  {
    hide Apply, Enabled, RegistryOk, WaitsOk;
    if steps != [] {
      RegistryKept(s, steps[0]);
      WaitsKept(s, steps[0]);
      ReachableWaits(Apply(s, steps[0]), steps[1..]);
    }
  }

  /**
   The lifetime claim over whole runs: whatever happened before a client's rx_unregister
   returned, nothing that happens afterwards runs its callbacks or touches its context.
   */
  lemma FinishedIsUntouched(s: State, before: seq<Step>, after: seq<Step>, c: Id)
    requires Init(s) && CanRun(s, before) && CanRun(RunOf(s, before), after)
    requires ClientIn(RunOf(s, before), c, Returned)
    ensures var t := RunOf(s, before);
      && RunOf(t, after).clients.Keys >= {c} && RunOf(t, after).clients[c] == t.clients[c]
      && forall k :: 0 <= k < |after| ==> CanRun(t, after[..k]) && !Touches(RunOf(t, after[..k]), after[k], c)
  {
    hide CanRun, RunOf, RegistryOk, WaitOk, Touches;
    InitRegistry(s);
    ReachableWaits(s, before);
    ReturnedUntouched(RunOf(s, before), after, c);
  }

  /**
   In every reachable state a finished wait released its semaphore at most once; it
   reports success exactly when it took that release, and then with the length of the
   first frame its predicate accepted; and the predicate was asked about every frame
   dispatched while it was registered, in order and without a gap, until that one.
   */
  lemma WaitOutcome(s: State, steps: seq<Step>, c: Id)
    requires Init(s) && CanRun(s, steps) && ClientIn(RunOf(s, steps), c, Returned) && RunOf(s, steps).clients[c].isWait
    ensures var w := RunOf(s, steps).clients[c].wait;
      && |w.asked| == |w.answered| <= |w.due| && w.asked == w.due[..|w.asked|]
      && w.released <= 1
      && (w.got <==> w.acquired == 1) && w.signal + w.acquired == w.released
      && (w.got ==> HasMatch(w) && w.length == |w.asked[|w.asked| - 1]|)
      && (forall k :: 0 <= k < |w.answered| - 1 ==> !w.answered[k])
      && (!HasMatch(w) ==> w.asked == w.due)
  {
    hide CanRun, RunOf, RegistryOk;
    InitRegistry(s);
    ReachableWaits(s, steps);
    assert WaitOk(RunOf(s, steps), c);
  }

  /**
   Any other client: when the reader is not in a critical section, its predicate was asked
   about every frame dispatched while it was registered, in order, and its handler was run
   with exactly those that it accepted.
   */
  lemma ListenerServed(s: State, steps: seq<Step>, c: Id)
    requires Init(s) && CanRun(s, steps) && c in RunOf(s, steps).clients && !RunOf(s, steps).clients[c].isWait
    requires !ReaderInside(RunOf(s, steps).pc)
    ensures var w := RunOf(s, steps).clients[c].wait;
      w.asked == w.due && |w.answered| == |w.due| && w.handled == Accepted(w.due, w.answered)
  {
    hide CanRun, RunOf, RegistryOk, Accepted;
    InitRegistry(s);
    ReachableWaits(s, steps);
    assert WaitOk(RunOf(s, steps), c);
    var w := RunOf(s, steps).clients[c].wait;
    assert w.handled + [] == w.handled;
  }

  // ---- A wait that succeeds ----

  /** One client, no pauser, nothing held; slot 0 may be the client's. */
  ghost function Alone(pc: Pc, mutex: Option<Thread>, inUse: bool, client: Client): State {
    var free := seq(MAX_HANDLERS, _ => Free);
    State(true, 0, false, mutex, if inUse then free[0 := InUse(0)] else free, pc, map[0 := client], map[])
  }

  lemma RunOne(s: State, step: Step)
    requires Enabled(s, step)
    ensures CanRun(s, [step]) && RunOf(s, [step]) == Apply(s, step)
  {
    hide Apply, Enabled;
    RunNothing(Apply(s, step));
    RunCons(s, step, []);
    assert [step] + [] == [step];
  }

  /** The client sets its context up, takes slot 0 and goes to sleep. */
  lemma WaitBegins(s: State) returns (steps: seq<Step>)
    requires Init(s)
    ensures CanRun(s, steps) && RunOf(s, steps) == Alone(Top, None, true, Client(Asleep(0), true, NEW_WAIT))
  {
    hide CanRun, RunOf, ApplyReader, ReaderCan, ApplyPauser, PauserCan;
    var a := [ClientDoes(0, Starts(true)), ClientDoes(0, LocksToRegister), ClientDoes(0, FillsSlot)];
    var holder := Some(ByClient(0));
    RunThree(s, ClientDoes(0, Starts(true)), ClientDoes(0, LocksToRegister), ClientDoes(0, FillsSlot));
    assert s.slots[0].Free?;
    var filled := RunOf(s, a);
    assert filled == Alone(Top, holder, true, Client(Filled(Some(0)), true, NEW_WAIT));
    RunTwo(filled, ClientDoes(0, UnlocksRegister), ClientDoes(0, Triggers));
    var b := [ClientDoes(0, UnlocksRegister), ClientDoes(0, Triggers)];
    RunConcat(s, a, b);
    steps := a + b;
  }

  /** The reader wakes up and has nothing to wait for. */
  lemma ReaderDrains(client: Client, inUse: bool) returns (steps: seq<Step>)
    ensures var s := Alone(Top, None, inUse, client);
      CanRun(s, steps) && RunOf(s, steps) == Alone(Receiving, None, inUse, client)
  {
    hide CanRun, RunOf, Alone;
    var s := Alone(Top, None, inUse, client);
    var a := DrainsWake(client, inUse);
    var b := DrainsCheck(client, inUse);
    var c := DrainsGo(client, inUse);
    RunConcat(s, a, b);
    RunConcat(s, a + b, c);
    steps := a + b + c;
  }

  lemma DrainsWake(client: Client, inUse: bool) returns (steps: seq<Step>)
    ensures var s := Alone(Top, None, inUse, client);
      CanRun(s, steps) && RunOf(s, steps) == Alone(TestPause, None, inUse, client)
  {
    hide CanRun, RunOf, ApplyClient, ClientCan, ApplyPauser, PauserCan, AllDue, CalledOk, Told, Signalled;
    steps := [ReaderDoes(PassesTop), ReaderDoes(Wakes), ReaderDoes(ChecksRunning)];
    RunThree(Alone(Top, None, inUse, client), steps[0], steps[1], steps[2]);
  }

  lemma DrainsCheck(client: Client, inUse: bool) returns (steps: seq<Step>)
    ensures var s := Alone(TestPause, None, inUse, client);
      CanRun(s, steps) && RunOf(s, steps) == Alone(DrainTop, None, inUse, client)
  {
    hide CanRun, RunOf, ApplyClient, ClientCan, ApplyPauser, PauserCan, AllDue, CalledOk, Told, Signalled;
    steps := [ReaderDoes(TestsPause), ReaderDoes(ClearsAck)];
    RunTwo(Alone(TestPause, None, inUse, client), steps[0], steps[1]);
  }

  lemma DrainsGo(client: Client, inUse: bool) returns (steps: seq<Step>)
    ensures var s := Alone(DrainTop, None, inUse, client);
      CanRun(s, steps) && RunOf(s, steps) == Alone(Receiving, None, inUse, client)
  {
    hide CanRun, RunOf, ApplyClient, ClientCan, ApplyPauser, PauserCan, AllDue, CalledOk, Told, Signalled;
    steps := [ReaderDoes(PassesDrainTop), ReaderDoes(TestsPauseAgain)];
    RunTwo(Alone(DrainTop, None, inUse, client), steps[0], steps[1]);
  }

  /** What a wait that has seen one frame and matched it has on record. */
  function MatchedWait(frame: Frame): Wait {
    Wait(true, |frame|, 1, false, 0, [frame], [frame], [true], [], 1, 0)
  }

  /** The frame is dispatched to the client, which matches it. */
  lemma FrameMatches(frame: Frame) returns (steps: seq<Step>)
    requires frame != []
    ensures var s := Alone(Receiving, None, true, Client(Asleep(0), true, NEW_WAIT));
      && CanRun(s, steps)
      && RunOf(s, steps) == Alone(Scanning(frame, 1), Some(Reader), true, Client(Asleep(0), true, MatchedWait(frame)))
  {
    hide CanRun, RunOf, Alone;
    var s := Alone(Receiving, None, true, Client(Asleep(0), true, NEW_WAIT));
    var a := FrameDispatched(frame);
    var owed, told := NEW_WAIT.(due := [frame]), ToldWait(frame);
    ClientAsked(frame);
    ClientHandles(frame);
    ClientSignalled(frame);
    var t := Alone(InPredicate(frame, 0), Some(Reader), true, Client(Asleep(0), true, owed));
    RunThree(t, ReaderDoes(Asks(true)), ReaderDoes(Handles), ReaderDoes(Signals));
    var b := [ReaderDoes(Asks(true)), ReaderDoes(Handles), ReaderDoes(Signals)];
    RunConcat(s, a, b);
    steps := a + b;
  }

  lemma FrameDispatched(frame: Frame) returns (steps: seq<Step>)
    requires frame != []
    ensures var s := Alone(Receiving, None, true, Client(Asleep(0), true, NEW_WAIT));
      var owed := Client(Asleep(0), true, NEW_WAIT.(due := [frame]));
      CanRun(s, steps) && RunOf(s, steps) == Alone(InPredicate(frame, 0), Some(Reader), true, owed)
  {
    hide CanRun, RunOf, ApplyClient, ClientCan, ApplyPauser, PauserCan;
    var client := Client(Asleep(0), true, NEW_WAIT);
    var s := Alone(Receiving, None, true, client);
    steps := [ReaderDoes(Receives(Some(frame))), ReaderDoes(Locks), ReaderDoes(Scans)];
    assert [] + [frame] == [frame];
    assert AllDue(map[0 := client], frame) == map[0 := Client(Asleep(0), true, NEW_WAIT.(due := [frame]))];
    RunThree(s, steps[0], steps[1], steps[2]);
  }

  /** What the wait has on record when its predicate has answered. */
  function ToldWait(frame: Frame): Wait {
    NEW_WAIT.(due := [frame], asked := [frame], answered := [true], matchedLength := |frame|)
  }

  lemma ClientAsked(frame: Frame)
    ensures var s :=
        Alone(InPredicate(frame, 0), Some(Reader), true, Client(Asleep(0), true, NEW_WAIT.(due := [frame])));
      && Enabled(s, ReaderDoes(Asks(true)))
      && Apply(s, ReaderDoes(Asks(true))) ==
      Alone(InHandler(frame, 0), Some(Reader), true, Client(Asleep(0), true, ToldWait(frame)))
  {
    hide AllDue;
    assert [] + [frame] == [frame] && [] + [true] == [true];
    assert Told(NEW_WAIT.(due := [frame]), frame, true) == ToldWait(frame);
  }

  lemma ClientHandles(frame: Frame)
    ensures var s := Alone(InHandler(frame, 0), Some(Reader), true, Client(Asleep(0), true, ToldWait(frame)));
      && Enabled(s, ReaderDoes(Handles))
      && Apply(s, ReaderDoes(Handles)) ==
      Alone(InSignal(frame, 0), Some(Reader), true, Client(Asleep(0), true, ToldWait(frame).(matched := true)))
  {
    hide AllDue;
  }

  lemma ClientSignalled(frame: Frame)
    ensures var wait := ToldWait(frame).(matched := true);
      var s := Alone(InSignal(frame, 0), Some(Reader), true, Client(Asleep(0), true, wait));
      && Enabled(s, ReaderDoes(Signals))
      && Apply(s, ReaderDoes(Signals)) ==
      Alone(Scanning(frame, 1), Some(Reader), true, Client(Asleep(0), true, MatchedWait(frame)))
  {
    hide AllDue;
  }

  /** The other slots are free; the reader leaves its critical section. */
  lemma {:induction false} ScanEnds(frame: Frame, i: nat, client: Client) returns (steps: seq<Step>)
    requires 1 <= i <= MAX_HANDLERS
    ensures var s := Alone(Scanning(frame, i), Some(Reader), true, client);
      CanRun(s, steps) && RunOf(s, steps) == Alone(DrainTop, None, true, client)
    decreases MAX_HANDLERS - i
  {
    hide CanRun, RunOf, ApplyClient, ClientCan, ApplyPauser, PauserCan, AllDue;
    var s := Alone(Scanning(frame, i), Some(Reader), true, client);
    RunOne(s, ReaderDoes(Scans));
    if i == MAX_HANDLERS {
      steps := [ReaderDoes(Scans)];
    } else {
      assert Apply(s, ReaderDoes(Scans)) == Alone(Scanning(frame, i + 1), Some(Reader), true, client);
      var rest := ScanEnds(frame, i + 1, client);
      RunCons(s, ReaderDoes(Scans), rest);
      steps := [ReaderDoes(Scans)] + rest;
    }
  }

  /** The client takes the signal, reads the length and unregisters. */
  lemma WaitEnds(frame: Frame) returns (steps: seq<Step>)
    ensures var s := Alone(DrainTop, None, true, Client(Asleep(0), true, MatchedWait(frame)));
      && CanRun(s, steps)
      && ClientIn(RunOf(s, steps), 0, Returned) && RunOf(s, steps).clients[0].isWait
      && RunOf(s, steps).clients[0].wait ==
      MatchedWait(frame).(signal := 0, acquired := 1, got := true, length := |frame|)
  {
    hide CanRun, RunOf, ApplyReader, ReaderCan, ApplyPauser, PauserCan;
    var s := Alone(DrainTop, None, true, Client(Asleep(0), true, MatchedWait(frame)));
    var a := [ClientDoes(0, AcquiresSignal), ClientDoes(0, ReadsLength)];
    RunTwo(s, ClientDoes(0, AcquiresSignal), ClientDoes(0, ReadsLength));
    var after := MatchedWait(frame).(signal := 0, acquired := 1, got := true, length := |frame|);
    var left := Alone(DrainTop, None, true, Client(Leaving(0), true, after));
    assert RunOf(s, a) == left;
    var b := [ClientDoes(0, LocksToUnregister), ClientDoes(0, ClearsSlot), ClientDoes(0, UnlocksUnregister)];
    RunThree(left, ClientDoes(0, LocksToUnregister), ClientDoes(0, ClearsSlot), ClientDoes(0, UnlocksUnregister));
    RunConcat(s, a, b);
    steps := a + b;
  }

  /** For every frame there is a run in which a wait for it is registered, sees it, and returns its length. */
  lemma WaitCanSucceed(s: State, frame: Frame) returns (steps: seq<Step>)
    requires Init(s) && frame != []
    ensures CanRun(s, steps) && ClientIn(RunOf(s, steps), 0, Returned) && RunOf(s, steps).clients[0].isWait
    ensures var w := RunOf(s, steps).clients[0].wait; w.got && w.length == |frame| && w.asked == w.due == [frame]
  {
    hide CanRun, RunOf, Alone;
    var a := WaitBegins(s);
    var b := ReaderDrains(Client(Asleep(0), true, NEW_WAIT), true);
    RunConcat(s, a, b);
    var c := FrameMatches(frame);
    RunConcat(s, a + b, c);
    var d := ScanEnds(frame, 1, Client(Asleep(0), true, MatchedWait(frame)));
    RunConcat(s, a + b + c, d);
    var e := WaitEnds(frame);
    RunConcat(s, a + b + c + d, e);
    steps := a + b + c + d + e;
  }

  /** And there is one in which no frame comes and it gives up. */
  lemma WaitCanGiveUp(s: State) returns (steps: seq<Step>)
    requires Init(s)
    ensures CanRun(s, steps) && ClientIn(RunOf(s, steps), 0, Returned) && RunOf(s, steps).clients[0].isWait
    ensures !RunOf(s, steps).clients[0].wait.got
  {
    hide CanRun, RunOf, ApplyReader, ReaderCan, ApplyPauser, PauserCan;
    var a := WaitBegins(s);
    var waiting := Alone(Top, None, true, Client(Asleep(0), true, NEW_WAIT));
    var b := [ClientDoes(0, GivesUp), ClientDoes(0, LocksToUnregister)];
    RunTwo(waiting, b[0], b[1]);
    var c := [ClientDoes(0, ClearsSlot), ClientDoes(0, UnlocksUnregister)];
    RunTwo(RunOf(waiting, b), c[0], c[1]);
    RunConcat(waiting, b, c);
    RunConcat(s, a, b + c);
    steps := a + (b + c);
  }
}
