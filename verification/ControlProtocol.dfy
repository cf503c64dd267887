/** The control server as two interleaved threads: publishers replace the snapshots under
    a mutex and wake the control thread through a pipe; the control thread polls, drains
    the pipe, serves its clients and broadcasts. One step is what one lock or one system
    call does. */
module ControlProtocol {
  import opened LuaHeap
  import opened ControlFraming
  import ControlTable

  const DRAIN_SIZE: nat := 64

  /** One publication: the same state in each format. An empty text stands for none. */
  datatype Snapshot = Snapshot(revision: nat, text: string, ewwText: string, doctorText: string)

  const NOTHING_PUBLISHED := Snapshot(0, "", "", "")

  function Published(s: Snapshot, format: Format): string {
    match format
    case Default => s.text
    case Eww => s.ewwText
    case Doctor => s.doctorText
  }

  /** What is sent when there is no snapshot yet. */
  const BUILT_IN := Snapshot(
    0,
    "{\"revision\":0,\"state\":{},\"type\":\"snapshot\"}\n",
    "{}\n",
    "{\"healthy\":false,\"ready\":false,\"revision\":0,\"sources\":{},\"type\":\"doctor\"}\n")

  function Payload(builtIn: Snapshot, s: Snapshot, format: Format): string {
    if Published(s, format) != "" then Published(s, format) else Published(builtIn, format)
  }

  /** A client; `id` is never used again, unlike a descriptor. */
  datatype Client = Client(
    id: nat, subscribed: bool, format: Format,
    since: nat)    // the publication that was current when it asked to subscribe

  /** Bytes sent in one call of `write_all`: those of publication `version`, or their beginning. */
  datatype Delivery = Delivery(version: nat, text: string, complete: bool)

  /** Sending to one client: the snapshot is still to be copied, or part of the copy is sent. */
  datatype Sending = ToCopy | Copied(version: nat, written: nat)

  /** The place of the control thread. In `Sweep(i, …)` the clients below `i` have still to meet
      their events; in `Broadcast(i)` those from `i` on have still to be visited. */
  datatype Phase =
    | Top
    | Poll
    | Drain(accept: bool)
    | Drained(accept: bool)
    | Sweep(index: nat, accept: bool, broadcast: bool)
    | Accept(broadcast: bool)
    | Broadcast(index: nat)
    | Ended

  datatype Server = Server(
    builtIn: Snapshot,
    capacity: nat,                       // of the pipe
    history: seq<Snapshot>,              // all publications, the current one last
    wakes: nat,                          // publishers between replacing and waking
    pipe: nat,                           // bytes in the pipe
    stopping: bool,
    phase: Phase,
    clients: seq<Client>,
    sending: Option<Sending>,
    nextId: nat,
    streams: map<nat, seq<Delivery>>)    // what each client was sent, for ever

  datatype Meeting = Nothing | Drop | Request(request: ControlFraming.Request)

  datatype Event =
    | Replace(snapshot: Snapshot)        // lpublish, under the mutex
    | RequestStop                        // lstop, under the mutex
    | WriteWake                          // the byte, dropped when the pipe is full
    | CheckStop                          // is_stopping at the top of the loop
    | PollFails(interrupted: bool)
    | PollReturns(accept: bool)
    | ReadPipe
    | CheckBroadcast                     // is_stopping after the drain
    | Meet(meeting: Meeting)             // one client of the sweep
    | SweepEnds
    | Arrive(admitted: bool)
    | AcceptEnds
    | Visit                              // one client of the broadcast
    | CopySnapshot                       // under the mutex
    | WriteSome(n: nat)
    | WriteFails

  function Current(d: Server): nat
    requires d.history != []
  {
    |d.history| - 1
  }

  /** The client the thread is busy with. */
  function Target(d: Server): Option<nat> {
    match d.phase
    case Sweep(index, _, _) => if 0 < index <= |d.clients| then Some(index - 1) else None
    case Broadcast(index) => if index < |d.clients| then Some(index) else None
    case _ => None
  }

  function Text(d: Server, version: nat, format: Format): string
    requires version < |d.history|
  {
    Payload(d.builtIn, d.history[version], format)
  }

  /** The target stays: on to the next one. */
  function Advance(d: Server): Server {
    match d.phase
    case Sweep(index, accept, broadcast) =>
      d.(phase := Sweep(if index > 0 then index - 1 else 0, accept, broadcast), sending := None)
    case Broadcast(index) => d.(phase := Broadcast(index + 1), sending := None)
    case _ => d
  }

  /** The target is removed: the last client takes its place. */
  function Remove(d: Server): Server
    requires Target(d).Some?
  {
    var rest := d.(clients := ControlTable.SwapRemoved(d.clients, Target(d).value), sending := None);
    if d.phase.Sweep? then rest.(phase := d.phase.(index := d.phase.index - 1)) else rest
  }

  function Deliver(d: Server, id: nat, delivery: Delivery): Server {
    d.(streams := d.streams[id := (if id in d.streams then d.streams[id] else []) + [delivery]])
  }

  ghost predicate Enabled(d: Server, e: Event) {
    match e
    case Replace(_) => !d.stopping
    case RequestStop => !d.stopping
    case WriteWake => d.wakes > 0
    case CheckStop => d.phase.Top?
    case PollFails(_) => d.phase.Poll?
    case PollReturns(_) => d.phase.Poll?
    case ReadPipe => d.phase.Drain?
    case CheckBroadcast => d.phase.Drained?
    case Meet(meeting) =>
      && d.phase.Sweep? && d.phase.index > 0 && d.sending.None? && Target(d).Some? && d.history != []
      // A subscriber is polled for no input.
      && (meeting.Request? ==> !d.clients[Target(d).value].subscribed)
    case SweepEnds => d.phase.Sweep? && d.phase.index == 0
    case Arrive(_) => d.phase.Accept?
    case AcceptEnds => d.phase.Accept?
    case Visit => d.phase.Broadcast? && d.sending.None?
    case CopySnapshot => d.sending == Some(ToCopy) && d.history != [] && Target(d).Some?
    case WriteSome(n) => Writing(d) && 0 < n <= |WholeText(d)| - d.sending.value.written
    case WriteFails => Writing(d)
  }

  ghost predicate Writing(d: Server) {
    && d.sending.Some? && d.sending.value.Copied? && Target(d).Some?
    && d.sending.value.version < |d.history|
    && d.sending.value.written < |WholeText(d)|
  }

  function WholeText(d: Server): string
    requires d.sending.Some? && d.sending.value.Copied? && Target(d).Some? && d.sending.value.version < |d.history|
  {
    Text(d, d.sending.value.version, d.clients[Target(d).value].format)
  }

  /** What follows a command of the client in the sweep. */
  function Serve(d: Server, request: ControlFraming.Request): Server
    requires d.phase.Sweep? && Target(d).Some? && d.history != []
  {
    var i := Target(d).value;
    match request
    case Status(format) => d.(clients := d.clients[i := d.clients[i].(format := format)], sending := Some(ToCopy))
    case Subscribe(format) =>
      d.(clients := d.clients[i := d.clients[i].(format := format, subscribed := true, since := |d.history| - 1)], sending := Some(ToCopy))
    case _ => Remove(d)
  }

  function Complete(d: Server, delivery: Delivery): Server
    requires Target(d).Some?
  {
    var c := d.clients[Target(d).value];
    var sent := Deliver(d, c.id, delivery);
    if c.subscribed then Advance(sent) else Remove(sent)
  }

  ghost function Step(d: Server, e: Event): Server
    requires Enabled(d, e)
  {
    match e
    case Replace(snapshot) => d.(history := d.history + [snapshot], wakes := d.wakes + 1)
    case RequestStop => d.(stopping := true, wakes := d.wakes + 1)
    case WriteWake => d.(wakes := d.wakes - 1, pipe := if d.pipe < d.capacity then d.pipe + 1 else d.pipe)
    case CheckStop => if d.stopping then d.(phase := Ended, clients := []) else d.(phase := Poll)
    case PollFails(interrupted) => if interrupted then d.(phase := Top) else d.(phase := Ended, clients := [])
    case PollReturns(accept) => d.(phase := if d.pipe > 0 then Drain(accept) else Sweep(|d.clients|, accept, false))
    case ReadPipe =>
      if d.pipe == 0 then d.(phase := Drained(d.phase.accept))
      else d.(pipe := if d.pipe > DRAIN_SIZE then d.pipe - DRAIN_SIZE else 0)
    case CheckBroadcast => d.(phase := Sweep(|d.clients|, d.phase.accept, !d.stopping))
    case Meet(Nothing) => Advance(d)
    case Meet(Drop) => Remove(d)
    case Meet(Request(request)) => Serve(d, request)
    case SweepEnds =>
      d.(phase := if d.phase.accept then Accept(d.phase.broadcast) else if d.phase.broadcast then Broadcast(0) else Top)
    case Arrive(admitted) =>
      if admitted && |d.clients| < ControlTable.MAX_CLIENTS then
        d.(clients := d.clients + [Client(d.nextId, false, Default, 0)], nextId := d.nextId + 1)
      else d
    case AcceptEnds => d.(phase := if d.phase.broadcast then Broadcast(0) else Top)
    case Visit =>
      if d.phase.index >= |d.clients| then d.(phase := Top)
      else if !d.clients[d.phase.index].subscribed then Advance(d)
      else d.(sending := Some(ToCopy))
    case CopySnapshot => d.(sending := Some(Copied(Current(d), 0)))
    case WriteSome(n) =>
      var s := d.sending.value;
      if s.written + n == |WholeText(d)| then Complete(d, Delivery(s.version, WholeText(d), true))
      else d.(sending := Some(s.(written := s.written + n)))
    case WriteFails =>
      var s := d.sending.value;
      Remove(Deliver(d, d.clients[Target(d).value].id, Delivery(s.version, WholeText(d)[..s.written], false)))
  }

  ghost predicate Started(d: Server) {
    && d.builtIn == BUILT_IN && d.capacity > 0 && d.history == [NOTHING_PUBLISHED] && d.wakes == 0 && d.pipe == 0 && !d.stopping
    && d.phase == Top && d.clients == [] && d.sending == None && d.nextId == 0 && d.streams == map[]
  }

  ghost predicate IsRun(run: seq<Server>, events: seq<Event>) {
    && |run| == |events| + 1 && Started(run[0])
    && forall i :: 0 <= i < |events| ==> Enabled(run[i], events[i]) && run[i + 1] == Step(run[i], events[i])
  }

  // ---- shape ------------------------------------------------------------------------

  /** Identities are distinct; sending has a target, a subscriber in a broadcast. */
  ghost predicate Shape(d: Server) {
    true == (
      && (forall format :: Published(d.builtIn, format) != "")
      && d.history != [] && d.capacity > 0 && d.pipe <= d.capacity
      && (forall i, k :: 0 <= i < k < |d.clients| ==> d.clients[i].id != d.clients[k].id)
      && (forall c :: c in d.clients ==> c.id < d.nextId)
      && (forall id :: id in d.streams ==> id < d.nextId)
      && (d.phase.Sweep? ==> d.phase.index <= |d.clients|)
      && (d.phase.Broadcast? ==> d.phase.index <= |d.clients|)
      && (d.sending.Some? ==> Target(d).Some?)
      && (d.sending.Some? && d.phase.Broadcast? ==> d.clients[d.phase.index].subscribed)
      && (d.sending.Some? && d.sending.value.Copied? ==> Writing(d)))
  }

  // ---- no lost snapshot ----------------------------------------------------------------

  /** A wake is on its way to the thread. */
  predicate WakeComing(d: Server) {
    d.wakes > 0 || d.pipe > 0
  }

  /** The thread will still copy a snapshot for the client at place `k`. */
  predicate VisitComing(d: Server, k: nat) {
    match d.phase
    case Drain(_) => true
    case Drained(_) => true
    case Sweep(_, _, broadcast) => broadcast
    case Accept(broadcast) => broadcast
    case Broadcast(index) => k >= index
    case _ => false
  }

  ghost predicate UpToDate(d: Server, c: Client) {
    && c.id in d.streams && d.streams[c.id] != [] && d.history != []
    && var last := d.streams[c.id][|d.streams[c.id]| - 1];
    last.complete && last.version == Current(d) && last.text == Text(d, last.version, c.format)
  }

  /** A subscriber other than the one being sent to is up to date, or will be served. */
  ghost predicate Looked(d: Server, k: nat)
    requires k < |d.clients|
  {
    (&& d.clients[k].subscribed && !(d.sending.Some? && Target(d) == Some(k))
     && !d.stopping && !WakeComing(d) && !VisitComing(d, k)) ==> UpToDate(d, d.clients[k])
  }

  ghost predicate NothingLost(d: Server) {
    true == (
      && (d.phase.Poll? && d.stopping ==> WakeComing(d))
      && (d.sending.Some? && d.sending.value.Copied? && !WakeComing(d) && !d.stopping ==>
            d.sending.value.version == |d.history| - 1)
      && (forall k :: 0 <= k < |d.clients| ==> Looked(d, k)))
  }
}
