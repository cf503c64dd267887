/** Every run of the control server: no publication is lost, and each subscriber is sent
    complete snapshots in order. */
module ControlRuns {
  import opened LuaHeap
  import opened ControlFraming
  import opened ControlProtocol

  // ---- the shape is kept -------------------------------------------------------------

  lemma RemoveShape(d: Server)
    requires Shape(d) && Target(d).Some?
    ensures Shape(Remove(d))
  {
    var i, d' := Target(d).value, Remove(d);
    assert forall k :: 0 <= k < |d'.clients| ==> d'.clients[k] == d.clients[if k == i then |d.clients| - 1 else k];
  }

  lemma DeliverShape(d: Server, id: nat, delivery: Delivery)
    requires Shape(d) && id < d.nextId
    ensures Shape(Deliver(d, id, delivery))
  {
    assert Target(Deliver(d, id, delivery)) == Target(d);
  }

  lemma AdvanceShape(d: Server)
    requires Shape(d) && Target(d).Some?
    ensures Shape(Advance(d))
  {
  }

  lemma ServeShape(d: Server, request: Request)
    requires Shape(d) && Enabled(d, Meet(Meeting.Request(request)))
    ensures Shape(Serve(d, request))
  {
    if request.Status? || request.Subscribe? {
      var d' := Serve(d, request);
      assert forall k :: 0 <= k < |d.clients| ==> d'.clients[k].id == d.clients[k].id;
    } else {
      RemoveShape(d);
    }
  }

  lemma CompleteShape(d: Server, delivery: Delivery)
    requires Shape(d) && Target(d).Some?
    ensures Shape(Complete(d, delivery))
  {
    var c := d.clients[Target(d).value];
    assert c in d.clients;
    DeliverShape(d, c.id, delivery);
    if c.subscribed {
      AdvanceShape(Deliver(d, c.id, delivery));
    } else {
      RemoveShape(Deliver(d, c.id, delivery));
    }
  }

  lemma SendShape(d: Server, e: Event)
    requires Shape(d) && Enabled(d, e) && (e.CopySnapshot? || e.WriteSome? || e.WriteFails?)
    ensures Shape(Step(d, e))
  {
    var c := d.clients[Target(d).value];
    assert c in d.clients;
    match e
    case CopySnapshot =>
    case WriteSome(n) =>
      CompleteShape(d, Delivery(d.sending.value.version, WholeText(d), true));
    case WriteFails =>
      var delivery := Delivery(d.sending.value.version, WholeText(d)[..d.sending.value.written], false);
      DeliverShape(d, c.id, delivery);
      RemoveShape(Deliver(d, c.id, delivery));
  }

  lemma ArriveShape(d: Server, admitted: bool)
    requires Shape(d) && Enabled(d, Arrive(admitted))
    ensures Shape(Step(d, Arrive(admitted)))
  {
  }

  lemma ShapeStep(d: Server, e: Event)
    requires Shape(d) && Enabled(d, e)
    ensures Shape(Step(d, e))
  {
    match e
    case Meet(Nothing) => AdvanceShape(d);
    case Meet(Drop) => RemoveShape(d);
    case Meet(Request(request)) => ServeShape(d, request);
    case CopySnapshot => SendShape(d, e);
    case WriteSome(_) => SendShape(d, e);
    case WriteFails => SendShape(d, e);
    case Arrive(admitted) => ArriveShape(d, admitted);
    case _ => QuietShape(d, e);
  }

  /** Steps that touch no client. */
  predicate Quiet(e: Event) {
    !(e.Meet? || e.CopySnapshot? || e.WriteSome? || e.WriteFails? || e.Arrive?)
  }

  lemma QuietShape(d: Server, e: Event)
    requires Shape(d) && Enabled(d, e) && Quiet(e)
    ensures Shape(Step(d, e))
  {
  }

  // ---- nothing is lost -------------------------------------------------------------------

  /** The streams of all other clients are as they were. */
  ghost predicate SameElsewhere(a: map<nat, seq<Delivery>>, b: map<nat, seq<Delivery>>, id: nat) {
    forall other :: other != id ==> (other in a <==> other in b) && (other in a ==> a[other] == b[other])
  }

  lemma RemoveLosesNothing(d: Server, streams: map<nat, seq<Delivery>>)
    requires Shape(d) && NothingLost(d) && Target(d).Some?
    requires SameElsewhere(d.streams, streams, d.clients[Target(d).value].id)
    ensures NothingLost(Remove(d.(streams := streams)))
  {
    var i, d' := Target(d).value, Remove(d.(streams := streams));
    forall k | 0 <= k < |d'.clients| ensures Looked(d', k) {
      var from := if k == i then |d.clients| - 1 else k;
      assert Looked(d, from) && from != i && d'.clients[k] == d.clients[from];
      assert d.clients[from].id != d.clients[i].id;
    }
  }

  /** After the target has been served: it is no subscriber, or it was sent what was
      current, or a wake is coming. */
  lemma AdvanceLosesNothing(d: Server, streams: map<nat, seq<Delivery>>)
    requires Shape(d) && NothingLost(d) && Target(d).Some?
    requires SameElsewhere(d.streams, streams, d.clients[Target(d).value].id)
    requires var c := d.clients[Target(d).value];
      !c.subscribed || d.stopping || WakeComing(d) || UpToDate(d.(streams := streams), c)
      || (d.phase.Sweep? && d.sending.None? && streams == d.streams)
    ensures NothingLost(Advance(d.(streams := streams)))
  {
    var i, d' := Target(d).value, Advance(d.(streams := streams));
    forall k | 0 <= k < |d'.clients| ensures Looked(d', k) {
      assert Looked(d, k);
      assert k != i ==> d.clients[k].id != d.clients[i].id;
    }
  }

  lemma ServeLosesNothing(d: Server, request: Request)
    requires Shape(d) && NothingLost(d) && Enabled(d, Meet(Meeting.Request(request)))
    ensures NothingLost(Serve(d, request))
  {
    if request.Status? || request.Subscribe? {
      var i, d' := Target(d).value, Serve(d, request);
      forall k | 0 <= k < |d'.clients| ensures Looked(d', k) {
        assert Looked(d, k);
        assert k != i ==> d'.clients[k] == d.clients[k];
      }
    } else {
      RemoveLosesNothing(d, d.streams);
      assert d.(streams := d.streams) == d;
    }
  }

  lemma CompleteLosesNothing(d: Server)
    requires Shape(d) && NothingLost(d) && Writing(d)
    ensures NothingLost(Complete(d, Delivery(d.sending.value.version, WholeText(d), true)))
  {
    var delivery := Delivery(d.sending.value.version, WholeText(d), true);
    var c := d.clients[Target(d).value];
    var sent := Deliver(d, c.id, delivery);
    assert sent == d.(streams := sent.streams);
    assert sent.streams[c.id][|sent.streams[c.id]| - 1] == delivery;
    if c.subscribed {
      AdvanceLosesNothing(d, sent.streams);
    } else {
      RemoveLosesNothing(d, sent.streams);
    }
  }

  lemma WriteLosesNothing(d: Server, n: nat)
    requires Shape(d) && NothingLost(d) && Enabled(d, WriteSome(n))
    ensures NothingLost(Step(d, WriteSome(n)))
  {
    if d.sending.value.written + n == |WholeText(d)| {
      CompleteLosesNothing(d);
    } else {
      var d' := Step(d, WriteSome(n));
      forall k | 0 <= k < |d'.clients| ensures Looked(d', k) {
        assert Looked(d, k);
      }
    }
  }

  lemma FailureLosesNothing(d: Server)
    requires Shape(d) && NothingLost(d) && Enabled(d, WriteFails)
    ensures NothingLost(Step(d, WriteFails))
  {
    var c := d.clients[Target(d).value];
    var sent := Deliver(d, c.id, Delivery(d.sending.value.version, WholeText(d)[..d.sending.value.written], false));
    assert sent == d.(streams := sent.streams);
    RemoveLosesNothing(d, sent.streams);
  }

  /** Steps of the publishers, and steps of the thread that leave its clients alone. */
  lemma QuietLosesNothing(d: Server, e: Event)
    requires Shape(d) && NothingLost(d) && Enabled(d, e) && (Quiet(e) && !e.Visit?)
    ensures NothingLost(Step(d, e))
  {
    var d' := Step(d, e);
    forall k | 0 <= k < |d'.clients| ensures Looked(d', k) {
      assert Looked(d, k);
    }
  }

  lemma VisitLosesNothing(d: Server)
    requires Shape(d) && NothingLost(d) && Enabled(d, Visit)
    ensures NothingLost(Step(d, Visit))
  {
    var d' := Step(d, Visit);
    if d.phase.index < |d.clients| && !d.clients[d.phase.index].subscribed {
      AdvanceLosesNothing(d, d.streams);
      assert d.(streams := d.streams) == d;
    } else {
      forall k | 0 <= k < |d'.clients| ensures Looked(d', k) {
        assert Looked(d, k);
      }
    }
  }

  lemma ThreadLosesNothing(d: Server, e: Event)
    requires Shape(d) && NothingLost(d) && Enabled(d, e) && (e.Arrive? || e.CopySnapshot?)
    ensures NothingLost(Step(d, e))
  {
    var d' := Step(d, e);
    forall k | 0 <= k < |d'.clients| ensures Looked(d', k) {
      assert k < |d.clients| ==> Looked(d, k);
    }
  }

  lemma LostStep(d: Server, e: Event)
    requires Shape(d) && NothingLost(d) && Enabled(d, e)
    ensures NothingLost(Step(d, e))
  {
    assert d.(streams := d.streams) == d;
    match e
    case Meet(Nothing) => AdvanceLosesNothing(d, d.streams);
    case Meet(Drop) => RemoveLosesNothing(d, d.streams);
    case Meet(Request(request)) => ServeLosesNothing(d, request);
    case WriteSome(n) => WriteLosesNothing(d, n);
    case WriteFails => FailureLosesNothing(d);
    case Visit => VisitLosesNothing(d);
    case Arrive(_) => ThreadLosesNothing(d, e);
    case CopySnapshot => ThreadLosesNothing(d, e);
    case _ => QuietLosesNothing(d, e);
  }

  // ---- what each client is sent -------------------------------------------------------

  /** The payload of its publication, or the beginning of it. */
  predicate Genuine(builtIn: Snapshot, history: seq<Snapshot>, x: Delivery, format: Format) {
    && x.version < |history| && x.text <= Payload(builtIn, history[x.version], format)
    && (x.complete ==> x.text == Payload(builtIn, history[x.version], format))
  }

  /** Payloads in one format, of publications in order; only the last may be cut short. */
  ghost predicate InOrder(builtIn: Snapshot, history: seq<Snapshot>, s: seq<Delivery>, format: Format) {
    true == (
      && (forall i :: 0 <= i < |s| ==> Genuine(builtIn, history, s[i], format))
      && (forall i, k :: 0 <= i < k < |s| ==> s[i].version <= s[k].version)
      && (forall i :: 0 <= i < |s| - 1 ==> s[i].complete))
  }

  function StreamOf(d: Server, id: nat): seq<Delivery> {
    if id in d.streams then d.streams[id] else []
  }

  predicate Busy(d: Server, k: nat) {
    d.sending.Some? && Target(d) == Some(k)
  }

  /** What a live subscriber was sent: whole payloads, from its subscription on. */
  ghost predicate Subscribed(d: Server, c: Client, s: seq<Delivery>) {
    true == (
      && InOrder(d.builtIn, d.history, s, c.format) && c.since < |d.history|
      && (forall i :: 0 <= i < |s| ==> s[i].complete)
      && (s != [] ==> c.since <= s[0].version))
  }

  ghost predicate LiveStream(d: Server, k: nat)
    requires k < |d.clients|
  {
    var c := d.clients[k];
    var s := StreamOf(d, c.id);
    if c.subscribed then
      && Subscribed(d, c, s)
      && (s == [] ==> Busy(d, k))
      && (Busy(d, k) && d.sending.value.Copied? ==>
            c.since <= d.sending.value.version < |d.history|
            && (s != [] ==> s[|s| - 1].version <= d.sending.value.version))
    else s == []
  }

  ghost predicate Sound(builtIn: Snapshot, history: seq<Snapshot>, s: seq<Delivery>) {
    exists format :: InOrder(builtIn, history, s, format)
  }

  ghost predicate StreamsOk(d: Server) {
    true == (
      && (forall k :: 0 <= k < |d.clients| ==> LiveStream(d, k))
      && (forall id :: id in d.streams ==> Sound(d.builtIn, d.history, d.streams[id])))
  }

  lemma OrderStands(builtIn: Snapshot, history: seq<Snapshot>, more: Snapshot, s: seq<Delivery>, format: Format)
    requires InOrder(builtIn, history, s, format)
    ensures InOrder(builtIn, history + [more], s, format)
  {
  }

  lemma Append(builtIn: Snapshot, history: seq<Snapshot>, s: seq<Delivery>, x: Delivery, format: Format)
    requires InOrder(builtIn, history, s, format) && forall i :: 0 <= i < |s| ==> s[i].complete
    requires Genuine(builtIn, history, x, format)
    requires s != [] ==> s[|s| - 1].version <= x.version
    ensures InOrder(builtIn, history, s + [x], format)
  {
  }

  /** A client that nobody is sending to keeps its stream. */
  lemma LiveStands(d: Server, k: nat, d': Server, k': nat)
    requires k < |d.clients| && k' < |d'.clients| && d'.clients[k'] == d.clients[k]
    requires LiveStream(d, k) && !Busy(d, k) && !Busy(d', k')
    requires d'.history == d.history && d'.builtIn == d.builtIn
    requires StreamOf(d', d.clients[k].id) == StreamOf(d, d.clients[k].id)
    ensures LiveStream(d', k')
  {
  }

  lemma RemoveKeepsStreams(d: Server, streams: map<nat, seq<Delivery>>)
    requires Shape(d) && StreamsOk(d) && Target(d).Some?
    requires SameElsewhere(d.streams, streams, d.clients[Target(d).value].id)
    requires d.clients[Target(d).value].id in streams ==> Sound(d.builtIn, d.history, streams[d.clients[Target(d).value].id])
    ensures StreamsOk(Remove(d.(streams := streams)))
  {
    var i, d' := Target(d).value, Remove(d.(streams := streams));
    forall k | 0 <= k < |d'.clients| ensures LiveStream(d', k) {
      var from := if k == i then |d.clients| - 1 else k;
      assert d.clients[from].id != d.clients[i].id;
      assert LiveStream(d, from);
      LiveStands(d, from, d', k);
    }
  }

  lemma AdvanceKeepsStreams(d: Server, streams: map<nat, seq<Delivery>>)
    requires Shape(d) && StreamsOk(d) && Target(d).Some?
    requires SameElsewhere(d.streams, streams, d.clients[Target(d).value].id)
    requires var c := d.clients[Target(d).value]; var s := if c.id in streams then streams[c.id] else [];
      if c.subscribed then Subscribed(d, c, s) && s != [] else s == []
    ensures StreamsOk(Advance(d.(streams := streams)))
  {
    var i, d' := Target(d).value, Advance(d.(streams := streams));
    var c := d.clients[i];
    forall k | 0 <= k < |d'.clients| ensures LiveStream(d', k) {
      assert LiveStream(d, k);
      if k != i {
        assert d.clients[k].id != c.id;
        LiveStands(d, k, d', k);
      } else {
        assert Subscribed(d', c, StreamOf(d', c.id)) <==> Subscribed(d, c, StreamOf(d', c.id));
      }
    }
    assert c.id in streams ==> InOrder(d.builtIn, d.history, streams[c.id], c.format) by {
      assert InOrder(d.builtIn, d.history, [], c.format);
    }
  }

  lemma ReplaceKeepsStreams(d: Server, snapshot: Snapshot)
    requires Shape(d) && StreamsOk(d) && Enabled(d, Replace(snapshot))
    ensures StreamsOk(Step(d, Replace(snapshot)))
  {
    var d' := Step(d, Replace(snapshot));
    forall k | 0 <= k < |d'.clients| ensures LiveStream(d', k) {
      assert LiveStream(d, k);
      if d.clients[k].subscribed {
        OrderStands(d.builtIn, d.history, snapshot, StreamOf(d, d.clients[k].id), d.clients[k].format);
      }
    }
    forall id | id in d'.streams ensures Sound(d'.builtIn, d'.history, d'.streams[id]) {
      var format :| InOrder(d.builtIn, d.history, d.streams[id], format);
      OrderStands(d.builtIn, d.history, snapshot, d.streams[id], format);
    }
  }

  lemma ServeKeepsStreams(d: Server, request: Request)
    requires Shape(d) && StreamsOk(d) && Enabled(d, Meet(Meeting.Request(request)))
    ensures StreamsOk(Serve(d, request))
  {
    var i := Target(d).value;
    if request.Status? || request.Subscribe? {
      var d' := Serve(d, request);
      forall k | 0 <= k < |d'.clients| ensures LiveStream(d', k) {
        assert LiveStream(d, k);
        assert k != i ==> d'.clients[k] == d.clients[k];
      }
    } else {
      assert d.(streams := d.streams) == d;
      RemoveKeepsStreams(d, d.streams);
    }
  }

  /** One more delivery to the target keeps its stream in order. */
  lemma DeliveryIsSound(d: Server, text: string, complete: bool)
    requires Shape(d) && StreamsOk(d) && Writing(d)
    requires text <= WholeText(d) && (complete ==> text == WholeText(d))
    ensures
      var c := d.clients[Target(d).value];
      var s := StreamOf(d, c.id) + [Delivery(d.sending.value.version, text, complete)];
      && InOrder(d.builtIn, d.history, s, c.format)
      && (complete && c.subscribed ==> Subscribed(d, c, s))
  {
    var k := Target(d).value;
    assert LiveStream(d, k);
    var c := d.clients[k];
    var before := StreamOf(d, c.id);
    assert InOrder(d.builtIn, d.history, before, c.format);
    var x := Delivery(d.sending.value.version, text, complete);
    Append(d.builtIn, d.history, before, x, c.format);
    assert before != [] ==> (before + [x])[0] == before[0];
  }

  lemma WriteKeepsStreams(d: Server, n: nat)
    requires Shape(d) && StreamsOk(d) && Enabled(d, WriteSome(n))
    ensures StreamsOk(Step(d, WriteSome(n)))
  {
    if d.sending.value.written + n == |WholeText(d)| {
      CompleteKeepsStreams(d);
    } else {
      WritingOnKeepsStreams(d, Step(d, WriteSome(n)));
    }
  }

  lemma WritingOnKeepsStreams(d: Server, d': Server)
    requires StreamsOk(d) && Writing(d) && d'.sending.Some? && d'.sending.value.Copied?
    requires d'.sending.value.version == d.sending.value.version && d' == d.(sending := d'.sending)
    ensures StreamsOk(d')
  {
    forall k | 0 <= k < |d'.clients| ensures LiveStream(d', k) {
      assert LiveStream(d, k);
      assert Busy(d', k) == Busy(d, k);
    }
  }

  lemma CompleteKeepsStreams(d: Server)
    requires Shape(d) && StreamsOk(d) && Writing(d)
    ensures StreamsOk(Complete(d, Delivery(d.sending.value.version, WholeText(d), true)))
  {
    var c := d.clients[Target(d).value];
    DeliveryIsSound(d, WholeText(d), true);
    var sent := Deliver(d, c.id, Delivery(d.sending.value.version, WholeText(d), true));
    assert sent == d.(streams := sent.streams);
    if c.subscribed {
      AdvanceKeepsStreams(d, sent.streams);
    } else {
      RemoveKeepsStreams(d, sent.streams);
    }
  }

  lemma FailureKeepsStreams(d: Server)
    requires Shape(d) && StreamsOk(d) && Enabled(d, WriteFails)
    ensures StreamsOk(Step(d, WriteFails))
  {
    var c := d.clients[Target(d).value];
    var text := WholeText(d)[..d.sending.value.written];
    DeliveryIsSound(d, text, false);
    var sent := Deliver(d, c.id, Delivery(d.sending.value.version, text, false));
    assert sent == d.(streams := sent.streams);
    RemoveKeepsStreams(d, sent.streams);
  }

  /** Steps that send nothing and replace nothing. */
  lemma QuietKeepsStreams(d: Server, e: Event)
    requires Shape(d) && StreamsOk(d) && Enabled(d, e)
    requires Quiet(e) && !e.Replace? && !e.Visit?
    ensures StreamsOk(Step(d, e))
  {
    var d' := Step(d, e);
    assert d'.history == d.history && d'.streams == d.streams && d'.builtIn == d.builtIn && d'.sending == d.sending;
    assert d'.sending.Some? ==> Target(d') == Target(d);
    assert d'.clients == d.clients || d'.clients == [];
    StandingStreams(d, d');
  }

  lemma StandingStreams(d: Server, d': Server)
    requires StreamsOk(d)
    requires d'.history == d.history && d'.streams == d.streams && d'.builtIn == d.builtIn && d'.sending == d.sending
    requires d'.sending.Some? ==> Target(d') == Target(d)
    requires d'.clients == d.clients || d'.clients == []
    ensures StreamsOk(d')
  {
    forall k | 0 <= k < |d'.clients| ensures LiveStream(d', k) {
      assert LiveStream(d, k);
    }
  }

  lemma CopyKeepsStreams(d: Server)
    requires Shape(d) && StreamsOk(d) && Enabled(d, CopySnapshot)
    ensures StreamsOk(Step(d, CopySnapshot))
  {
    var d' := Step(d, CopySnapshot);
    forall k | 0 <= k < |d'.clients| ensures LiveStream(d', k) {
      assert LiveStream(d, k);
      if d.clients[k].subscribed && StreamOf(d, d.clients[k].id) != [] {
        var s := StreamOf(d, d.clients[k].id);
        assert Genuine(d.builtIn, d.history, s[|s| - 1], d.clients[k].format);
      }
    }
  }

  lemma ArriveKeepsStreams(d: Server, admitted: bool)
    requires Shape(d) && StreamsOk(d) && Enabled(d, Arrive(admitted))
    ensures StreamsOk(Step(d, Arrive(admitted)))
  {
    var d' := Step(d, Arrive(admitted));
    forall k | 0 <= k < |d'.clients| ensures LiveStream(d', k) {
      assert k < |d.clients| ==> LiveStream(d, k);
    }
  }

  /** A client that waits for input or is not subscribed is passed over. */
  lemma PassKeepsStreams(d: Server)
    requires Shape(d) && StreamsOk(d) && Target(d).Some? && d.sending == None
    ensures StreamsOk(Advance(d))
  {
    assert LiveStream(d, Target(d).value);
    assert d.(streams := d.streams) == d;
    AdvanceKeepsStreams(d, d.streams);
  }

  lemma VisitKeepsStreams(d: Server)
    requires Shape(d) && StreamsOk(d) && Enabled(d, Visit)
    ensures StreamsOk(Step(d, Visit))
  {
    if d.phase.index < |d.clients| && !d.clients[d.phase.index].subscribed {
      PassKeepsStreams(d);
    } else {
      var d' := Step(d, Visit);
      forall k | 0 <= k < |d'.clients| ensures LiveStream(d', k) {
        assert LiveStream(d, k);
      }
    }
  }

  lemma StreamStep(d: Server, e: Event)
    requires Shape(d) && StreamsOk(d) && Enabled(d, e)
    ensures StreamsOk(Step(d, e))
  {
    match e
    case Replace(snapshot) => ReplaceKeepsStreams(d, snapshot);
    case Meet(Nothing) => PassKeepsStreams(d);
    case Meet(Drop) =>
      assert d.(streams := d.streams) == d;
      RemoveKeepsStreams(d, d.streams);
    case Meet(Request(request)) => ServeKeepsStreams(d, request);
    case WriteSome(n) => WriteKeepsStreams(d, n);
    case WriteFails => FailureKeepsStreams(d);
    case Visit => VisitKeepsStreams(d);
    case CopySnapshot => CopyKeepsStreams(d);
    case Arrive(admitted) => ArriveKeepsStreams(d, admitted);
    case _ => QuietKeepsStreams(d, e);
  }

  // ---- over every run ---------------------------------------------------------------------

  ghost predicate Inv(d: Server) {
    Shape(d) && NothingLost(d) && StreamsOk(d)
  }

  lemma {:induction false} RunInv(run: seq<Server>, events: seq<Event>, n: nat)
    requires IsRun(run, events) && n < |run|
    ensures Inv(run[n])
    decreases n
  {
    if n == 0 {
      StartedInv(run[0]);
    } else {
      RunInv(run, events, n - 1);
      ShapeStep(run[n - 1], events[n - 1]);
      LostStep(run[n - 1], events[n - 1]);
      StreamStep(run[n - 1], events[n - 1]);
      assert run[n - 1 + 1] == Step(run[n - 1], events[n - 1]);
    }
  }

  lemma StartedInv(d: Server)
    requires Started(d)
    ensures Inv(d)
  {
  }

  /** No publication is lost: in every interleaving, when the thread waits in `poll` with an empty
      pipe and nobody is between replacing the snapshot and writing the wake byte, the
      last thing sent to every subscriber is the current snapshot, whole and in its format. */
  lemma NoLostSnapshot(run: seq<Server>, events: seq<Event>, n: nat, c: Client)
    requires IsRun(run, events) && n < |run|
    requires run[n].phase == Poll && run[n].pipe == 0 && run[n].wakes == 0
    requires c in run[n].clients && c.subscribed
    ensures !run[n].stopping && run[n].history != []
    ensures c.id in run[n].streams && run[n].streams[c.id] != []
    ensures
      var last := run[n].streams[c.id][|run[n].streams[c.id]| - 1];
      var newest := run[n].history[|run[n].history| - 1];
      && last.complete
      && match c.format
         case Default =>
           last.text == if newest.text != "" then newest.text else "{\"revision\":0,\"state\":{},\"type\":\"snapshot\"}\n"
         case Eww =>
           last.text == if newest.ewwText != "" then newest.ewwText else "{}\n"
         case Doctor =>
           last.text == if newest.doctorText != "" then newest.doctorText
             else "{\"healthy\":false,\"ready\":false,\"revision\":0,\"sources\":{},\"type\":\"doctor\"}\n"
  {
    RunInv(run, events, n);
    AtRestAllAreCurrent(run[n], c);
    BuiltInStands(run, events, n);
    PayloadMeaning(run[n].history[|run[n].history| - 1], c.format);
  }

  /** The text of a publication in a format, or the built-in text when there is none. */
  predicate IsTextOf(text: string, s: Snapshot, format: Format) {
    match format
    case Default =>
      text == if s.text != "" then s.text else "{\"revision\":0,\"state\":{},\"type\":\"snapshot\"}\n"
    case Eww =>
      text == if s.ewwText != "" then s.ewwText else "{}\n"
    case Doctor =>
      text == if s.doctorText != "" then s.doctorText
        else "{\"healthy\":false,\"ready\":false,\"revision\":0,\"sources\":{},\"type\":\"doctor\"}\n"
  }

  lemma PayloadMeaning(s: Snapshot, format: Format)
    ensures IsTextOf(Payload(BUILT_IN, s, format), s, format)
  {
  }

  /** The text of its publication in that format when whole, and otherwise the beginning of it. */
  ghost predicate Shows(history: seq<Snapshot>, x: Delivery, format: Format) {
    true == (
      && x.version < |history|
      && (x.complete ==> IsTextOf(x.text, history[x.version], format))
      && exists more: string :: IsTextOf(x.text + more, history[x.version], format))
  }

  lemma GenuineShows(history: seq<Snapshot>, x: Delivery, format: Format)
    requires Genuine(BUILT_IN, history, x, format)
    ensures Shows(history, x, format)
  {
    var s := history[x.version];
    PayloadMeaning(s, format);
    RestOf(x.text, Payload(BUILT_IN, s, format), s, format);
  }

  lemma RestOf(text: string, whole: string, s: Snapshot, format: Format)
    requires text <= whole && IsTextOf(whole, s, format)
    ensures exists more: string :: IsTextOf(text + more, s, format)
  {
    var more := whole[|text|..];
    assert text + more == whole;
  }

  lemma AtRestAllAreCurrent(d: Server, c: Client)
    requires Shape(d) && NothingLost(d) && d.phase == Poll && d.pipe == 0 && d.wakes == 0
    requires c in d.clients && c.subscribed
    ensures !d.stopping && UpToDate(d, c)
  {
    var k :| 0 <= k < |d.clients| && d.clients[k] == c;
    assert Looked(d, k);
  }

  lemma {:induction false} BuiltInStands(run: seq<Server>, events: seq<Event>, n: nat)
    requires IsRun(run, events) && n < |run|
    ensures run[n].builtIn == BUILT_IN
    decreases n
  {
    if n == 0 {
    } else {
      BuiltInStands(run, events, n - 1);
      assert run[n - 1 + 1] == Step(run[n - 1], events[n - 1]);
    }
  }

  /** Whatever a client was ever sent: payloads of publications in one format, in order of
      publication, all whole except perhaps the last. */
  lemma StreamIsOrdered(run: seq<Server>, events: seq<Event>, n: nat, id: nat)
    requires IsRun(run, events) && n < |run| && id in run[n].streams
    ensures exists format :: ShownInOrder(run[n].history, run[n].streams[id], format)
    ensures exists format :: InOrder(BUILT_IN, run[n].history, run[n].streams[id], format)
    ensures
      var s := run[n].streams[id];
      forall i, k :: 0 <= i < k < |s| ==>
        s[i].complete && s[k].version < |run[n].history|
        && s[i].version <= s[k].version
  {
    RunInv(run, events, n);
    BuiltInStands(run, events, n);
    var format :| InOrder(run[n].builtIn, run[n].history, run[n].streams[id], format);
    InOrderIsShown(run[n].history, run[n].streams[id], format);
  }

  /** Texts of publications in one format, in order; only the last may be cut short. */
  ghost predicate ShownInOrder(history: seq<Snapshot>, s: seq<Delivery>, format: Format) {
    true == (
      && (forall i :: 0 <= i < |s| ==> Shows(history, s[i], format))
      && (forall i, k :: 0 <= i < k < |s| ==> s[i].version <= s[k].version && s[i].complete))
  }

  lemma InOrderIsShown(history: seq<Snapshot>, s: seq<Delivery>, format: Format)
    requires InOrder(BUILT_IN, history, s, format)
    ensures ShownInOrder(history, s, format)
    ensures forall i, k :: 0 <= i < k < |s| ==> s[i].complete && s[k].version < |history| && s[i].version <= s[k].version
  {
    forall i | 0 <= i < |s| ensures Shows(history, s[i], format) {
      GenuineShows(history, s[i], format);
    }
  }

  /** A subscriber that is not being served was sent whole payloads in its format, the
      first no older than what was current when it asked. */
  lemma SubscriberIsServed(run: seq<Server>, events: seq<Event>, n: nat, c: Client)
    requires IsRun(run, events) && n < |run| && c in run[n].clients && c.subscribed
    requires run[n].sending.None?
    ensures c.id in run[n].streams && run[n].streams[c.id] != []
    ensures ShownInOrder(run[n].history, run[n].streams[c.id], c.format)
    ensures InOrder(BUILT_IN, run[n].history, run[n].streams[c.id], c.format)
    ensures forall i :: 0 <= i < |run[n].streams[c.id]| ==> run[n].streams[c.id][i].complete
    ensures c.since <= run[n].streams[c.id][0].version
  {
    RunInv(run, events, n);
    BuiltInStands(run, events, n);
    var k :| 0 <= k < |run[n].clients| && run[n].clients[k] == c;
    assert LiveStream(run[n], k);
    InOrderIsShown(run[n].history, run[n].streams[c.id], c.format);
  }

  // ---- requests are honoured -----------------------------------------------------------

  /** Asking to subscribe makes a subscriber in that format, and asking for the status sets the
      format; either way a snapshot is sent next, the one current when it is copied. */
  lemma RequestIsHonoured(d: Server, request: Request)
    requires Shape(d) && Enabled(d, Meet(Meeting.Request(request)))
    ensures
      var i, d' := Target(d).value, Step(d, Meet(Meeting.Request(request)));
      match request
      case Subscribe(format) =>
        && d'.sending == Some(ToCopy) && Target(d') == Some(i)
        && d'.clients[i] == Client(d.clients[i].id, true, format, |d.history| - 1)
      case Status(format) =>
        && d'.sending == Some(ToCopy) && Target(d') == Some(i)
        && d'.clients[i] == d.clients[i].(format := format) && !d'.clients[i].subscribed
      case _ => forall c :: c in d'.clients ==> c.id != d.clients[i].id
  {
    var i := Target(d).value;
    if !request.Subscribe? && !request.Status? {
      RemovedIsGone(d, i);
    }
  }

  lemma RemovedIsGone(d: Server, i: nat)
    requires Shape(d) && Target(d) == Some(i)
    ensures forall c :: c in Remove(d).clients ==> c.id != d.clients[i].id
    ensures forall c :: c in d.clients && c.id != d.clients[i].id ==> c in Remove(d).clients
  {
    var clients, rest := d.clients, Remove(d).clients;
    forall c | c in rest ensures c.id != clients[i].id {
      var k :| 0 <= k < |rest| && rest[k] == c;
      assert rest[k] == clients[if k == i then |clients| - 1 else k];
    }
    forall c | c in clients && c.id != clients[i].id ensures c in rest {
      var k :| 0 <= k < |clients| && clients[k] == c;
      assert rest[if k == |clients| - 1 then i else k] == c;
    }
  }

  /** Copying takes the newest publication, and the last byte written completes the delivery. */
  lemma SnapshotIsSent(d: Server)
    requires Shape(d)
    ensures Enabled(d, CopySnapshot) ==> Step(d, CopySnapshot) == d.(sending := Some(Copied(|d.history| - 1, 0)))
    ensures forall n :: Enabled(d, WriteSome(n)) && d.sending.value.written + n == |WholeText(d)| ==>
      var id := d.clients[Target(d).value].id;
      StreamOf(Step(d, WriteSome(n)), id) == StreamOf(d, id) + [Delivery(d.sending.value.version, WholeText(d), true)]
  {
  }

  /** A subscriber is lost only with its connection, or when the thread ends. */
  lemma OnlyFailureLosesSubscriber(d: Server, e: Event, c: Client)
    requires Shape(d) && Enabled(d, e) && c in d.clients && c.subscribed
    ensures c in Step(d, e).clients || e.WriteFails? || e == Meet(Drop) || e == PollFails(false) || (e.CheckStop? && d.stopping)
  {
    match e
    case Meet(Request(request)) => OthersStay(d, Target(d).value, c, Serve(d, request));
    case WriteSome(n) =>
      var i := Target(d).value;
      if !d.clients[i].subscribed && d.sending.value.written + n == |WholeText(d)| {
        OthersStay(d, i, c, Step(d, e));
      }
    case _ =>
  }

  lemma OthersStay(d: Server, i: nat, c: Client, d': Server)
    requires Shape(d) && Target(d) == Some(i) && c in d.clients && c.subscribed && !d.clients[i].subscribed
    requires d'.clients == Remove(d).clients
      || (|d'.clients| == |d.clients| && forall k :: 0 <= k < |d.clients| && k != i ==> d'.clients[k] == d.clients[k])
    ensures c in d'.clients
  {
    var k :| 0 <= k < |d.clients| && d.clients[k] == c;
    RemovedIsGone(d, i);
    assert d.clients[k].id != d.clients[i].id;
    assert |d'.clients| == |d.clients| && k < |d'.clients| ==> d'.clients[k] in d'.clients;
  }

  /** Nothing that was sent is taken back, and a client once gone is sent nothing more. */
  lemma StreamsOnlyGrow(d: Server, e: Event, id: nat)
    requires Shape(d) && Enabled(d, e)
    ensures StreamOf(d, id) <= StreamOf(Step(d, e), id)
    ensures StreamOf(Step(d, e), id) != StreamOf(d, id) ==>
      exists c :: c in d.clients && c.id == id
  {
  }

  /** An incomplete payload is the last thing sent: the client is dropped with it. */
  lemma CutShortIsDropped(run: seq<Server>, events: seq<Event>, n: nat, id: nat, i: nat)
    requires IsRun(run, events) && n < |run|
    requires i < |StreamOf(run[n], id)| && !StreamOf(run[n], id)[i].complete
    ensures i == |StreamOf(run[n], id)| - 1
    ensures forall c :: c in run[n].clients ==> c.id != id
  {
    RunInv(run, events, n);
    var format :| InOrder(run[n].builtIn, run[n].history, run[n].streams[id], format);
    forall c | c in run[n].clients ensures c.id != id {
      var k :| 0 <= k < |run[n].clients| && run[n].clients[k] == c;
      assert LiveStream(run[n], k);
    }
  }
}
