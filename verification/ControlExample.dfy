/** One run of the control server: a client subscribes, then a snapshot is published and
    reaches it through the pipe. */
module ControlExample {
  import opened LuaHeap
  import opened ControlFraming
  import opened ControlProtocol

  const FIRST := Snapshot(1, "a\n", "b\n", "c\n")
  const SECOND := Snapshot(2, "d\n", "e\n", "f\n")

  function Idle(history: seq<Snapshot>, phase: Phase, clients: seq<Client>, sent: seq<Delivery>): Server {
    Server(BUILT_IN, 1, history, 0, 0, false, phase, clients, None, |clients|, if sent == [] then map[] else map[0 := sent])
  }

  const NEWCOMER := Client(0, false, Default, 0)
  const SUBSCRIBER := Client(0, true, Default, 1)

  ghost function RunSteps(): (r: (seq<Server>, seq<Event>)) {
    var h1 := [NOTHING_PUBLISHED, FIRST];
    var h2 := h1 + [SECOND];
    var a, b := Delivery(1, "a\n", true), Delivery(2, "d\n", true);
    var start := Idle([NOTHING_PUBLISHED], Top, [], []);
    var arrived := Idle(h1, Poll, [NEWCOMER], []);
    var asked := Idle(h1, Sweep(1, false, false), [SUBSCRIBER], []);
    var served := Idle(h1, Top, [SUBSCRIBER], [a]);
    var published := Idle(h2, Poll, [SUBSCRIBER], [a]);
    var visiting := Idle(h2, Broadcast(0), [SUBSCRIBER], [a]);
    ([start, start.(history := h1, wakes := 1), start.(history := h1, pipe := 1),
      start.(history := h1, pipe := 1, phase := Poll), start.(history := h1, pipe := 1, phase := Drain(true)),
      start.(history := h1, phase := Drain(true)), start.(history := h1, phase := Drained(true)),
      start.(history := h1, phase := Sweep(0, true, true)), start.(history := h1, phase := Accept(true)),
      arrived.(phase := Accept(true)), arrived.(phase := Broadcast(0)), arrived.(phase := Broadcast(1)),
      arrived.(phase := Top), arrived, arrived.(phase := Sweep(1, false, false)),
      asked.(sending := Some(ToCopy)), asked.(sending := Some(Copied(1, 0))),
      served.(phase := Sweep(0, false, false)), served, served.(phase := Poll),
      published.(wakes := 1), published.(pipe := 1), published.(pipe := 1, phase := Drain(false)),
      published.(phase := Drain(false)), published.(phase := Drained(false)),
      published.(phase := Sweep(1, false, true)), published.(phase := Sweep(0, false, true)),
      visiting, visiting.(sending := Some(ToCopy)), visiting.(sending := Some(Copied(2, 0))),
      visiting.(sending := Some(Copied(2, 1))), visiting.(phase := Broadcast(1), streams := map[0 := [a, b]]),
      Idle(h2, Top, [SUBSCRIBER], [a, b]), Idle(h2, Poll, [SUBSCRIBER], [a, b])],
     [Replace(FIRST), WriteWake, CheckStop, PollReturns(true), ReadPipe, ReadPipe, CheckBroadcast, SweepEnds,
      Arrive(true), AcceptEnds, Visit, Visit, CheckStop, PollReturns(false),
      Meet(Meeting.Request(Subscribe(Default))), CopySnapshot, WriteSome(2), SweepEnds, CheckStop,
      Replace(SECOND), WriteWake, PollReturns(false), ReadPipe, ReadPipe, CheckBroadcast, Meet(Nothing), SweepEnds,
      Visit, CopySnapshot, WriteSome(1), WriteSome(1), Visit, CheckStop])
  }

  lemma SubscriberGetsBoth()
    ensures
      var (run, events) := RunSteps();
      && IsRun(run, events)
      && run[33].phase == Poll && run[33].clients == [SUBSCRIBER]
      && run[33].streams == map[0 := [Delivery(1, "a\n", true), Delivery(2, "d\n", true)]]
  {
    var (run, events) := RunSteps();
    forall i | 0 <= i < |events| ensures Enabled(run[i], events[i]) && run[i + 1] == Step(run[i], events[i]) {
      if i < 7 {
        First(i);
      } else if i < 14 {
        Second(i);
      } else if i < 20 {
        Third(i);
      } else if i < 27 {
        Fourth(i);
      } else {
        Fifth(i);
      }
    }
  }

  ghost predicate Right(i: nat) {
    var (run, events) := RunSteps();
    i < |events| && i + 1 < |run| && Enabled(run[i], events[i]) && run[i + 1] == Step(run[i], events[i])
  }

  lemma First(i: nat)
    requires i < 7
    ensures Right(i)
  {
  }

  lemma Second(i: nat)
    requires 7 <= i < 14
    ensures Right(i)
  {
    if i < 9 {
      Second0(i);
    } else if i < 11 {
      Second1(i);
    } else {
      Second2(i);
    }
  }

  lemma Second0(i: nat)
    requires 7 <= i < 9
    ensures Right(i)
  {
  }

  lemma Second1(i: nat)
    requires 9 <= i < 11
    ensures Right(i)
  {
  }

  lemma Second2(i: nat)
    requires 11 <= i < 14
    ensures Right(i)
  {
  }

  lemma Third(i: nat)
    requires 14 <= i < 20
    ensures Right(i)
  {
    if i < 16 {
      Third1(i);
    } else if i == 16 {
      FirstDelivery();
    } else {
      Third2(i);
    }
  }

  lemma Third1(i: nat)
    requires 14 <= i < 16
    ensures Right(i)
  {
  }

  lemma FirstDelivery()
    ensures Right(16)
  {
    var (run, events) := RunSteps();
    DeliverFirst(run[16]);
  }

  lemma DeliverFirst(d: Server)
    requires d.builtIn == BUILT_IN && d.history == [NOTHING_PUBLISHED, FIRST] && d.clients == [SUBSCRIBER]
    requires d.phase == Sweep(1, false, false) && d.sending == Some(Copied(1, 0)) && d.streams == map[]
    ensures Enabled(d, WriteSome(2))
    ensures Step(d, WriteSome(2)) ==
      d.(phase := Sweep(0, false, false), sending := None, streams := map[0 := [Delivery(1, "a\n", true)]])
  {
    assert Target(d) == Some(0) && WholeText(d) == "a\n";
    var a, none: seq<Delivery> := Delivery(1, "a\n", true), [];
    assert none + [a] == [a];
    assert Deliver(d, 0, a).streams == map[0 := [a]];
  }

  lemma Third2(i: nat)
    requires 17 <= i < 20
    ensures Right(i)
  {
  }

  lemma Fourth(i: nat)
    requires 20 <= i < 27
    ensures Right(i)
  {
  }

  lemma Fifth(i: nat)
    requires 27 <= i < 33
    ensures Right(i)
  {
    if i == 30 {
      SecondDelivery();
    } else {
      Fifth1(i);
    }
  }

  lemma SecondDelivery()
    ensures Right(30)
  {
    var (run, events) := RunSteps();
    var d := run[30];
    assert Target(d) == Some(0) && WholeText(d) == "d\n";
    var a, b := Delivery(1, "a\n", true), Delivery(2, "d\n", true);
    assert [a] + [b] == [a, b] && d.streams == map[0 := [a]];
    assert Deliver(d, 0, b).streams == map[0 := [a, b]];
  }

  lemma Fifth1(i: nat)
    requires 27 <= i < 33 && i != 30
    ensures Right(i)
  {
  }
}
