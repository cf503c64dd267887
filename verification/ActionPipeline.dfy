/** The way of an action: command line, socket, queue, and back to an action. */
module ActionPipeline {
  import opened LuaHeap
  import opened ControlRing
  import opened ControlFraming
  import Actions

  /** Reading a client and answering what it asks to be queued. */
  method ServeClient(client: Connection, ring: ActionRing, script: seq<Recv>) returns (verdict: Verdict, accepted: bool)
    requires client.Valid() && !client.answered && ring.Valid()
    modifies client, client.command, ring, ring.actions
    ensures client.Valid() && ring.Valid()
    ensures verdict.Asked? ==>
      exists line :: Decide(client.stream) == Command(line) && verdict == Asked(RequestOf(line))
    ensures accepted <==> verdict.Asked? && verdict.request.Queue? && ring.Open() && |old(ring.Contents())| < MAX_ACTIONS
    ensures ring.accepted == old(ring.accepted) + (if accepted then [verdict.request.command] else [])
    ensures ring.popped == old(ring.popped)
  {
    accepted := false;
    verdict := client.ReadCommand(script);
    if verdict.Asked? && verdict.request.Queue? {
      ghost var line :| Decide(client.stream) == Command(line) && verdict.request == RequestOf(line);
      DecidedLineFits(client.stream, line);
      accepted := ring.Enqueue(verdict.request.command);
    }
  }

  /** However its bytes are split and whatever follows them, the line printed for an
      action is read as that line, asks to be queued, fits a slot, and parses back to
      exactly the action that the arguments denote. */
  lemma ActionTravels(arguments: seq<string>, a: Actions.Action, more: string)
    requires Actions.Denotes(arguments, a)
    ensures Actions.FromCli(arguments).Some?
    ensures
      var line := Actions.FromCli(arguments).value;
      && Decide(line + "\n" + more) == Command(line)
      && RequestOf(line) == Queue(line)
      && FitsSlot(line)
      && Actions.Parse(line) == Actions.Accepted(a)
  {
    Actions.PrintedActionIsParsed(arguments, a);
    var line := Actions.FromCli(arguments).value;
    LineIsFound(line, more);
    assert line[8] == line[..9][8] == ' ';
    NotAQuery(line);
  }

  lemma NotAQuery(line: string)
    requires |line| >= 9 && line[8] == ' ' && line[..9] == "dispatch "
    ensures RequestOf(line) == Queue(line)
  {
    assert line[0] == line[..9][0] == 'd' && line[1] == line[..9][1] == 'i';
  }

  datatype Sent = Sent(arguments: seq<string>, action: Actions.Action)

  ghost predicate PrintedFrom(command: string, sent: Sent) {
    Actions.Denotes(sent.arguments, sent.action) && Actions.FromCli(sent.arguments) == Some(command)
  }

  /** When the accepted commands were printed from argument lists, the commands popped so far
      parse, in acceptance order and once each, to the actions first sent. */
  lemma PoppedActionsAreThoseSent(ring: ActionRing, sent: seq<Sent>)
    requires ring.Valid() && |sent| == |ring.accepted|
    requires forall i :: 0 <= i < |sent| ==> PrintedFrom(ring.accepted[i], sent[i])
    ensures |ring.popped| <= |sent|
    ensures forall i :: 0 <= i < |ring.popped| ==> Actions.Parse(ring.popped[i]) == Actions.Accepted(sent[i].action)
    ensures ring.running ==> |sent| == |ring.popped| + |ring.Contents()|
  {
    forall i | 0 <= i < |ring.popped|
      ensures Actions.Parse(ring.popped[i]) == Actions.Accepted(sent[i].action)
    {
      assert PrintedFrom(ring.accepted[i], sent[i]);
      Actions.PrintedActionIsParsed(sent[i].arguments, sent[i].action);
    }
  }
}
