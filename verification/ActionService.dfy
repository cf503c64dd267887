/** The action service: it pops accepted commands one at a time and dispatches them. An
    error in parsing is not caught, and ends the loop for good. */
module ActionService {
  import opened LuaHeap
  import opened Decimal
  import opened ControlRing
  import opened ControlFraming
  import opened ConfigReload
  import Actions
  import ActionPipeline

  datatype Effect =
    | CallReload
    | CallService(source: SourceName, name: string, value: Actions.Argument)
    | SourceDisabled(source: SourceName)
    | InvalidCommand

  predicate Raises(command: string) {
    command != "reload" && Actions.Parse(command).Raised?
  }

  function DomainOf(a: Actions.Action): ActionDomain {
    if a.domain == "workspace" then WorkspaceActions
    else if a.domain == "media" then MediaActions
    else if a.domain == "audio" then AudioActions
    else BrightnessActions
  }

  /** What serving a command comes to. */
  function EffectOf(config: Config, command: string): Effect {
    if command == "reload" then CallReload
    else
      match Actions.Parse(command)
      case Accepted(a) =>
        (match Route(config, DomainOf(a))
         case Some(source) => CallService(source, a.name, a.value)
         case None => SourceDisabled(SourceOf(DomainOf(a))))
      case _ => InvalidCommand
  }

  /** What an action has to do: its name and value go to the one source of its domain, which is
      named when it is not enabled. */
  predicate Performs(config: Config, a: Actions.Action, effect: Effect) {
    if a.domain == "workspace" then
      effect == if config.enabled.hyprland then CallService(Hyprland, a.name, a.value) else SourceDisabled(Hyprland)
    else if a.domain == "media" then
      effect == if config.enabled.mpris then CallService(Mpris, a.name, a.value) else SourceDisabled(Mpris)
    else if a.domain == "audio" then
      effect == if config.enabled.audio then CallService(Audio, a.name, a.value) else SourceDisabled(Audio)
    else
      a.domain == "brightness"
      && effect == if config.enabled.system then CallService(System, a.name, a.value) else SourceDisabled(System)
  }

  /** The effect of every command: a reload, an action performed, or a rejection. */
  ghost predicate HasEffect(config: Config, command: string, effect: Effect) {
    && (command == "reload" ==> effect == CallReload)
    && (forall a :: command != "reload" && Actions.Parse(command) == Actions.Accepted(a) ==> Performs(config, a, effect))
    && (forall a :: Actions.ValidAction(a) && command == Actions.Line(a) ==> Performs(config, a, effect))
    && (command != "reload" && Actions.Parse(command) == Actions.Rejected ==> effect == InvalidCommand)
  }

  lemma EffectMeaning(config: Config, command: string)
    requires !Raises(command)
    ensures HasEffect(config, command, EffectOf(config, command))
  {
    forall a | Actions.ValidAction(a) && command == Actions.Line(a)
      ensures command != "reload" && Actions.Parse(command) == Actions.Accepted(a)
    {
      Actions.LineIsPrintable(a);
      Actions.LineIsParsed(a);
    }
    if command != "reload" && Actions.Parse(command).Accepted? {
      Actions.ParsedIsAction(command);
      ActionIsPerformed(config, Actions.Parse(command).action, EffectOf(config, command));
    }
  }

  lemma ActionIsPerformed(config: Config, a: Actions.Action, effect: Effect)
    requires Actions.ValidAction(a)
    requires
      var route := Route(config, DomainOf(a));
      effect == if route.Some? then CallService(route.value, a.name, a.value) else SourceDisabled(SourceOf(DomainOf(a)))
    ensures Performs(config, a, effect)
  {
  }

  /** The commands popped so far were all served in turn, but for the last one when it
      raised an error. */
  ghost predicate Served(config: Config, popped: seq<string>, dead: bool, effects: seq<Effect>) {
    true == (
      && |popped| == |effects| + (if dead then 1 else 0)
      && (dead ==> Raises(popped[|effects|]))
      && forall i :: 0 <= i < |effects| ==> !Raises(popped[i]) && effects[i] == EffectOf(config, popped[i]))
  }

  lemma ServedOneMore(config: Config, popped: seq<string>, effects: seq<Effect>, command: string)
    requires Served(config, popped, false, effects)
    ensures Raises(command) ==> Served(config, popped + [command], true, effects)
    ensures !Raises(command) ==> Served(config, popped + [command], false, effects + [EffectOf(config, command)])
  {
  }

  class Service {
    const config: Config         // the start-up configuration, never replaced
    const ring: ActionRing
    var stopping: bool
    var dead: bool               // the loop has ended with an error
    var effects: seq<Effect>

    constructor (config: Config, ring: ActionRing)
      requires ring.Valid() && ring.popped == []
      ensures Valid() && this.config == config && this.ring == ring && !stopping && !dead && effects == []
    {
      this.config, this.ring, stopping, dead, effects := config, ring, false, false, [];
    }

    /** Only popping matters: the control thread may queue commands at any time. */
    ghost predicate Valid()
      reads this, ring, ring.actions
    {
      ring.Valid() && Served(config, ring.popped, dead, effects)
    }

    method Quit()
      modifies `stopping
      ensures stopping
    {
      stopping := true;
    }

    method Dispatch(command: string) returns (raised: bool)
      modifies `effects
      ensures raised <==> Raises(command)
      ensures effects == old(effects) + (if raised then [] else [EffectOf(config, command)])
      // In the source's terms:
      ensures !raised ==> HasEffect(config, command, effects[|effects| - 1])
    {
      if !Raises(command) {
        EffectMeaning(config, command);
      }
      if command == "reload" {
        effects := effects + [CallReload];
        return false;
      }
      match Actions.Parse(command) {
        case Raised => return true;
        case Rejected => effects := effects + [InvalidCommand];
        case Accepted(a) =>
          var source := SourceOf(DomainOf(a));
          if config.On(source) {
            effects := effects + [CallService(source, a.name, a.value)];
          } else {
            effects := effects + [SourceDisabled(source)];
          }
      }
      raised := false;
    }

    /** The loop until the queue is empty, when it would sleep, or an error ends it. It serves
        all that is queued if and only if none of it raises. */
    method PopLoop()
      requires Valid()
      modifies this, ring
      ensures Valid() && stopping == old(stopping)
      ensures ring.popped + ring.Contents() == old(ring.popped + ring.Contents()) && ring.accepted == old(ring.accepted)
      ensures old(stopping || dead || !ring.Open()) ==> dead == old(dead) && ring.popped == old(ring.popped)
      ensures !old(stopping || dead || !ring.Open()) ==>
        && (dead <==> exists i :: 0 <= i < |old(ring.Contents())| && Raises(old(ring.Contents())[i]))
        && (!dead ==> ring.Contents() == [])
    {
      ghost var queued, popped := ring.Contents(), ring.popped;
      ghost var n := 0;
      while !stopping && !dead
        invariant Valid() && stopping == old(stopping) && ring.accepted == old(ring.accepted)
        invariant ring.running == old(ring.running) && ring.stopping == old(ring.stopping)
        invariant Taken(queued, popped, n, ring.Contents(), ring.popped)
        invariant if old(dead) then dead && n == 0 else Raised(queued, n, dead)
        invariant n > 0 ==> ring.Open() && !stopping
        decreases |queued| - n, !dead
      {
        var command := ring.Pop();
        if command.None? {
          break;
        }
        TakeOne(queued, popped, n, ring.Contents(), command.value);
        ServedOneMore(config, popped + queued[..n], effects, command.value);
        n := n + 1;
        dead := Dispatch(command.value);
      }
    }
  }

  /** The first `n` queued commands have been popped. */
  ghost predicate Taken(queued: seq<string>, popped: seq<string>, n: nat, queue: seq<string>, popped': seq<string>) {
    true == (n <= |queued| && queue == queued[n..] && popped' == popped + queued[..n])
  }

  /** Of the first `n` commands only the last may raise, and then the loop is dead. */
  ghost predicate Raised(queued: seq<string>, n: nat, dead: bool) {
    true == (
      && n <= |queued| && (dead ==> n > 0 && Raises(queued[n - 1]))
      && forall i :: 0 <= i < n && Raises(queued[i]) ==> dead)
  }

  lemma TakeOne(queued: seq<string>, popped: seq<string>, n: nat, rest: seq<string>, command: string)
    requires n <= |queued| && queued[n..] == [command] + rest
    ensures n < |queued| && queued[n] == command
    ensures Taken(queued, popped, n + 1, rest, popped + queued[..n] + [command])
  {
    assert queued[n..][0] == command && queued[n..][1..] == queued[n + 1..];
    assert queued[..n + 1] == queued[..n] + [command];
  }

  /** At any time: the loop has died exactly when a popped command raises, which is then
      the last one popped, and everything popped before it was served in order. */
  lemma ServesAllIffNoneRaises(service: Service)
    requires service.Valid()
    ensures service.dead <==> exists i :: 0 <= i < |service.ring.popped| && Raises(service.ring.popped[i])
    ensures |service.effects| == |service.ring.popped| <==> !service.dead
    ensures forall i :: 0 <= i < |service.effects| ==> service.effects[i] == EffectOf(service.config, service.ring.popped[i])
    ensures forall i :: 0 <= i < |service.effects| ==> HasEffect(service.config, service.ring.popped[i], service.effects[i])
    ensures forall i :: 0 <= i < |service.ring.popped| && Raises(service.ring.popped[i]) ==> i == |service.ring.popped| - 1
  {
    if service.dead {
      assert Raises(service.ring.popped[|service.effects|]);
    }
    forall i | 0 <= i < |service.effects|
      ensures HasEffect(service.config, service.ring.popped[i], service.effects[i])
    {
      EffectMeaning(service.config, service.ring.popped[i]);
    }
  }

  /** Commands printed from argument lists never end the loop. */
  lemma CommandLineNeverKills(service: Service, sent: seq<ActionPipeline.Sent>)
    requires service.Valid() && |sent| == |service.ring.accepted|
    requires forall i :: 0 <= i < |sent| ==> ActionPipeline.PrintedFrom(service.ring.accepted[i], sent[i])
    ensures !service.dead
  {
    ActionPipeline.PoppedActionsAreThoseSent(service.ring, sent);
    ServesAllIffNoneRaises(service);
  }

  const TOO_LARGE: int := MAX_INTEGER + 1

  /** One line over the socket does end it: it is read, queued, fits a slot, and raises. */
  lemma OneLineEndsTheLoop(more: string)
    ensures
      var line := Actions.WORKSPACE + PrintInt(TOO_LARGE);
      && Decide(line + "\n" + more) == Command(line)
      && RequestOf(line) == Queue(line)
      && FitsSlot(line)
      && Raises(line)
  {
    var line := Actions.WORKSPACE + PrintInt(TOO_LARGE);
    TooLargeRaises();
    TooLargeIsPrintable();
    LineIsFound(line, more);
    ActionPipeline.NotAQuery(line);
  }

  lemma TooLargeRaises()
    ensures Actions.Parse(Actions.WORKSPACE + PrintInt(TOO_LARGE)) == Actions.Raised
  {
    Actions.AfterPrefix(Actions.WORKSPACE, PrintInt(TOO_LARGE));
    PrintedDecimal(TOO_LARGE);
  }

  lemma TooLargeIsPrintable()
    ensures
      var line := Actions.WORKSPACE + PrintInt(TOO_LARGE);
      |line| <= 46 && line[..9] == "dispatch " && line[8] == ' ' && '\n' !in line && '\0' !in line
  {
    PrintedDigits(TOO_LARGE);
    Actions.PrintedIntHasNoNewline(TOO_LARGE);
    assert (Actions.WORKSPACE + PrintInt(TOO_LARGE))[..9] == Actions.WORKSPACE[..9];
  }
}
