/** The reload protocol as interleaved message steps of the state service, the
    sources and the action service. */
module ReloadRuns {
  import opened LuaHeap
  import opened ConfigReload
  import opened ReloadProtocol

  /** A reload waiting in the state service: `next` is the turn of the source being
      called, `reply` its answer once it has handled the message. */
  datatype Frame = Frame(candidate: Config, next: nat, reply: Option<Reply>, before: Held)

  datatype ActionService = Popping | AwaitingReload

  datatype LastReload = NoneYet | Rejected | Completed | FailedAt(turn: nat, candidate: Config, before: Held)

  datatype Daemon = Daemon(
    startup: Config,           // what the action service was started with and keeps
    config: Config,            // what the state service holds
    held: Held,
    generation: nat,
    lastError: string,
    revision: nat,
    frames: seq<Frame>,        // reloads in flight
    actions: ActionService,
    last: LastReload)

  datatype Event =
    | PopReload(load: Result<Config, string>, incompatible: string)
    | Handle(frame: nat, reply: Reply)     // the called source runs its reload
    | Resume(frame: nat)                   // its answer reaches the state service
    | MergePatch(changed: bool)            // any source publishes into its own domain

  /** The turn of the first enabled source from `i` on. */
  function NextEnabled(c: Config, i: nat): (k: nat)
    requires i <= |SOURCES|
    ensures i <= k <= |SOURCES|
    ensures forall m :: i <= m < k ==> !c.On(SOURCES[m])
    ensures k < |SOURCES| ==> c.On(SOURCES[k])
    decreases |SOURCES| - i
  {
    if i == |SOURCES| || c.On(SOURCES[i]) then i else NextEnabled(c, i + 1)
  }

  ghost predicate Enabled(d: Daemon, e: Event) {
    match e
    case PopReload(load, _) => d.actions.Popping? && (load.Ok? ==> Loaded(load.value))
    case Handle(i, _) =>
      && i < |d.frames| && d.frames[i].reply.None?
      && d.frames[i].next < |SOURCES| && SOURCES[d.frames[i].next] in d.held
    case Resume(i) => i < |d.frames| && d.frames[i].reply.Some? && d.frames[i].next < |SOURCES|
    case MergePatch(_) => true
  }

  function Without(frames: seq<Frame>, i: nat): seq<Frame>
    requires i < |frames|
  {
    frames[..i] + frames[i + 1..]
  }

  /** `reload_failed`: the message is merged, and counts unless it was there already. */
  function Fail(d: Daemon, frames: seq<Frame>, message: string, last: LastReload): Daemon {
    d.(lastError := message, revision := if message == d.lastError then d.revision else d.revision + 1,
       frames := frames, actions := Popping, last := last)
  }

  /** The rest of `S.reload` after the loop. */
  function Complete(d: Daemon, frames: seq<Frame>, candidate: Config): Daemon {
    d.(config := candidate, generation := d.generation + 1, lastError := "", revision := d.revision + 1, frames := frames,
       actions := Popping, last := Completed)
  }

  /** Skip to the next enabled source and call it, or finish when there is none. */
  function Proceed(d: Daemon, others: seq<Frame>, f: Frame, from: nat): Daemon
    requires from <= |SOURCES|
  {
    var next := NextEnabled(f.candidate, from);
    if next == |SOURCES| then Complete(d, others, f.candidate)
    else d.(frames := others + [f.(next := next, reply := None)])
  }

  ghost function Step(d: Daemon, e: Event): Daemon
    requires Enabled(d, e)
  {
    match e
    case PopReload(Err(message), _) => Fail(d, d.frames, message, Rejected)
    case PopReload(Ok(candidate), incompatible) =>
      if !Compatible(d.config, candidate) then Fail(d, d.frames, incompatible, Rejected)
      else Proceed(d.(actions := AwaitingReload), d.frames, Frame(candidate, 0, None, d.held), 0)
    case Handle(i, reply) =>
      var f := d.frames[i];
      var s := SOURCES[f.next];
      d.(held := if TakesOver(reply) then d.held[s := f.candidate] else d.held,
         frames := d.frames[i := f.(reply := Some(reply))])
    case Resume(i) =>
      var f := d.frames[i];
      var others := Without(d.frames, i);
      if f.reply.value.Accepted? then Proceed(d, others, f, f.next + 1)
      else Fail(d, others, f.reply.value.message, FailedAt(f.next, f.candidate, f.before))
    case MergePatch(changed) => if changed then d.(revision := d.revision + 1) else d
  }

  ghost predicate Started(d: Daemon) {
    && Loaded(d.startup) && d.config == d.startup
    && RunsEnabled(d.held, d.startup) && (forall s :: s in d.held ==> d.held[s] == d.startup)
    && d.generation == 1 && d.lastError == "" && d.frames == [] && d.actions == Popping && d.last == NoneYet
  }

  ghost predicate IsRun(run: seq<Daemon>, events: seq<Event>) {
    && |run| == |events| + 1 && Started(run[0])
    && forall i :: 0 <= i < |events| ==> Enabled(run[i], events[i]) && run[i + 1] == Step(run[i], events[i])
  }

  // ---- the invariant ---------------------------------------------------------------

  predicate Switched(f: Frame, s: SourceName) {
    Turn(s) < f.next || (Turn(s) == f.next && f.reply.Some? && TakesOver(f.reply.value))
  }

  /** A reload in flight: the sources before the one being called hold the candidate,
      the others what they held when it began. */
  ghost predicate FrameOk(d: Daemon, f: Frame) {
    && f.next < |SOURCES| && f.candidate.On(SOURCES[f.next])
    && Loaded(f.candidate) && Compatible(d.config, f.candidate)
    && f.before.Keys == d.held.Keys
    && (forall s :: s in d.held ==> d.held[s] == (if Switched(f, s) then f.candidate else f.before[s]))
  }

  /** A source failed: those before it hold the candidate, those after it do not anew. */
  ghost predicate FailureOk(d: Daemon, last: LastReload)
    requires last.FailedAt?
  {
    && last.turn < |SOURCES| && last.candidate.On(SOURCES[last.turn])
    && SwitchedBefore(last.before, d.held, last.candidate, last.turn)
  }

  ghost predicate Inv(d: Daemon) {
    && Loaded(d.config) && Compatible(d.startup, d.config)
    && RunsEnabled(d.held, d.startup)
    && (forall s :: s in d.held ==> Loaded(d.held[s]) && Compatible(d.startup, d.held[s]))
    && (d.last in {NoneYet, Completed} ==> d.lastError == "")
    && |d.frames| == (if d.actions == AwaitingReload then 1 else 0)
    && (forall i :: 0 <= i < |d.frames| ==> FrameOk(d, d.frames[i]))
    && (d.frames == [] && d.last in {NoneYet, Completed} ==> forall s :: s in d.held ==> d.held[s] == d.config)
    && (d.frames == [] && d.last.FailedAt? ==> FailureOk(d, d.last))
  }

  lemma StartedInv(d: Daemon)
    requires Started(d)
    ensures Inv(d)
  {
    CompatibleIsReflexive(d.startup);
  }

  lemma RunningSourceIsOn(d: Daemon, c: Config, s: SourceName)
    requires Inv(d) && Compatible(d.config, c) && s in d.held
    ensures c.On(s)
  {
    assert Agree(d.startup, d.config, ConfigReload.Enabled(s));
    assert Agree(d.config, c, ConfigReload.Enabled(s));
  }

  /** All sources with a turn before `from` hold the candidate: the loop may go on. */
  lemma ProceedInv(d: Daemon, awaiting: Daemon, f: Frame, from: nat)
    requires Inv(d) && from <= |SOURCES|
    requires awaiting == d.(actions := AwaitingReload)
    requires Loaded(f.candidate) && Compatible(d.config, f.candidate) && f.before.Keys == d.held.Keys
    requires forall s :: s in d.held ==> d.held[s] == (if Turn(s) < from then f.candidate else f.before[s])
    ensures Inv(Proceed(awaiting, [], f, from))
  {
    var next := NextEnabled(f.candidate, from);
    CompatibleIsTransitive(d.startup, d.config, f.candidate);
    forall s | s in d.held ensures Turn(s) < from || Turn(s) >= next {
      RunningSourceIsOn(d, f.candidate, s);
      assert SOURCES[Turn(s)] == s;
    }
  }

  lemma StepInv(d: Daemon, e: Event)
    requires Inv(d) && Enabled(d, e)
    ensures Inv(Step(d, e))
  {
    match e
    case PopReload(load, _) =>
      if load.Ok? && Compatible(d.config, load.value) {
        ProceedInv(d, d.(actions := AwaitingReload), Frame(load.value, 0, None, d.held), 0);
      }
    case Handle(i, reply) => HandleInv(d, i, reply);
    case Resume(i) => ResumeInv(d, i);
    case MergePatch(_) =>
  }

  lemma HandleInv(d: Daemon, i: nat, reply: Reply)
    requires Inv(d) && Enabled(d, Handle(i, reply))
    ensures Inv(Step(d, Handle(i, reply)))
  {
    var f := d.frames[i];
    assert FrameOk(d, f);
    CompatibleIsTransitive(d.startup, d.config, f.candidate);
    assert Turn(SOURCES[f.next]) == f.next;
    var d' := Step(d, Handle(i, reply));
    assert d'.held.Keys == d.held.Keys;
    assert FrameOk(d', d'.frames[i]);
  }

  lemma ResumeInv(d: Daemon, i: nat)
    requires Inv(d) && Enabled(d, Resume(i))
    ensures Inv(Step(d, Resume(i)))
  {
    var f := d.frames[i];
    assert FrameOk(d, f);
    assert Without(d.frames, i) == [];
    assert d == d.(actions := AwaitingReload);
    if f.reply.value.Accepted? {
      ProceedInv(d, d, f, f.next + 1);
      assert Proceed(d, [], f, f.next + 1) == Step(d, Resume(i));
    }
  }

  // ---- over every run ------------------------------------------------------------------

  lemma {:induction false} RunInv(run: seq<Daemon>, events: seq<Event>, i: nat)
    requires IsRun(run, events) && i < |run|
    ensures Inv(run[i]) && run[i].startup == run[0].startup
    decreases i
  {
    if i == 0 {
      StartedInv(run[0]);
    } else {
      RunInv(run, events, i - 1);
      StepInv(run[i - 1], events[i - 1]);
      assert run[i - 1 + 1] == Step(run[i - 1], events[i - 1]);
    }
  }

  /** At any moment of any run: at most one reload is in flight, the live configuration
      and those of the sources are compatible with the start-up one and leave a worker free, and
      the start-up configuration routes every action as the live one would. */
  lemma ReloadSafety(run: seq<Daemon>, events: seq<Event>, i: nat, domain: ActionDomain)
    requires IsRun(run, events) && i < |run|
    ensures |run[i].frames| <= 1
    ensures Compatible(run[0].startup, run[i].config)
    ensures forall s :: s in run[i].held ==> Compatible(run[0].startup, run[i].held[s])
    ensures run[i].config.workers > EnabledAmong(run[i].config, BLOCKING)
    ensures Route(run[0].startup, domain) == Route(run[i].config, domain)
    ensures run[0].startup.enabled == run[i].config.enabled
    ensures forall s :: s in run[i].held <==> run[0].startup.On(s)
  {
    RunInv(run, events, i);
    CompatibleRoutesTheSame(run[0].startup, run[i].config, domain);
  }

  /** The state service adopts a candidate at this step. */
  ghost predicate Completes(d: Daemon, e: Event)
    requires Enabled(d, e)
  {
    (e.PopReload? || e.Resume?) && Step(d, e).actions.Popping? && Step(d, e).last.Completed?
  }

  ghost function CompletedReloads(run: seq<Daemon>, events: seq<Event>, n: nat): nat
    requires IsRun(run, events) && n < |run|
  {
    if n == 0 then 0
    else CompletedReloads(run, events, n - 1) + (if Completes(run[n - 1], events[n - 1]) then 1 else 0)
  }

  /** The generation is one more than the number of reloads completed so far. */
  lemma {:induction false} GenerationCountsReloads(run: seq<Daemon>, events: seq<Event>, n: nat)
    requires IsRun(run, events) && n < |run|
    ensures run[n].generation == 1 + CompletedReloads(run, events, n)
    decreases n
  {
    if n == 0 {
    } else {
      GenerationCountsReloads(run, events, n - 1);
      RunInv(run, events, n - 1);
      assert run[n - 1 + 1] == Step(run[n - 1], events[n - 1]);
    }
  }

  /** When the last reload completed, the state service and every running source hold
      the same configuration; when a source failed at some turn, exactly the sources
      before it in the fixed order hold the candidate and none after it does so anew. */
  lemma ReloadAgreement(run: seq<Daemon>, events: seq<Event>, i: nat)
    requires IsRun(run, events) && i < |run| && run[i].frames == []
    ensures run[i].last == Completed ==> run[i].lastError == "" && forall s :: s in run[i].held ==> run[i].held[s] == run[i].config
    ensures run[i].last.FailedAt? ==>
      SwitchedBefore(run[i].last.before, run[i].held, run[i].last.candidate, run[i].last.turn)
  {
    RunInv(run, events, i);
  }

  /** A configuration that does not load, or is not compatible, touches no configuration;
      its message is kept. */
  lemma RejectionTouchesNothing(d: Daemon, load: Result<Config, string>, incompatible: string)
    requires Inv(d) && Enabled(d, PopReload(load, incompatible))
    requires load.Err? || !Compatible(d.config, load.value)
    ensures
      var d' := Step(d, PopReload(load, incompatible));
      && d'.config == d.config && d'.held == d.held && d'.generation == d.generation && d'.frames == []
      && d'.actions == Popping && d'.lastError == if load.Err? then load.error else incompatible
  {
  }

  /** The revision never falls, and a completed reload is always a new one. */
  lemma {:induction false} RevisionNeverFalls(run: seq<Daemon>, events: seq<Event>, i: nat, k: nat)
    requires IsRun(run, events) && i <= k < |run|
    ensures run[i].revision <= run[k].revision
    ensures run[i].generation < run[k].generation ==> run[i].revision < run[k].revision
    decreases k
  {
    if i == k {
    } else {
      RevisionNeverFalls(run, events, i, k - 1);
      assert run[k - 1 + 1] == Step(run[k - 1], events[k - 1]);
    }
  }

  /** While a reload is in flight the state service keeps its configuration and its
      generation, whatever messages run at the yield points. */
  lemma ConfigIsStableInFlight(d: Daemon, e: Event)
    requires Inv(d) && Enabled(d, e) && d.frames != [] && Step(d, e).frames != []
    ensures Step(d, e).config == d.config && Step(d, e).generation == d.generation
    ensures Step(d, e).frames[0].candidate == d.frames[0].candidate && Step(d, e).frames[0].before == d.frames[0].before
  {
    StableWithOneFrame(d, e);
  }

  lemma StableWithOneFrame(d: Daemon, e: Event)
    requires |d.frames| == 1 && d.actions == AwaitingReload && Enabled(d, e) && Step(d, e).frames != []
    ensures Step(d, e).config == d.config && Step(d, e).generation == d.generation
    ensures Step(d, e).frames[0].candidate == d.frames[0].candidate && Step(d, e).frames[0].before == d.frames[0].before
  {
    if e.Resume? {
      assert Without(d.frames, e.frame) == [];
    }
  }
}
