/** The reload protocol: the state service loads a candidate, asks every enabled
    source in turn to take it over, and only then adopts it. Each call to a source
    is a yield point at which other messages run. */
module ReloadProtocol {
  import opened LuaHeap
  import opened ConfigReload

  /** What a source answers. A source that raises or refuses is lost to the reload
      whether or not it had already switched. */
  datatype Reply =
    | Accepted
    | Raised(message: string, switched: bool)
    | Refused(message: string, switched: bool)

  predicate TakesOver(reply: Reply) {
    reply.Accepted? || reply.switched
  }

  /** Where a source stands in the fixed order of the calls. */
  function Turn(s: SourceName): (i: nat)
    ensures i < |SOURCES| && SOURCES[i] == s
  {
    match s
    case Audio => 0
    case Github => 1
    case Hyprland => 2
    case Mpris => 3
    case System => 4
    case Weather => 5
  }

  /** The configuration held by each running source. */
  type Held = map<SourceName, Config>

  ghost predicate RunsEnabled(held: Held, c: Config) {
    forall s :: s in held <==> c.On(s)
  }

  // ---- the service as code -----------------------------------------------------

  /** The first enabled source, from `i` on, that does not accept; 6 when all accept. */
  ghost function FirstFailure(candidate: Config, replies: map<SourceName, Reply>, i: nat): (k: nat)
    requires i <= |SOURCES|
    ensures i <= k <= |SOURCES|
    decreases |SOURCES| - i
  {
    if i == |SOURCES| then i
    else if candidate.On(SOURCES[i]) && SOURCES[i] in replies && !replies[SOURCES[i]].Accepted? then i
    else FirstFailure(candidate, replies, i + 1)
  }

  /** Sources before turn `k` hold the candidate, those after it what they held before. */
  ghost predicate SwitchedBefore(before: Held, after: Held, candidate: Config, k: nat) {
    && after.Keys == before.Keys
    && forall s :: s in before ==>
         && (Turn(s) < k ==> after[s] == candidate)
         && (Turn(s) > k ==> after[s] == before[s])
         && (Turn(s) == k ==> after[s] == candidate || after[s] == before[s])
  }

  class StateService {
    var config: Config
    var generation: nat
    var lastError: string
    var revision: nat
    var held: Held

    ghost predicate Valid()
      reads this
    {
      RunsEnabled(held, config)
    }

    constructor (config: Config)
      ensures Valid() && this.config == config && generation == 1 && lastError == "" && revision == 0
      ensures forall s :: s in held ==> held[s] == config
    {
      this.config := config;
      generation, lastError, revision := 1, "", 0;
      held := map s | s in SOURCES && config.On(s) :: config;
      new;
      forall s ensures s in held <==> config.On(s) {
        assert SOURCES[Turn(s)] == s;
      }
    }

    /** `reload_failed`: the message is merged into the runtime domain. */
    method ReloadFailed(message: string) returns (ok: bool)
      modifies `lastError, `revision
      ensures !ok && lastError == message
      ensures revision == old(revision) + (if message == old(lastError) then 0 else 1)
    {
      if lastError != message {
        lastError := message;
        revision := revision + 1;
      }
      ok := false;
    }

    /** `S.reload`. While the call to source i is pending, `traffic[i]` merges that
        change other domains run in this service. */
    method Reload(load: Result<Config, string>, incompatible: string, replies: map<SourceName, Reply>, traffic: seq<nat>)
      returns (ok: bool)
      requires Valid() && |traffic| == |SOURCES|
      requires forall s :: s in held ==> s in replies
      modifies this
      ensures Valid()
      ensures ok <==> load.Ok? && Compatible(old(config), load.value) && FirstFailure(load.value, replies, 0) == |SOURCES|
      ensures ok ==> config == load.value && generation == old(generation) + 1 && lastError == ""
      ensures ok ==> forall s :: s in held ==> held[s] == config
      ensures ok <==> load.Ok? && Compatible(old(config), load.value) && forall s :: s in old(held) ==> replies[s].Accepted?
      ensures !ok ==> config == old(config) && generation == old(generation)
      ensures load.Err? ==> held == old(held) && lastError == load.error
      ensures load.Ok? && !Compatible(old(config), load.value) ==> held == old(held) && lastError == incompatible
      ensures load.Ok? && Compatible(old(config), load.value) ==>
        var k := FirstFailure(load.value, replies, 0);
        && SwitchedBefore(old(held), held, load.value, k)
        && (k < |SOURCES| ==> lastError == replies[SOURCES[k]].message)
      ensures revision >= old(revision) && (ok ==> revision > old(revision))
    {
      if load.Err? {
        ok := ReloadFailed(load.error);
        return;
      }
      var candidate := load.value;
      var difference := Reloadable(config, candidate);
      if difference.Some? {
        ok := ReloadFailed(incompatible);
        return;
      }
      ghost var before := held;
      FailureMeaning(config, candidate, held, replies);
      var failed := SwitchSources(candidate, replies, traffic);
      if failed < |SOURCES| {
        ok := ReloadFailed(replies[SOURCES[failed]].message);
        return;
      }
      AllSwitched(config, before, held, candidate);
      config := candidate;
      generation := generation + 1;
      lastError := "";
      revision := revision + 1;
      ok := true;
    }

    /** The calls, one source at a time; the turn of the first that fails, or 6. */
    method SwitchSources(candidate: Config, replies: map<SourceName, Reply>, traffic: seq<nat>) returns (failed: nat)
      requires Valid() && Compatible(config, candidate) && |traffic| == |SOURCES|
      requires forall s :: s in held ==> s in replies
      modifies `held, `revision
      ensures Valid() && revision >= old(revision)
      ensures failed == FirstFailure(candidate, replies, 0)
      ensures failed < |SOURCES| ==> SOURCES[failed] in held && !replies[SOURCES[failed]].Accepted?
      ensures SwitchedBefore(old(held), held, candidate, failed)
      ensures failed == |SOURCES| ==> SwitchedUpTo(old(held), held, candidate, failed)
    {
      for i := 0 to |SOURCES|
        invariant revision >= old(revision)
        invariant FirstFailure(candidate, replies, 0) == FirstFailure(candidate, replies, i)
        invariant SwitchedUpTo(old(held), held, candidate, i)
      {
        var s := SOURCES[i];
        assert Turn(s) == i;
        assert Agree(config, candidate, Enabled(s));
        if candidate.On(s) {
          if TakesOver(replies[s]) {
            held := held[s := candidate];
          }
          revision := revision + traffic[i];
          if !replies[s].Accepted? {
            return i;
          }
        }
      }
      failed := |SOURCES|;
    }
  }

  /** No failure exactly when every running source accepts; otherwise the first enabled source in the
      order audio, GitHub, Hyprland, MPRIS, system, weather that does not. */
  lemma FailureMeaning(config: Config, candidate: Config, held: Held, replies: map<SourceName, Reply>)
    requires RunsEnabled(held, config) && Compatible(config, candidate) && forall s :: s in held ==> s in replies
    ensures
      var k := FirstFailure(candidate, replies, 0);
      && (k == 6 <==> forall s :: s in held ==> replies[s].Accepted?)
      && (k < 6 ==> SOURCES[k] in held && !replies[SOURCES[k]].Accepted?)
      && (forall s :: s in held && Turn(s) < k ==> replies[s].Accepted?)
    ensures Turn(Audio) < Turn(Github) < Turn(Hyprland) < Turn(Mpris) < Turn(System) < Turn(Weather)
  {
    forall s ensures s in held <==> candidate.On(s) {
      assert Agree(config, candidate, Enabled(s));
    }
    FirstFailureMeaning(candidate, replies, 0);
    assert forall s: SourceName :: SOURCES[Turn(s)] == s;
  }

  predicate Fails(candidate: Config, replies: map<SourceName, Reply>, s: SourceName) {
    candidate.On(s) && s in replies && !replies[s].Accepted?
  }

  lemma {:induction false} FirstFailureMeaning(candidate: Config, replies: map<SourceName, Reply>, i: nat)
    requires i <= |SOURCES|
    ensures
      var k := FirstFailure(candidate, replies, i);
      && (k < |SOURCES| ==> Fails(candidate, replies, SOURCES[k]))
      && forall m :: i <= m < k ==> !Fails(candidate, replies, SOURCES[m])
    decreases |SOURCES| - i
  {
    if i == |SOURCES| {
    } else {
      FirstFailureMeaning(candidate, replies, i + 1);
    }
  }

  ghost predicate SwitchedUpTo(before: Held, after: Held, candidate: Config, i: nat) {
    && after.Keys == before.Keys
    && forall s :: s in before ==> after[s] == if Turn(s) < i then candidate else before[s]
  }

  lemma AllSwitched(config: Config, before: Held, after: Held, candidate: Config)
    requires RunsEnabled(before, config) && Compatible(config, candidate)
    requires SwitchedUpTo(before, after, candidate, |SOURCES|)
    ensures RunsEnabled(after, candidate)
    ensures forall s :: s in after ==> after[s] == candidate
    ensures SwitchedBefore(before, after, candidate, |SOURCES|)
  {
    forall s ensures s in after <==> candidate.On(s) {
      assert Agree(config, candidate, Enabled(s));
      assert s in after.Keys <==> s in before.Keys;
    }
  }
}
