/** Which configuration changes a running daemon may take over, and what every
    chain of accepted changes keeps. */
module ConfigReload {
  import opened LuaHeap

  datatype SourceName = Audio | Github | Hyprland | Mpris | System | Weather

  datatype Switches = Switches(audio: bool, github: bool, hyprland: bool, mpris: bool, system: bool, weather: bool)

  /** The fields of a loaded configuration that process topology depends on. The
      sockets may be absent while the Hyprland source is disabled. */
  datatype Config = Config(
    workers: int,
    socketPath: string,
    enabled: Switches,
    commandSocket: Option<string>,
    eventSocket: Option<string>,
    sysfsRoot: string,
    policy: nat)             // everything a reload may change
  {
    predicate On(s: SourceName) {
      match s
      case Audio => enabled.audio
      case Github => enabled.github
      case Hyprland => enabled.hyprland
      case Mpris => enabled.mpris
      case System => enabled.system
      case Weather => enabled.weather
    }
  }

  datatype Immutable =
    | Workers
    | SocketPath
    | Enabled(source: SourceName)
    | CommandSocket
    | EventSocket
    | SysfsRoot

  const SOURCES: seq<SourceName> := [Audio, Github, Hyprland, Mpris, System, Weather]

  /** The sources that occupy a worker each. */
  const BLOCKING: seq<SourceName> := [Hyprland, Mpris, Audio, Weather, Github]

  // ---- the worker check of `load` -----------------------------------------

  ghost function EnabledAmong(c: Config, sources: seq<SourceName>): (n: nat)
    ensures n <= |sources|
  {
    if sources == [] then 0
    else EnabledAmong(c, sources[..|sources| - 1]) + (if c.On(sources[|sources| - 1]) then 1 else 0)
  }

  ghost predicate Loaded(c: Config) {
    && 1 <= c.workers <= 256
    && (c.On(Hyprland) ==> c.commandSocket.Some? && c.eventSocket.Some? && c.commandSocket != c.eventSocket)
    && c.workers > EnabledAmong(c, BLOCKING)
  }

  /** The inequality `load` insists on: one worker more than the blocking sources. */
  method EnoughWorkers(c: Config) returns (ok: bool)
    ensures ok <==> c.workers > EnabledAmong(c, BLOCKING)
    ensures
      var blocking := (if c.enabled.hyprland then 1 else 0) + (if c.enabled.mpris then 1 else 0)
        + (if c.enabled.audio then 1 else 0) + (if c.enabled.weather then 1 else 0) + (if c.enabled.github then 1 else 0);
      ok <==> c.workers > blocking
  {
    FiveBlockingSources(c);
    var blockingSources := 0;
    for i := 0 to |BLOCKING|
      invariant blockingSources == EnabledAmong(c, BLOCKING[..i])
    {
      assert BLOCKING[..i + 1][..i] == BLOCKING[..i];
      if c.On(BLOCKING[i]) {
        blockingSources := blockingSources + 1;
      }
    }
    assert BLOCKING[..|BLOCKING|] == BLOCKING;
    ok := c.workers > blockingSources;
  }

  /** Hyprland, MPRIS, audio, weather and GitHub occupy a worker each; the system source does not. */
  lemma FiveBlockingSources(c: Config)
    ensures EnabledAmong(c, BLOCKING) ==
      (if c.enabled.hyprland then 1 else 0) + (if c.enabled.mpris then 1 else 0) + (if c.enabled.audio then 1 else 0)
      + (if c.enabled.weather then 1 else 0) + (if c.enabled.github then 1 else 0)
  {
    assert BLOCKING[..4][..3] == BLOCKING[..3] && BLOCKING[..3][..2] == BLOCKING[..2];
    assert BLOCKING[..2][..1] == BLOCKING[..1] && BLOCKING[..1][..0] == [];
    assert EnabledAmong(c, []) == 0;
    assert EnabledAmong(c, BLOCKING[..1]) == (if c.On(Hyprland) then 1 else 0);
    assert EnabledAmong(c, BLOCKING[..2]) == EnabledAmong(c, BLOCKING[..1]) + (if c.On(Mpris) then 1 else 0);
    assert EnabledAmong(c, BLOCKING[..3]) == EnabledAmong(c, BLOCKING[..2]) + (if c.On(Audio) then 1 else 0);
    assert EnabledAmong(c, BLOCKING[..4]) == EnabledAmong(c, BLOCKING[..3]) + (if c.On(Weather) then 1 else 0);
  }

  // ---- the comparison ---------------------------------------------------------

  /** Do the two configurations agree on this entry, if it is compared at all? */
  ghost predicate Agree(current: Config, candidate: Config, entry: Immutable)
  {
    match entry
    case Workers => current.workers == candidate.workers
    case SocketPath => current.socketPath == candidate.socketPath
    case Enabled(s) => current.On(s) == candidate.On(s)
    case CommandSocket =>
      current.On(Hyprland) && candidate.On(Hyprland) ==> current.commandSocket == candidate.commandSocket
    case EventSocket =>
      current.On(Hyprland) && candidate.On(Hyprland) ==> current.eventSocket == candidate.eventSocket
    case SysfsRoot =>
      current.On(System) && candidate.On(System) ==> current.sysfsRoot == candidate.sysfsRoot
  }

  ghost predicate Compatible(current: Config, candidate: Config) {
    forall entry :: Agree(current, candidate, entry)
  }

  /** What has to stay: workers, socket, which sources run, and the sockets and the directory of
      those that run in both. */
  lemma CompatibleMeaning(current: Config, candidate: Config)
    ensures Compatible(current, candidate) <==>
      && current.workers == candidate.workers && current.socketPath == candidate.socketPath
      && current.enabled == candidate.enabled
      && (current.enabled.hyprland ==>
            current.commandSocket == candidate.commandSocket && current.eventSocket == candidate.eventSocket)
      && (current.enabled.system ==> current.sysfsRoot == candidate.sysfsRoot)
  {
    if Compatible(current, candidate) {
      assert Agree(current, candidate, Workers) && Agree(current, candidate, SocketPath);
      assert Agree(current, candidate, Enabled(Audio)) && Agree(current, candidate, Enabled(Github));
      assert Agree(current, candidate, Enabled(Hyprland)) && Agree(current, candidate, Enabled(Mpris));
      assert Agree(current, candidate, Enabled(System)) && Agree(current, candidate, Enabled(Weather));
      assert Agree(current, candidate, CommandSocket) && Agree(current, candidate, EventSocket);
      assert Agree(current, candidate, SysfsRoot);
    }
  }

  /** The position of an entry in the list that `reloadable` builds. */
  function Position(entry: Immutable): nat {
    match entry
    case Workers => 0
    case SocketPath => 1
    case Enabled(Audio) => 2
    case Enabled(Github) => 3
    case Enabled(Hyprland) => 4
    case Enabled(Mpris) => 5
    case Enabled(System) => 6
    case Enabled(Weather) => 7
    case CommandSocket => 8
    case EventSocket => 9
    case SysfsRoot => 10
  }

  /** `reloadable`: no difference, or the first difference in list order. */
  method Reloadable(current: Config, candidate: Config) returns (difference: Option<Immutable>)
    ensures difference.None? <==> Compatible(current, candidate)
    ensures difference.Some? ==>
      && !Agree(current, candidate, difference.value)
      && forall entry :: Position(entry) < Position(difference.value) ==> Agree(current, candidate, entry)
  {
    var immutable := ImmutableEntries(current, candidate);
    ListIsFaithful(current, candidate);
    for i := 0 to |immutable|
      invariant forall k :: 0 <= k < i ==> immutable[k].same
    {
      if !immutable[i].same {
        FirstDifference(current, candidate, immutable, i);
        return Some(immutable[i].entry);
      }
    }
    difference := None;
  }

  /** The list of compared entries, in the order of `reloadable`. */
  method ImmutableEntries(current: Config, candidate: Config) returns (immutable: seq<Verdict>)
    ensures immutable == FullList(current, candidate)
  {
    immutable := [
      Verdict(Workers, current.workers == candidate.workers),
      Verdict(SocketPath, current.socketPath == candidate.socketPath)];
    for i := 0 to |SOURCES|
      invariant immutable == Compared(current, candidate, i)
    {
      var s := SOURCES[i];
      immutable := immutable + [Verdict(Enabled(s), current.On(s) == candidate.On(s))];
    }
    if current.On(Hyprland) && candidate.On(Hyprland) {
      immutable := immutable + [Verdict(CommandSocket, current.commandSocket == candidate.commandSocket)];
      immutable := immutable + [Verdict(EventSocket, current.eventSocket == candidate.eventSocket)];
    }
    if current.On(System) && candidate.On(System) {
      immutable := immutable + [Verdict(SysfsRoot, current.sysfsRoot == candidate.sysfsRoot)];
    }
  }

  datatype Verdict = Verdict(entry: Immutable, same: bool)

  /** The list after the first `n` sources have been added. */
  ghost function Compared(current: Config, candidate: Config, n: nat): (list: seq<Verdict>)
    requires n <= |SOURCES|
    ensures |list| == 2 + n
  {
    if n == 0 then
      [Verdict(Workers, current.workers == candidate.workers), Verdict(SocketPath, current.socketPath == candidate.socketPath)]
    else
      var s := SOURCES[n - 1];
      Compared(current, candidate, n - 1) + [Verdict(Enabled(s), current.On(s) == candidate.On(s))]
  }

  /** The whole list, with the entries that are compared only while a source is on. */
  ghost function FullList(current: Config, candidate: Config): seq<Verdict> {
    var sources := Compared(current, candidate, |SOURCES|);
    var sockets :=
      if current.On(Hyprland) && candidate.On(Hyprland) then
        sources + [Verdict(CommandSocket, current.commandSocket == candidate.commandSocket)] +
          [Verdict(EventSocket, current.eventSocket == candidate.eventSocket)]
      else sources;
    if current.On(System) && candidate.On(System) then
      sockets + [Verdict(SysfsRoot, current.sysfsRoot == candidate.sysfsRoot)]
    else sockets
  }

  /** What the list must satisfy: true verdicts, every disagreement listed, in order. */
  ghost predicate Faithful(current: Config, candidate: Config, list: seq<Verdict>) {
    && (forall k :: 0 <= k < |list| ==> list[k].same == Agree(current, candidate, list[k].entry))
    && (forall entry :: !Agree(current, candidate, entry) ==> Verdict(entry, false) in list)
    && (forall i, k :: 0 <= i < k < |list| ==> Position(list[i].entry) < Position(list[k].entry))
  }

  lemma {:induction false} ComparedIsInOrder(current: Config, candidate: Config, n: nat)
    requires n <= |SOURCES|
    ensures forall k :: 0 <= k < 2 + n ==>
      var v := Compared(current, candidate, n)[k];
      Position(v.entry) == k && v.same == Agree(current, candidate, v.entry)
  {
    if n == 0 {
    } else {
      ComparedIsInOrder(current, candidate, n - 1);
      assert Position(Enabled(SOURCES[n - 1])) == n + 1;
    }
  }

  lemma EntryAt(current: Config, candidate: Config, k: nat)
    requires k < |FullList(current, candidate)|
    ensures
      var v := FullList(current, candidate)[k];
      && v.same == Agree(current, candidate, v.entry)
      && Position(v.entry) == (if k < 8 || (current.On(Hyprland) && candidate.On(Hyprland)) then k else 10)
  {
    ComparedIsInOrder(current, candidate, |SOURCES|);
    if k < 8 {
      assert FullList(current, candidate)[k] == Compared(current, candidate, |SOURCES|)[k];
    }
  }

  lemma DisagreementIsListed(current: Config, candidate: Config, entry: Immutable)
    requires !Agree(current, candidate, entry)
    ensures Verdict(entry, false) in FullList(current, candidate)
  {
    var list := FullList(current, candidate);
    var p := Position(entry);
    if p < 10 {
      EntryAt(current, candidate, p);
      PositionIsInjective(list[p].entry, entry);
      assert list[p] == Verdict(entry, false);
    } else {
      assert list[|list| - 1] == Verdict(entry, false);
    }
  }

  lemma ListIsFaithful(current: Config, candidate: Config)
    ensures Faithful(current, candidate, FullList(current, candidate))
  {
    var list := FullList(current, candidate);
    forall k | 0 <= k < |list| ensures list[k].same == Agree(current, candidate, list[k].entry) {
      EntryAt(current, candidate, k);
    }
    forall i, k | 0 <= i < k < |list| ensures Position(list[i].entry) < Position(list[k].entry) {
      EntryAt(current, candidate, i);
      EntryAt(current, candidate, k);
    }
    forall entry | !Agree(current, candidate, entry) ensures Verdict(entry, false) in list {
      DisagreementIsListed(current, candidate, entry);
    }
  }

  lemma PositionIsInjective(a: Immutable, b: Immutable)
    ensures Position(a) == Position(b) ==> a == b
  {
  }

  lemma FirstDifference(current: Config, candidate: Config, list: seq<Verdict>, i: nat)
    requires Faithful(current, candidate, list) && i < |list| && !list[i].same
    requires forall k :: 0 <= k < i ==> list[k].same
    ensures forall entry :: Position(entry) < Position(list[i].entry) ==> Agree(current, candidate, entry)
  {
    forall entry | !Agree(current, candidate, entry) ensures Position(entry) >= Position(list[i].entry) {
      var k :| 0 <= k < |list| && list[k] == Verdict(entry, false);
      assert k >= i;
    }
  }

  // ---- an equivalence --------------------------------------------------------------

  lemma CompatibleIsReflexive(c: Config)
    ensures Compatible(c, c)
  {
  }

  lemma CompatibleIsSymmetric(a: Config, b: Config)
    ensures Compatible(a, b) <==> Compatible(b, a)
  {
    assert forall entry :: Agree(a, b, entry) <==> Agree(b, a, entry);
  }

  /** The conditional entries do not break transitivity, because the conditions
      themselves are compared. */
  lemma CompatibleIsTransitive(a: Config, b: Config, c: Config)
    requires Compatible(a, b) && Compatible(b, c)
    ensures Compatible(a, c)
  {
    forall entry ensures Agree(a, c, entry) {
      assert Agree(a, b, entry) && Agree(b, c, entry);
      assert Agree(a, b, Enabled(Hyprland)) && Agree(b, c, Enabled(Hyprland));
      assert Agree(a, b, Enabled(System)) && Agree(b, c, Enabled(System));
    }
  }

  lemma {:induction false} CompatibleEnablesTheSame(a: Config, b: Config, sources: seq<SourceName>)
    requires Compatible(a, b)
    ensures EnabledAmong(a, sources) == EnabledAmong(b, sources)
  {
    if sources == [] {
    } else {
      var last := sources[|sources| - 1];
      assert Agree(a, b, Enabled(last));
      CompatibleEnablesTheSame(a, b, sources[..|sources| - 1]);
    }
  }

  /** A compatible configuration still leaves a worker free beside its blocking sources. */
  lemma CompatibleKeepsWorkers(a: Config, b: Config)
    requires Compatible(a, b)
    ensures a.workers > EnabledAmong(a, BLOCKING) <==> b.workers > EnabledAmong(b, BLOCKING)
  {
    assert Agree(a, b, Workers);
    CompatibleEnablesTheSame(a, b, BLOCKING);
  }

  // ---- routing -----------------------------------------------------------------------

  datatype ActionDomain = WorkspaceActions | MediaActions | AudioActions | BrightnessActions

  function SourceOf(domain: ActionDomain): SourceName {
    match domain
    case WorkspaceActions => Hyprland
    case MediaActions => Mpris
    case AudioActions => Audio
    case BrightnessActions => System
  }

  /** Where `dispatch` sends an action: the source's service, or nowhere when disabled. */
  function Route(c: Config, domain: ActionDomain): Option<SourceName>
  {
    if c.On(SourceOf(domain)) then Some(SourceOf(domain)) else None
  }

  /** Workspaces go to Hyprland, media to MPRIS, audio to the audio source and brightness to the
      system source, as far as they are enabled. */
  lemma RouteMeaning(c: Config, source: SourceName)
    ensures Route(c, WorkspaceActions) == Some(source) <==> source == Hyprland && c.enabled.hyprland
    ensures Route(c, MediaActions) == Some(source) <==> source == Mpris && c.enabled.mpris
    ensures Route(c, AudioActions) == Some(source) <==> source == Audio && c.enabled.audio
    ensures Route(c, BrightnessActions) == Some(source) <==> source == System && c.enabled.system
  {
  }

  /** The action service may keep its start-up configuration: it routes every action
      exactly as any compatible configuration would. */
  lemma CompatibleRoutesTheSame(a: Config, b: Config, domain: ActionDomain)
    requires Compatible(a, b)
    ensures Route(a, domain) == Route(b, domain)
    ensures a.enabled == b.enabled
  {
    CompatibleMeaning(a, b);
  }
}
