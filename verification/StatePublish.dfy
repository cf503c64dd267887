/** What the state service publishes: snapshots of its state, taken in order. This is what
    gives the payloads of a subscriber an order of revisions. */
module StatePublish {
  import opened LuaHeap
  import StateReducer
  import ControlProtocol
  import ControlRuns

  /** Each publication shows the state at some moment of its run, no earlier than the one
      before it. (The first entry, before any publication, stands for revision 0.) */
  ghost predicate PublishedFrom(
    history: seq<ControlProtocol.Snapshot>, states: seq<StateReducer.Snapshot>, moments: seq<nat>)
  {
    && |moments| == |history|
    && (forall v :: 0 <= v < |history| ==>
          moments[v] < |states| && history[v].revision == states[moments[v]].revision)
    && (forall v, w :: 0 <= v < w < |history| ==> moments[v] <= moments[w])
  }

  /** The payloads a client is sent have revisions that never fall, and two of the same
      revision show the same state. */
  lemma StreamRevisionsGrow(
    run: seq<ControlProtocol.Server>, events: seq<ControlProtocol.Event>, n: nat, id: nat,
    states: seq<StateReducer.Snapshot>, merges: seq<StateReducer.Merge>, moments: seq<nat>, i: nat, k: nat)
    requires ControlProtocol.IsRun(run, events) && n < |run| && id in run[n].streams
    requires StateReducer.IsRun(states, merges) && PublishedFrom(run[n].history, states, moments)
    requires i < k < |run[n].streams[id]|
    ensures
      var history, s := run[n].history, run[n].streams[id];
      && s[i].version <= s[k].version < |history|
      && history[s[i].version].revision <= history[s[k].version].revision
      && (history[s[i].version].revision == history[s[k].version].revision ==>
            states[moments[s[i].version]].domains == states[moments[s[k].version]].domains)
  {
    ControlRuns.StreamIsOrdered(run, events, n, id);
    var s := run[n].streams[id];
    var v, w := s[i].version, s[k].version;
    if v < w {
      assert moments[v] <= moments[w];
    }
    StateReducer.EqualRevisionEqualState(states, merges, moments[v], moments[w]);
  }

  datatype Publisher = Publisher(
    history: seq<ControlProtocol.Snapshot>, states: seq<StateReducer.Snapshot>, moments: seq<nat>)

  /** `S.merge`: the state advances by one patch, and is published when that changed it. */
  ghost function MergeAndPublish(p: Publisher, m: StateReducer.Merge, payload: ControlProtocol.Snapshot): Publisher
    requires p.states != [] && StateReducer.Applicable(p.states[|p.states| - 1], m)
  {
    var last := p.states[|p.states| - 1];
    var next := StateReducer.Step(last, m);
    var advanced := p.(states := p.states + [next]);
    if next.revision == last.revision then advanced
    else advanced.(history := p.history + [payload], moments := p.moments + [|p.states|])
  }

  /** Publishing after every change keeps publications in the order of the states. */
  lemma PublishingKeepsOrder(p: Publisher, m: StateReducer.Merge, payload: ControlProtocol.Snapshot)
    requires p.states != [] && StateReducer.Applicable(p.states[|p.states| - 1], m)
    requires PublishedFrom(p.history, p.states, p.moments)
    requires payload.revision == StateReducer.Step(p.states[|p.states| - 1], m).revision
    ensures var p' := MergeAndPublish(p, m, payload); PublishedFrom(p'.history, p'.states, p'.moments)
  {
    assert forall v :: 0 <= v < |p.history| ==> p.moments[v] < |p.states|;
  }
}
