/** The bounded queue of accepted commands in the control server. Every operation holds
    the server's mutex throughout, so the operations of the two threads do not overlap. */
module ControlRing {
  import opened LuaHeap

  const MAX_ACTIONS: nat := 64
  const COMMAND_SIZE: nat := 128

  /** A command that a slot can hold, with its terminator. */
  predicate FitsSlot(command: string) {
    |command| < COMMAND_SIZE && '\0' !in command
  }

  function Slot(head: nat, i: nat): (slot: nat)
    ensures slot < MAX_ACTIONS
  {
    (head + i) % MAX_ACTIONS
  }

  /** The commands in the slots from `head` on, around the end of the array. */
  function Queued(slots: seq<string>, head: nat, count: nat): (queue: seq<string>)
    requires |slots| == MAX_ACTIONS
    ensures |queue| == count
  {
    seq(count, i requires 0 <= i < count => slots[Slot(head, i)])
  }

  lemma PopQueued(slots: seq<string>, head: nat, count: nat)
    requires |slots| == MAX_ACTIONS && head < MAX_ACTIONS && count > 0
    ensures Queued(slots, head, count) == [slots[head]] + Queued(slots, (head + 1) % MAX_ACTIONS, count - 1)
  {
    var next := (head + 1) % MAX_ACTIONS;
    assert forall i: nat {:trigger Slot(next, i)} :: Slot(next, i) == Slot(head, i + 1);
  }

  lemma PushQueued(slots: seq<string>, head: nat, count: nat, command: string)
    requires |slots| == MAX_ACTIONS && count < MAX_ACTIONS
    ensures Queued(slots[Slot(head, count) := command], head, count + 1) == Queued(slots, head, count) + [command]
  {
  }

  lemma FirstQueued(accepted: seq<string>, popped: seq<string>, queue: seq<string>, command: string)
    requires accepted == popped + queue && queue != [] && queue[0] == command
    requires forall i :: 0 <= i < |accepted| ==> FitsSlot(accepted[i])
    ensures FitsSlot(command) && popped + [command] <= accepted
  {
    assert accepted[|popped|] == command;
  }

  class ActionRing {
    const actions: array<string>
    var head: nat
    var count: nat
    var running: bool
    var stopping: bool
    ghost var accepted: seq<string>    // since the server was started, oldest first
    ghost var popped: seq<string>

    constructor ()
      ensures Valid() && !running && !stopping && fresh(actions)
    {
      actions := new string[MAX_ACTIONS](_ => "");
      head, count, running, stopping := 0, 0, false, false;
      accepted, popped := [], [];
    }

    predicate Open()
      reads this
    {
      running && !stopping
    }

    ghost function Contents(): seq<string>
      reads this, actions
      requires actions.Length == MAX_ACTIONS
    {
      Queued(actions[..], head, count)
    }

    /** Nothing is lost, repeated or reordered: what was accepted is what was popped
        followed by what is queued, unless the server was stopped with commands queued. */
    ghost predicate Valid()
      reads this, actions
    {
      && actions.Length == MAX_ACTIONS && head < MAX_ACTIONS && count <= MAX_ACTIONS
      && popped <= accepted
      && (running ==> accepted == popped + Contents())
      && (forall i :: 0 <= i < |accepted| ==> FitsSlot(accepted[i]))
    }

    method Start() returns (ok: bool)
      requires Valid()
      modifies this
      ensures Valid() && ok == !old(running)
      ensures ok ==> Open() && Contents() == [] && accepted == [] && popped == []
      ensures !ok ==> running && stopping == old(stopping) && Contents() == old(Contents())
      ensures !ok ==> accepted == old(accepted) && popped == old(popped)
    {
      if running {
        return false;
      }
      head, count, running, stopping := 0, 0, true, false;
      accepted, popped := [], [];
      ok := true;
    }

    method Enqueue(command: string) returns (ok: bool)
      requires Valid() && FitsSlot(command)
      modifies this, actions
      ensures Valid() && running == old(running) && stopping == old(stopping)
      ensures ok <==> Open() && |old(Contents())| < 64
      ensures Contents() == old(Contents()) + (if ok then [command] else [])
      ensures accepted == old(accepted) + (if ok then [command] else []) && popped == old(popped)
    {
      if !running || stopping || count >= MAX_ACTIONS {
        return false;
      }
      PushQueued(actions[..], head, count, command);
      ghost var slots := actions[..];
      actions[Slot(head, count)] := command;
      assert actions[..] == slots[Slot(head, count) := command];
      count := count + 1;
      accepted := accepted + [command];
      ok := true;
    }

    method Pop() returns (command: Option<string>)
      requires Valid()
      modifies this
      ensures Valid() && running == old(running) && stopping == old(stopping)
      ensures command.Some? <==> Open() && old(Contents()) != []
      ensures command.Some? ==> FitsSlot(command.value) && old(Contents()) == [command.value] + Contents()
      ensures command.None? ==> Contents() == old(Contents())
      ensures popped == old(popped) + (if command.Some? then [command.value] else []) && accepted == old(accepted)
    {
      if !running || stopping || count == 0 {
        return None;
      }
      PopQueued(actions[..], head, count);
      command := Some(actions[head]);
      FirstQueued(accepted, popped, Contents(), command.value);
      head := (head + 1) % MAX_ACTIONS;
      count := count - 1;
      popped := popped + [command.value];
      assert old(popped) + ([command.value] + Contents()) == popped + Contents();
    }

    method RequestStop()
      requires Valid()
      modifies `stopping
      ensures Valid() && stopping == (running || old(stopping)) && Contents() == old(Contents())
    {
      if running {
        stopping := true;
      }
    }

    /** The rest of `stop`, once the thread has ended: what is still queued is dropped. */
    method FinishStop()
      requires Valid()
      modifies this
      ensures Valid() && !running && stopping == old(stopping) && Contents() == []
      ensures accepted == old(accepted) && popped == old(popped)
    {
      running, head, count := false, 0, 0;
    }
  }
}
