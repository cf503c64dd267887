/** The client table of the control server: an array kept dense by moving the last
    client into the place of a removed one, while loops run over it. */
module ControlTable {
  import opened LuaHeap
  import opened ControlFraming

  const MAX_CLIENTS: nat := 64

  datatype Entry = Entry(fd: nat, subscribed: bool, format: Format, command: string)

  /** What `poll` reports of one descriptor. */
  datatype Revents = Quiet | Readable | Broken

  /** One turn of `accept`: a new descriptor, and whether it could be configured. */
  datatype Arrival = Retry | Connected(fd: nat, configured: bool)

  predicate DistinctFds(s: seq<Entry>) {
    forall i, k :: 0 <= i < k < |s| ==> s[i].fd != s[k].fd
  }

  function Fds(s: seq<Entry>): set<nat> {
    set c | c in s :: c.fd
  }

  lemma OneEntryPerFd(s: seq<Entry>, a: Entry, b: Entry)
    requires DistinctFds(s) && a in s && b in s
    ensures a.fd == b.fd ==> a == b
  {
    var i :| 0 <= i < |s| && s[i] == a;
    var k :| 0 <= k < |s| && s[k] == b;
  }

  /** The table without entry `i`, the last one moved into its place. */
  function SwapRemoved<T>(s: seq<T>, i: nat): (r: seq<T>)
    requires i < |s|
    ensures |r| == |s| - 1
  {
    s[i := s[|s| - 1]][..|s| - 1]
  }

  lemma SwapRemovedKeepsOthers(s: seq<Entry>, i: nat)
    requires DistinctFds(s) && i < |s|
    ensures DistinctFds(SwapRemoved(s, i))
    ensures forall c :: c in SwapRemoved(s, i) <==> c in s && c != s[i]
    ensures Fds(SwapRemoved(s, i)) == Fds(s) - {s[i].fd}
  {
    var r := SwapRemoved(s, i);
    forall c ensures c in r <==> c in s && c != s[i] {
      if c in s && c != s[i] {
        var k :| 0 <= k < |s| && s[k] == c;
        assert k < |s| - 1 ==> r[k] == c;
        assert k == |s| - 1 ==> r[i] == c;
      }
    }
    forall fd ensures fd in Fds(r) <==> fd in Fds(s) - {s[i].fd} {
      if fd in Fds(s) - {s[i].fd} {
        var c :| c in s && c.fd == fd;
        assert c in r;
      }
      if fd in Fds(r) {
        var c :| c in r && c.fd == fd;
        OneEntryPerFd(s, c, s[i]);
      }
    }
  }

  lemma Appended(s: seq<Entry>, c: Entry)
    requires DistinctFds(s) && c.fd !in Fds(s)
    ensures DistinctFds(s + [c]) && Fds(s + [c]) == Fds(s) + {c.fd}
  {
    assert forall k :: 0 <= k < |s| ==> s[k] in s;
    assert forall d :: d in s + [c] <==> d in s || d == c;
  }

  /** What a read leaves of a client: itself, perhaps changed, or nothing. */
  type Reader = r: (Entry -> Option<Entry>) | forall c :: r(c).Some? ==> r(c).value.fd == c.fd
    witness (c: Entry) => None

  /** What a client becomes when it meets its events. */
  function Met(c: Entry, events: Revents, read: Reader): Option<Entry> {
    match events
    case Quiet => Some(c)
    case Broken => None
    case Readable => read(c)
  }

  /** Exactly the clients that survive their own events, whatever their order. */
  ghost predicate AllMet(polled: seq<Entry>, from: nat, events: seq<Revents>, read: Reader, table: seq<Entry>)
    requires |polled| == |events| && from <= |polled|
  {
    true == (
      && (forall i :: from <= i < |polled| && Met(polled[i], events[i], read).Some? ==>
            Met(polled[i], events[i], read).value in table)
      && (forall c :: c in table ==>
            exists i :: from <= i < |polled| && Met(polled[i], events[i], read) == Some(c)))
  }

  /** The clients from `from` on have met their events, the others are where they were. */
  ghost predicate PartlyMet(polled: seq<Entry>, from: nat, events: seq<Revents>, read: Reader, table: seq<Entry>)
    requires |polled| == |events| && from <= |polled|
  {
    from <= |table| && table[..from] == polled[..from] && AllMet(polled, from, events, read, table[from..])
  }

  /** Each client from `from` on has met its own events, once, the last one first. */
  ghost predicate InTurn(polled: seq<Entry>, events: seq<Revents>, from: nat, met: seq<(Entry, Revents)>)
    requires |polled| == |events| && from <= |polled|
  {
    true == (
      && |met| == |polled| - from
      && forall i :: from <= i < |polled| ==> met[|polled| - 1 - i] == (polled[i], events[i]))
  }

  class ClientTable {
    const clients: array<Entry>
    var count: nat
    var open: set<nat>     // descriptors of clients that are open

    constructor ()
      ensures Valid() && Live() == [] && fresh(clients)
    {
      clients := new Entry[MAX_CLIENTS](_ => Entry(0, false, Default, ""));
      count, open := 0, {};
    }

    ghost function Live(): seq<Entry>
      reads this, clients
      requires count <= clients.Length
    {
      clients[..count]
    }

    /** The live entries hold distinct descriptors, and exactly the open ones. */
    ghost predicate Valid()
      reads this, clients
    {
      clients.Length == MAX_CLIENTS && count <= MAX_CLIENTS && DistinctFds(Live()) && open == Fds(Live())
    }

    method RemoveClient(index: nat)
      requires Valid() && index < count
      modifies this, clients
      ensures Valid() && Live() == SwapRemoved(old(Live()), index)
      ensures open == old(open) - {old(clients[index].fd)}
    {
      ghost var before := Live();
      SwapRemovedKeepsOthers(before, index);
      open := open - {clients[index].fd};
      clients[index] := clients[count - 1];
      count := count - 1;
      assert Live() == SwapRemoved(before, index);
    }

    /** `accept_clients`: the kernel hands out descriptors that are not open; one that was
        closed again may be handed out again. */
    method AcceptClients(arrivals: seq<Arrival>)
      requires Valid() && Unused(arrivals, 0, open) && KeptOnce(arrivals, MAX_CLIENTS - count)
      modifies this, clients
      ensures Valid() && Live() == old(Live()) + Admitted(arrivals, 64 - old(count))
    {
      ghost var before, room := Live(), MAX_CLIENTS - count;
      NothingAccepted(arrivals, before, room, open);
      var i := 0;
      while i < |arrivals|
        invariant 0 <= i <= |arrivals| && Valid()
        invariant Accepted(arrivals, i, before, room, Live(), open)
      {
        AcceptClient(arrivals, i, before, room);
        i := i + 1;
      }
      AllAccepted(arrivals, before, room, Live(), open);
    }

    /** One turn of the loop of `accept_clients`. */
    method AcceptClient(arrivals: seq<Arrival>, i: nat, ghost before: seq<Entry>, ghost room: nat)
      requires Valid() && |before| + room == MAX_CLIENTS && KeptOnce(arrivals, room)
      requires i < |arrivals| && Accepted(arrivals, i, before, room, Live(), open)
      modifies this, clients
      ensures Valid() && Accepted(arrivals, i + 1, before, room, Live(), open)
    {
      NextAdmitted(arrivals, i, room);
      if Admissible(arrivals[i]) && count < MAX_CLIENTS {
        StillUnused(arrivals, i, open, room);
        AddClient(arrivals[i].fd);
      }
    }

    method AddClient(fd: nat)
      requires Valid() && count < MAX_CLIENTS && fd !in open
      modifies this, clients
      ensures Valid() && Live() == old(Live()) + [Entry(fd, false, Default, "")] && open == old(open) + {fd}
    {
      var c := Entry(fd, false, Default, "");
      Appended(Live(), c);
      ghost var before := Live();
      clients[count] := c;
      count := count + 1;
      open := open + {fd};
      assert Live() == before + [c];
    }

    /** The loop of the control thread over what `poll` reported, last client first. */
    method ServePolled(events: seq<Revents>, read: Reader) returns (met: seq<(Entry, Revents)>)
      requires Valid() && |events| == count
      modifies this, clients
      ensures Valid()
      // Every polled client met its own events, once; no other client met any.
      ensures InTurn(old(Live()), events, 0, met)
      ensures PartlyMet(old(Live()), 0, events, read, Live())
      // A quiet client stays, a broken one is closed, and a readable one is what reading leaves of it.
      ensures forall i :: 0 <= i < |events| && events[i] == Quiet ==> old(clients[i]) in Live()
      ensures forall i :: 0 <= i < |events| && events[i] == Broken ==> old(clients[i]).fd !in open
      ensures forall i :: 0 <= i < |events| && events[i] == Readable ==>
        match read(old(clients[i]))
        case None => old(clients[i]).fd !in open
        case Some(c) => c in Live()
    {
      ghost var polled := Live();
      var index := |events|;
      met := [];
      while index > 0
        invariant 0 <= index <= |events| && index <= count && Valid()
        invariant PartlyMet(polled, index, events, read, Live())
        invariant InTurn(polled, events, index, met)
      {
        index := index - 1;
        ghost var table := Live();
        PartlyMetStep(polled, index, events, read, table);
        met := met + [(clients[index], events[index])];
        MeetEvents(index, events[index], read);
      }
      forall i | 0 <= i < |events|
        ensures var left := Met(polled[i], events[i], read);
          if left.Some? then left.value in Live() else polled[i].fd !in open
      {
        Outcome(polled, events, read, Live(), i);
      }
    }

    method MeetEvents(k: nat, events: Revents, read: Reader)
      requires Valid() && k < count
      modifies this, clients
      ensures Valid() && Live() == AfterMeeting(old(Live()), k, events, read)
    {
      var left := Met(clients[k], events, read);
      if left.None? {
        RemoveClient(k);
      } else {
        UpdateClient(k, left.value);
      }
    }

    method UpdateClient(k: nat, c: Entry)
      requires Valid() && k < count && c.fd == clients[k].fd
      modifies clients
      ensures Valid() && Live() == old(Live())[k := c]
    {
      ghost var before := Live();
      clients[k] := c;
      assert Live() == before[k := c];
      SameFds(before, k, c);
    }

    /** `broadcast_snapshot`: every subscribed client is sent to exactly once, and those
        whose connection fails are removed. */
    method BroadcastSnapshot(delivers: nat -> bool) returns (sent: seq<nat>)
      requires Valid()
      modifies this, clients
      ensures Valid()
      ensures forall i, k :: 0 <= i < k < |sent| ==> sent[i] != sent[k]
      ensures forall fd :: fd in sent <==> exists c :: c in old(Live()) && c.subscribed && c.fd == fd
      ensures forall c :: c in Live() <==> c in old(Live()) && (c.subscribed ==> delivers(c.fd))
    {
      ghost var before := Live();
      ghost var done: set<Entry> := {};
      sent := [];
      var index := 0;
      while index < count
        invariant index <= count && Valid()
        invariant Broadcasted(before, done, delivers, Live(), index, sent)
        decreases count - index
      {
        ghost var table := Live();
        var c := clients[index];
        BroadcastStep(before, done, delivers, table, index, sent);
        done := done + {c};
        var kept, served := VisitClient(index, delivers);
        sent := sent + served;
        index := if kept then index + 1 else index;
      }
      BroadcastDone(before, done, delivers, Live(), sent);
    }

    method VisitClient(index: nat, delivers: nat -> bool) returns (kept: bool, served: seq<nat>)
      requires Valid() && index < count
      modifies this, clients
      ensures Valid() && kept == !(old(clients[index]).subscribed && !delivers(old(clients[index]).fd))
      ensures served == if old(clients[index]).subscribed then [old(clients[index]).fd] else []
      ensures Live() == if kept then old(Live()) else SwapRemoved(old(Live()), index)
    {
      kept, served := true, [];
      if clients[index].subscribed {
        served := [clients[index].fd];
        if !delivers(clients[index].fd) {
          kept := false;
          RemoveClient(index);
        }
      }
    }

    /** The end of the control thread. */
    method RemoveAll()
      requires Valid()
      modifies this, clients
      ensures Valid() && Live() == [] && open == {}
    {
      while count > 0
        invariant Valid()
      {
        RemoveClient(count - 1);
      }
    }
  }

  predicate Admissible(a: Arrival) {
    a.Connected? && a.configured
  }

  /** The first configured arrivals, in order, as far as there is room. */
  function Admitted(arrivals: seq<Arrival>, room: nat): (r: seq<Entry>)
    ensures |r| <= room
    ensures forall c :: c in r ==> !c.subscribed && c.command == "" && Connected(c.fd, true) in arrivals
  {
    if arrivals == [] then []
    else
      var last := arrivals[|arrivals| - 1];
      var before := Admitted(arrivals[..|arrivals| - 1], room);
      if Admissible(last) && |before| < room then before + [Entry(last.fd, false, Default, "")] else before
  }

  /** The descriptors of the arrivals from `from` on are not open. */
  predicate Unused(arrivals: seq<Arrival>, from: nat, open: set<nat>) {
    true == (forall k :: from <= k < |arrivals| && arrivals[k].Connected? ==> arrivals[k].fd !in open)
  }

  /** Arrival `i` gets a place. */
  predicate Kept(arrivals: seq<Arrival>, i: nat, room: nat)
    requires i < |arrivals|
  {
    Admissible(arrivals[i]) && |Admitted(arrivals[..i], room)| < room
  }

  /** A descriptor that stays open is not handed out again. */
  predicate KeptOnce(arrivals: seq<Arrival>, room: nat) {
    true == (
      forall i, k :: 0 <= i < k < |arrivals| && Kept(arrivals, i, room) && arrivals[k].Connected? ==>
        arrivals[i].fd != arrivals[k].fd)
  }

  /** The first `i` arrivals are handled. */
  ghost predicate Accepted(arrivals: seq<Arrival>, i: nat, before: seq<Entry>, room: nat, table: seq<Entry>, open: set<nat>)
    requires i <= |arrivals|
  {
    true == (table == before + Admitted(arrivals[..i], room) && Unused(arrivals, i, open))
  }

  lemma NothingAccepted(arrivals: seq<Arrival>, before: seq<Entry>, room: nat, open: set<nat>)
    requires Unused(arrivals, 0, open)
    ensures Accepted(arrivals, 0, before, room, before, open)
  {
  }

  lemma AllAccepted(arrivals: seq<Arrival>, before: seq<Entry>, room: nat, table: seq<Entry>, open: set<nat>)
    requires Accepted(arrivals, |arrivals|, before, room, table, open)
    ensures table == before + Admitted(arrivals, room)
  {
    assert arrivals[..|arrivals|] == arrivals;
  }

  /** Every configured arrival gets a place as long as there is room to spare. */
  lemma {:induction false} ConfiguredAreAdmitted(arrivals: seq<Arrival>, room: nat, fd: nat)
    requires Connected(fd, true) in arrivals && |Admitted(arrivals, room)| < room
    ensures Entry(fd, false, Default, "") in Admitted(arrivals, room)
    decreases |arrivals|
  {
    var last, front := arrivals[|arrivals| - 1], arrivals[..|arrivals| - 1];
    assert arrivals == front + [last];
    if last != Connected(fd, true) {
      ConfiguredAreAdmitted(front, room, fd);
    }
  }

  lemma StillUnused(arrivals: seq<Arrival>, i: nat, open: set<nat>, room: nat)
    requires i < |arrivals| && Kept(arrivals, i, room) && KeptOnce(arrivals, room) && Unused(arrivals, i, open)
    ensures arrivals[i].fd !in open && Unused(arrivals, i + 1, open + {arrivals[i].fd})
  {
  }

  lemma NextAdmitted(arrivals: seq<Arrival>, i: nat, room: nat)
    requires i < |arrivals|
    ensures Admitted(arrivals[..i + 1], room) ==
      Admitted(arrivals[..i], room) + (if Kept(arrivals, i, room) then [Entry(arrivals[i].fd, false, Default, "")] else [])
  {
    assert arrivals[..i + 1][..i] == arrivals[..i];
  }

  lemma SameFds(s: seq<Entry>, k: nat, c: Entry)
    requires DistinctFds(s) && k < |s| && c.fd == s[k].fd
    ensures DistinctFds(s[k := c]) && Fds(s[k := c]) == Fds(s)
  {
    var t := s[k := c];
    forall fd ensures fd in Fds(t) <==> fd in Fds(s) {
      if fd in Fds(s) {
        var i :| 0 <= i < |s| && s[i].fd == fd;
        assert t[i] in t && t[i].fd == fd;
      }
      if fd in Fds(t) {
        var i :| 0 <= i < |t| && t[i].fd == fd;
        assert s[i] in s && s[i].fd == fd;
      }
    }
  }

  function AfterMeeting(table: seq<Entry>, k: nat, events: Revents, read: Reader): (r: seq<Entry>)
    requires k < |table|
    ensures |r| >= k
  {
    match Met(table[k], events, read)
    case None => SwapRemoved(table, k)
    case Some(c) => table[k := c]
  }

  lemma PartlyMetStep(polled: seq<Entry>, k: nat, events: seq<Revents>, read: Reader, table: seq<Entry>)
    requires |polled| == |events| && k < |polled| && k < |table|
    requires PartlyMet(polled, k + 1, events, read, table)
    ensures table[k] == polled[k]
    ensures PartlyMet(polled, k, events, read, AfterMeeting(table, k, events[k], read))
  {
    assert table[k] == table[..k + 1][k] == polled[..k + 1][k];
    assert table[..k] == table[..k + 1][..k] == polled[..k + 1][..k];
    assert AfterMeeting(table, k, events[k], read)[..k] == table[..k];
    MeetStep(polled, k, events, read, table);
  }

  /** What became of client `i`. */
  lemma Outcome(polled: seq<Entry>, events: seq<Revents>, read: Reader, table: seq<Entry>, i: nat)
    requires |polled| == |events| && i < |polled| && DistinctFds(polled) && PartlyMet(polled, 0, events, read, table)
    ensures
      var left := Met(polled[i], events[i], read);
      if left.Some? then left.value in table else polled[i].fd !in Fds(table)
  {
    assert table[0..] == table;
    if Met(polled[i], events[i], read).None? {
      forall c | c in table ensures c.fd != polled[i].fd {
        var k :| 0 <= k < |polled| && Met(polled[k], events[k], read) == Some(c);
        assert k != i && c.fd == polled[k].fd;
        assert polled[k] in polled && polled[i] in polled;
      }
    }
  }

  /** Client `k` meets its events: its place and those above hold the survivors so far. */
  lemma MeetStep(polled: seq<Entry>, k: nat, events: seq<Revents>, read: Reader, table: seq<Entry>)
    requires |polled| == |events| && k < |polled| && k < |table| && table[k] == polled[k]
    requires AllMet(polled, k + 1, events, read, table[k + 1..])
    ensures AllMet(polled, k, events, read, AfterMeeting(table, k, events[k], read)[k..])
  {
    var above := table[k + 1..];
    match Met(table[k], events[k], read)
    case None =>
      SameElements(table, k);
    case Some(c) =>
      var rest := table[k := c][k..];
      assert rest == [c] + above;
      forall d | d in rest ensures exists i :: k <= i < |polled| && Met(polled[i], events[i], read) == Some(d) {
        assert d == c ==> Met(polled[k], events[k], read) == Some(d);
      }
  }

  /** Removing entry `k` leaves from there on what stood above it. */
  lemma SameElements(table: seq<Entry>, k: nat)
    requires k < |table|
    ensures forall c :: c in SwapRemoved(table, k)[k..] <==> c in table[k + 1..]
  {
    var above, rest := table[k + 1..], SwapRemoved(table, k)[k..];
    forall c ensures c in rest <==> c in above {
      if c in above {
        var i :| 0 <= i < |above| && above[i] == c;
        assert i < |above| - 1 ==> rest[i + 1] == c;
        assert i == |above| - 1 ==> rest[0] == c;
      }
      if c in rest {
        var i :| 0 <= i < |rest| && rest[i] == c;
        assert i > 0 ==> above[i - 1] == c;
        assert i == 0 ==> above[|above| - 1] == c;
      }
    }
  }

  /** Part of a broadcast: the clients below `index` and those removed are done. */
  ghost predicate Broadcasted(
    before: seq<Entry>, done: set<Entry>, delivers: nat -> bool, table: seq<Entry>, index: nat, sent: seq<nat>)
    requires index <= |table|
  {
    true == (
      && (forall c :: c in before <==> c in done || c in table[index..])
      && (forall c :: c in table[..index] <==> c in done && (c.subscribed ==> delivers(c.fd)))
      && (forall c :: c in done ==> c !in table[index..])
      && (forall fd :: fd in sent <==> exists c :: c in done && c.subscribed && c.fd == fd)
      && (forall i, k :: 0 <= i < k < |sent| ==> sent[i] != sent[k]))
  }

  lemma BroadcastStep(
    before: seq<Entry>, done: set<Entry>, delivers: nat -> bool, table: seq<Entry>, index: nat, sent: seq<nat>)
    requires DistinctFds(before) && DistinctFds(table) && index < |table|
    requires Broadcasted(before, done, delivers, table, index, sent)
    ensures
      var c := table[index];
      var sent' := sent + (if c.subscribed then [c.fd] else []);
      if c.subscribed && !delivers(c.fd) then
        Broadcasted(before, done + {c}, delivers, SwapRemoved(table, index), index, sent')
      else Broadcasted(before, done + {c}, delivers, table, index + 1, sent')
  {
    var c := table[index];
    SentStep(before, done, table, index, sent);
    assert sent + [] == sent;
    VisitedLeaves(before, done, table, index);
    if c.subscribed && !delivers(c.fd) {
      SameElements(table, index);
      assert SwapRemoved(table, index)[..index] == table[..index];
    } else {
      VisitedStays(done, delivers, table, index);
    }
  }

  lemma VisitedStays(done: set<Entry>, delivers: nat -> bool, table: seq<Entry>, index: nat)
    requires index < |table| && (table[index].subscribed ==> delivers(table[index].fd))
    requires forall c :: c in table[..index] <==> c in done && (c.subscribed ==> delivers(c.fd))
    ensures forall c :: c in table[..index + 1] <==> c in done + {table[index]} && (c.subscribed ==> delivers(c.fd))
  {
    assert table[..index + 1] == table[..index] + [table[index]];
  }

  /** The client at `index` is the only one to become done. */
  lemma VisitedLeaves(before: seq<Entry>, done: set<Entry>, table: seq<Entry>, index: nat)
    requires DistinctFds(table) && index < |table|
    requires forall c :: c in before <==> c in done || c in table[index..]
    requires forall c :: c in done ==> c !in table[index..]
    ensures forall c :: c in before <==> c in done + {table[index]} || c in table[index + 1..]
    ensures forall c :: c in done + {table[index]} ==> c !in table[index + 1..]
    ensures table[index] !in done
  {
    assert table[index..] == [table[index]] + table[index + 1..];
    assert table[index] !in table[index + 1..] by { assert DistinctFds(table); }
  }

  lemma SentStep(before: seq<Entry>, done: set<Entry>, table: seq<Entry>, index: nat, sent: seq<nat>)
    requires DistinctFds(before) && index < |table|
    requires forall c :: c in before <==> c in done || c in table[index..]
    requires forall c :: c in done ==> c !in table[index..]
    requires forall fd :: fd in sent <==> exists c :: c in done && c.subscribed && c.fd == fd
    ensures table[index].fd !in sent
    ensures
      var sent' := if table[index].subscribed then sent + [table[index].fd] else sent;
      forall fd :: fd in sent' <==> exists c :: c in done + {table[index]} && c.subscribed && c.fd == fd
  {
    var t := table[index];
    assert table[index..][0] == t;
    forall c | c in done ensures c.fd != t.fd {
      OneEntryPerFd(before, c, t);
    }
    var sent' := if t.subscribed then sent + [t.fd] else sent;
    forall fd ensures fd in sent' <==> exists c :: c in done + {t} && c.subscribed && c.fd == fd {
      if fd in sent {
        var c :| c in done && c.subscribed && c.fd == fd;
        assert c in done + {t};
      }
      assert t in done + {t};
    }
  }

  lemma BroadcastDone(before: seq<Entry>, done: set<Entry>, delivers: nat -> bool, table: seq<Entry>, sent: seq<nat>)
    requires Broadcasted(before, done, delivers, table, |table|, sent)
    ensures forall fd :: fd in sent <==> exists c :: c in before && c.subscribed && c.fd == fd
    ensures forall c :: c in table <==> c in before && (c.subscribed ==> delivers(c.fd))
  {
    assert table[..|table|] == table && table[|table|..] == [];
    assert forall c :: c in before <==> c in done;
  }
}
