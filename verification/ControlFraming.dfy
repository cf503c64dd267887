/** How a client of the control socket is read: one command line, in whatever pieces
    it arrives. */
module ControlFraming {
  import opened LuaHeap
  import opened ControlRing

  datatype Format = Default | Eww | Doctor

  /** What a command line asks for. */
  datatype Request =
    | Status(format: Format)
    | Subscribe(format: Format)
    | Queue(command: string)
    | Unknown

  function RequestOf(line: string): Request {
    if line == "status" then Status(Default)
    else if line == "status eww" then Status(Eww)
    else if line == "doctor" then Status(Doctor)
    else if line == "subscribe" then Subscribe(Default)
    else if line == "subscribe eww" then Subscribe(Eww)
    else if line == "reload" || (|line| >= 9 && line[..9] == "dispatch ") then Queue(line)
    else Unknown
  }

  /** Which lines ask for what. */
  lemma RequestMeaning(line: string)
    ensures RequestOf(line) == Status(Default) <==> line == "status"
    ensures RequestOf(line) == Status(Eww) <==> line == "status eww"
    ensures RequestOf(line) == Status(Doctor) <==> line == "doctor"
    ensures RequestOf(line) == Subscribe(Default) <==> line == "subscribe"
    ensures RequestOf(line) == Subscribe(Eww) <==> line == "subscribe eww"
    ensures RequestOf(line) != Subscribe(Doctor)
    ensures RequestOf(line).Queue? <==> line == "reload" || "dispatch " <= line
    ensures RequestOf(line).Queue? ==> RequestOf(line) == Queue(line)
  {
    if "dispatch " <= line {
      assert line[0] == 'd' && line[1] == 'i';
    }
  }

  // ---- what a stream of bytes decides -------------------------------------------------

  /** The text before the first newline, unless a NUL comes first. */
  function FirstLine(bytes: string): (line: Option<string>)
    ensures line.Some? ==> |line.value| < |bytes|
  {
    if bytes == "" || bytes[0] == '\0' then None
    else if bytes[0] == '\n' then Some("")
    else
      match FirstLine(bytes[1..])
      case None => None
      case Some(rest) => Some([bytes[0]] + rest)
  }

  datatype Decision = Pending | Command(line: string) | Rejected

  const LIMIT: nat := COMMAND_SIZE - 1

  function Window(stream: string): string {
    if |stream| <= LIMIT then stream else stream[..LIMIT]
  }

  /** The first 127 bytes decide. */
  function Decide(stream: string): Decision {
    match FirstLine(Window(stream))
    case Some(line) => Command(line)
    case None => if |stream| >= LIMIT then Rejected else Pending
  }

  lemma {:induction false} FirstLineMeaning(bytes: string, line: string)
    ensures FirstLine(bytes) == Some(line) <==> line + "\n" <= bytes && '\n' !in line && '\0' !in line
  {
    if bytes == "" {
    } else if bytes[0] == '\n' || bytes[0] == '\0' {
      assert line + "\n" <= bytes && |line| > 0 ==> line[0] == bytes[0];
    } else if line == "" {
      assert (line + "\n")[0] == '\n';
    } else {
      FirstLineMeaning(bytes[1..], line[1..]);
      assert line == [line[0]] + line[1..];
      assert line + "\n" <= bytes <==> line[0] == bytes[0] && line[1..] + "\n" <= bytes[1..] by {
        assert (line + "\n")[1..] == line[1..] + "\n";
        if line[0] == bytes[0] && line[1..] + "\n" <= bytes[1..] {
          assert line + "\n" == [bytes[0]] + (line[1..] + "\n");
          assert bytes == [bytes[0]] + bytes[1..];
        }
      }
    }
  }

  /** A NUL or the end comes before any newline. */
  lemma {:induction false} NoLine(bytes: string, i: nat)
    requires i <= |bytes| && (i < |bytes| ==> bytes[i] == '\0')
    requires forall k :: 0 <= k < i ==> bytes[k] != '\n'
    ensures FirstLine(bytes) == None
  {
    if bytes != "" && i > 0 {
      NoLine(bytes[1..], i - 1);
    }
  }

  /** More bytes never change a line that was found. */
  lemma {:induction false} FirstLineStands(bytes: string, more: string)
    requires FirstLine(bytes).Some?
    ensures FirstLine(bytes + more) == FirstLine(bytes)
  {
    if bytes[0] != '\n' {
      FirstLineStands(bytes[1..], more);
      assert (bytes + more)[1..] == bytes[1..] + more;
    }
  }

  /** A decision stands whatever is sent afterwards. */
  lemma DecisionStands(stream: string, more: string)
    requires Decide(stream) != Pending
    ensures Decide(stream + more) == Decide(stream)
  {
    if |stream| >= LIMIT {
      assert Window(stream + more) == Window(stream);
    } else {
      var rest := Window(stream + more)[|stream|..];
      assert Window(stream + more) == stream + rest;
      FirstLineStands(stream, rest);
    }
  }

  /** Nothing after the first 127 bytes matters. */
  lemma OnlyTheWindowDecides(a: string, b: string)
    requires Window(a) == Window(b)
    ensures Decide(a) == Decide(b)
  {
  }

  /** A line is decided when its newline is among the first 127 bytes and no NUL comes before it;
      without one, 127 bytes are rejected and fewer are waited on. */
  lemma DecideMeaning(stream: string, line: string)
    ensures Decide(stream) == Command(line) <==>
      |line| + 1 <= 127 && line + "\n" <= stream && '\n' !in line && '\0' !in line
    ensures Decide(stream) == Rejected <==> |stream| >= 127 && FirstLine(Window(stream)).None?
    ensures Decide(stream) == Pending <==> |stream| < 127 && FirstLine(Window(stream)).None?
  {
    FirstLineMeaning(Window(stream), line);
    assert line + "\n" <= Window(stream) <==> |line| + 1 <= 127 && line + "\n" <= stream;
  }

  /** A line of no more than 126 clean bytes is found, whatever follows it. */
  lemma LineIsFound(line: string, more: string)
    requires |line| < LIMIT && '\n' !in line && '\0' !in line
    ensures Decide(line + "\n" + more) == Command(line)
  {
    var stream := line + "\n" + more;
    assert line + "\n" <= Window(stream);
    FirstLineMeaning(Window(stream), line);
  }

  /** Whatever is decided fits a slot of the queue. */
  lemma DecidedLineFits(stream: string, line: string)
    requires Decide(stream) == Command(line)
    ensures FitsSlot(line) && line + "\n" <= stream && '\n' !in line
  {
    FirstLineMeaning(Window(stream), line);
  }

  // ---- one client ----------------------------------------------------------------------

  type Positive = n: nat | n > 0 witness 1

  /** One call of `recv`: at most that many bytes arrive, or none. */
  datatype Recv = Data(n: Positive) | Interrupted | WouldBlock | HungUp | Failed

  /** The bytes that the calls have to give, before room runs out. */
  function Offered(script: seq<Recv>): nat {
    if script == [] then 0
    else
      var last := script[|script| - 1];
      Offered(script[..|script| - 1]) + (if last.Data? then last.n else 0)
  }

  datatype Verdict = Waiting | Asked(request: Request) | Full | Gone

  class Connection {
    const command: array<char>
    var commandSize: nat
    var incoming: string          // sent by the peer and not received yet
    ghost const stream: string    // everything the peer sends
    ghost var answered: bool

    constructor (stream: string)
      ensures Valid() && commandSize == 0 && incoming == stream && this.stream == stream && !answered && fresh(command)
    {
      command := new char[COMMAND_SIZE](_ => '\0');
      commandSize, incoming, answered := 0, stream, false;
      this.stream := stream;
    }

    ghost predicate Valid()
      reads this, command
    {
      && command.Length == COMMAND_SIZE && commandSize <= LIMIT
      && |stream| == commandSize + |incoming| && stream[commandSize..] == incoming
      && (!answered ==> command[..commandSize] == stream[..commandSize] && FirstLine(stream[..commandSize]).None?)
    }

    /** `recv` into the free part of the buffer. */
    method Receive(n: Positive) returns (got: nat)
      requires Valid() && !answered && commandSize < LIMIT && incoming != ""
      modifies this, command
      ensures command.Length == COMMAND_SIZE && !answered
      ensures commandSize == old(commandSize) + got <= LIMIT
      ensures got == n || (0 < got < n && (commandSize == LIMIT || incoming == ""))
      ensures |stream| == commandSize + |incoming| && stream[commandSize..] == incoming
      ensures command[..commandSize] == stream[..commandSize]
    {
      var room := LIMIT - commandSize;
      got := if n < room then n else room;
      got := if got < |incoming| then got else |incoming|;
      var i := 0;
      while i < got
        invariant 0 <= i <= got && commandSize == old(commandSize) && incoming == old(incoming) && !answered
        invariant command[..commandSize + i] == stream[..commandSize + i]
      {
        command[commandSize + i] := incoming[i];
        assert stream[commandSize..][i] == incoming[i];
        i := i + 1;
      }
      commandSize := commandSize + got;
      incoming := incoming[got..];
    }

    /** `handle_command` up to the answer: the request of the first line, if there is one. */
    method HandleCommand() returns (request: Option<Request>)
      requires command.Length == COMMAND_SIZE && commandSize <= LIMIT
      modifies command
      ensures
        match FirstLine(old(command[..commandSize]))
        case None => request == None && command[..commandSize] == old(command[..commandSize])
        case Some(line) => request == Some(RequestOf(line))
    {
      ghost var received := command[..commandSize];
      command[commandSize] := '\0';
      var newline := 0;
      while command[newline] != '\n' && command[newline] != '\0'
        invariant 0 <= newline <= commandSize
        invariant command[..commandSize] == received && command[commandSize] == '\0'
        invariant forall i :: 0 <= i < newline ==> received[i] != '\n' && received[i] != '\0'
        decreases commandSize - newline
      {
        assert command[newline] == received[newline];
        newline := newline + 1;
      }
      if command[newline] == '\0' {
        assert newline < commandSize ==> received[newline] == '\0';
        NoLine(received, newline);
        return None;
      }
      assert command[newline] == received[newline];
      FirstLineMeaning(received, received[..newline]);
      assert received[..newline] + "\n" == received[..newline + 1];
      var line := command[..newline];
      assert line == received[..newline];
      command[newline] := '\0';
      request := Some(RequestOf(line));
    }

    /** `read_command`: receive until a decision, the peer's end, or nothing more to read. */
    method ReadCommand(script: seq<Recv>) returns (verdict: Verdict)
      requires Valid() && !answered
      modifies this, command
      ensures Valid()
      ensures verdict == Waiting ==> !answered && Decide(stream[..commandSize]) == Pending
      // It waits for no reason but that nothing more can be read now.
      ensures verdict == Waiting ==>
        WouldBlock in script || incoming == "" || commandSize == old(commandSize) + Offered(script)
      ensures verdict == Full ==> Decide(stream) == Rejected
      ensures verdict.Asked? ==> exists line :: Decide(stream) == Command(line) && verdict.request == RequestOf(line)
      ensures verdict == Gone ==> HungUp in script || Failed in script
    {
      var step := 0;
      while true
        invariant 0 <= step <= |script| && Valid() && !answered
        invariant incoming == "" || commandSize == LIMIT || commandSize == old(commandSize) + Offered(script[..step])
        decreases |script| - step
      {
        assert Window(stream[..commandSize]) == stream[..commandSize];
        if commandSize >= LIMIT {
          assert stream == stream[..commandSize] + incoming;
          DecisionStands(stream[..commandSize], incoming);
          return Full;
        }
        if step == |script| {
          assert script[..step] == script;
          return Waiting;
        }
        if script[step].WouldBlock? || (script[step].Data? && incoming == "") {
          return Waiting;
        }
        assert script[..step + 1][..step] == script[..step];
        if script[step].HungUp? || script[step].Failed? {
          return Gone;
        }
        if script[step].Data? {
          var _ := Receive(script[step].n);
          var request := HandleCommand();
          if request.Some? {
            assert Window(stream[..commandSize]) == stream[..commandSize];
            assert stream == stream[..commandSize] + incoming;
            DecisionStands(stream[..commandSize], incoming);
            answered := true;
            return Asked(request.value);
          }
        }
        step := step + 1;
      }
    }
  }
}
