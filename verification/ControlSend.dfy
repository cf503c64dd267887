/** Sending all of a text over a socket that takes it in pieces. */
module ControlSend {
  /** One call of `send`: so many bytes taken, if there are as many, or none. A script ends
      where the next call would block. */
  datatype Send = Taken(n: nat) | Interrupted | Failed

  /** What the calls take before one of them takes nothing. */
  function Capacity(script: seq<Send>): nat {
    if script == [] || script[0] == Failed || script[0] == Taken(0) then 0
    else (if script[0].Taken? then script[0].n else 0) + Capacity(script[1..])
  }

  /** `write_all`: succeeds iff everything was sent; otherwise exactly what was taken was sent. */
  method WriteAll(data: string, script: seq<Send>) returns (ok: bool, sent: string)
    ensures ok <==> |data| <= Capacity(script)
    ensures sent == if ok then data else data[..Capacity(script)]
  {
    var rest, step := data, 0;
    sent := "";
    while rest != ""
      invariant 0 <= step <= |script| && sent + rest == data
      invariant |sent| + Capacity(script[step..]) == Capacity(script) || (rest == "" && |data| <= Capacity(script))
      decreases |script| - step
    {
      if step == |script| || script[step] == Failed || script[step] == Taken(0) {
        assert sent == data[..|sent|];
        return false, sent;
      }
      assert script[step..][1..] == script[step + 1..];
      if script[step].Taken? {
        var n := if script[step].n < |rest| then script[step].n else |rest|;
        sent, rest := sent + rest[..n], rest[n..];
      }
      step := step + 1;
    }
    ok := true;
  }
}
