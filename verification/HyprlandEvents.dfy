/** The event stream of the compositor: newline-terminated lines consumed from chunks. */
module HyprlandEvents {
  import opened LuaHeap

  const MAX_BUFFER: nat := 1024 * 1024

  const RELEVANT: set<string> := {
    "activewindow", "activewindowv2", "changefloatingmode", "closewindow", "configreloaded",
    "createworkspace", "createworkspacev2", "destroyworkspace", "destroyworkspacev2", "focusedmon",
    "fullscreen", "monitoradded", "monitoraddedv2", "monitorremoved", "movewindow", "movewindowv2",
    "moveworkspace", "moveworkspacev2", "openwindow", "pin", "renameworkspace", "urgent",
    "windowtitle", "windowtitlev2", "workspace", "workspacev2" }

  /** Twenty-six events matter. */
  lemma RelevantMeaning(name: string)
    ensures name in RELEVANT <==>
      || name == "workspace" || name == "workspacev2" || name == "focusedmon" || name == "activewindow"
      || name == "activewindowv2" || name == "fullscreen" || name == "monitorremoved" || name == "monitoradded"
      || name == "monitoraddedv2" || name == "createworkspace" || name == "createworkspacev2"
      || name == "destroyworkspace" || name == "destroyworkspacev2" || name == "moveworkspace"
      || name == "moveworkspacev2" || name == "renameworkspace" || name == "openwindow" || name == "closewindow"
      || name == "movewindow" || name == "movewindowv2" || name == "windowtitle" || name == "windowtitlev2"
      || name == "changefloatingmode" || name == "urgent" || name == "pin" || name == "configreloaded"
  {
  }

  predicate IsWordChar(c: char) {
    'a' <= c <= 'z' || 'A' <= c <= 'Z' || '0' <= c <= '9' || c == '_'
  }

  /** Where the word characters from `i` on end. */
  function WordEnd(s: string, i: nat): (n: nat)
    requires i <= |s|
    ensures i <= n <= |s|
    decreases |s| - i
  {
    if i < |s| && IsWordChar(s[i]) then WordEnd(s, i + 1) else i
  }

  /** The name before the first `>>`, made of word characters only. */
  function EventName(line: string): Option<string> {
    var n := WordEnd(line, 0);
    if n > 0 && n + 2 <= |line| && line[n] == '>' && line[n + 1] == '>' then Some(line[..n]) else None
  }

  function WithoutReturn(line: string): string {
    if line != "" && line[|line| - 1] == '\r' then line[..|line| - 1] else line
  }

  predicate IsRelevant(names: set<string>, line: string) {
    var name := EventName(WithoutReturn(line));
    name.Some? && name.value in names
  }

  /** A line is relevant exactly when it begins with a relevant name and `>>`; a carriage return at its
      end makes no difference. */
  lemma IsRelevantMeaning(names: set<string>, line: string)
    ensures IsRelevant(names, line) <==> exists name :: name in names && Announces(line, name)
  {
    var text := WithoutReturn(line);
    if IsRelevant(names, line) {
      var name := EventName(text).value;
      WordEndMeaning(text, 0);
      assert Announces(line, name);
    }
    if name :| name in names && Announces(line, name) {
      assert forall i :: 0 <= i < |name| ==> line[i] == (name + ">>")[i] == name[i];
      assert line[|name|] == (name + ">>")[|name|] == '>' && line[|name| + 1] == (name + ">>")[|name| + 1] == '>';
      assert |text| >= |name| + 2 && text[..|name|] == name;
      WordEndMeaning(text, 0);
      EndIs(text, |name|);
    }
  }

  predicate Announces(line: string, name: string) {
    name + ">>" <= line && name != "" && forall i :: 0 <= i < |name| ==> IsWordChar(name[i])
  }

  lemma {:induction false} WordEndMeaning(s: string, i: nat)
    requires i <= |s|
    ensures forall k :: i <= k < WordEnd(s, i) ==> IsWordChar(s[k])
    ensures WordEnd(s, i) < |s| ==> !IsWordChar(s[WordEnd(s, i)])
    decreases |s| - i
  {
    if i < |s| && IsWordChar(s[i]) {
      WordEndMeaning(s, i + 1);
    }
  }

  lemma EndIs(s: string, n: nat)
    requires n < |s| && !IsWordChar(s[n]) && forall k :: 0 <= k < n ==> IsWordChar(s[k])
    ensures WordEnd(s, 0) == n
  {
    WordEndMeaning(s, 0);
  }

  lemma IsWordCharMeaning(c: char)
    ensures IsWordChar(c) <==>
      48 <= c as int <= 57 || 65 <= c as int <= 90 || 97 <= c as int <= 122 || c as int == 95
  {
  }

  // ---- lines of a stream ------------------------------------------------------------

  /** Complete lines, in order, and what is left after the last newline. */
  datatype Split = Split(lines: seq<string>, rest: string)

  function SplitTo(s: string, n: nat): Split
    requires n <= |s|
  {
    if n == 0 then Split([], "")
    else
      var before := SplitTo(s, n - 1);
      if s[n - 1] == '\n' then Split(before.lines + [before.rest], "")
      else before.(rest := before.rest + [s[n - 1]])
  }

  function SplitLines(s: string): Split {
    SplitTo(s, |s|)
  }

  lemma {:induction false} LinesHaveNoNewline(s: string, n: nat)
    requires n <= |s|
    ensures '\n' !in SplitTo(s, n).rest
    ensures forall i :: 0 <= i < |SplitTo(s, n).lines| ==> '\n' !in SplitTo(s, n).lines[i]
  {
    if n == 0 {
    } else {
      LinesHaveNoNewline(s, n - 1);
    }
  }

  /** The lines, each with its newline. */
  function Terminated(lines: seq<string>): string {
    if lines == [] then "" else Terminated(lines[..|lines| - 1]) + lines[|lines| - 1] + "\n"
  }

  lemma OneMoreLine(lines: seq<string>, line: string)
    ensures Terminated(lines + [line]) == Terminated(lines) + line + "\n"
  {
    assert (lines + [line])[..|lines|] == lines;
  }

  lemma LineGoesOn(lines: string, rest: string, c: char)
    ensures lines + (rest + [c]) == lines + rest + [c]
  {
  }

  /** The lines and the rest make up the stream again. */
  lemma {:induction false} SplitIsLossless(s: string, n: nat)
    requires n <= |s|
    ensures Terminated(SplitTo(s, n).lines) + SplitTo(s, n).rest == s[..n]
  {
    if n == 0 {
    } else {
      SplitIsLossless(s, n - 1);
      assert s[..n] == s[..n - 1] + [s[n - 1]];
      if s[n - 1] == '\n' {
        OneMoreLine(SplitTo(s, n - 1).lines, SplitTo(s, n - 1).rest);
      } else {
        LineGoesOn(Terminated(SplitTo(s, n - 1).lines), SplitTo(s, n - 1).rest, s[n - 1]);
      }
    }
  }

  /** What follows does not change the split so far. */
  lemma {:induction false} SplitStands(a: string, b: string, n: nat)
    requires n <= |a|
    ensures SplitTo(a + b, n) == SplitTo(a, n)
  {
    if n == 0 {
    } else {
      SplitStands(a, b, n - 1);
    }
  }

  /** Without newlines the line at hand only grows. */
  lemma {:induction false} LineGrows(s: string, start: nat, n: nat)
    requires start <= n <= |s| && forall i :: start <= i < n ==> s[i] != '\n'
    ensures SplitTo(s, n) == Split(SplitTo(s, start).lines, SplitTo(s, start).rest + s[start..n])
  {
    if start == n {
    } else {
      LineGrows(s, start, n - 1);
      assert s[start..n] == s[start..n - 1] + [s[n - 1]];
    }
  }

  /** Splitting the remainder of one chunk with the next continues the split. */
  lemma {:induction false} SplitContinues(a: string, b: string, k: nat)
    requires k <= |b|
    ensures
      var rest := SplitLines(a).rest;
      SplitTo(a + b, |a| + k) == Split(SplitLines(a).lines + SplitTo(rest + b, |rest| + k).lines, SplitTo(rest + b, |rest| + k).rest)
  {
    var rest := SplitLines(a).rest;
    if k == 0 {
      SplitStands(a, b, |a|);
      LinesHaveNoNewline(a, |a|);
      LineGrows(rest + b, 0, |rest|);
      assert (rest + b)[0..|rest|] == rest;
    } else {
      SplitContinues(a, b, k - 1);
      assert (a + b)[|a| + k - 1] == b[k - 1] == (rest + b)[|rest| + k - 1];
    }
  }

  function CountTo(names: set<string>, lines: seq<string>, n: nat): nat
    requires n <= |lines|
  {
    if n == 0 then 0 else CountTo(names, lines, n - 1) + (if IsRelevant(names, lines[n - 1]) then 1 else 0)
  }

  function CountRelevant(names: set<string>, lines: seq<string>): nat {
    CountTo(names, lines, |lines|)
  }

  lemma {:induction false} CountStands(names: set<string>, a: seq<string>, b: seq<string>, n: nat)
    requires n <= |a|
    ensures CountTo(names, a + b, n) == CountTo(names, a, n)
  {
    if n == 0 {
    } else {
      CountStands(names, a, b, n - 1);
    }
  }

  lemma {:induction false} CountsAdd(names: set<string>, a: seq<string>, b: seq<string>, k: nat)
    requires k <= |b|
    ensures CountTo(names, a + b, |a| + k) == CountRelevant(names, a) + CountTo(names, b, k)
  {
    if k == 0 {
      CountStands(names, a, b, |a|);
    } else {
      CountsAdd(names, a, b, k - 1);
    }
  }

  // ---- consume_events ---------------------------------------------------------------------

  datatype Consumed = Consumed(rest: string, relevant: bool, count: nat)

  /** What the lines of a text come to. */
  function ConsumedText(names: set<string>, all: string): Consumed {
    var split := SplitLines(all);
    var count := CountRelevant(names, split.lines);
    Consumed(split.rest, count > 0, count)
  }

  /** What consuming a chunk comes to, or nothing when the buffer would grow too large. */
  function Consume(names: set<string>, buffer: string, chunk: string): Option<Consumed> {
    if |buffer + chunk| > MAX_BUFFER then None else Some(ConsumedText(names, buffer + chunk))
  }

  predicate NoNewline(s: string, from: nat, to: nat) {
    from <= to <= |s| && forall i :: from <= i < to ==> s[i] != '\n'
  }

  method Find(s: string, start: nat) returns (newline: Option<nat>)
    requires start <= |s|
    ensures newline.Some? ==> newline.value < |s| && s[newline.value] == '\n' && NoNewline(s, start, newline.value)
    ensures newline.None? ==> NoNewline(s, start, |s|)
  {
    var i := start;
    while i < |s| && s[i] != '\n'
      invariant NoNewline(s, start, i)
    {
      i := i + 1;
    }
    newline := if i < |s| then Some(i) else None;
  }

  /** `consume_events` */
  method ConsumeEvents(buffer: string, chunk: string) returns (r: Option<Consumed>)
    ensures r == Consume(RELEVANT, buffer, chunk)
    ensures r == None <==> |buffer| + |chunk| > 1048576
  {
    var all := buffer + chunk;
    if |all| > MAX_BUFFER {
      return None;
    }
    var consumed := ConsumeLines(RELEVANT, all);
    r := Some(consumed);
  }

  method TestLine(names: set<string>, all: string, start: nat, newline: nat, ghost count: nat) returns (hit: bool)
    requires newline < |all| && all[newline] == '\n' && NoNewline(all, start, newline)
    requires Scanned(names, all, start, count)
    ensures Scanned(names, all, newline + 1, if hit then count + 1 else count)
  {
    ScanLine(names, all, start, newline, count);
    var line := WithoutReturn(all[start..newline]);
    var name := EventName(line);
    hit := name.Some? && name.value in names;
  }

  method ConsumeLines(names: set<string>, all: string) returns (r: Consumed)
    ensures r == ConsumedText(names, all)
  {
    var relevant, count, start := false, 0, 0;
    while true
      invariant 0 <= start <= |all|
      invariant Scanned(names, all, start, count) && (relevant <==> count > 0)
      decreases |all| - start
    {
      var newline := Find(all, start);
      if newline.None? {
        ScanEnds(names, all, start, count);
        return Consumed(all[start..], relevant, count);
      }
      var hit := TestLine(names, all, start, newline.value, count);
      if hit {
        relevant, count := true, count + 1;
      }
      start := newline.value + 1;
    }
  }

  /** The stream up to `start` is made of whole lines, `count` of them relevant. */
  ghost predicate Scanned(names: set<string>, s: string, start: nat, count: nat)
    requires start <= |s|
  {
    true == (SplitTo(s, start).rest == "" && count == CountRelevant(names, SplitTo(s, start).lines))
  }

  lemma ScanLine(names: set<string>, s: string, start: nat, newline: nat, count: nat)
    requires newline < |s| && s[newline] == '\n' && NoNewline(s, start, newline)
    requires start <= |s| && Scanned(names, s, start, count)
    ensures IsRelevant(names, s[start..newline]) ==> Scanned(names, s, newline + 1, count + 1)
    ensures !IsRelevant(names, s[start..newline]) ==> Scanned(names, s, newline + 1, count)
  {
    NextLine(s, start, newline);
    OneMoreCounted(names, SplitTo(s, start).lines, s[start..newline]);
  }

  lemma NextLine(s: string, start: nat, newline: nat)
    requires newline < |s| && s[newline] == '\n' && NoNewline(s, start, newline) && SplitTo(s, start).rest == ""
    ensures SplitTo(s, newline + 1) == Split(SplitTo(s, start).lines + [s[start..newline]], "")
  {
    LineGrows(s, start, newline);
    assert "" + s[start..newline] == s[start..newline];
  }

  lemma OneMoreCounted(names: set<string>, lines: seq<string>, line: string)
    ensures CountRelevant(names, lines + [line]) == CountRelevant(names, lines) + (if IsRelevant(names, line) then 1 else 0)
  {
    CountStands(names, lines, [line], |lines|);
  }

  lemma ScanEnds(names: set<string>, s: string, start: nat, count: nat)
    requires NoNewline(s, start, |s|) && Scanned(names, s, start, count)
    ensures ConsumedText(names, s) == Consumed(s[start..], count > 0, count)
  {
    LineGrows(s, start, |s|);
  }

  lemma RestIsShorter(s: string)
    ensures |SplitLines(s).rest| <= |s|
  {
    SplitIsLossless(s, |s|);
  }

  function Then(first: Consumed, second: Consumed): Consumed {
    Consumed(second.rest, first.relevant || second.relevant, first.count + second.count)
  }

  /** Consuming two chunks in turn is consuming their concatenation, within the bound. */
  lemma ChunksJoin(names: set<string>, buffer: string, a: string, b: string)
    requires |buffer + a + b| <= MAX_BUFFER
    ensures Consume(names, buffer, a).Some? && Consume(names, Consume(names, buffer, a).value.rest, b).Some?
    ensures
      var first := Consume(names, buffer, a).value;
      Consume(names, buffer, a + b) == Some(Then(first, Consume(names, first.rest, b).value))
  {
    assert buffer + (a + b) == buffer + a + b;
    TextsJoin(names, buffer + a, b);
  }

  lemma TextsJoin(names: set<string>, s: string, b: string)
    ensures |ConsumedText(names, s).rest| <= |s|
    ensures ConsumedText(names, s + b) == Then(ConsumedText(names, s), ConsumedText(names, ConsumedText(names, s).rest + b))
  {
    RestIsShorter(s);
    JoinCounts(names, s, b);
  }

  lemma JoinCounts(names: set<string>, s: string, b: string)
    ensures SplitLines(s + b).rest == SplitLines(SplitLines(s).rest + b).rest
    ensures CountRelevant(names, SplitLines(s + b).lines) ==
      CountRelevant(names, SplitLines(s).lines) + CountRelevant(names, SplitLines(SplitLines(s).rest + b).lines)
  {
    SplitContinues(s, b, |b|);
    LinesJoin(names, SplitLines(s).lines, SplitLines(SplitLines(s).rest + b).lines);
  }

  lemma LinesJoin(names: set<string>, a: seq<string>, b: seq<string>)
    ensures CountRelevant(names, a + b) == CountRelevant(names, a) + CountRelevant(names, b)
  {
    CountsAdd(names, a, b, |b|);
  }

  /** Whatever the pieces a stream arrives in, the same lines are seen and the same
      remainder is left. */
  function ConsumeAll(names: set<string>, buffer: string, chunks: seq<string>): Option<Consumed> {
    if chunks == [] then Some(Consumed(buffer, false, 0))
    else
      var before := ConsumeAll(names, buffer, chunks[..|chunks| - 1]);
      if before.None? then None
      else
        match Consume(names, before.value.rest, chunks[|chunks| - 1])
        case None => None
        case Some(next) =>
          Some(Then(before.value, next))
  }

  function Concatenated(chunks: seq<string>): string {
    if chunks == [] then "" else Concatenated(chunks[..|chunks| - 1]) + chunks[|chunks| - 1]
  }

  lemma {:induction false} ChunkingDoesNotMatter(names: set<string>, buffer: string, chunks: seq<string>)
    requires '\n' !in buffer && |buffer + Concatenated(chunks)| <= MAX_BUFFER
    ensures ConsumeAll(names, buffer, chunks) == Consume(names, buffer, Concatenated(chunks))
  {
    if chunks == [] {
      assert buffer + Concatenated(chunks) == buffer;
      LineGrows(buffer, 0, |buffer|);
      assert "" + buffer[0..|buffer|] == buffer;
    } else {
      var last, before := chunks[|chunks| - 1], Concatenated(chunks[..|chunks| - 1]);
      assert buffer + before + last == buffer + Concatenated(chunks);
      ChunkingDoesNotMatter(names, buffer, chunks[..|chunks| - 1]);
      ChunksJoin(names, buffer, before, last);
    }
  }

  /** The remainder never holds a newline. */
  lemma RemainderIsOneLine(names: set<string>, buffer: string, chunk: string)
    requires Consume(names, buffer, chunk).Some?
    ensures '\n' !in Consume(names, buffer, chunk).value.rest
    ensures exists consumed :: buffer + chunk == consumed + Consume(names, buffer, chunk).value.rest
  {
    SplitIsLossless(buffer + chunk, |buffer + chunk|);
    LinesHaveNoNewline(buffer + chunk, |buffer + chunk|);
  }
}
