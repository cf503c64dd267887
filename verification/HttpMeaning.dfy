/** What a request returns, in terms of the received lines and the names of the headers alone. */
module HttpMeaning {
  import opened LuaHeap
  import opened HttpResponse

  // ---- letters -------------------------------------------------------------------

  /** The same text, but for the case of ASCII letters. */
  predicate SameLetters(a: string, b: string) {
    |a| == |b| && forall i :: 0 <= i < |a| ==> SameLetter(a[i], b[i])
  }

  predicate SameLetter(x: char, y: char) {
    || x == y
    || ('A' <= x <= 'Z' && y as int == x as int + 32)
    || ('A' <= y <= 'Z' && x as int == y as int + 32)
  }

  lemma SameLetterMeaning(x: char, y: char)
    ensures ToLower(x) == ToLower(y) <==>
      || x == y
      || ('A' <= x <= 'Z' && y as int == x as int + 32)
      || ('A' <= y <= 'Z' && x as int == y as int + 32)
  {
  }

  /** Header names are the same exactly when their letters are, in whatever case. */
  lemma SameNameMeaning(a: string, b: string)
    ensures SameName(a, b) <==> SameLetters(a, b)
  {
    forall i | 0 <= i < |a| && i < |b| ensures LowerCase(a)[i] == LowerCase(b)[i] <==> SameLetter(a[i], b[i]) {
      SameLetterMeaning(a[i], b[i]);
    }
    if SameName(a, b) {
      assert |LowerCase(a)| == |LowerCase(b)|;
      assert forall i :: 0 <= i < |a| ==> LowerCase(a)[i] == LowerCase(b)[i];
    }
  }

  /** White space: space, tab, line feed, vertical tab, form feed, carriage return. */
  lemma IsSpaceMeaning(c: char)
    ensures IsSpace(c) <==>
      c as int == 32 || c as int == 9 || c as int == 10 || c as int == 11 || c as int == 12 || c as int == 13
  {
  }

  /** `HTTP/`, in any case. */
  predicate StartsResponse(line: string) {
    |line| >= 5 && line[0] in "hH" && line[1] in "tT" && line[2] in "tT" && line[3] in "pP" && line[4] == '/'
  }

  lemma StatusLineMeaning(line: string)
    ensures IsStatusLine(line) <==> StartsResponse(line)
  {
    if |line| >= 5 {
      var start := line[..4];
      assert LowerCase(start) == [ToLower(start[0]), ToLower(start[1]), ToLower(start[2]), ToLower(start[3])];
    }
  }

  // ---- lines ------------------------------------------------------------------------

  /** A header line of that name, in any case, with that value as received. */
  ghost predicate Carries(c: Callback, spelling: string, value: string) {
    c.Header? && !StartsResponse(c.line) && exists name :: NamedLine(c.line, name, value) && SameLetters(name, spelling)
  }

  predicate NamedLine(line: string, name: string, value: string) {
    line == name + ":" + value && ':' !in name
  }

  lemma NamedLineMeaning(line: string, name: string, value: string)
    ensures NamedLine(line, name, value) <==> BeforeColon(line) == Some(name) && line[|name| + 1..] == value
  {
    if NamedLine(line, name, value) {
      assert line[|name|] == ':';
      var found := BeforeColon(line);
      assert found.Some?;
      FirstColon(line, found.value, name);
    }
    if BeforeColon(line) == Some(name) && line[|name| + 1..] == value {
      assert line == line[..|name| + 1] + line[|name| + 1..];
      assert line[..|name| + 1] == name + ":";
    }
  }

  lemma FirstColon(line: string, a: string, b: string)
    requires a + ":" <= line && ':' !in a && b + ":" <= line && ':' !in b
    ensures a == b
  {
    assert line[|a|] == (a + ":")[|a|] == ':' && line[|b|] == (b + ":")[|b|] == ':';
    assert forall k :: 0 <= k < |a| ==> (a + ":")[k] == a[k] == line[k];
    assert forall k :: 0 <= k < |b| ==> (b + ":")[k] == b[k] == line[k];
    assert a == line[..|a|] && b == line[..|b|];
  }

  lemma CarriedIsKept(c: Callback, n: Name, name: string, value: string)
    requires c.Header? && !IsStatusLine(c.line) && BeforeColon(c.line) == Some(name)
    requires c.line[|name| + 1..] == value
    ensures ItemOf(c) == Kept(n, value) <==> SameName(name, Spelling(n))
  {
    assert NameOf(name) == Some(n) <==> SameName(name, Spelling(n));
  }

  /** A callback sets a kept header exactly when it carries its name. */
  lemma KeptMeaning(c: Callback, n: Name, value: string)
    ensures ItemOf(c) == Kept(n, value) <==> Carries(c, Spelling(n), value)
  {
    if c.Header? {
      StatusLineMeaning(c.line);
      if Carries(c, Spelling(n), value) {
        var name :| NamedLine(c.line, name, value) && SameLetters(name, Spelling(n));
        NamedLineMeaning(c.line, name, value);
        SameNameMeaning(name, Spelling(n));
        CarriedIsKept(c, n, name, value);
      }
      if ItemOf(c) == Kept(n, value) {
        KeptIsCarried(c, n, value);
      }
    }
  }

  lemma KeptIsCarried(c: Callback, n: Name, value: string)
    requires c.Header? && ItemOf(c) == Kept(n, value) && !StartsResponse(c.line)
    ensures Carries(c, Spelling(n), value)
  {
    var name := BeforeColon(c.line).value;
    NamedLineMeaning(c.line, name, value);
    CarriedIsKept(c, n, name, value);
    SameNameMeaning(name, Spelling(n));
  }

  // ---- the final response ---------------------------------------------------------------

  predicate IsStatus(c: Callback) {
    c.Header? && StartsResponse(c.line)
  }

  /** The final response begins after the last status line. */
  predicate BeginsAt(callbacks: seq<Callback>, start: nat) {
    && start <= |callbacks|
    && (start > 0 ==> IsStatus(callbacks[start - 1]))
    && forall i :: start <= i < |callbacks| ==> !IsStatus(callbacks[i])
  }

  /** All chunks, one after the other. */
  function Data(callbacks: seq<Callback>): string {
    if callbacks == [] then ""
    else (if callbacks[0].Chunk? then callbacks[0].data else "") + Data(callbacks[1..])
  }

  /** The value of a header is the trimmed value of the last line that carries its name; it has
      none when no line does. */
  ghost predicate HasValue(callbacks: seq<Callback>, start: nat, spelling: string, value: Option<string>) {
    match value
    case None => forall i, v :: start <= i < |callbacks| ==> !Carries(callbacks[i], spelling, v)
    case Some(trimmed) => exists i: nat, v :: IsLastLine(callbacks, start, spelling, i, v) && IsTrimmed(v, trimmed)
  }

  ghost predicate IsLastLine(callbacks: seq<Callback>, start: nat, spelling: string, i: nat, value: string) {
    && start <= i < |callbacks| && Carries(callbacks[i], spelling, value)
    && forall k, v :: i < k < |callbacks| ==> !Carries(callbacks[k], spelling, v)
  }

  function ValueOf(headers: map<Name, string>, n: Name): Option<string> {
    if n in headers then Some(headers[n]) else None
  }

  ghost predicate AnswersFrom(callbacks: seq<Callback>, start: nat, body: string, headers: map<Name, string>) {
    true == (
      && BeginsAt(callbacks, start)
      && body == Data(callbacks[start..])
      && HasValidators(callbacks, start, headers)
      && HasDelays(callbacks, start, headers)
      && HasRateLimit(callbacks, start, headers))
  }

  ghost predicate HasValidators(callbacks: seq<Callback>, start: nat, headers: map<Name, string>) {
    true == (
      && HasValue(callbacks, start, "etag", ValueOf(headers, Etag))
      && HasValue(callbacks, start, "last-modified", ValueOf(headers, LastModified)))
  }

  ghost predicate HasDelays(callbacks: seq<Callback>, start: nat, headers: map<Name, string>) {
    true == (
      && HasValue(callbacks, start, "retry-after", ValueOf(headers, RetryAfter))
      && HasValue(callbacks, start, "x-poll-interval", ValueOf(headers, PollInterval)))
  }

  ghost predicate HasRateLimit(callbacks: seq<Callback>, start: nat, headers: map<Name, string>) {
    true == (
      && HasValue(callbacks, start, "x-ratelimit-remaining", ValueOf(headers, RateLimitRemaining))
      && HasValue(callbacks, start, "x-ratelimit-reset", ValueOf(headers, RateLimitReset)))
  }

  /** Body and headers are those of the final response. */
  ghost predicate IsAnswer(callbacks: seq<Callback>, body: string, headers: map<Name, string>) {
    exists start: nat :: AnswersFrom(callbacks, start, body, headers)
  }

  lemma StatusMeaning(c: Callback)
    ensures ItemOf(c) == Status <==> IsStatus(c)
  {
    if c.Header? {
      StatusLineMeaning(c.line);
    }
  }

  lemma StartMeaning(callbacks: seq<Callback>)
    ensures BeginsAt(callbacks, Start(Items(callbacks)))
    ensures forall start: nat :: BeginsAt(callbacks, start) ==> start == Start(Items(callbacks))
  {
    forall i | 0 <= i < |callbacks| ensures Items(callbacks)[i] == Status <==> IsStatus(callbacks[i]) {
      StatusMeaning(callbacks[i]);
    }
    var found := Start(Items(callbacks));
    forall start: nat | BeginsAt(callbacks, start) ensures start == found {
    }
  }

  lemma {:induction false} DataMeaning(callbacks: seq<Callback>, n: nat)
    requires n <= |callbacks|
    ensures Data(callbacks[..n]) == Joined(Items(callbacks)[..n])
  {
    if n == 0 {
    } else {
      DataMeaning(callbacks, n - 1);
      DataAppend(callbacks[..n - 1], callbacks[n - 1]);
      assert callbacks[..n] == callbacks[..n - 1] + [callbacks[n - 1]];
      JoinedAppend(Items(callbacks)[..n - 1], Items(callbacks)[n - 1]);
      assert Items(callbacks)[..n] == Items(callbacks)[..n - 1] + [Items(callbacks)[n - 1]];
      assert Items(callbacks)[n - 1].Bytes? <==> callbacks[n - 1].Chunk?;
    }
  }

  lemma {:induction false} DataAppend(callbacks: seq<Callback>, c: Callback)
    ensures Data(callbacks + [c]) == Data(callbacks) + (if c.Chunk? then c.data else "")
  {
    if callbacks == [] {
      assert (callbacks + [c])[1..] == [];
    } else {
      DataAppend(callbacks[1..], c);
      assert (callbacks + [c])[1..] == callbacks[1..] + [c];
    }
  }

  lemma BodyMeaning(callbacks: seq<Callback>, start: nat)
    requires BeginsAt(callbacks, start)
    ensures Body(Items(callbacks)) == Data(callbacks[start..])
  {
    StartMeaning(callbacks);
    var final := callbacks[start..];
    DataMeaning(final, |final|);
    assert final[..|final|] == final && Items(final)[..|final|] == Items(final);
    assert Items(final) == Items(callbacks)[start..];
  }

  /** Item by item, `items` are what the callbacks mean for the header `n`. */
  ghost predicate Reads(callbacks: seq<Callback>, items: seq<Item>, n: Name, spelling: string) {
    |items| == |callbacks|
    && forall i, v :: 0 <= i < |items| ==> (items[i] == Kept(n, v) <==> Carries(callbacks[i], spelling, v))
  }

  lemma ItemsRead(callbacks: seq<Callback>, n: Name)
    ensures Reads(callbacks, Items(callbacks), n, Spelling(n))
  {
    forall i, v | 0 <= i < |callbacks| ensures Items(callbacks)[i] == Kept(n, v) <==> Carries(callbacks[i], Spelling(n), v) {
      KeptMeaning(callbacks[i], n, v);
    }
  }

  lemma ValueMeaning(callbacks: seq<Callback>, items: seq<Item>, headers: map<Name, string>, n: Name, spelling: string)
    requires Reads(callbacks, items, n, spelling) && LastValues(items, headers) && n in headers
    ensures HasValue(callbacks, Start(items), spelling, Some(headers[n]))
  {
    assert IsLastValue(items, n, headers[n]);
    var i: nat :| LastSetting(items, n, i) && headers[n] == Trim(items[i].value);
    var v := items[i].value;
    assert items[i] == Kept(n, v);
    forall k, w | i < k < |callbacks| ensures !Carries(callbacks[k], spelling, w) {
      assert !Sets(items[k], n);
      assert items[k] != Kept(n, w);
    }
    assert IsLastLine(callbacks, Start(items), spelling, i, v);
    TrimMeaning(v);
  }

  lemma NoValueMeaning(callbacks: seq<Callback>, items: seq<Item>, headers: map<Name, string>, n: Name, spelling: string)
    requires Reads(callbacks, items, n, spelling) && LastValues(items, headers) && n !in headers
    ensures HasValue(callbacks, Start(items), spelling, None)
  {
    forall i, v | Start(items) <= i < |callbacks| ensures !Carries(callbacks[i], spelling, v) {
      assert items[i] != Kept(n, v);
    }
  }

  lemma HeaderMeaning(callbacks: seq<Callback>, headers: map<Name, string>, n: Name)
    requires LastValues(Items(callbacks), headers)
    ensures HasValue(callbacks, Start(Items(callbacks)), Spelling(n), ValueOf(headers, n))
  {
    ItemsRead(callbacks, n);
    if n in headers {
      ValueMeaning(callbacks, Items(callbacks), headers, n, Spelling(n));
    } else {
      NoValueMeaning(callbacks, Items(callbacks), headers, n, Spelling(n));
    }
  }

  lemma ValidatorsMeaning(callbacks: seq<Callback>, headers: map<Name, string>)
    requires LastValues(Items(callbacks), headers)
    ensures HasValidators(callbacks, Start(Items(callbacks)), headers)
  {
    HeaderMeaning(callbacks, headers, Etag);
    HeaderMeaning(callbacks, headers, LastModified);
  }

  lemma DelaysMeaning(callbacks: seq<Callback>, headers: map<Name, string>)
    requires LastValues(Items(callbacks), headers)
    ensures HasDelays(callbacks, Start(Items(callbacks)), headers)
  {
    HeaderMeaning(callbacks, headers, RetryAfter);
    HeaderMeaning(callbacks, headers, PollInterval);
  }

  lemma RateLimitMeaning(callbacks: seq<Callback>, headers: map<Name, string>)
    requires LastValues(Items(callbacks), headers)
    ensures HasRateLimit(callbacks, Start(Items(callbacks)), headers)
  {
    HeaderMeaning(callbacks, headers, RateLimitRemaining);
    HeaderMeaning(callbacks, headers, RateLimitReset);
  }

  /** What one header line means. */
  lemma LineMeaning(line: string)
    ensures ItemOf(Header(line)) == Status <==> StartsResponse(line)
    ensures forall n, v :: ItemOf(Header(line)) == Kept(n, v) <==> Carries(Header(line), Spelling(n), v)
  {
    StatusMeaning(Header(line));
    forall n, v ensures ItemOf(Header(line)) == Kept(n, v) <==> Carries(Header(line), Spelling(n), v) {
      KeptMeaning(Header(line), n, v);
    }
  }

  /** What was collected is the answer. */
  lemma CollectedIsAnswer(callbacks: seq<Callback>, headers: map<Name, string>)
    requires LastValues(Items(callbacks), headers)
    ensures IsAnswer(callbacks, Body(Items(callbacks)), headers)
  {
    var start := Start(Items(callbacks));
    StartMeaning(callbacks);
    BodyMeaning(callbacks, start);
    ValidatorsMeaning(callbacks, headers);
    DelaysMeaning(callbacks, headers);
    RateLimitMeaning(callbacks, headers);
    assert AnswersFrom(callbacks, start, Body(Items(callbacks)), headers);
  }

  // ---- the limits -------------------------------------------------------------------------

  const KEPT_NAMES: seq<string> :=
    ["etag", "last-modified", "retry-after", "x-poll-interval", "x-ratelimit-remaining", "x-ratelimit-reset"]

  /** No body on the way exceeds the maximum, and no kept value 8192 bytes. */
  ghost predicate StaysWithin(callbacks: seq<Callback>, maximum: nat) {
    && (forall n: nat, start: nat :: n <= |callbacks| && BeginsAt(callbacks[..n], start) ==> BodyIsWithin(callbacks[..n], start, maximum))
    && (forall c :: c in callbacks ==> ValueIsWithin(c))
  }

  ghost predicate BodyIsWithin(callbacks: seq<Callback>, start: nat, maximum: nat)
    requires start <= |callbacks|
  {
    |Data(callbacks[start..])| <= maximum
  }

  ghost predicate ValueIsWithin(c: Callback) {
    forall i, value :: 0 <= i < |KEPT_NAMES| && Carries(c, KEPT_NAMES[i], value) ==> |value| <= 8192
  }

  lemma NamesAreSpellings(n: Name) returns (i: nat)
    ensures i < |KEPT_NAMES| && KEPT_NAMES[i] == Spelling(n)
  {
    i := match n
      case Etag => 0
      case LastModified => 1
      case RetryAfter => 2
      case PollInterval => 3
      case RateLimitRemaining => 4
      case RateLimitReset => 5;
  }

  lemma SpellingsAreNames(i: nat) returns (n: Name)
    requires i < |KEPT_NAMES|
    ensures Spelling(n) == KEPT_NAMES[i]
  {
    n := if i == 0 then Etag else if i == 1 then LastModified else if i == 2 then RetryAfter
      else if i == 3 then PollInterval else if i == 4 then RateLimitRemaining else RateLimitReset;
  }

  lemma FitsMeaning(c: Callback)
    ensures Fits(ItemOf(c)) <==> ValueIsWithin(c)
  {
    if Fits(ItemOf(c)) {
      forall i, value | 0 <= i < |KEPT_NAMES| && Carries(c, KEPT_NAMES[i], value) ensures |value| <= 8192 {
        var n := SpellingsAreNames(i);
        KeptMeaning(c, n, value);
      }
    }
    if ValueIsWithin(c) && ItemOf(c).Kept? {
      var i := NamesAreSpellings(ItemOf(c).name);
      KeptMeaning(c, ItemOf(c).name, ItemOf(c).value);
    }
  }

  lemma BodyFitsMeaning(callbacks: seq<Callback>, n: nat, maximum: nat)
    requires n <= |callbacks|
    ensures BodyFits(Items(callbacks), n, maximum) <==>
      forall start: nat :: BeginsAt(callbacks[..n], start) ==> BodyIsWithin(callbacks[..n], start, maximum)
  {
    var first := callbacks[..n];
    assert Items(first) == Items(callbacks)[..n];
    StartMeaning(first);
    BodyMeaning(first, Start(Items(first)));
  }

  lemma LimitsMeaning(callbacks: seq<Callback>, maximum: nat)
    ensures WithinLimits(Items(callbacks), maximum) <==> StaysWithin(callbacks, maximum)
  {
    forall n: nat | n <= |callbacks|
      ensures BodyFits(Items(callbacks), n, maximum) <==>
        forall start: nat :: BeginsAt(callbacks[..n], start) ==> BodyIsWithin(callbacks[..n], start, maximum)
    {
      BodyFitsMeaning(callbacks, n, maximum);
    }
    forall i | 0 <= i < |callbacks| ensures Fits(Items(callbacks)[i]) <==> ValueIsWithin(callbacks[i]) {
      FitsMeaning(callbacks[i]);
    }
    assert forall c :: c in callbacks <==> exists i :: 0 <= i < |callbacks| && callbacks[i] == c;
  }
}
