/** What a sequence of libcurl callbacks amounts to: the body and the kept headers of the
    final response. */
module HttpResponse {
  import opened LuaHeap

  const MAX_HEADER_VALUE_SIZE: nat := 8192

  /** `isspace` in the C locale. */
  predicate IsSpace(c: char) {
    c == ' ' || ('\t' <= c <= '\r')
  }

  function ToLower(c: char): char {
    if 'A' <= c <= 'Z' then (c as int + 32) as char else c
  }

  function LowerCase(s: string): (r: string)
    ensures |r| == |s|
  {
    seq(|s|, i requires 0 <= i < |s| => ToLower(s[i]))
  }

  // ---- the headers that are kept ----------------------------------------------------

  datatype Name = Etag | LastModified | RetryAfter | PollInterval | RateLimitRemaining | RateLimitReset

  function Spelling(n: Name): string {
    match n
    case Etag => "etag"
    case LastModified => "last-modified"
    case RetryAfter => "retry-after"
    case PollInterval => "x-poll-interval"
    case RateLimitRemaining => "x-ratelimit-remaining"
    case RateLimitReset => "x-ratelimit-reset"
  }

  predicate SameName(a: string, b: string) {
    LowerCase(a) == LowerCase(b)
  }

  /** The kept header that a field name denotes, in any case. */
  function NameOf(text: string): (n: Option<Name>)
    ensures forall name :: n == Some(name) <==> SameName(text, Spelling(name))
  {
    SpellingsDiffer(text);
    if SameName(text, Spelling(Etag)) then Some(Etag)
    else if SameName(text, Spelling(LastModified)) then Some(LastModified)
    else if SameName(text, Spelling(RetryAfter)) then Some(RetryAfter)
    else if SameName(text, Spelling(PollInterval)) then Some(PollInterval)
    else if SameName(text, Spelling(RateLimitRemaining)) then Some(RateLimitRemaining)
    else if SameName(text, Spelling(RateLimitReset)) then Some(RateLimitReset)
    else None
  }

  lemma SpellingsDiffer(text: string)
    ensures forall a, b :: SameName(text, Spelling(a)) && SameName(text, Spelling(b)) ==> a == b
  {
    assert forall a, b :: |Spelling(a)| == |Spelling(b)| ==> a == b;
    assert forall a :: SameName(text, Spelling(a)) ==> |text| == |Spelling(a)|;
  }

  /** Without the white space at both ends. */
  ghost predicate IsTrimmed(text: string, trimmed: string) {
    exists left, right ::
      && text == left + trimmed + right
      && (forall c :: c in left || c in right ==> IsSpace(c))
      && (trimmed != "" ==> !IsSpace(trimmed[0]) && !IsSpace(trimmed[|trimmed| - 1]))
  }

  function TrimRight(s: string): (r: string)
    ensures r <= s
  {
    if s != "" && IsSpace(s[|s| - 1]) then TrimRight(s[..|s| - 1]) else s
  }

  function TrimLeft(s: string): string {
    if s != "" && IsSpace(s[0]) then TrimLeft(s[1..]) else s
  }

  function Trim(s: string): string {
    TrimLeft(TrimRight(s))
  }

  lemma {:induction false} TrimRightMeaning(s: string) returns (right: string)
    ensures s == TrimRight(s) + right && forall c :: c in right ==> IsSpace(c)
    ensures TrimRight(s) != "" ==> !IsSpace(TrimRight(s)[|TrimRight(s)| - 1])
  {
    right := "";
    if s != "" && IsSpace(s[|s| - 1]) {
      var before := TrimRightMeaning(s[..|s| - 1]);
      right := before + [s[|s| - 1]];
      assert s == TrimRight(s) + before + [s[|s| - 1]];
    }
  }

  lemma {:induction false} TrimLeftMeaning(s: string) returns (left: string)
    ensures s == left + TrimLeft(s) && forall c :: c in left ==> IsSpace(c)
    ensures TrimLeft(s) != "" ==> !IsSpace(TrimLeft(s)[0])
  {
    left := "";
    if s != "" && IsSpace(s[0]) {
      var after := TrimLeftMeaning(s[1..]);
      left := [s[0]] + after;
      assert s == [s[0]] + after + TrimLeft(s);
    }
  }

  /** Trimming removes white space at both ends, all of it, and nothing else. */
  lemma TrimMeaning(s: string)
    ensures IsTrimmed(s, Trim(s))
  {
    var right := TrimRightMeaning(s);
    var middle := TrimRight(s);
    var left := TrimLeftMeaning(middle);
    assert s == left + Trim(s) + right;
    if Trim(s) != "" {
      assert middle[|middle| - 1] == Trim(s)[|Trim(s)| - 1];
    }
  }

  // ---- what a sequence of callbacks amounts to ------------------------------------------

  datatype Callback =
    | Header(line: string)
    | Chunk(data: string)

  /** A status line starts another response, after a redirect or an interim response. */
  predicate IsStatusLine(line: string) {
    |line| >= 5 && LowerCase(line[..4]) == "http" && line[4] == '/'
  }

  /** The part of a header line before the first colon. */
  function BeforeColon(line: string): (name: Option<string>)
    ensures name.Some? <==> ':' in line
    ensures name.Some? ==> name.value + ":" <= line && ':' !in name.value
  {
    if line == "" then None
    else if line[0] == ':' then Some("")
    else
      match BeforeColon(line[1..])
      case None => None
      case Some(rest) => Some([line[0]] + rest)
  }

  /** The kept header that a line sets, and the value as received. */
  function Field(line: string): Option<(Name, string)> {
    match BeforeColon(line)
    case None => None
    case Some(name) => if NameOf(name).Some? then Some((NameOf(name).value, line[|name| + 1..])) else None
  }

  /** What a callback means for the response. */
  datatype Item =
    | Status
    | Kept(name: Name, value: string)    // as received, white space included
    | Ignored
    | Bytes(data: string)

  function ItemOf(c: Callback): Item {
    match c
    case Chunk(data) => Bytes(data)
    case Header(line) =>
      if IsStatusLine(line) then Status
      else if Field(line).Some? then Kept(Field(line).value.0, Field(line).value.1)
      else Ignored
  }

  function Items(callbacks: seq<Callback>): (items: seq<Item>)
    ensures |items| == |callbacks|
  {
    seq(|callbacks|, i requires 0 <= i < |callbacks| => ItemOf(callbacks[i]))
  }

  /** Where the final response begins: after its status line. */
  function Start(items: seq<Item>): (start: nat)
    ensures start <= |items|
    ensures forall i :: start <= i < |items| ==> items[i] != Status
    ensures start > 0 ==> items[start - 1] == Status
  {
    if items == [] then 0
    else if items[|items| - 1] == Status then |items|
    else Start(items[..|items| - 1])
  }

  function Joined(items: seq<Item>): string {
    if items == [] then ""
    else
      var last := items[|items| - 1];
      Joined(items[..|items| - 1]) + (if last.Bytes? then last.data else "")
  }

  /** The body: the chunks of the final response joined. */
  function Body(items: seq<Item>): string {
    Joined(items[Start(items)..])
  }

  predicate Sets(item: Item, name: Name) {
    item.Kept? && item.name == name
  }

  /** Item `i` is the last one of the final response that sets `name`. */
  ghost predicate LastSetting(items: seq<Item>, name: Name, i: nat) {
    && Start(items) <= i < |items| && Sets(items[i], name)
    && forall k :: i < k < |items| ==> !Sets(items[k], name)
  }

  /** The value kept for `name` is that of the last item that sets it. */
  ghost predicate IsLastValue(items: seq<Item>, name: Name, value: string) {
    exists i: nat :: LastSetting(items, name, i) && value == Trim(items[i].value)
  }

  /** Exactly the kept headers of the final response, each with its last value, trimmed. */
  ghost predicate LastValues(items: seq<Item>, headers: map<Name, string>) {
    true == (
      && (forall name :: name in headers ==> IsLastValue(items, name, headers[name]))
      && (forall i :: Start(items) <= i < |items| && items[i].Kept? ==> items[i].name in headers))
  }

  predicate Fits(item: Item) {
    item.Kept? ==> |item.value| <= MAX_HEADER_VALUE_SIZE
  }

  predicate BodyFits(items: seq<Item>, n: nat, maximum: nat)
    requires n <= |items|
  {
    |Body(items[..n])| <= maximum
  }

  /** At no time does the body grow past the maximum, nor a kept value past its limit. */
  ghost predicate WithinLimits(items: seq<Item>, maximum: nat) {
    true == (
      && (forall n: nat :: n <= |items| ==> BodyFits(items, n, maximum))
      && (forall i :: 0 <= i < |items| ==> Fits(items[i])))
  }

  lemma NextStart(items: seq<Item>, item: Item)
    ensures Start(items + [item]) == if item == Status then |items| + 1 else Start(items)
  {
    assert (items + [item])[..|items|] == items;
  }

  lemma JoinedAppend(items: seq<Item>, item: Item)
    ensures Joined(items + [item]) == Joined(items) + (if item.Bytes? then item.data else "")
  {
    assert (items + [item])[..|items|] == items;
  }

  lemma NextItem(items: seq<Item>, item: Item)
    ensures Body(items + [item]) ==
      if item == Status then "" else Body(items) + (if item.Bytes? then item.data else "")
  {
    NextStart(items, item);
    if item != Status {
      var final := items[Start(items)..];
      assert (items + [item])[Start(items)..] == final + [item];
      JoinedAppend(final, item);
    }
  }

  lemma NewValue(items: seq<Item>, item: Item)
    requires item.Kept?
    ensures IsLastValue(items + [item], item.name, Trim(item.value))
  {
    NextStart(items, item);
    assert (items + [item])[|items|] == item;
    assert LastSetting(items + [item], item.name, |items|);
  }

  lemma OldValue(items: seq<Item>, item: Item, name: Name, value: string)
    requires IsLastValue(items, name, value) && item != Status && !Sets(item, name)
    ensures IsLastValue(items + [item], name, value)
  {
    NextStart(items, item);
    var i: nat :| LastSetting(items, name, i) && value == Trim(items[i].value);
    assert (items + [item])[i] == items[i];
    assert LastSetting(items + [item], name, i);
  }

  lemma LastValuesStep(items: seq<Item>, item: Item, headers: map<Name, string>)
    requires LastValues(items, headers)
    ensures LastValues(items + [item],
                       if item == Status then map[] else if item.Kept? then headers[item.name := Trim(item.value)] else headers)
  {
    NextStart(items, item);
    if item != Status {
      var headers' := if item.Kept? then headers[item.name := Trim(item.value)] else headers;
      forall name | name in headers' ensures IsLastValue(items + [item], name, headers'[name]) {
        if Sets(item, name) {
          NewValue(items, item);
        } else {
          OldValue(items, item, name, headers[name]);
        }
      }
    }
  }

  lemma FitsInPrefix(items: seq<Item>, m: nat, n: nat, maximum: nat)
    requires n <= m <= |items|
    ensures BodyFits(items, n, maximum) <==> BodyFits(items[..m], n, maximum)
  {
    assert items[..m][..n] == items[..n];
  }

  lemma LimitsOfPrefix(items: seq<Item>, maximum: nat, m: nat)
    requires m <= |items|
    ensures WithinLimits(items, maximum) ==> WithinLimits(items[..m], maximum)
  {
    forall n: nat | n <= m ensures BodyFits(items, n, maximum) <==> BodyFits(items[..m], n, maximum) {
      FitsInPrefix(items, m, n, maximum);
    }
  }

  lemma LimitsStep(items: seq<Item>, item: Item, maximum: nat)
    ensures WithinLimits(items + [item], maximum) <==>
      WithinLimits(items, maximum) && |Body(items + [item])| <= maximum && Fits(item)
  {
    var after := items + [item];
    assert after[..|after|] == after && after[|items|] == item && after[..|items|] == items;
    assert BodyFits(after, |after|, maximum) <==> |Body(after)| <= maximum;
    forall n: nat | n <= |items| ensures BodyFits(after, n, maximum) <==> BodyFits(items, n, maximum) {
      FitsInPrefix(after, |items|, n, maximum);
    }
    assert forall i :: 0 <= i < |items| ==> items[i] == after[i];
  }
}
