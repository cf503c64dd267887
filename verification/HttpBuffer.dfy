/** The response of an HTTP request as libcurl's callbacks collect it: a growing buffer
    for the body and the headers that are kept. */
module HttpBuffer {
  import opened Numbers
  import opened LuaHeap
  import opened HttpResponse
  import opened HttpMeaning

  const SIZE_MAX: nat := 0xFFFF_FFFF_FFFF_FFFF
  const INITIAL_CAPACITY: nat := 4096

  lemma ProductOverflows(a: nat, b: nat)
    requires a != 0 && b > SIZE_MAX / a
    ensures a * b > SIZE_MAX
  {
    assert b >= SIZE_MAX / a + 1;
    assert a * b >= a * (SIZE_MAX / a + 1);
  }

  lemma ProductFits(a: nat, b: nat)
    requires a == 0 || b <= SIZE_MAX / a
    ensures a * b <= SIZE_MAX
  {
    if a != 0 {
      assert a * b <= a * (SIZE_MAX / a);
    }
  }

  class ResponseBuffer {
    var data: array<char>
    var size: nat
    const maximum: nat
    var exceeded: bool

    constructor (maximum: nat)
      requires maximum <= SIZE_MAX
      ensures Valid() && Contents() == "" && this.maximum == maximum && !exceeded && fresh(data)
    {
      data, size, exceeded := new char[0], 0, false;
      this.maximum := maximum;
    }

    /** The size stays within the capacity and the maximum, and the capacity bounded. */
    ghost predicate Valid()
      reads this
    {
      && size <= data.Length <= Max(INITIAL_CAPACITY, maximum)
      && size <= maximum <= SIZE_MAX
    }

    ghost function Contents(): string
      reads this, data
      requires Valid()
    {
      data[..size]
    }

    /** `reserve_buffer`: double the capacity until it is enough, up to the maximum. */
    method Reserve(required: nat) returns (ok: bool)
      requires Valid()
      modifies `data
      ensures Valid() && Contents() == old(Contents())
      ensures data == old(data) || fresh(data)
      ensures required <= maximum ==> ok
      ensures ok ==> required <= data.Length
      ensures !ok ==> data == old(data)
      ensures old(data.Length) <= data.Length <= Max(4096, maximum)
    {
      if required <= data.Length {
        return true;
      }
      var capacity := if data.Length == 0 then INITIAL_CAPACITY else data.Length;
      while capacity < required
        invariant data.Length <= capacity <= Max(INITIAL_CAPACITY, maximum) && capacity > 0
        decreases required - capacity
      {
        if capacity > maximum / 2 {
          capacity := maximum;
          break;
        }
        capacity := capacity * 2;
      }
      if capacity < required {
        return false;
      }
      var copy := new char[capacity](_ => '\0');
      var i := 0;
      while i < size
        invariant 0 <= i <= size && Valid() && data == old(data) && copy[..i] == data[..i]
      {
        copy[i] := data[i];
        i := i + 1;
      }
      data := copy;
      ok := true;
    }

    method Append(bytes: string)
      requires Valid() && size + |bytes| <= data.Length && size + |bytes| <= maximum
      modifies `size, data
      ensures Valid() && Contents() == old(Contents()) + bytes
    {
      ghost var before := Contents();
      var i := 0;
      while i < |bytes|
        invariant 0 <= i <= |bytes| && size == old(size) && data == old(data)
        invariant data[..size + i] == before + bytes[..i]
      {
        data[size + i] := bytes[i];
        i := i + 1;
      }
      size := size + |bytes|;
    }

    /** `write_response`: all of the chunk or nothing; the whole would not fit iff it is refused. */
    method Write(bytes: string, itemSize: nat, count: nat) returns (written: nat)
      requires Valid() && (itemSize * count <= SIZE_MAX ==> |bytes| == itemSize * count)
      modifies this, data
      ensures Valid() && (data == old(data) || fresh(data))
      ensures
        if |old(Contents())| + itemSize * count > maximum then
          written == 0 && exceeded && Contents() == old(Contents())
        else written == |bytes| && exceeded == old(exceeded) && Contents() == old(Contents()) + bytes
    {
      if itemSize != 0 && count > SIZE_MAX / itemSize {
        ProductOverflows(itemSize, count);
        exceeded := true;
        return 0;
      }
      ProductFits(itemSize, count);
      if |bytes| > maximum - size {
        exceeded := true;
        return 0;
      }
      var _ := Reserve(size + |bytes|);
      Append(bytes);
      written := |bytes|;
    }

    method Clear()
      requires Valid()
      modifies `size, `exceeded
      ensures Valid() && Contents() == "" && !exceeded
    {
      size, exceeded := 0, false;
    }
  }

  class ResponseHeaders {
    const body: ResponseBuffer
    var values: map<Name, string>
    var exceeded: bool

    constructor (body: ResponseBuffer)
      ensures this.body == body && values == map[] && !exceeded
    {
      this.body := body;
      values, exceeded := map[], false;
    }

    /** `header_name_equal` */
    method HeaderNameEqual(line: string, nameLength: nat, expected: string) returns (same: bool)
      requires nameLength <= |line|
      ensures same <==> SameName(line[..nameLength], expected)
      ensures same <==> SameLetters(line[..nameLength], expected)
    {
      SameNameMeaning(line[..nameLength], expected);
      if nameLength != |expected| {
        assert |LowerCase(line[..nameLength])| != |LowerCase(expected)|;
        return false;
      }
      var i := 0;
      while i < nameLength
        invariant 0 <= i <= nameLength
        invariant forall k :: 0 <= k < i ==> ToLower(line[k]) == ToLower(expected[k])
      {
        if ToLower(line[i]) != ToLower(expected[i]) {
          assert LowerCase(line[..nameLength])[i] != LowerCase(expected)[i];
          return false;
        }
        i := i + 1;
      }
      same := true;
    }

    method FindName(line: string, nameLength: nat) returns (name: Option<Name>)
      requires nameLength <= |line|
      ensures name == NameOf(line[..nameLength])
    {
      var same: bool;
      same := HeaderNameEqual(line, nameLength, Spelling(Etag));
      if same {
        return Some(Etag);
      }
      same := HeaderNameEqual(line, nameLength, Spelling(LastModified));
      if same {
        return Some(LastModified);
      }
      same := HeaderNameEqual(line, nameLength, Spelling(RetryAfter));
      if same {
        return Some(RetryAfter);
      }
      same := HeaderNameEqual(line, nameLength, Spelling(PollInterval));
      if same {
        return Some(PollInterval);
      }
      same := HeaderNameEqual(line, nameLength, Spelling(RateLimitRemaining));
      if same {
        return Some(RateLimitRemaining);
      }
      same := HeaderNameEqual(line, nameLength, Spelling(RateLimitReset));
      if same {
        return Some(RateLimitReset);
      }
      name := None;
    }

    /** The value that `replace_header` stores. */
    method Trimmed(value: string) returns (r: string)
      ensures r == Trim(value)
    {
      var length := |value|;
      assert value[..length] == value;
      while length > 0 && IsSpace(value[length - 1])
        invariant 0 <= length <= |value| && TrimRight(value[..length]) == TrimRight(value)
      {
        assert value[..length][..length - 1] == value[..length - 1];
        length := length - 1;
      }
      var start := 0;
      var kept := value[..length];
      while start < length && IsSpace(value[start])
        invariant 0 <= start <= length && TrimLeft(kept[start..]) == TrimLeft(kept)
      {
        assert kept[start..][1..] == kept[start + 1..];
        start := start + 1;
      }
      r := kept[start..];
    }

    method FindColon(line: string) returns (position: Option<nat>)
      ensures
        match BeforeColon(line)
        case None => position == None
        case Some(name) => position == Some(|name|) && |name| < |line| && line[..|name|] == name
    {
      var i := 0;
      while i < |line| && line[i] != ':'
        invariant 0 <= i <= |line| && forall k :: 0 <= k < i ==> line[k] != ':'
      {
        i := i + 1;
      }
      if i < |line| {
        BeforeFirstColon(line, i);
        return Some(i);
      }
      position := None;
    }

    /** `read_response_header` */
    method Read(line: string, itemSize: nat, count: nat) returns (read: nat)
      requires body.Valid() && (itemSize * count <= SIZE_MAX ==> |line| == itemSize * count)
      modifies this, body
      ensures body.Valid() && body.data == old(body.data)
      ensures itemSize * count > SIZE_MAX ==>
        read == 0 && values == old(values) && exceeded == old(exceeded)
        && body.Contents() == old(body.Contents()) && body.exceeded == old(body.exceeded)
      ensures itemSize * count <= SIZE_MAX ==>
        && read == (if Fits(ItemOf(Header(line))) then |line| else 0)
        && values == Collect(old(values), ItemOf(Header(line)))
        && exceeded == (ItemOf(Header(line)) != Status && (old(exceeded) || !Fits(ItemOf(Header(line)))))
        && body.Contents() == (if ItemOf(Header(line)) == Status then "" else old(body.Contents()))
        && body.exceeded == (ItemOf(Header(line)) != Status && old(body.exceeded))
      // In terms of the line itself:
      ensures itemSize * count <= SIZE_MAX && StartsResponse(line) ==>
        read == |line| && values == map[] && body.Contents() == "" && !body.exceeded && !exceeded
      ensures itemSize * count <= SIZE_MAX ==> forall n, v :: Carries(Header(line), Spelling(n), v) ==>
        if |v| <= 8192 then read == |line| && values == old(values)[n := Trim(v)] else read == 0 && values == old(values) && exceeded
    {
      if itemSize != 0 && count > SIZE_MAX / itemSize {
        ProductOverflows(itemSize, count);
        return 0;
      }
      ProductFits(itemSize, count);
      LineMeaning(line);
      read := ReadLine(line);
    }

    method ReadLine(line: string) returns (read: nat)
      requires body.Valid()
      modifies this, body
      ensures body.Valid() && body.data == old(body.data)
      ensures
        var item := ItemOf(Header(line));
        && read == (if Fits(item) then |line| else 0)
        && values == Collect(old(values), item)
        && exceeded == (item != Status && (old(exceeded) || !Fits(item)))
        && body.Contents() == (if item == Status then "" else old(body.Contents()))
        && body.exceeded == (item != Status && old(body.exceeded))
    {
      if IsStatusLine(line) {
        values, exceeded := map[], false;
        body.Clear();
        return |line|;
      }
      var separator := FindColon(line);
      if separator.None? {
        return |line|;
      }
      var name := FindName(line, separator.value);
      if name.Some? {
        var value := line[separator.value + 1..];
        if |value| > MAX_HEADER_VALUE_SIZE {
          exceeded := true;
          return 0;
        }
        var trimmed := Trimmed(value);
        values := values[name.value := trimmed];
      }
      read := |line|;
    }
  }

  /** The kept headers after an item, unless it is refused. */
  function Collect(values: map<Name, string>, item: Item): map<Name, string> {
    if item == Status then map[]
    else if item.Kept? && Fits(item) then values[item.name := Trim(item.value)]
    else values
  }

  lemma {:induction false} BeforeFirstColon(line: string, i: nat)
    requires i < |line| && line[i] == ':' && forall k :: 0 <= k < i ==> line[k] != ':'
    ensures BeforeColon(line) == Some(line[..i])
  {
    if i == 0 {
    } else {
      BeforeFirstColon(line[1..], i - 1);
      assert line[..i] == [line[0]] + line[1..][..i - 1];
    }
  }

  datatype Answer = Answer(body: string, headers: map<Name, string>)

  datatype Failure = BodyTooLarge | HeaderTooLarge

  /** Item `n` is the first one refused. */
  ghost predicate FirstRefused(items: seq<Item>, maximum: nat, n: nat) {
    n < |items| && WithinLimits(items[..n], maximum) && !WithinLimits(items[..n + 1], maximum)
  }

  /** The failure tells what the first refused item is. */
  ghost predicate FailsWith(items: seq<Item>, maximum: nat, error: Failure) {
    exists n: nat :: FirstRefused(items, maximum, n) && error == if items[n].Bytes? then BodyTooLarge else HeaderTooLarge
  }

  /** One request: the answer is the final response, if nothing exceeds its limit. */
  method Perform(callbacks: seq<Callback>, maximum: nat) returns (r: Result<Answer, Failure>)
    requires maximum <= SIZE_MAX
    requires forall i :: 0 <= i < |callbacks| && callbacks[i].Header? ==> |callbacks[i].line| <= SIZE_MAX
    ensures r.Ok? <==> StaysWithin(callbacks, maximum)
    ensures r.Ok? ==> IsAnswer(callbacks, r.value.body, r.value.headers)
    ensures r.Err? ==> FailsWith(Items(callbacks), maximum, r.error)
  {
    LimitsMeaning(callbacks, maximum);
    r := RunCallbacks(callbacks, maximum);
    if r.Ok? {
      CollectedIsAnswer(callbacks, r.value.headers);
    }
  }

  /** libcurl makes the callbacks in turn, until one does not take all it is given. */
  method RunCallbacks(callbacks: seq<Callback>, maximum: nat) returns (r: Result<Answer, Failure>)
    requires maximum <= SIZE_MAX
    requires forall i :: 0 <= i < |callbacks| && callbacks[i].Header? ==> |callbacks[i].line| <= SIZE_MAX
    ensures r.Ok? <==> WithinLimits(Items(callbacks), maximum)
    ensures r.Ok? ==> r.value.body == Body(Items(callbacks)) && LastValues(Items(callbacks), r.value.headers)
    ensures r.Err? ==> FailsWith(Items(callbacks), maximum, r.error)
  {
    var buffer := new ResponseBuffer(maximum);
    var headers := new ResponseHeaders(buffer);
    ghost var items := Items(callbacks);
    var i := 0;
    assert items[..0] == [];
    while i < |callbacks|
      invariant 0 <= i <= |callbacks| && headers.body == buffer && buffer.maximum == maximum
      invariant fresh(buffer) && fresh(headers) && fresh(buffer.data)
      invariant buffer.Valid() && !buffer.exceeded && !headers.exceeded
      invariant Collected(items[..i], maximum, buffer.Contents(), headers.values)
    {
      var accepted := TakeCallback(callbacks[i], buffer, headers, items, i);
      if !accepted {
        RefusedIsFinal(items, maximum, i);
        return Err(if buffer.exceeded then BodyTooLarge else HeaderTooLarge);
      }
      i := i + 1;
    }
    assert items[..i] == items;
    r := Ok(Answer(buffer.data[..buffer.size], headers.values));
  }

  /** One callback, item `i` of the whole: taken, or the first one refused. */
  method TakeCallback(c: Callback, buffer: ResponseBuffer, headers: ResponseHeaders, ghost items: seq<Item>, ghost i: nat)
    returns (accepted: bool)
    requires buffer.Valid() && headers.body == buffer && !buffer.exceeded && !headers.exceeded
    requires (c.Header? ==> |c.line| <= SIZE_MAX) && i < |items| && items[i] == ItemOf(c)
    requires Collected(items[..i], buffer.maximum, buffer.Contents(), headers.values)
    modifies buffer, buffer.data, headers
    ensures buffer.Valid() && (buffer.data == old(buffer.data) || fresh(buffer.data))
    ensures accepted ==>
      && !buffer.exceeded && !headers.exceeded
      && Collected(items[..i + 1], buffer.maximum, buffer.Contents(), headers.values)
    ensures !accepted ==> FirstRefused(items, buffer.maximum, i) && buffer.exceeded == items[i].Bytes?
  {
    CollectStep(items[..i], items[i], buffer.maximum, buffer.Contents(), headers.values);
    NextPrefix(items, i);
    var taken, given := Feed(c, buffer, headers);
    accepted := taken == given;
  }

  /** One callback. */
  method Feed(c: Callback, buffer: ResponseBuffer, headers: ResponseHeaders) returns (taken: nat, given: nat)
    requires buffer.Valid() && headers.body == buffer && !buffer.exceeded && !headers.exceeded
    requires c.Header? ==> |c.line| <= SIZE_MAX
    modifies buffer, buffer.data, headers
    ensures buffer.Valid() && (buffer.data == old(buffer.data) || fresh(buffer.data))
    ensures
      var item := ItemOf(c);
      if item.Bytes? && |old(buffer.Contents()) + item.data| > buffer.maximum then
        taken != given && buffer.exceeded
      else if !Fits(item) then taken != given && !buffer.exceeded
      else
        && taken == given && !buffer.exceeded && !headers.exceeded
        && buffer.Contents() == NextBody(old(buffer.Contents()), item)
        && headers.values == NextHeaders(old(headers.values), item)
  {
    match c
    case Header(line) =>
      taken := headers.Read(line, 1, |line|);
      given := |line|;
    case Chunk(data) =>
      taken := buffer.Write(data, 1, |data|);
      given := |data|;
  }

  function NextBody(body: string, item: Item): string {
    if item == Status then "" else body + (if item.Bytes? then item.data else "")
  }

  function NextHeaders(headers: map<Name, string>, item: Item): map<Name, string> {
    if item == Status then map[] else if item.Kept? then headers[item.name := Trim(item.value)] else headers
  }

  ghost predicate Collected(items: seq<Item>, maximum: nat, body: string, headers: map<Name, string>) {
    true == (WithinLimits(items, maximum) && body == Body(items) && LastValues(items, headers))
  }

  lemma CollectStep(items: seq<Item>, item: Item, maximum: nat, body: string, headers: map<Name, string>)
    requires Collected(items, maximum, body, headers) && |body| <= maximum
    ensures
      if |NextBody(body, item)| <= maximum && Fits(item) then
        Collected(items + [item], maximum, NextBody(body, item), NextHeaders(headers, item))
      else !WithinLimits(items + [item], maximum)
  {
    NextItem(items, item);
    LimitsStep(items, item, maximum);
    LastValuesStep(items, item, headers);
  }

  lemma NextPrefix(items: seq<Item>, i: nat)
    requires i < |items|
    ensures items[..i] + [items[i]] == items[..i + 1]
  {
  }

  lemma RefusedIsFinal(items: seq<Item>, maximum: nat, n: nat)
    requires FirstRefused(items, maximum, n)
    ensures !WithinLimits(items, maximum)
    ensures FailsWith(items, maximum, if items[n].Bytes? then BodyTooLarge else HeaderTooLarge)
  {
    LimitsOfPrefix(items, maximum, n + 1);
  }
}
