/** The GitHub source: a cached resource refreshed with an entity tag and backoff. */
module GithubSource {
  import opened Numbers
  import opened LuaHeap
  import opened Decimal
  import opened RemoteDelay

  const MAX_TEXT_BYTES: nat := 1024

  type Notification = string

  datatype SourceConfig = SourceConfig(
    url: string, tokenEnv: string, maxItems: nat, intervalMs: int, retryMinMs: int, retryMaxMs: int)

  /** What loading a configuration guarantees of this section. */
  predicate ValidSource(c: SourceConfig) {
    1 <= c.maxItems && 1 <= c.intervalMs <= MAX_METADATA_DELAY_MS
    && 1 <= c.retryMinMs <= c.retryMaxMs <= MAX_METADATA_DELAY_MS
  }

  /** A response body after JSON decoding; each item with its projection, or why it has none. */
  datatype Body = Malformed(message: string) | NotAnArray | Items(items: seq<Result<Notification, string>>)

  datatype Call =
    | Raised(message: string)
    | NoResponse(message: string)
    | Response(status: int, headers: Headers, body: Body)

  /** The `github` domain of the state. */
  datatype Domain = Domain(
    available: bool, error: string, failures: nat, lastAttemptAt: int, lastSuccessAt: int,
    notifications: seq<Notification>, refreshInMs: int, stale: bool)

  const INITIAL := Domain(false, "", 0, 0, 0, [], 0, false)

  datatype Patch =
    | FailurePatch(error: string, failures: nat, lastAttemptAt: int, refreshInMs: int, stale: bool)
    | SuccessPatch(notifications: Option<seq<Notification>>, at: int, refreshInMs: int)

  function Truncated(message: string): (r: string)
    ensures r <= message && |r| == Min(|message|, 1024)
  {
    if |message| > MAX_TEXT_BYTES then message[..MAX_TEXT_BYTES] else message
  }

  /** Merging a patch into the domain. */
  function Applied(d: Domain, p: Patch): Domain {
    match p
    case FailurePatch(error, failures, at, refreshInMs, stale) =>
      d.(error := error, failures := failures, lastAttemptAt := at, refreshInMs := refreshInMs, stale := stale)
    case SuccessPatch(notifications, at, refreshInMs) =>
      Domain(true, "", 0, at, at, if notifications.Some? then notifications.value else d.notifications, refreshInMs, false)
  }

  // ---- parse_github -------------------------------------------------------------

  /** The first items of an array body, all of which must have a projection. */
  ghost predicate IsProjection(body: Body, maximum: nat, notifications: seq<Notification>) {
    && body.Items? && |notifications| == Min(|body.items|, maximum)
    && forall i :: 0 <= i < |notifications| ==> body.items[i] == Ok(notifications[i])
  }

  ghost predicate HasProjection(body: Body, maximum: nat) {
    body.Items? && forall i :: 0 <= i < |body.items| && i < maximum ==> body.items[i].Ok?
  }

  method ParseGithub(body: Body, maximum: nat) returns (r: Result<seq<Notification>, string>)
    ensures r.Ok? ==> IsProjection(body, maximum, r.value)
    ensures r.Ok? <==> HasProjection(body, maximum)
  {
    match body
    case Malformed(message) => r := Err(message);
    case NotAnArray => r := Err("GitHub response must be a JSON array");
    case Items(items) =>
      var notifications := [];
      var index := 0;
      while index < Min(|items|, maximum)
        invariant 0 <= index <= Min(|items|, maximum) && |notifications| == index
        invariant forall i :: 0 <= i < index ==> items[i] == Ok(notifications[i])
      {
        match items[index] {
          case Err(message) => return Err(message);
          case Ok(notification) => notifications := notifications + [notification];
        }
        index := index + 1;
      }
      r := Ok(notifications);
  }

  lemma ProjectionIsUnique(body: Body, maximum: nat, a: seq<Notification>, b: seq<Notification>)
    requires IsProjection(body, maximum, a) && IsProjection(body, maximum, b)
    ensures a == b
  {
    forall i | 0 <= i < |a| ensures a[i] == b[i] {
      assert body.items[i] == Ok(a[i]) && body.items[i] == Ok(b[i]);
    }
  }

  // ---- the service ------------------------------------------------------------------

  /** What an attempt to refresh came to. */
  datatype Attempt =
    | Failed(headers: Headers)
    | Revalidated(headers: Headers)
    | Fetched(notifications: seq<Notification>, headers: Headers)

  predicate Succeeded(a: Attempt) { !a.Failed? }

  /** The attempt that a call amounts to. */
  ghost predicate AmountsTo(config: SourceConfig, lastSuccessAt: int, token: string, call: Call, a: Attempt) {
    if token == "" || !call.Response? then a == Failed(NO_HEADERS)
    else if call.status == 304 then
      a == if lastSuccessAt == 0 then Failed(call.headers) else Revalidated(call.headers)
    else if call.status < 200 || call.status >= 300 || !HasProjection(call.body, config.maxItems) then
      a == Failed(call.headers)
    else a.Fetched? && a.headers == call.headers && IsProjection(call.body, config.maxItems, a.notifications)
  }

  datatype State = State(
    config: SourceConfig, deadline: int, etag: Option<string>, failures: nat, lastSuccessAt: int,
    stopping: bool, domain: Domain)

  /** One attempt: what becomes of the state, up to the text of the error. */
  ghost predicate Refreshed(s: State, a: Attempt, now: int, centiseconds: int, s': State)
    requires ValidSource(s.config)
  {
    && s'.config == s.config && s'.stopping == s.stopping
    && (if a.Failed? then
          var delay := FailureWait(a.headers, s.failures + 1, s.config.retryMinMs, s.config.retryMaxMs, now);
          && delay >= 0
          && s'.deadline == Deadline(delay, centiseconds) && s'.etag == s.etag
          && s'.failures == s.failures + 1 && s'.lastSuccessAt == s.lastSuccessAt
          && |s'.domain.error| <= MAX_TEXT_BYTES
          && s'.domain == s.domain.(error := s'.domain.error, failures := s'.failures, lastAttemptAt := now,
                                    refreshInMs := delay, stale := s.lastSuccessAt > 0)
        else
          var delay := SuccessWait(a.headers, s.config.intervalMs);
          && delay >= 0
          && s'.deadline == Deadline(delay, centiseconds)
          && s'.etag == (if a.Fetched? then a.headers.etag else s.etag)
          && s'.failures == 0 && s'.lastSuccessAt == now
          && s'.domain == Domain(true, "", 0, now, now,
                                 if a.Fetched? then a.notifications else s.domain.notifications, delay, false))
  }

  class GithubService {
    var config: SourceConfig
    var deadline: int
    var etag: Option<string>
    var failures: nat
    var lastSuccessAt: int
    var stopping: bool
    var published: Domain    // the state's domain once the patches sent so far are merged

    constructor (config: SourceConfig)
      requires ValidSource(config)
      ensures Valid() && Abstract() == State(config, 0, None, 0, 0, false, INITIAL)
    {
      this.config, deadline, etag, failures, lastSuccessAt := config, 0, None, 0, 0;
      stopping, published := false, INITIAL;
    }

    ghost predicate Valid()
      reads this
    {
      ValidSource(config)
    }

    ghost function Abstract(): State
      reads this
    {
      State(config, deadline, etag, failures, lastSuccessAt, stopping, published)
    }

    method Publish(patch: Patch)
      modifies `published
      ensures published == Applied(old(published), patch)
    {
      published := Applied(published, patch);
    }

    method Fail(message: string, headers: Headers, now: int, centiseconds: int)
      requires Valid()
      modifies this
      ensures Valid() && Refreshed(old(Abstract()), Failed(headers), now, centiseconds, Abstract())
      ensures published.error == Truncated(message)
    {
      failures := failures + 1;
      var delay := FailureDelay(headers, failures, config.retryMinMs, config.retryMaxMs, now);
      FailureWaitBounds(headers, failures, config.retryMinMs, config.retryMaxMs, now);
      deadline := Deadline(delay, centiseconds);
      Publish(FailurePatch(Truncated(message), failures, now, delay, lastSuccessAt > 0));
    }

    /** The request headers; none when the token is missing. */
    method RequestHeaders(token: string) returns (headers: Option<seq<string>>)
      ensures headers.None? <==> token == ""
      ensures headers.Some? ==>
        headers.value ==
          ["Accept: application/vnd.github+json", "Authorization: Bearer " + token, "X-GitHub-Api-Version: 2022-11-28"]
          + (if etag.Some? then ["If-None-Match: " + etag.value] else [])
      ensures headers.Some? ==>
        forall e: string :: "If-None-Match: " + e in headers.value <==> etag == Some(e)
    {
      if token == "" {
        return None;
      }
      var lines := [
        "Accept: application/vnd.github+json",
        "Authorization: Bearer " + token,
        "X-GitHub-Api-Version: 2022-11-28"];
      NotConditional(lines[0], lines[1], lines[2]);
      if etag.Some? {
        lines := lines + ["If-None-Match: " + etag.value];
        SameHeaderSameTag(etag.value);
      }
      headers := Some(lines);
    }

    method Refresh(token: string, call: Call, now: int, centiseconds: int) returns (ghost a: Attempt)
      requires Valid()
      modifies this
      ensures Valid() && AmountsTo(old(config), old(lastSuccessAt), token, call, a)
      ensures Refreshed(old(Abstract()), a, now, centiseconds, Abstract())
    {
      var headers := RequestHeaders(token);
      if headers.None? {
        Fail("environment variable " + config.tokenEnv + " is not set", NO_HEADERS, now, centiseconds);
        return Failed(NO_HEADERS);
      }
      if !call.Response? {
        Fail(call.message, NO_HEADERS, now, centiseconds);
        return Failed(NO_HEADERS);
      }
      a := Answer(call.status, call.headers, call.body, now, centiseconds);
    }

    method Answer(status: int, headers: Headers, body: Body, now: int, centiseconds: int) returns (ghost a: Attempt)
      requires Valid()
      modifies this
      ensures Valid() && AmountsTo(old(config), old(lastSuccessAt), "token", Response(status, headers, body), a)
      ensures Refreshed(old(Abstract()), a, now, centiseconds, Abstract())
    {
      var delay := SuccessDelay(headers, config.intervalMs);
      SuccessWaitBounds(headers, config.intervalMs);
      if status == 304 {
        if lastSuccessAt == 0 {
          Fail("GitHub returned 304 before an initial snapshot", headers, now, centiseconds);
          return Failed(headers);
        }
        lastSuccessAt, failures := now, 0;
        deadline := Deadline(delay, centiseconds);
        Publish(SuccessPatch(None, now, delay));
        return Revalidated(headers);
      }
      if status < 200 || status >= 300 {
        Fail("GitHub HTTP status " + PrintInt(status), headers, now, centiseconds);
        return Failed(headers);
      }
      var parsed := ParseGithub(body, config.maxItems);
      if parsed.Err? {
        Fail(parsed.error, headers, now, centiseconds);
        return Failed(headers);
      }
      etag, lastSuccessAt, failures := headers.etag, now, 0;
      deadline := Deadline(delay, centiseconds);
      Publish(SuccessPatch(Some(parsed.value), now, delay));
      a := Fetched(parsed.value, headers);
    }

    /** The idle handler: refresh when the deadline has come, otherwise wait for it or
        for a message. */
    method Idle(token: string, call: Call, waitFailed: bool, now: int, centiseconds: int) returns (ghost a: Option<Attempt>)
      requires Valid()
      modifies this
      ensures Valid() && Idled(old(Abstract()), token, call, waitFailed, now, centiseconds, a, Abstract())
    {
      if stopping {
        return None;
      }
      if centiseconds < deadline {
        if waitFailed {
          deadline := centiseconds;
        }
        return None;
      }
      ghost var attempt := Refresh(token, call, now, centiseconds);
      a := Some(attempt);
    }

    method Reload(c: SourceConfig, centiseconds: int)
      requires Valid() && ValidSource(c)
      modifies this
      ensures Valid() && Abstract() == Reloaded(old(Abstract()), c, centiseconds)
    {
      var oldUrl, oldTokenEnv := config.url, config.tokenEnv;
      config := c;
      if config.url != oldUrl || config.tokenEnv != oldTokenEnv {
        etag := None;
      }
      deadline := centiseconds;
    }

    method Quit()
      modifies `stopping
      ensures stopping
    {
      stopping := true;
    }

    method Status(centiseconds: int) returns (r: (nat, nat))
      ensures r.0 == failures
      ensures r.1 == 0 <==> centiseconds >= deadline
      ensures r.1 > 0 ==> centiseconds * 10 + r.1 == deadline * 10
    {
      var remaining: nat := Max(0, (deadline - centiseconds) * 10);
      r := (failures, remaining);
    }
  }

  predicate SameOrigin(c: SourceConfig, d: SourceConfig) {
    c.url == d.url && c.tokenEnv == d.tokenEnv
  }

  ghost function Reloaded(s: State, c: SourceConfig, centiseconds: int): State {
    s.(config := c, deadline := centiseconds, etag := if SameOrigin(s.config, c) then s.etag else None)
  }

  ghost predicate Idled(
    s: State, token: string, call: Call, waitFailed: bool, now: int, centiseconds: int, a: Option<Attempt>, s': State)
    requires ValidSource(s.config)
  {
    if s.stopping || centiseconds < s.deadline then
      && a == None
      && s' == if !s.stopping && waitFailed then s.(deadline := centiseconds) else s
    else
      && a.Some? && AmountsTo(s.config, s.lastSuccessAt, token, call, a.value)
      && Refreshed(s, a.value, now, centiseconds, s')
  }

  lemma NotConditional(accept: string, authorization: string, version: string)
    requires |accept| > 0 && |authorization| > 0 && |version| > 0
    requires accept[0] == 'A' && authorization[0] == 'A' && version[0] == 'X'
    ensures forall e: string :: "If-None-Match: " + e !in [accept, authorization, version]
  {
    forall e: string ensures "If-None-Match: " + e !in [accept, authorization, version] {
      assert ("If-None-Match: " + e)[0] == 'I';
    }
  }

  lemma SameHeaderSameTag(tag: string)
    ensures forall e: string :: "If-None-Match: " + e == "If-None-Match: " + tag ==> e == tag
  {
    forall e: string | "If-None-Match: " + e == "If-None-Match: " + tag ensures e == tag {
      assert ("If-None-Match: " + e)[|"If-None-Match: "|..] == e;
      assert ("If-None-Match: " + tag)[|"If-None-Match: "|..] == tag;
    }
  }
}
