/** Every run of the GitHub source: what its state says about the responses so far. */
module GithubRuns {
  import opened LuaHeap
  import opened Numbers
  import opened RemoteDelay
  import opened GithubSource

  /** `attempt` records what an idle step came to; time is the wall clock, after 1970. */
  datatype Event =
    | Idle(token: string, call: Call, waitFailed: bool, now: int, centiseconds: int, attempt: Option<Attempt>)
    | Reload(config: SourceConfig, centiseconds: int)
    | Quit

  ghost predicate Step(s: State, e: Event, s': State) {
    && ValidSource(s.config)
    && match e
       case Idle(token, call, waitFailed, now, centiseconds, attempt) =>
         now > 0 && Idled(s, token, call, waitFailed, now, centiseconds, attempt, s')
       case Reload(config, centiseconds) => ValidSource(config) && s' == Reloaded(s, config, centiseconds)
       case Quit => s' == s.(stopping := true)
  }

  ghost predicate Started(s: State) {
    ValidSource(s.config) && s == State(s.config, 0, None, 0, 0, false, INITIAL)
  }

  ghost predicate IsRun(run: seq<State>, events: seq<Event>) {
    && |run| == |events| + 1 && Started(run[0])
    && forall i :: 0 <= i < |events| ==> Step(run[i], events[i], run[i + 1])
  }

  /** The attempts among the first events, oldest first. */
  function Attempts(events: seq<Event>): seq<Attempt> {
    if events == [] then []
    else
      var last := events[|events| - 1];
      Attempts(events[..|events| - 1]) + (if last.Idle? && last.attempt.Some? then [last.attempt.value] else [])
  }

  /** The last `failures` attempts failed and the one before them, if any, did not. */
  ghost predicate CountsFailures(attempts: seq<Attempt>, failures: nat) {
    && failures <= |attempts|
    && (forall i :: |attempts| - failures <= i < |attempts| ==> attempts[i].Failed?)
    && (failures < |attempts| ==> Succeeded(attempts[|attempts| - failures - 1]))
  }

  ghost predicate AnySuccess(attempts: seq<Attempt>) {
    exists i :: 0 <= i < |attempts| && Succeeded(attempts[i])
  }

  /** `i` is the last attempt that brought notifications. */
  ghost predicate LastFetch(attempts: seq<Attempt>, i: nat) {
    && i < |attempts| && attempts[i].Fetched?
    && forall k :: i < k < |attempts| ==> !attempts[k].Fetched?
  }

  ghost predicate NeverFetched(attempts: seq<Attempt>) {
    forall i :: 0 <= i < |attempts| ==> !attempts[i].Fetched?
  }

  /** The notifications of the last fetch, or none. */
  ghost predicate ShowsLastFetch(attempts: seq<Attempt>, notifications: seq<Notification>) {
    && (forall i: nat :: LastFetch(attempts, i) ==> notifications == attempts[i].notifications)
    && (NeverFetched(attempts) ==> notifications == [])
  }

  /** What the published domain says, read off the attempts alone. */
  ghost predicate Coherent(attempts: seq<Attempt>, s: State) {
    true == (
      && CountsFailures(attempts, s.failures) && s.domain.failures == s.failures
      && (s.domain.available <==> AnySuccess(attempts))
      && (s.lastSuccessAt > 0 <==> AnySuccess(attempts))
      && s.domain.lastSuccessAt == s.lastSuccessAt >= 0
      && (s.domain.stale <==> s.failures > 0 && AnySuccess(attempts))
      && ShowsLastFetch(attempts, s.domain.notifications))
  }

  lemma FailureIsCounted(attempts: seq<Attempt>, failures: nat, a: Attempt)
    requires CountsFailures(attempts, failures)
    ensures CountsFailures(attempts + [a], if a.Failed? then failures + 1 else 0)
  {
  }

  lemma SuccessIsSeen(attempts: seq<Attempt>, a: Attempt)
    ensures AnySuccess(attempts + [a]) <==> AnySuccess(attempts) || Succeeded(a)
  {
    var after := attempts + [a];
    assert after[|attempts|] == a;
    if AnySuccess(attempts) {
      var i :| 0 <= i < |attempts| && Succeeded(attempts[i]);
      assert Succeeded(after[i]);
    }
  }

  lemma FetchIsShown(attempts: seq<Attempt>, notifications: seq<Notification>, a: Attempt)
    requires ShowsLastFetch(attempts, notifications)
    ensures ShowsLastFetch(attempts + [a], if a.Fetched? then a.notifications else notifications)
  {
    var after := attempts + [a];
    assert after[|attempts|] == a;
    assert forall i :: 0 <= i < |attempts| ==> after[i] == attempts[i];
    if !a.Fetched? {
      forall i: nat | LastFetch(after, i) ensures notifications == after[i].notifications {
        assert LastFetch(attempts, i);
      }
      assert NeverFetched(after) ==> NeverFetched(attempts);
    }
  }

  lemma AttemptKeepsCoherence(attempts: seq<Attempt>, s: State, a: Attempt, now: int, centiseconds: int, s': State)
    requires Coherent(attempts, s) && ValidSource(s.config) && now > 0
    requires Refreshed(s, a, now, centiseconds, s')
    ensures Coherent(attempts + [a], s')
  {
    FailureIsCounted(attempts, s.failures, a);
    SuccessIsSeen(attempts, a);
    FetchIsShown(attempts, s.domain.notifications, a);
  }

  lemma StepKeepsCoherence(attempts: seq<Attempt>, s: State, e: Event, s': State)
    requires Coherent(attempts, s) && Step(s, e, s')
    ensures Coherent(attempts + (if e.Idle? && e.attempt.Some? then [e.attempt.value] else []), s')
  {
    if e.Idle? && e.attempt.Some? {
      AttemptKeepsCoherence(attempts, s, e.attempt.value, e.now, e.centiseconds, s');
    } else {
      assert s'.domain == s.domain;
      assert attempts + [] == attempts;
    }
  }

  /** At any moment of any run: `failures` counts the failed attempts since the last
      success; the source is available exactly when some attempt succeeded, and stale exactly
      when it failed since; the notifications are those of the last body fetched. */
  lemma {:induction false} CacheIsCoherent(run: seq<State>, events: seq<Event>, n: nat)
    requires IsRun(run, events) && n <= |events|
    ensures Coherent(Attempts(events[..n]), run[n])
  {
    if n == 0 {
    } else {
      var before, e := events[..n - 1], events[n - 1];
      CacheIsCoherent(run, events, n - 1);
      assert events[..n][..n - 1] == before && events[..n][n - 1] == e;
      assert Step(run[n - 1], e, run[n - 1 + 1]);
      StepKeepsCoherence(Attempts(before), run[n - 1], e, run[n]);
    }
  }

  /** What was fetched is the projection of the body at the limit in force then. */
  lemma FetchedAtTheLimitInForce(run: seq<State>, events: seq<Event>, i: nat)
    requires IsRun(run, events) && i < |events|
    requires events[i].Idle? && events[i].attempt.Some? && events[i].attempt.value.Fetched?
    ensures events[i].call.Response? && 200 <= events[i].call.status < 300
    ensures IsProjection(events[i].call.body, run[i].config.maxItems, events[i].attempt.value.notifications)
    ensures run[i + 1].etag == events[i].call.headers.etag
  {
    assert Step(run[i], events[i], run[i + 1]);
  }

  /** What each attempt came to, in terms of the answer and of what came before: 304 is a success
      only after a success, and only a 2xx body whose first items all project is a fetch. */
  lemma AttemptMeaning(run: seq<State>, events: seq<Event>, i: nat)
    requires IsRun(run, events) && i < |events| && events[i].Idle? && events[i].attempt.Some?
    ensures
      var e, a := events[i], events[i].attempt.value;
      var answered := e.token != "" && e.call.Response?;
      && (a.Revalidated? <==> answered && e.call.status == 304 && AnySuccess(Attempts(events[..i])))
      && (a.Fetched? <==> answered && 200 <= e.call.status < 300 && HasProjection(e.call.body, run[i].config.maxItems))
      && (answered ==> a.headers == e.call.headers)
  {
    assert Step(run[i], events[i], run[i + 1]);
    CacheIsCoherent(run, events, i);
  }

  /** The announced delay: the interval after a success that asks for none, the backoff for the
      failures so far after a failure without headers that ask for more. The next attempt is due then,
      to the centisecond above. */
  lemma DelayIsPublished(run: seq<State>, events: seq<Event>, i: nat)
    requires IsRun(run, events) && i < |events| && events[i].Idle? && events[i].attempt.Some?
    ensures
      var c, d, h := run[i].config, run[i + 1].domain, events[i].attempt.value.headers;
      && (d.failures == 0 && ReadSeconds(h.pollInterval).None? ==> d.refreshInMs == c.intervalMs)
      && (d.failures > 0 && ReadSeconds(h.retryAfter).None? && h.rateLimitRemaining != Some("0") ==>
            d.refreshInMs == Backoff(d.failures, c.retryMinMs, c.retryMaxMs))
      && d.refreshInMs <= (run[i + 1].deadline - events[i].centiseconds) * 10 < d.refreshInMs + 10
    ensures !(events[i].token != "" && events[i].call.Response?) ==> events[i].attempt.value.headers == NO_HEADERS
  {
    assert Step(run[i], events[i], run[i + 1]);
    DeadlineIsTight(run[i + 1].domain.refreshInMs, events[i].centiseconds);
  }

  /** A reload takes over its configuration and makes an attempt due at once. */
  lemma ReloadIsDue(run: seq<State>, events: seq<Event>, i: nat)
    requires IsRun(run, events) && i < |events| && events[i].Reload?
    ensures run[i + 1].config == events[i].config && run[i + 1].deadline == events[i].centiseconds
    ensures run[i + 1].domain == run[i].domain && run[i + 1].failures == run[i].failures
  {
    assert Step(run[i], events[i], run[i + 1]);
  }

  ghost predicate AttemptsAt(events: seq<Event>, i: nat) {
    i < |events| && events[i].Idle? && events[i].attempt.Some?
  }

  ghost predicate SucceedsAt(events: seq<Event>, i: nat) {
    AttemptsAt(events, i) && Succeeded(events[i].attempt.value)
  }

  /** The times published are those of the last attempt and of the last success. */
  lemma {:induction false} TimesArePublished(run: seq<State>, events: seq<Event>, i: nat, n: nat)
    requires IsRun(run, events) && i < n <= |events|
    ensures AttemptsAt(events, i) && (forall k :: i < k < n ==> !AttemptsAt(events, k)) ==>
      run[n].domain.lastAttemptAt == events[i].now
    ensures SucceedsAt(events, i) && (forall k :: i < k < n ==> !SucceedsAt(events, k)) ==>
      run[n].domain.lastSuccessAt == events[i].now
    decreases n
  {
    var m := n - 1;
    assert Step(run[m], events[m], run[m + 1]);
    if i < m {
      TimesArePublished(run, events, i, m);
      if forall k :: i < k < n ==> !AttemptsAt(events, k) {
        assert !AttemptsAt(events, m);
      }
      if forall k :: i < k < n ==> !SucceedsAt(events, k) {
        assert !SucceedsAt(events, m);
      }
    }
  }

  /** No error is shown unless the last attempt failed. */
  lemma {:induction false} NoErrorWithoutFailure(run: seq<State>, events: seq<Event>, n: nat)
    requires IsRun(run, events) && n < |run|
    ensures run[n].failures == 0 ==> run[n].domain.error == ""
    decreases n
  {
    if n == 0 {
    } else {
      NoErrorWithoutFailure(run, events, n - 1);
      assert Step(run[n - 1], events[n - 1], run[n - 1 + 1]);
    }
  }

  /** Once available, always available. */
  lemma {:induction false} AvailableNeverReverts(run: seq<State>, events: seq<Event>, i: nat, k: nat)
    requires IsRun(run, events) && i <= k < |run| && run[i].domain.available
    ensures run[k].domain.available
    decreases k
  {
    if i == k {
    } else {
      AvailableNeverReverts(run, events, i, k - 1);
      assert Step(run[k - 1], events[k - 1], run[k - 1 + 1]);
    }
  }

  // ---- the entity tag -------------------------------------------------------------------

  ghost predicate FetchesAt(events: seq<Event>, i: nat) {
    i < |events| && events[i].Idle? && events[i].attempt.Some? && events[i].attempt.value.Fetched?
  }

  /** Event `i` fetched a body, nothing has been fetched since, and every configuration
      since then names the same URL and token variable. */
  ghost predicate CurrentOrigin(run: seq<State>, events: seq<Event>, i: nat, n: nat)
    requires IsRun(run, events) && n <= |events|
  {
    true == (
      && i < n && FetchesAt(events, i)
      && (forall k :: i < k < n ==> !FetchesAt(events, k))
      && (forall k :: i < k <= n ==> SameOrigin(run[k].config, run[i].config)))
  }

  ghost predicate TagIsCurrent(run: seq<State>, events: seq<Event>, n: nat)
    requires IsRun(run, events) && n <= |events|
  {
    && (forall i: nat :: CurrentOrigin(run, events, i, n) ==> run[n].etag == events[i].attempt.value.headers.etag)
    && ((forall i: nat :: !CurrentOrigin(run, events, i, n)) ==> run[n].etag == None)
  }

  /** The entity tag held at any moment is exactly that of the last body fetched, provided
      the URL and the token variable never changed since; otherwise there is none. */
  lemma {:induction false} TagIsOfTheLastFetch(run: seq<State>, events: seq<Event>, n: nat)
    requires IsRun(run, events) && n <= |events|
    ensures TagIsCurrent(run, events, n)
  {
    if n == 0 {
    } else {
      TagIsOfTheLastFetch(run, events, n - 1);
      TagStep(run, events, n - 1);
    }
  }

  lemma OriginStep(run: seq<State>, events: seq<Event>, i: nat, n: nat)
    requires IsRun(run, events) && n < |events| && !FetchesAt(events, n)
    ensures CurrentOrigin(run, events, i, n + 1) <==>
      CurrentOrigin(run, events, i, n) && SameOrigin(run[n].config, run[n + 1].config)
  {
    if i < n {
      assert SameOrigin(run[n].config, run[i].config) && SameOrigin(run[n + 1].config, run[i].config)
        ==> SameOrigin(run[n].config, run[n + 1].config);
    }
  }

  lemma TagStep(run: seq<State>, events: seq<Event>, n: nat)
    requires IsRun(run, events) && n < |events| && TagIsCurrent(run, events, n)
    ensures TagIsCurrent(run, events, n + 1)
  {
    var e := events[n];
    assert Step(run[n], e, run[n + 1]);
    if FetchesAt(events, n) {
      var next := n + 1;
      forall i: nat ensures CurrentOrigin(run, events, i, next) <==> i == n {
      }
      assert CurrentOrigin(run, events, n, n + 1);
      assert forall i: nat :: CurrentOrigin(run, events, i, next) ==> i == n;
    } else {
      assert run[n + 1].etag == if SameOrigin(run[n].config, run[n + 1].config) then run[n].etag else None;
      forall i: nat ensures CurrentOrigin(run, events, i, n + 1) <==>
          CurrentOrigin(run, events, i, n) && SameOrigin(run[n].config, run[n + 1].config)
      {
        OriginStep(run, events, i, n);
      }
    }
  }

  // ---- the notifications shown ------------------------------------------------------------

  /** Event `i` is the last of the first `n` that fetched a body. */
  ghost predicate LastFetchEvent(events: seq<Event>, i: nat, n: nat) {
    i < n && FetchesAt(events, i) && forall k :: i < k < n ==> !FetchesAt(events, k)
  }

  lemma {:induction false} FetchedIsShown(run: seq<State>, events: seq<Event>, i: nat, n: nat)
    requires IsRun(run, events) && n <= |events| && LastFetchEvent(events, i, n)
    ensures run[n].domain.notifications == events[i].attempt.value.notifications
    decreases n
  {
    var m := n - 1;
    assert Step(run[m], events[m], run[m + 1]);
    if m > i {
      FetchedIsShown(run, events, i, m);
      assert !FetchesAt(events, m);
    }
  }

  /** At any moment of any run the notifications are the projection, and the only one, of the
      last 2xx body that parsed, at the limit in force when it came. */
  lemma NotificationsAreTheLastProjection(run: seq<State>, events: seq<Event>, i: nat, n: nat)
    requires IsRun(run, events) && n <= |events| && LastFetchEvent(events, i, n)
    ensures events[i].call.Response? && 200 <= events[i].call.status < 300
    ensures forall p :: IsProjection(events[i].call.body, run[i].config.maxItems, p) <==> p == run[n].domain.notifications
  {
    FetchedIsShown(run, events, i, n);
    FetchedAtTheLimitInForce(run, events, i);
    var body, maximum, shown := events[i].call.body, run[i].config.maxItems, run[n].domain.notifications;
    forall p | IsProjection(body, maximum, p) ensures p == shown {
      ProjectionIsUnique(body, maximum, p, shown);
    }
  }

  lemma {:induction false} NothingShownBeforeAFetch(run: seq<State>, events: seq<Event>, n: nat)
    requires IsRun(run, events) && n <= |events| && forall k :: 0 <= k < n ==> !FetchesAt(events, k)
    ensures run[n].domain.notifications == []
  {
    if n == 0 {
      assert run[0].domain == INITIAL;
    } else {
      NothingShownBeforeAFetch(run, events, n - 1);
      assert Step(run[n - 1], events[n - 1], run[n - 1 + 1]);
      assert !FetchesAt(events, n - 1);
    }
  }

  /** The list is within the present `max_items` exactly when the last fetch, cut at the
      limit of its own time, already was. */
  lemma ShownWithinLimitIff(run: seq<State>, events: seq<Event>, i: nat, n: nat)
    requires IsRun(run, events) && n <= |events| && LastFetchEvent(events, i, n)
    ensures events[i].call.Response? && events[i].call.body.Items?
    ensures |run[n].domain.notifications| <= run[n].config.maxItems
      <==> Min(|events[i].call.body.items|, run[i].config.maxItems) <= run[n].config.maxItems
  {
    FetchedIsShown(run, events, i, n);
    FetchedAtTheLimitInForce(run, events, i);
  }

  function TwoItemsThenLimitOne(): (seq<State>, seq<Event>) {
    var two := SourceConfig("https://api", "TOKEN", 2, 100, 100, 100);
    var one := two.(maxItems := 1);
    var headers := NO_HEADERS.(etag := Some("e"));
    var start := State(two, 0, None, 0, 0, false, INITIAL);
    var fetched := State(two, 10, Some("e"), 0, 1, false, Domain(true, "", 0, 1, 1, ["a", "b"], 100, false));
    var reloaded := fetched.(config := one, deadline := 0);
    var revalidated := State(one, 10, Some("e"), 0, 2, false, Domain(true, "", 0, 2, 2, ["a", "b"], 100, false));
    ([start, fetched, reloaded, revalidated],
     [Idle("t", Response(200, headers, Items([Ok("a"), Ok("b")])), false, 1, 0, Some(Fetched(["a", "b"], headers))),
      Reload(one, 0),
      Idle("t", Response(304, headers, NotAnArray), false, 2, 0, Some(Revalidated(headers)))])
  }

  /** A run that ends with two notifications under a limit of one. */
  lemma ListOutgrowsTheLimit()
    ensures
      var (run, events) := TwoItemsThenLimitOne();
      IsRun(run, events) && |run[3].domain.notifications| == 2 && run[3].config.maxItems == 1 && run[3].failures == 0
  {
    var (run, events) := TwoItemsThenLimitOne();
    assert Step(run[0], events[0], run[1]);
    assert Step(run[1], events[1], run[2]);
    assert Step(run[2], events[2], run[3]);
  }

  /** A new `max_items` alone keeps the tag, so a server that answers 304 keeps a
      projection made at the old limit: it may hold more items than the new one allows. */
  lemma RevalidationKeepsTheOldLimit(s: State, c: SourceConfig, reloaded: State, token: string, headers: Headers,
      body: Body, now: int, centiseconds: int, a: Option<Attempt>, s': State)
    requires s.domain.available && s.lastSuccessAt > 0 && !s.stopping && SameOrigin(s.config, c)
    requires Step(s, Reload(c, centiseconds), reloaded)
    requires token != ""
    requires Step(reloaded, Idle(token, Response(304, headers, body), false, now, centiseconds, a), s')
    ensures s'.etag == s.etag && s'.failures == 0 && !s'.domain.stale
    ensures s'.domain.notifications == s.domain.notifications
    ensures |s'.domain.notifications| > c.maxItems <==> |s.domain.notifications| > c.maxItems
  {
  }

  // ---- pacing ------------------------------------------------------------------------------

  /** Neither an attempt nor what cuts a delay short: a reload or a failed wait. */
  predicate Waits(e: Event) {
    e.Quit? || (e.Idle? && !e.waitFailed && e.attempt.None?)
  }

  /** From one attempt to the next, no less than the announced delay passes. */
  lemma {:induction false} AttemptsArePaced(run: seq<State>, events: seq<Event>, i: nat, k: nat)
    requires IsRun(run, events) && i < k < |events|
    requires events[i].Idle? && events[i].attempt.Some? && events[k].Idle? && events[k].attempt.Some?
    requires forall m :: i < m < k ==> Waits(events[m])
    ensures (events[k].centiseconds - events[i].centiseconds) * 10 >= run[i + 1].domain.refreshInMs
    ensures run[i + 1].domain.refreshInMs > 0
  {
    assert Step(run[i], events[i], run[i + 1]);
    assert Step(run[k], events[k], run[k + 1]);
    DeadlineStands(run, events, i + 1, k);
    var s, a := run[i], events[i].attempt.value;
    FailureWaitBounds(a.headers, s.failures + 1, s.config.retryMinMs, s.config.retryMaxMs, events[i].now);
    SuccessWaitBounds(a.headers, s.config.intervalMs);
    DeadlineIsTight(run[i + 1].domain.refreshInMs, events[i].centiseconds);
  }

  lemma {:induction false} DeadlineStands(run: seq<State>, events: seq<Event>, i: nat, k: nat)
    requires IsRun(run, events) && i <= k <= |events|
    requires forall m :: i <= m < k ==> Waits(events[m])
    ensures run[k].deadline == run[i].deadline
    decreases k
  {
    if i == k {
    } else {
      DeadlineStands(run, events, i, k - 1);
      assert Step(run[k - 1], events[k - 1], run[k - 1 + 1]);
    }
  }
}
