/** The records a search page yields and the retry policy of one search
    request (`TwitterSearch.execute_search`). The network is an input: the
    answers the server gives, in the order it gives them. */
module Search {
  import opened Wrappers
  import opened Text
  import opened Civil
  import opened TimeFormat

  const MaxRetriesSession := 5
  const MaxRetries := MaxRetriesSession * 5

  /** What the HTML extractor finds in one `li.js-stream-item`: the tweet id,
      the `data-time` epoch if the item has a timestamp, and the remaining
      fields (text, user, counts), kept as one opaque value. */
  datatype Item = Item(idStr: string, epoch: Option<int>, fields: string)

  /** A tweet record as `parse_tweets` returns it. */
  datatype Tweet = Tweet(idStr: string, epoch: Option<int>, createdAt: Option<string>, fields: string)

  /** The exceptions the modelled code lets escape. */
  datatype Exc = KeyError | ValueError | TypeError | ConnectionError

  /** `datetime.utcfromtimestamp(epoch).strftime(DATE_FORMAT)`, or `None`
      where `utcfromtimestamp` raises. */
  function CreatedAt(epoch: int): (r: Option<string>)
    ensures r.Some? <==> -62135596800 <= epoch <= 253402300799
  {
    UtcFromTimestampRange(epoch);
    match UtcFromTimestamp(epoch)
    case None => None
    case Some(c) => Some(FormatStamp(c))
  }

  /** The record built for one item; `None` where the timestamp conversion
      raises. */
  function ToTweet(item: Item): (r: Option<Tweet>)
    ensures r.Some? ==> r.value.idStr == item.idStr && r.value.epoch == item.epoch
                        && r.value.fields == item.fields
    ensures r.Some? ==> (r.value.createdAt.Some? <==> item.epoch.Some?)
  {
    match item.epoch
    case None => Some(Tweet(item.idStr, None, None, item.fields))
    case Some(t) =>
      match CreatedAt(t)
      case None => None
      case Some(s) => Some(Tweet(item.idStr, Some(t), Some(s), item.fields))
  }

  /** `parse_tweets` once the extractor has run: one record per item, in
      page order; `None` where it raises. */
  function ParseTweets(items: seq<Item>): (r: Option<seq<Tweet>>)
    ensures r.Some? ==> |r.value| == |items|
    ensures r.Some? ==> forall i | 0 <= i < |items| :: ToTweet(items[i]) == Some(r.value[i])
    ensures r.None? ==> exists i | 0 <= i < |items| :: ToTweet(items[i]).None?
  {
    if items == [] then Some([])
    else
      match (ToTweet(items[0]), ParseTweets(items[1..]))
      case (Some(t), Some(ts)) => Some([t] + ts)
      case (None, _) => None
      case (_, None) => None
  }

  /** A tweet's `created_at`, when present, reads back with the same format
      to the UTC hour of its epoch, `(epoch div 3600) mod 24`. */
  lemma CreatedAtHour(epoch: int)
    requires CreatedAt(epoch).Some?
    ensures ParseStamp(CreatedAt(epoch).value).Some?
    ensures ParseStamp(CreatedAt(epoch).value).value.hour == (epoch / 3600) % 24
  {
    var c := UtcFromTimestamp(epoch).value;
    ParseFormatStamp(c);
    UtcFromTimestampHour(epoch);
    HourOfDay(epoch);
  }

  lemma HourOfDay(t: int)
    ensures (t % 86400) / 3600 == (t / 3600) % 24
  {
    var q, s := t / 86400, t % 86400;
    var h, m := s / 3600, s % 3600;
    assert 0 <= h < 24 && 0 <= m < 3600;
    assert t == 3600 * (24 * q + h) + m;
    HoursOf(t, 24 * q + h, m);
    DaysOf(24 * q + h, q, h);
  }

  lemma HoursOf(t: int, x: int, m: int)
    requires 0 <= m < 3600 && t == 3600 * x + m
    ensures t / 3600 == x
  {
  }

  lemma DaysOf(x: int, q: int, h: int)
    requires 0 <= h < 24 && x == 24 * q + h
    ensures x % 24 == h
  {
  }

  // ---- answers of the server ----

  /** What the loop's lookup `response['items_html']` finds in a decoded
      JSON value other than `null`: an object without the key (`KeyError`),
      a list, string, number or boolean, which a string cannot index
      (`TypeError`), a `null` field, or the field with the items the
      extractor finds in it. */
  datatype ItemsHtml = Missing | Unindexable | Null | Html(items: seq<Item>)

  /** A decoded JSON value other than `null`, as the loop sees it. */
  datatype Body = Body(itemsHtml: ItemsHtml)

  /** A response body: a JSON value other than `null`, the JSON `null`
      (which `response.json()` returns as `None`), or text that
      `response.json()` cannot decode. */
  datatype Payload = Json(body: Body) | JsonNull | NotJson

  /** The `x-rate-limit-reset` header of a response. */
  datatype ResetHeader = NoHeader | Unparsable | Reset(seconds: int)

  /** What one `session.get(url)` amounts to: an answer, an `HTTPError`
      with that response, or a connection failure (which is not an
      `HTTPError` and passes through). */
  datatype Attempt =
    | Answered(payload: Payload)
    | HttpError(status: int, errorPayload: Payload, reset: ResetHeader)
    | Unreachable

  /** The result of `execute_search`: the decoded body, `None`, an escaping
      exception, or `Unsupplied` when the server's answers run out. */
  datatype Fetched = Data(body: Body) | NoData | Raised(exc: Exc) | Unsupplied

  /** What the model records of a request's side effects: each request,
      each sleep and each replacement of the session. */
  datatype Event = Requested(url: string) | Slept(seconds: int) | Rotated

  /** One call of `execute_search`: its result, how many answers it
      consumed, how many times it replaced the session, and its events. */
  datatype Fetch = Fetch(result: Fetched, used: nat, rotations: nat, events: seq<Event>)

  /** An answer that sends `execute_search` into its retry branch. */
  predicate Transient(a: Attempt)
  {
    a.HttpError? && a.status != 400 && a.status != 429
  }

  function Decoded(p: Payload): Fetched
  {
    match p
    case Json(b) => Data(b)
    case JsonNull => NoData
    case NotJson => Raised(ValueError)
  }

  /** The effects of one request put in front of those of the rest. */
  function Then(evs: seq<Event>, rot: nat, f: Fetch): Fetch
  {
    Fetch(f.result, f.used + 1, f.rotations + rot, evs + f.events)
  }

  /** Whether the retry with number `retry` replaces the session first. */
  predicate RotatesAt(retry: nat)
  {
    retry % MaxRetriesSession == 0 && retry > 0
  }

  /** `execute_search(url, retry)` against the answers `replies`, with
      `errorDelay` seconds of sleep before each retry. */
  function Execute(url: string, replies: seq<Attempt>, retry: nat, errorDelay: int): (r: Fetch)
    ensures r.used <= |replies|
    decreases |replies|
  {
    if replies == [] then Fetch(Unsupplied, 0, 0, [])
    else
      var asked := [Requested(url)];
      match replies[0]
      case Unreachable => Fetch(Raised(ConnectionError), 1, 0, asked)
      case Answered(p) => Fetch(Decoded(p), 1, 0, asked)
      case HttpError(status, p, reset) =>
        if status == 400 then Fetch(Decoded(p), 1, 0, asked)
        else if status == 429 then
          match reset
          case NoHeader => Fetch(Raised(KeyError), 1, 0, asked)
          case Unparsable => Fetch(Raised(ValueError), 1, 0, asked)
          case Reset(t) =>
            var wait := t + retry * errorDelay;
            if wait < 0 then Fetch(Raised(ValueError), 1, 0, asked)
            else Fetch(NoData, 1, 0, asked + [Slept(wait)])
        else if errorDelay < 0 then Fetch(Raised(ValueError), 1, 0, asked)
        else if RotatesAt(retry) then
          Then(FailureStep(url, retry, errorDelay), 1, Execute(url, replies[1..], retry + 1, errorDelay))
        else if retry == MaxRetries then Fetch(NoData, 1, 0, asked + [Slept(errorDelay)])
        else Then(FailureStep(url, retry, errorDelay), 0, Execute(url, replies[1..], retry + 1, errorDelay))
  }

  /** The events of `k` failed requests made with retry numbers `from`,
      `from + 1`, ...: a request and a sleep each, and a session replacement
      after those whose retry number is a positive multiple of five. */
  function FailureLog(url: string, from: nat, k: nat, errorDelay: int): seq<Event>
    decreases k
  {
    if k == 0 then []
    else FailureStep(url, from, errorDelay) + FailureLog(url, from + 1, k - 1, errorDelay)
  }

  /** The sessions replaced during `k` failed requests starting at retry 0:
      one after the 6th, 11th, 16th, ... failure. */
  function RotationsAfter(k: nat): nat
  {
    if k == 0 then 0 else (k - 1) / MaxRetriesSession
  }

  /** An answer whose body decodes to `null`: an answer `get` returns, or
      the body of an HTTP 400, which is returned as it stands. */
  predicate NullBody(a: Attempt)
  {
    (a.Answered? && a.payload == JsonNull) || (a.HttpError? && a.status == 400 && a.errorPayload == JsonNull)
  }

  /** `None` comes back only from an HTTP 429 answer or from a body that
      is the JSON `null`: the `MAX_RETRIES` exit, tested after the rotation
      test on a multiple of five, never fires. */
  lemma {:induction false} NoDataOnlyAfterRateLimit(url: string, replies: seq<Attempt>, retry: nat, errorDelay: int)
    ensures Execute(url, replies, retry, errorDelay).result.NoData? ==>
              var u := Execute(url, replies, retry, errorDelay).used;
              1 <= u && ((replies[u - 1].HttpError? && replies[u - 1].status == 429) || NullBody(replies[u - 1]))
    decreases |replies|
  {
    if replies != [] && Transient(replies[0]) && errorDelay >= 0 {
      assert RotatesAt(retry) || retry != MaxRetries;
      NoDataOnlyAfterRateLimit(url, replies[1..], retry + 1, errorDelay);
    }
  }

  /** The events of one failed request made with retry number `retry`. */
  function FailureStep(url: string, retry: nat, errorDelay: int): seq<Event>
  {
    [Requested(url), Slept(errorDelay)] + (if RotatesAt(retry) then [Rotated] else [])
  }

  /** A failure is followed by the next retry. */
  lemma ExecuteFailure(url: string, replies: seq<Attempt>, retry: nat, errorDelay: int)
    requires errorDelay >= 0 && replies != [] && Transient(replies[0])
    ensures Execute(url, replies, retry, errorDelay) ==
            Then(FailureStep(url, retry, errorDelay), if RotatesAt(retry) then 1 else 0,
                 Execute(url, replies[1..], retry + 1, errorDelay))
  {
    assert RotatesAt(retry) || retry != MaxRetries;
  }

  /** The effects of `k` earlier requests, with `rot` session replacements
      and events `log`, put in front of those of a later call. */
  function After(log: seq<Event>, k: nat, rot: nat, f: Fetch): Fetch
  {
    Fetch(f.result, f.used + k, f.rotations + rot, log + f.events)
  }

  lemma AfterThen(log: seq<Event>, k: nat, rot: nat, step: seq<Event>, r: nat, f: Fetch)
    ensures After(log, k, rot, Then(step, r, f)) == After(log + step, k + 1, rot + r, f)
  {
    assert log + (step + f.events) == (log + step) + f.events;
  }

  /** A run of `k` failures is followed by retry number `k`: there is no
      retry ceiling. The session was replaced `(k - 1) div 5` times (none in
      the first five retries, the first one before the 7th request), and
      every failure slept `errorDelay`. */
  lemma {:induction false} FailureStreak(url: string, replies: seq<Attempt>, k: nat, errorDelay: int)
    requires errorDelay >= 0 && k <= |replies|
    requires forall j | 0 <= j < k :: Transient(replies[j])
    ensures Execute(url, replies, 0, errorDelay) ==
            After(FailureLog(url, 0, k, errorDelay), k, RotationsAfter(k), Execute(url, replies[k..], k, errorDelay))
  {
    if k == 0 {
      assert replies[0..] == replies;
      assert [] + Execute(url, replies, 0, errorDelay).events == Execute(url, replies, 0, errorDelay).events;
    } else {
      FailureStreak(url, replies, k - 1, errorDelay);
      assert replies[k - 1..][1..] == replies[k..];
      ExecuteFailure(url, replies[k - 1..], k - 1, errorDelay);
      AfterThen(FailureLog(url, 0, k - 1, errorDelay), k - 1, RotationsAfter(k - 1),
                FailureStep(url, k - 1, errorDelay), if RotatesAt(k - 1) then 1 else 0,
                Execute(url, replies[k..], k, errorDelay));
      FailureLogSnoc(url, k - 1, errorDelay);
      RotationsStep(k);
    }
  }

  lemma {:induction false} FailureLogSnoc(url: string, k: nat, errorDelay: int)
    ensures FailureLog(url, 0, k + 1, errorDelay) ==
            FailureLog(url, 0, k, errorDelay) + FailureStep(url, k, errorDelay)
  {
    FailureLogShift(url, 0, k, errorDelay);
  }

  lemma {:induction false} FailureLogShift(url: string, from: nat, k: nat, errorDelay: int)
    ensures FailureLog(url, from, k + 1, errorDelay) ==
            FailureLog(url, from, k, errorDelay) + FailureStep(url, from + k, errorDelay)
    decreases k
  {
    if k > 0 {
      FailureLogShift(url, from + 1, k - 1, errorDelay);
    }
  }

  lemma RotationsStep(k: nat)
    requires k > 0
    ensures RotationsAfter(k) == RotationsAfter(k - 1) + (if RotatesAt(k - 1) then 1 else 0)
  {
  }

  /** After `k` failures, an HTTP 429 with reset header `t` makes the call
      sleep `t + k * errorDelay` seconds and return `None` without another
      request. */
  lemma RateLimitAfterFailures(url: string, replies: seq<Attempt>, k: nat, errorDelay: int, p: Payload, t: int)
    requires errorDelay >= 0 && k < |replies|
    requires forall j | 0 <= j < k :: Transient(replies[j])
    requires replies[k] == HttpError(429, p, Reset(t)) && t + k * errorDelay >= 0
    ensures Execute(url, replies, 0, errorDelay) ==
            Fetch(NoData, k + 1, RotationsAfter(k),
                  FailureLog(url, 0, k, errorDelay) + [Requested(url), Slept(t + k * errorDelay)])
  {
    FailureStreak(url, replies, k, errorDelay);
    assert replies[k..][0] == replies[k];
  }

  /** After `k` failures, an HTTP 400 ends the call with its error body as
      the result, and there is no further request. */
  lemma BadRequestAfterFailures(url: string, replies: seq<Attempt>, k: nat, errorDelay: int, b: Body, reset: ResetHeader)
    requires errorDelay >= 0 && k < |replies|
    requires forall j | 0 <= j < k :: Transient(replies[j])
    requires replies[k] == HttpError(400, Json(b), reset)
    ensures Execute(url, replies, 0, errorDelay) ==
            Fetch(Data(b), k + 1, RotationsAfter(k), FailureLog(url, 0, k, errorDelay) + [Requested(url)])
  {
    FailureStreak(url, replies, k, errorDelay);
    assert replies[k..][0] == replies[k];
  }

  /** Every request of one call asks for the same URL. */
  lemma {:induction false} ExecuteUrls(url: string, replies: seq<Attempt>, retry: nat, errorDelay: int)
    ensures forall e | e in Execute(url, replies, retry, errorDelay).events && e.Requested? :: e.url == url
    decreases |replies|
  {
    if replies != [] && Transient(replies[0]) && errorDelay >= 0 {
      ExecuteFailure(url, replies, retry, errorDelay);
      ExecuteUrls(url, replies[1..], retry + 1, errorDelay);
      var rest := Execute(url, replies[1..], retry + 1, errorDelay);
      var step := FailureStep(url, retry, errorDelay);
      assert Execute(url, replies, retry, errorDelay).events == step + rest.events;
    }
  }

  /** A call makes exactly as many requests as answers it consumes. */
  lemma {:induction false} ExecuteRequests(url: string, replies: seq<Attempt>, retry: nat, errorDelay: int)
    ensures Requests(Execute(url, replies, retry, errorDelay).events) == Execute(url, replies, retry, errorDelay).used
    decreases |replies|
  {
    if replies != [] && Transient(replies[0]) && errorDelay >= 0 {
      ExecuteFailure(url, replies, retry, errorDelay);
      ExecuteRequests(url, replies[1..], retry + 1, errorDelay);
      var rest := Execute(url, replies[1..], retry + 1, errorDelay);
      var step := FailureStep(url, retry, errorDelay);
      RequestsAppend(step, rest.events);
      RequestsAppend([Requested(url)], step[1..]);
      assert step == [Requested(url)] + step[1..];
      assert step[1..][0] == Slept(errorDelay);
      assert Requests(step[1..][1..]) == 0;
    } else if replies != [] {
      var f := Execute(url, replies, retry, errorDelay);
      assert f.events == [Requested(url)] + f.events[1..];
      RequestsAppend([Requested(url)], f.events[1..]);
    }
  }

  lemma EventsAssociate(a: seq<Event>, b: seq<Event>, c: seq<Event>)
    ensures a + (b + c) == (a + b) + c
  {
  }

  /** The number of requests among some events. */
  function Requests(evs: seq<Event>): nat
  {
    if evs == [] then 0 else (if evs[0].Requested? then 1 else 0) + Requests(evs[1..])
  }

  lemma {:induction false} RequestsAppend(a: seq<Event>, b: seq<Event>)
    ensures Requests(a + b) == Requests(a) + Requests(b)
  {
    if a != [] {
      RequestsAppend(a[1..], b);
      assert (a + b)[0] == a[0];
      assert (a + b)[1..] == a[1..] + b;
    } else {
      assert a + b == b;
    }
  }
}
