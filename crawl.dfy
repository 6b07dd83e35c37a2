/** The paginated crawl of one query (`TwitterSearch.perform_search`) as a
    step function on the loop state and the run it repeats until the loop
    stops. The server's answers are an input shared with every request. */
module Crawl {
  import opened Wrappers
  import opened Search
  import opened UrlEncode
  import opened HourBuckets
  import Text

  /** The settings of one crawl: the query, the slice date it saves under,
      the item budget, the output path and the two delays. */
  datatype Config = Config(query: string, date: string, limit: int, path: string, rateDelay: int, errorDelay: int)

  /** The loop state: the sink, the session generation, how many answers
      were consumed, the side effects so far, and the locals `url`,
      `response`, `min_tweet` and `continue_search`. */
  datatype Crawler = Crawler(
    sink: Sink, session: nat, served: nat, log: seq<Event>,
    url: string, response: Fetched, min: Option<Tweet>, more: bool)

  /** Why the loop ended normally. `OutOfReplies` stands for a server that
      answered no further. */
  datatype Reason = NoneResponse | SinkFull | NullItems | EmptyPage | OutOfReplies

  datatype Outcome = Finished(reason: Reason) | Failed(exc: Exc)

  datatype Turn = Next(next: Crawler) | Stop(last: Crawler, outcome: Outcome)

  /** `"TWEET-%s-%s" % (max_tweet['id_str'], min_tweet['id_str'])`. */
  function Cursor(max: Tweet, min: Tweet): string
  {
    "TWEET-" + max.idStr + "-" + min.idStr
  }

  /** A cursor names both of its tweets: when neither id holds a `-`,
      splitting it at `-` gives back `TWEET` and the two ids, in order. */
  lemma CursorIds(max: Tweet, min: Tweet)
    requires '-' !in max.idStr && '-' !in min.idStr
    ensures Text.Split(Cursor(max, min), '-') == ["TWEET", max.idStr, min.idStr]
  {
    var tail := max.idStr + ['-'] + min.idStr;
    assert Cursor(max, min) == "TWEET" + ['-'] + tail;
    Text.SplitJoin("TWEET", '-', tail);
    Text.SplitJoin(max.idStr, '-', min.idStr);
    Text.SplitJoin(min.idStr, '-', []);
  }

  /** `response = self.execute_search(url)` on the answers not yet consumed. */
  function Request(c: Config, replies: seq<Attempt>, st: Crawler, url: string): (r: Crawler)
    requires st.served <= |replies|
    ensures r.served <= |replies| && r.sink == st.sink && r.min == st.min && r.more == st.more
  {
    var f := Execute(url, replies[st.served..], 0, c.errorDelay);
    Crawler(st.sink, st.session + f.rotations, st.served + f.used, st.log + f.events, url, f.result, st.min, st.more)
  }

  /** The state a request leaves, spelled out field by field. */
  lemma RequestFields(c: Config, replies: seq<Attempt>, st: Crawler, url: string, f: Fetch)
    requires st.served <= |replies| && f == Execute(url, replies[st.served..], 0, c.errorDelay)
    ensures Request(c, replies, st, url)
            == Crawler(st.sink, st.session + f.rotations, st.served + f.used, st.log + f.events, url, f.result, st.min, st.more)
  {
  }

  /** What is left to do: the budget not yet used, plus one while the sink
      still accepts tweets. Every pass of the loop that goes on lowers it. */
  function Measure(c: Config, st: Crawler): nat
  {
    (if st.more then 1 else 0) + (if c.limit - st.sink.counter > 0 then c.limit - st.sink.counter else 0)
  }

  /** The state a loop that may go on keeps. */
  predicate Ready(c: Config, replies: seq<Attempt>, st: Crawler)
  {
    Valid(st.sink, c.path) && st.served <= |replies|
  }

  /** The state a turn leaves, whether the loop goes on or not. */
  function TurnState(t: Turn): Crawler
  {
    match t
    case Next(s') => s'
    case Stop(s', _) => s'
  }

  /** One test of the loop condition and, when it holds, one pass of the
      loop body. */
  function Step(c: Config, replies: seq<Attempt>, st: Crawler): (r: Turn)
    requires Ready(c, replies, st)
    ensures r.Next? ==> Ready(c, replies, r.next) && Measure(c, r.next) < Measure(c, st)
  {
    match st.response
    case Raised(e) => Stop(st, Failed(e))
    case Unsupplied => Stop(st, Finished(OutOfReplies))
    case NoData => Stop(st, Finished(NoneResponse))
    case Data(body) =>
      if !st.more then Stop(st, Finished(SinkFull))
      else
        match body.itemsHtml
        case Missing => Stop(st, Failed(KeyError))
        case Unindexable => Stop(st, Failed(TypeError))
        case Null => Stop(st, Finished(NullItems))
        case Html(items) =>
          match ParseTweets(items)
          case None => Stop(st, Failed(ValueError))
          case Some(tweets) =>
            if tweets == [] then Stop(st, Finished(EmptyPage))
            else Page(c, replies, st, tweets)
  }

  /** The rest of the loop body for a page of tweets. */
  function Page(c: Config, replies: seq<Attempt>, st: Crawler, tweets: seq<Tweet>): (r: Turn)
    requires Ready(c, replies, st) && st.more && tweets != []
    ensures r.Next? ==> Ready(c, replies, r.next) && Measure(c, r.next) < Measure(c, st)
  {
    var min := if st.min.None? then tweets[0] else st.min.value;
    var entries := Entries(tweets);
    var saved := Save(st.sink, c.limit, c.path, c.date, entries);
    var st1 := st.(sink := saved.sink, min := Some(min));
    match saved.ending
    case Threw(e) => Stop(st1, Failed(e))
    case Returned(more) =>
      SaveWritesOne(st.sink, c.limit, c.path, c.date, entries);
      Advance(c, replies, st1.(more := more), tweets[|tweets| - 1])
  }

  /** The end of the loop body once the page is saved: the next page is
      requested with a cursor from the last tweet `max` to `min_tweet`,
      unless the two share their id. */
  function Advance(c: Config, replies: seq<Attempt>, st: Crawler, max: Tweet): (r: Turn)
    requires Ready(c, replies, st) && st.min.Some?
    ensures r.Next? ==> Ready(c, replies, r.next) && Measure(c, r.next) == Measure(c, st)
    ensures TurnState(r).min == st.min && TurnState(r).sink == st.sink && TurnState(r).more == st.more
  {
    var min := st.min.value;
    if min.idStr != max.idStr then
      var url := ConstructUrl(c.query, Some(Cursor(max, min)));
      if c.rateDelay < 0 then Stop(st.(url := url), Failed(ValueError))
      else Next(Request(c, replies, st.(log := st.log + [Slept(c.rateDelay)]), url))
    else Next(st)
  }

  /** The loop from state `st` until it stops. */
  function Run(c: Config, replies: seq<Attempt>, st: Crawler): (r: (Crawler, Outcome))
    requires Ready(c, replies, st)
    ensures Ready(c, replies, r.0)
    decreases Measure(c, st)
  {
    match Step(c, replies, st)
    case Next(st1) => Run(c, replies, st1)
    case Stop(st1, o) => (st1, o)
  }

  /** The loop goes on from the state a step leaves, or stops where the step stops. */
  lemma RunStep(c: Config, replies: seq<Attempt>, st: Crawler)
    requires Ready(c, replies, st)
    ensures Step(c, replies, st).Next? ==> Run(c, replies, st) == Run(c, replies, Step(c, replies, st).next)
    ensures Step(c, replies, st).Stop? ==> Run(c, replies, st) == (Step(c, replies, st).last, Step(c, replies, st).outcome)
  {
  }

  /** The state `perform_search` starts its loop in: the first page
      requested without a cursor. */
  function Start(c: Config, replies: seq<Attempt>, sink: Sink, session: nat, served: nat, log: seq<Event>): (r: Crawler)
    requires served <= |replies|
    ensures r.served <= |replies|
  {
    var url := ConstructUrl(c.query, None);
    Request(c, replies, Crawler(sink, session, served, log, url, Unsupplied, None, true), url)
  }

  /** `perform_search(query, date)`. */
  function PerformSearch(c: Config, replies: seq<Attempt>, sink: Sink, session: nat, served: nat, log: seq<Event>): (r: (Crawler, Outcome))
    requires Valid(sink, c.path) && served <= |replies|
    ensures Valid(r.0.sink, c.path) && r.0.served <= |replies|
  {
    Run(c, replies, Start(c, replies, sink, session, served, log))
  }

  // ---- properties ----

  /** A request URL of a later page: the query with a cursor ending in the
      id `m` of the first tweet. */
  ghost predicate CursorRequests(c: Config, evs: seq<Event>, m: string)
  {
    forall i | 0 <= i < |evs| && evs[i].Requested? ::
      exists x :: evs[i].url == ConstructUrl(c.query, Some("TWEET-" + x + "-" + m))
  }

  /** Every request among some events asks for `url`. */
  predicate RequestsTo(evs: seq<Event>, url: string)
  {
    forall e | e in evs && e.Requested? :: e.url == url
  }

  lemma CursorRequestsAppend(c: Config, a: seq<Event>, b: seq<Event>, m: string)
    requires CursorRequests(c, a, m) && CursorRequests(c, b, m)
    ensures CursorRequests(c, a + b, m)
  {
    forall i | 0 <= i < |a + b| && (a + b)[i].Requested?
      ensures exists x :: (a + b)[i].url == ConstructUrl(c.query, Some("TWEET-" + x + "-" + m))
    {
      if i < |a| {
        assert (a + b)[i] == a[i];
      } else {
        assert (a + b)[i] == b[i - |a|];
      }
    }
  }

  /** The state a step leaves. */
  function StepState(c: Config, replies: seq<Attempt>, st: Crawler): Crawler
    requires Ready(c, replies, st)
  {
    TurnState(Step(c, replies, st))
  }

  /** A request only appends to the log, and every request it logs asks for `url`. */
  lemma RequestLog(c: Config, replies: seq<Attempt>, st: Crawler, url: string)
    requires st.served <= |replies|
    ensures var s' := Request(c, replies, st, url);
            |st.log| <= |s'.log| && s'.log[..|st.log|] == st.log
            && forall i | |st.log| <= i < |s'.log| && s'.log[i].Requested? :: s'.log[i].url == url
  {
    var f := Execute(url, replies[st.served..], 0, c.errorDelay);
    ExecuteUrls(url, replies[st.served..], 0, c.errorDelay);
    var s' := Request(c, replies, st, url);
    assert s'.log == st.log + f.events;
    forall i | |st.log| <= i < |s'.log| && s'.log[i].Requested?
      ensures s'.log[i].url == url
    {
      assert s'.log[i] in f.events;
    }
  }

  /** Going on after a page only appends to the log: a sleep and the
      events of one call of `execute_search`, every request of which asks
      for the URL whose cursor runs from `max` to `min_tweet`. */
  lemma AdvanceLog(c: Config, replies: seq<Attempt>, st: Crawler, max: Tweet)
    requires Ready(c, replies, st) && st.min.Some?
    ensures var s' := TurnState(Advance(c, replies, st, max));
            |st.log| <= |s'.log| && s'.log[..|st.log|] == st.log
            && (|s'.log| > |st.log| ==> CursorRequests(c, s'.log[|st.log|..], st.min.value.idStr)
                                        && RequestsTo(s'.log[|st.log|..], ConstructUrl(c.query, Some(Cursor(max, st.min.value)))))
  {
    var min := st.min.value;
    if min.idStr != max.idStr && c.rateDelay >= 0 {
      var url := ConstructUrl(c.query, Some(Cursor(max, min)));
      var s' := Request(c, replies, st.(log := st.log + [Slept(c.rateDelay)]), url);
      assert TurnState(Advance(c, replies, st, max)) == s';
      SleepThenRequest(c, replies, st, url, c.rateDelay);
      TailRequests(c, s'.log, |st.log|, url, max.idStr, min.idStr);
    }
  }

  /** A sleep and then a request append a non-request event and then only
      requests for `url`. */
  lemma SleepThenRequest(c: Config, replies: seq<Attempt>, st: Crawler, url: string, d: int)
    requires st.served <= |replies|
    ensures var s' := Request(c, replies, st.(log := st.log + [Slept(d)]), url);
            |st.log| < |s'.log| && s'.log[..|st.log|] == st.log && !s'.log[|st.log|].Requested?
            && forall i | |st.log| + 1 <= i < |s'.log| && s'.log[i].Requested? :: s'.log[i].url == url
  {
    var st0 := st.(log := st.log + [Slept(d)]);
    RequestLog(c, replies, st0, url);
    var s' := Request(c, replies, st0, url);
    assert s'.log[..|st.log|] == s'.log[..|st0.log|][..|st.log|];
    assert s'.log[|st.log|] == st0.log[|st.log|];
  }

  /** A log tail that opens with a non-request and then requests only `url`,
      the cursor URL from `x` to `m`, requests cursors ending in `m`. */
  lemma TailRequests(c: Config, log: seq<Event>, k: nat, url: string, x: string, m: string)
    requires k < |log| && !log[k].Requested?
    requires forall i | k + 1 <= i < |log| && log[i].Requested? :: log[i].url == url
    requires url == ConstructUrl(c.query, Some("TWEET-" + x + "-" + m))
    ensures CursorRequests(c, log[k..], m) && RequestsTo(log[k..], url)
  {
    var tail := log[k..];
    forall e | e in tail && e.Requested?
      ensures e.url == url
    {
      var j :| 0 <= j < |tail| && tail[j] == e;
      assert tail[j] == log[j + k];
    }
    forall i | 0 <= i < |tail| && tail[i].Requested?
      ensures exists y :: tail[i].url == ConstructUrl(c.query, Some("TWEET-" + y + "-" + m))
    {
      assert tail[i] == log[i + k];
      assert tail[i].url == ConstructUrl(c.query, Some("TWEET-" + x + "-" + m));
    }
  }

  /** A page sets `min_tweet` (to the page's first tweet if it had no value)
      and only appends to the log, as `AdvanceLog` says. */
  lemma PageLog(c: Config, replies: seq<Attempt>, st: Crawler, tweets: seq<Tweet>)
    requires Ready(c, replies, st) && st.more && tweets != []
    ensures var s' := TurnState(Page(c, replies, st, tweets));
            var min := if st.min.None? then tweets[0] else st.min.value;
            s'.min == Some(min) && |st.log| <= |s'.log| && s'.log[..|st.log|] == st.log
            && (|s'.log| > |st.log| ==> CursorRequests(c, s'.log[|st.log|..], min.idStr)
                                        && RequestsTo(s'.log[|st.log|..], ConstructUrl(c.query, Some(Cursor(tweets[|tweets| - 1], min)))))
  {
    var min := if st.min.None? then tweets[0] else st.min.value;
    var saved := Save(st.sink, c.limit, c.path, c.date, Entries(tweets));
    var st1 := st.(sink := saved.sink, min := Some(min));
    if saved.ending.Returned? {
      SaveWritesOne(st.sink, c.limit, c.path, c.date, Entries(tweets));
      AdvanceLog(c, replies, st1.(more := saved.ending.more), tweets[|tweets| - 1]);
    }
  }

  /** One pass of the loop only appends to the log; `min_tweet` is set on
      the first page to its first tweet and never changes afterwards; and
      every request it makes carries a cursor ending in the id of that
      tweet. */
  lemma StepLog(c: Config, replies: seq<Attempt>, st: Crawler)
    requires Ready(c, replies, st)
    ensures var s' := StepState(c, replies, st);
            |st.log| <= |s'.log| && s'.log[..|st.log|] == st.log
            && (st.min.Some? ==> s'.min == st.min)
            && (s'.min.Some? && st.min.None? ==>
                  st.response.Data? && st.response.body.itemsHtml.Html?
                  && ParseTweets(st.response.body.itemsHtml.items).Some?
                  && s'.min.value == ParseTweets(st.response.body.itemsHtml.items).value[0])
            && (|s'.log| > |st.log| ==> s'.min.Some? && CursorRequests(c, s'.log[|st.log|..], s'.min.value.idStr))
  {
    if st.response.Data? && st.more && st.response.body.itemsHtml.Html? {
      var items := st.response.body.itemsHtml.items;
      if ParseTweets(items).Some? && ParseTweets(items).value != [] {
        var tweets := ParseTweets(items).value;
        StepPage(c, replies, st, items, tweets);
        PageLog(c, replies, st, tweets);
      }
    }
  }

  /** A pass over a page of tweets asks, with every request it makes, for
      the URL whose cursor runs from the last tweet of the page to
      `min_tweet`. */
  lemma StepUrls(c: Config, replies: seq<Attempt>, st: Crawler, items: seq<Item>, tweets: seq<Tweet>)
    requires Ready(c, replies, st) && st.more && st.response == Data(Body(Html(items)))
    requires ParseTweets(items) == Some(tweets) && tweets != []
    ensures var s' := StepState(c, replies, st);
            s'.min.Some?
            && (|s'.log| > |st.log| ==> RequestsTo(s'.log[|st.log|..], ConstructUrl(c.query, Some(Cursor(tweets[|tweets| - 1], s'.min.value)))))
  {
    StepPage(c, replies, st, items, tweets);
    PageLog(c, replies, st, tweets);
  }

  /** A pass over a page of tweets is the rest of the body for them. */
  lemma StepPage(c: Config, replies: seq<Attempt>, st: Crawler, items: seq<Item>, tweets: seq<Tweet>)
    requires Ready(c, replies, st) && st.more && st.response == Data(Body(Html(items)))
    requires ParseTweets(items) == Some(tweets) && tweets != []
    ensures var t := Step(c, replies, st); t == Page(c, replies, st, tweets)
  {
    var body := st.response.body;
    assert body.itemsHtml == Html(items);
    assert ParseTweets(body.itemsHtml.items) == Some(tweets);
  }

  /** Only a pass over a page of tweets makes requests. */
  lemma StepRequests(c: Config, replies: seq<Attempt>, st: Crawler)
    requires Ready(c, replies, st)
    ensures |StepState(c, replies, st).log| > |st.log| ==>
              st.more && st.response.Data? && st.response.body.itemsHtml.Html?
              && ParseTweets(st.response.body.itemsHtml.items).Some?
              && ParseTweets(st.response.body.itemsHtml.items).value != []
  {
  }

  /** Over the whole loop, `min_tweet` keeps the value it first got, and
      every request after the first page's carries a cursor ending in its
      id. The first half of each cursor is the last id of the page that pass
      saved (`StepUrls`); over the run it is only some string. */
  lemma {:induction false} RunCursors(c: Config, replies: seq<Attempt>, st: Crawler)
    requires Ready(c, replies, st)
    ensures var s' := Run(c, replies, st).0;
            |st.log| <= |s'.log| && s'.log[..|st.log|] == st.log
            && (st.min.Some? ==> s'.min == st.min)
            && (|s'.log| > |st.log| ==> s'.min.Some? && CursorRequests(c, s'.log[|st.log|..], s'.min.value.idStr))
    decreases Measure(c, st)
  {
    StepLog(c, replies, st);
    if Step(c, replies, st).Next? {
      var s1 := Step(c, replies, st).next;
      RunCursors(c, replies, s1);
      var s' := Run(c, replies, s1).0;
      if |s1.log| > |st.log| {
        JoinLogs(c, st.log, s1.log, s'.log, s1.min.value.idStr);
      } else {
        JoinLogs(c, st.log, s1.log, s'.log, if s'.min.Some? then s'.min.value.idStr else []);
      }
    }
  }

  /** Appending twice to a log whose new parts all carry cursors ending in
      `m` appends once. */
  lemma JoinLogs(c: Config, l0: seq<Event>, l1: seq<Event>, l2: seq<Event>, m: string)
    requires |l0| <= |l1| <= |l2| && l1[..|l0|] == l0 && l2[..|l1|] == l1
    requires |l1| > |l0| ==> CursorRequests(c, l1[|l0|..], m)
    requires |l2| > |l1| ==> CursorRequests(c, l2[|l1|..], m)
    ensures l2[..|l0|] == l0
    ensures |l2| > |l0| ==> CursorRequests(c, l2[|l0|..], m)
  {
    assert l2[..|l0|] == l1[..|l0|];
    if |l2| > |l0| {
      var a, b := l1[|l0|..], l2[|l1|..];
      assert l2[|l0|..] == a + b;
      if |l1| == |l0| {
        assert a == [];
      } else if |l2| == |l1| {
        assert b == [];
      }
      CursorRequestsAppend(c, a, b, m);
    }
  }

  /** When the first and the last tweet of a page share their id, no URL is
      built and no request is made: the loop saves the same page again and
      again until the sink refuses or raises. */
  lemma {:induction false} StallResaves(c: Config, replies: seq<Attempt>, st: Crawler, items: seq<Item>)
    requires Ready(c, replies, st)
    requires st.response == Data(Body(Html(items)))
    requires ParseTweets(items).Some? && ParseTweets(items).value != []
    requires var tweets := ParseTweets(items).value;
             var min := if st.min.None? then tweets[0] else st.min.value;
             min.idStr == tweets[|tweets| - 1].idStr
    ensures var (s', o) := Run(c, replies, st);
            s'.log == st.log && s'.served == st.served && s'.url == st.url
            && (o == Finished(SinkFull) || o.Failed?)
    decreases Measure(c, st)
  {
    match Step(c, replies, st)
    case Stop(_, _) =>
    case Next(s1) =>
      StallResaves(c, replies, s1, items);
  }

  /** The loop ends only in one of its stopping situations: a `None`
      response, a sink that returned `False` (the counter reached `limit`),
      an `items_html` that is `null`, a page without tweets, or answers that
      ran out. */
  lemma {:induction false} RunStops(c: Config, replies: seq<Attempt>, st: Crawler)
    requires Ready(c, replies, st)
    requires !st.more ==> st.sink.counter >= c.limit
    requires AnswersKept(replies, st)
    ensures var (s', o) := Run(c, replies, st);
            Explained(replies, c.limit, s', o)
    decreases Measure(c, st)
  {
    RunStep(c, replies, st);
    if Step(c, replies, st).Stop? {
      StopExplained(c, replies, st);
    } else {
      StepKeeps(c, replies, st);
      RunStops(c, replies, Step(c, replies, st).next);
    }
  }

  /** What the state the loop stops in says about how it stopped. */
  predicate Explained(replies: seq<Attempt>, limit: int, s': Crawler, o: Outcome)
  {
    (o == Finished(NoneResponse) ==> s'.response == NoData)
    && (o == Finished(SinkFull) ==> !s'.more && s'.sink.counter >= limit)
    && (o == Finished(NullItems) ==> s'.response == Data(Body(Null)))
    && (o == Finished(EmptyPage) ==> s'.response == Data(Body(Html([]))))
    && (o == Finished(OutOfReplies) ==> s'.response == Unsupplied && s'.served == |replies|)
    && (o.Failed? ==> s'.response.Raised? ==> o.exc == s'.response.exc)
  }

  lemma StopExplained(c: Config, replies: seq<Attempt>, st: Crawler)
    requires Ready(c, replies, st)
    requires !st.more ==> st.sink.counter >= c.limit
    requires AnswersKept(replies, st)
    requires Step(c, replies, st).Stop?
    ensures Explained(replies, c.limit, Step(c, replies, st).last, Step(c, replies, st).outcome)
  {
    if st.response.Data? && st.more && st.response.body.itemsHtml.Html?
       && ParseTweets(st.response.body.itemsHtml.items) == Some([]) {
      assert st.response.body.itemsHtml.items == [];
    }
  }

  /** A step that goes on keeps the loop's bookkeeping: a sink that
      returned `False` has reached the budget, and answers run out only once
      all are used. */
  lemma StepKeeps(c: Config, replies: seq<Attempt>, st: Crawler)
    requires Ready(c, replies, st)
    requires !st.more ==> st.sink.counter >= c.limit
    requires Step(c, replies, st).Next?
    ensures var s1 := Step(c, replies, st).next;
            (!s1.more ==> s1.sink.counter >= c.limit) && AnswersKept(replies, s1)
  {
    var s1 := Step(c, replies, st).next;
    var tweets := ParseTweets(st.response.body.itemsHtml.items).value;
    SaveQuota(st.sink, c.limit, c.path, c.date, Entries(tweets));
    ExecuteUnsupplied(s1.url, replies[st.served..], 0, c.errorDelay);
  }

  predicate AnswersKept(replies: seq<Attempt>, st: Crawler)
  {
    st.response == Unsupplied ==> st.served == |replies|
  }

  /** `execute_search` runs out of answers only when none are left. */
  lemma {:induction false} ExecuteUnsupplied(url: string, replies: seq<Attempt>, retry: nat, errorDelay: int)
    ensures Execute(url, replies, retry, errorDelay).result == Unsupplied ==>
              Execute(url, replies, retry, errorDelay).used == |replies|
    decreases |replies|
  {
    if replies != [] && Transient(replies[0]) && errorDelay >= 0 {
      ExecuteFailure(url, replies, retry, errorDelay);
      ExecuteUnsupplied(url, replies[1..], retry + 1, errorDelay);
    }
  }
}
