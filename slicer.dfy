/** The scraper object itself: `TwitterSearch` and its subclass
    `TwitterSlicer` flattened into one class whose fields the methods update
    in place, as the source does. Each method is proved to compute what the
    functional model beside it says: `close_file` is `Close`, `save_tweets`
    is `Save`, `execute_search` is `Execute`, `perform_search` is
    `Crawl.PerformSearch`, and `search` runs the day slices of
    `Slices.DaySlices` one after another. */
module Slicer {
  import opened Wrappers
  import opened Text
  import Civil
  import opened TimeFormat
  import opened Search
  import opened UrlEncode
  import opened HourBuckets
  import opened Crawl
  import opened Slices

  /** Everything a crawl leaves behind that the next one starts from. */
  datatype Progress = Progress(sink: Sink, session: nat, served: nat, log: seq<Event>)

  /** One day slice crawled from progress `p`: `perform_search` of its
      query and date. */
  function CrawlSlice(rateDelay: int, errorDelay: int, limit: int, path: string, replies: seq<Attempt>,
                       slice: Slice, p: Progress): (r: (Progress, Outcome))
    requires HourBuckets.Valid(p.sink, path) && p.served <= |replies|
    ensures HourBuckets.Valid(r.0.sink, path) && r.0.served <= |replies|
  {
    var c := Config(slice.query, slice.date, limit, path, rateDelay, errorDelay);
    var (st, o) := Crawl.PerformSearch(c, replies, p.sink, p.session, p.served, p.log);
    (Progress(st.sink, st.session, st.served, st.log), o)
  }

  /** The day slices crawled one after another on the same object, each
      outcome collected and none stopping the next. */
  function SearchSlices(rateDelay: int, errorDelay: int, limit: int, path: string, replies: seq<Attempt>,
                        slices: seq<Slice>, p: Progress): (r: (Progress, seq<Outcome>))
    requires HourBuckets.Valid(p.sink, path) && p.served <= |replies|
    ensures HourBuckets.Valid(r.0.sink, path) && r.0.served <= |replies|
    ensures |r.1| == |slices|
    decreases |slices|
  {
    if slices == [] then (p, [])
    else
      var (q, os) := SearchSlices(rateDelay, errorDelay, limit, path, replies, slices[..|slices| - 1], p);
      var (q', o) := CrawlSlice(rateDelay, errorDelay, limit, path, replies, slices[|slices| - 1], q);
      (q', os + [o])
  }

  class TwitterSlicer {
    const rateDelay: int
    const errorDelay: int
    const since: string
    const until: string
    const limit: int
    const filepath: string
    /** Stored and never read: the pool is sized by the number of days. */
    const nThreads: int
    /** The answers the server gives, in the order it gives them. */
    const replies: seq<Attempt>

    /** `self.counter`. */
    var counter: int
    /** The keys of `self.jsonl_files_dicts`: date to the hours with an open file. */
    var buckets: map<string, set<string>>
    /** The contents of every file opened so far, one tweet per line. */
    var files: map<string, seq<Tweet>>
    /** How many times `self.session` was replaced. */
    var session: nat
    /** How many of `replies` the requests so far consumed. */
    var served: nat
    /** The requests, sleeps and session replacements so far. */
    var log: seq<Event>

    /** The sink the bucket methods work on. */
    function State(): Sink
      reads this
    {
      Sink(counter, buckets, files)
    }

    function Now(): Progress
      reads this
    {
      Progress(State(), session, served, log)
    }

    predicate Valid()
      reads this
    {
      HourBuckets.Valid(State(), filepath) && served <= |replies|
    }

    constructor (rateDelay: int, errorDelay: int, since: string, until: string, limit: int,
                 filepath: string, replies: seq<Attempt>, nThreads: int)
      ensures Valid()
      ensures this.rateDelay == rateDelay && this.errorDelay == errorDelay
      ensures this.since == since && this.until == until && this.limit == limit
      ensures this.filepath == filepath && this.replies == replies && this.nThreads == nThreads
      ensures Now() == Progress(Sink(0, map[], map[]), 0, 0, [])
    {
      this.rateDelay := rateDelay;
      this.errorDelay := errorDelay;
      this.since := since;
      this.until := until;
      this.limit := limit;
      this.filepath := filepath;
      this.replies := replies;
      this.nThreads := nThreads;
      counter := 0;
      buckets := map[];
      files := map[];
      session := 0;
      served := 0;
      log := [];
    }

    /** `close_file(date, hour)`. */
    method CloseFile(date: string, hour: string) returns (err: Option<Exc>)
      modifies this
      ensures var r := Close(old(State()), date, hour);
              (r.Ok? ==> err == None && State() == r.value)
              && (r.Err? ==> err == Some(r.error) && State() == old(State()))
      ensures session == old(session) && served == old(served) && log == old(log)
    {
      if !IsDecimal(hour) {
        return Some(ValueError);
      }
      var previous := Str(DigitsValue(hour) + 1);
      if date !in buckets || previous !in buckets[date] {
        return Some(KeyError);
      }
      buckets := buckets[date := buckets[date] - {previous}];
      return None;
    }

    /** `save_tweets(tweets, date)`. */
    method SaveTweets(tweets: seq<Tweet>, date: string) returns (ending: Ending)
      requires Valid()
      modifies this
      ensures Valid()
      ensures var r := Save(old(State()), limit, filepath, date, Entries(tweets));
              State() == r.sink && ending == r.ending
      ensures session == old(session) && served == old(served) && log == old(log)
    {
      ghost var entries := Entries(tweets);
      var i := 0;
      while i < |tweets|
        invariant 0 <= i <= |tweets|
        invariant Valid()
        invariant Save(old(State()), limit, filepath, date, entries) == Save(State(), limit, filepath, date, entries[i..])
        invariant session == old(session) && served == old(served) && log == old(log)
      {
        ghost var s := State();
        ghost var todo := entries[i..];
        assert todo[0] == entries[i] == Entry(tweets[i], HourKey(tweets[i]));
        assert todo[1..] == entries[i + 1..];
        var stop := SaveTweet(tweets[i], date);
        if stop.Some? {
          return stop.value;
        }
        SaveStep(s, limit, filepath, date, todo);
        i := i + 1;
      }
      return Returned(true);
    }

    /** The part of a pass of `save_tweets` that opens the bucket of the
        tweet's hour where it is not open yet. */
    method OpenHour(date: string, hour: string) returns (err: Option<Exc>)
      requires Valid()
      modifies this
      ensures var r := OpenBucket(old(State()), filepath, date, hour);
              (r.Ok? ==> err == None && State() == r.value)
              && (r.Err? ==> err == Some(r.error) && State() == old(State()))
      ensures session == old(session) && served == old(served) && log == old(log)
    {
      var name := FileName(filepath, date, hour);
      if date !in buckets {
        buckets := buckets[date := {hour}];
        files := files[name := []];
      }
      ghost var s1 := State();
      if hour !in buckets[date] {
        err := CloseFile(date, hour);
        if err.Some? {
          return;
        }
        buckets := buckets[date := buckets[date] + {hour}];
        files := files[name := []];
        assert State() == Open(Close(s1, date, hour).value, date, hour, name);
      }
      return None;
    }

    /** One pass of the loop of `save_tweets`: the tweet's hour file opened
        if need be, closing the previous hour's, the tweet written and
        counted; `stop` is how `save_tweets` ends where this pass ends it. */
    method SaveTweet(t: Tweet, date: string) returns (stop: Option<Ending>)
      requires Valid()
      modifies this
      ensures Valid()
      ensures var r := SaveOne(old(State()), filepath, date, Entry(t, HourKey(t)));
              (r.Err? ==> stop == Some(Threw(r.error)) && State() == old(State()))
              && (r.Ok? ==> State() == r.value
                            && (stop.Some? <==> r.value.counter >= limit)
                            && (stop.Some? ==> stop.value == Returned(false)))
      ensures session == old(session) && served == old(served) && log == old(log)
    {
      var key := HourKey(t);
      if key.Err? {
        return Some(Threw(key.error));
      }
      var hour := key.value;
      var name := FileName(filepath, date, hour);
      var err := OpenHour(date, hour);
      if err.Some? {
        return Some(Threw(err.value));
      }
      counter := counter + 1;
      files := files[name := files[name] + [t]];
      if counter >= limit {
        return Some(Returned(false));
      }
      return None;
    }

    /** `execute_search(url, retry)`: one request, and on a transient HTTP
        error a sleep, possibly a new session, and the call again with the
        next retry number. */
    method ExecuteSearch(url: string, retry: nat) returns (response: Fetched)
      requires served <= |replies|
      modifies this
      ensures var f := Execute(url, replies[old(served)..], retry, errorDelay);
              response == f.result && served == old(served) + f.used
              && session == old(session) + f.rotations && log == old(log) + f.events
      ensures counter == old(counter) && buckets == old(buckets) && files == old(files)
      decreases |replies| - served
    {
      ghost var rest := replies[served..];
      if served == |replies| {
        return Unsupplied;
      }
      var answer := replies[served];
      served := served + 1;
      log := log + [Requested(url)];
      match answer
      case Unreachable =>
        return Raised(ConnectionError);
      case Answered(p) =>
        return Decoded(p);
      case HttpError(status, p, reset) =>
        if status == 400 {
          return Decoded(p);
        } else if status == 429 {
          match reset
          case NoHeader =>
            return Raised(KeyError);
          case Unparsable =>
            return Raised(ValueError);
          case Reset(t) =>
            var wait := t + retry * errorDelay;
            if wait < 0 {
              return Raised(ValueError);
            }
            log := log + [Slept(wait)];
            EventsAssociate(old(log), [Requested(url)], [Slept(wait)]);
            return NoData;
        } else {
          if errorDelay < 0 {
            return Raised(ValueError);
          }
          log := log + [Slept(errorDelay)];
          EventsAssociate(old(log), [Requested(url)], [Slept(errorDelay)]);
          if RotatesAt(retry) {
            session := session + 1;
            log := log + [Rotated];
            EventsAssociate(old(log), [Requested(url), Slept(errorDelay)], [Rotated]);
          } else if retry == MaxRetries {
            return NoData;
          }
          ghost var step := FailureStep(url, retry, errorDelay);
          assert log == old(log) + step;
          assert rest[1..] == replies[served..];
          ExecuteFailure(url, rest, retry, errorDelay);
          ghost var later := Execute(url, rest[1..], retry + 1, errorDelay);
          response := ExecuteSearch(url, retry + 1);
          EventsAssociate(old(log), step, later.events);
        }
    }
      /** The loop state of `perform_search` with the locals given. */
    function Looping(url: string, response: Fetched, min: Option<Tweet>, more: bool): Crawler
      reads this
    {
      Crawler(State(), session, served, log, url, response, min, more)
    }

    /** The body of the loop of `perform_search` for a non-empty page:
        `min_tweet` set on the first page, the page saved, and the next page
        requested unless the cursor stalls; `stop` is the outcome where the
        body ends the loop. */
    method SavePage(query: string, date: string, tweets: seq<Tweet>, url0: string, response0: Fetched, min0: Option<Tweet>)
      returns (url: string, response: Fetched, minTweet: Option<Tweet>, more: bool, stop: Option<Outcome>)
      requires Valid() && tweets != []
      modifies this
      ensures Valid()
      ensures var c := Config(query, date, limit, filepath, rateDelay, errorDelay);
              var t := Page(c, replies, Crawler(old(State()), old(session), old(served), old(log), url0, response0, min0, true), tweets);
              TurnState(t) == Looping(url, response, minTweet, more)
              && (t.Stop? <==> stop.Some?) && (t.Stop? ==> stop.value == t.outcome)
    {
      ghost var c := Config(query, date, limit, filepath, rateDelay, errorDelay);
      ghost var st := Looping(url0, response0, min0, true);
      url, response, minTweet, more := url0, response0, min0, true;
      if minTweet.None? {
        minTweet := Some(tweets[0]);
      }
      var ending := SaveTweets(tweets, date);
      if ending.Threw? {
        return url, response, minTweet, more, Some(Failed(ending.exc));
      }
      more := ending.more;
      ghost var st1 := Looping(url, response, minTweet, more);
      assert Page(c, replies, st, tweets) == Advance(c, replies, st1, tweets[|tweets| - 1]);
      url, response, stop := AdvancePage(query, date, tweets[|tweets| - 1], url, response, minTweet, more);
    }

    /** The end of the loop body: sleep and request the page after `max`,
        unless it shares its id with `min_tweet`. */
    method AdvancePage(query: string, date: string, max: Tweet, url0: string, response0: Fetched, minTweet: Option<Tweet>, more: bool)
      returns (url: string, response: Fetched, stop: Option<Outcome>)
      requires Valid() && minTweet.Some?
      modifies this
      ensures Valid()
      ensures var c := Config(query, date, limit, filepath, rateDelay, errorDelay);
              var t := Advance(c, replies, Crawler(old(State()), old(session), old(served), old(log), url0, response0, minTweet, more), max);
              TurnState(t) == Looping(url, response, minTweet, more)
              && (t.Stop? <==> stop.Some?) && (t.Stop? ==> stop.value == t.outcome)
    {
      ghost var c := Config(query, date, limit, filepath, rateDelay, errorDelay);
      ghost var st1 := Looping(url0, response0, minTweet, more);
      url, response := url0, response0;
      if minTweet.value.idStr != max.idStr {
        url := ConstructUrl(query, Some(Cursor(max, minTweet.value)));
        if rateDelay < 0 {
          return url, response, Some(Failed(ValueError));
        }
        log := log + [Slept(rateDelay)];
        ghost var st2 := st1.(log := st1.log + [Slept(c.rateDelay)]);
        response := RequestPage(c, st2, url);
        assert Advance(c, replies, st1, max) == Next(Request(c, replies, st2, url));
      } else {
        assert Advance(c, replies, st1, max) == Next(st1);
      }
      return url, response, None;
    }

    /** A first request for `url` from the crawl state `st`, which the
        object holds: the state afterwards is the one `Request` gives. */
    method RequestPage(ghost c: Config, ghost st: Crawler, url: string) returns (response: Fetched)
      requires Valid() && c.errorDelay == errorDelay
      requires st == Looping(st.url, st.response, st.min, st.more)
      modifies this
      ensures Valid()
      ensures Looping(url, response, st.min, st.more) == Request(c, replies, st, url)
    {
      ghost var f := Execute(url, replies[served..], 0, errorDelay);
      response := ExecuteSearch(url, 0);
      assert response == f.result && served == st.served + f.used;
      assert session == st.session + f.rotations && log == st.log + f.events;
      RequestFields(c, replies, st, url, f);
    }

    /** `perform_search(query, date)`. */
    method PerformSearch(query: string, date: string) returns (outcome: Outcome)
      requires Valid()
      modifies this
      ensures Valid()
      ensures var c := Config(query, date, limit, filepath, rateDelay, errorDelay);
              var r := Crawl.PerformSearch(c, replies, old(State()), old(session), old(served), old(log));
              outcome == r.1 && Now() == Progress(r.0.sink, r.0.session, r.0.served, r.0.log)
    {
      ghost var c := Config(query, date, limit, filepath, rateDelay, errorDelay);
      ghost var goal := Crawl.PerformSearch(c, replies, State(), session, served, log);
      var url := ConstructUrl(query, None);
      var more := true;
      var minTweet: Option<Tweet> := None;
      var response := RequestPage(c, Looping(url, Unsupplied, None, true), url);
      assert Looping(url, response, minTweet, more) == Start(c, replies, old(State()), old(session), old(served), old(log));
      while response.Data? && more && response.body.itemsHtml.Html?
        invariant Valid()
        invariant Ready(c, replies, Looping(url, response, minTweet, more))
        invariant Run(c, replies, Looping(url, response, minTweet, more)) == goal
        decreases Measure(c, Looping(url, response, minTweet, more))
      {
        RunStep(c, replies, Looping(url, response, minTweet, more));
        var stop;
        url, response, minTweet, more, stop := LoopBody(query, date, url, response, minTweet);
        if stop.Some? {
          return stop.value;
        }
      }
      RunStep(c, replies, Looping(url, response, minTweet, more));
      outcome := LoopExit(query, date, url, response, minTweet, more);
    }

    /** One pass of the loop body of `perform_search`: the page parsed, and
        the loop left at once on a page that fails to parse or has no tweet. */
    method LoopBody(query: string, date: string, url0: string, response0: Fetched, min0: Option<Tweet>)
      returns (url: string, response: Fetched, minTweet: Option<Tweet>, more: bool, stop: Option<Outcome>)
      requires Valid() && response0.Data? && response0.body.itemsHtml.Html?
      requires Ready(Config(query, date, limit, filepath, rateDelay, errorDelay), replies, Looping(url0, response0, min0, true))
      modifies this
      ensures Valid()
      ensures var c := Config(query, date, limit, filepath, rateDelay, errorDelay);
              var t := Step(c, replies, Crawler(old(State()), old(session), old(served), old(log), url0, response0, min0, true));
              TurnState(t) == Looping(url, response, minTweet, more)
              && (t.Stop? <==> stop.Some?) && (t.Stop? ==> stop.value == t.outcome)
    {
      ghost var c := Config(query, date, limit, filepath, rateDelay, errorDelay);
      ghost var st := Looping(url0, response0, min0, true);
      var items := response0.body.itemsHtml.items;
      var parsed := ParseTweets(items);
      if parsed.None? {
        return url0, response0, min0, true, Some(Failed(ValueError));
      }
      var tweets := parsed.value;
      if tweets == [] {
        return url0, response0, min0, true, Some(Finished(EmptyPage));
      }
      assert Step(c, replies, st) == Page(c, replies, st, tweets);
      url, response, minTweet, more, stop := SavePage(query, date, tweets, url0, response0, min0);
    }

    /** How `perform_search` ends once its loop condition fails. */
    method LoopExit(query: string, date: string, url: string, response: Fetched, minTweet: Option<Tweet>, more: bool)
      returns (outcome: Outcome)
      requires Ready(Config(query, date, limit, filepath, rateDelay, errorDelay), replies, Looping(url, response, minTweet, more))
      requires !(response.Data? && more && response.body.itemsHtml.Html?)
      ensures var t := Step(Config(query, date, limit, filepath, rateDelay, errorDelay), replies, Looping(url, response, minTweet, more));
              t.Stop? && outcome == t.outcome && t.last == Looping(url, response, minTweet, more)
    {
      match response
      case Raised(e) => return Failed(e);
      case Unsupplied => return Finished(OutOfReplies);
      case NoData => return Finished(NoneResponse);
      case Data(body) =>
        if !more {
          return Finished(SinkFull);
        } else if body.itemsHtml.Missing? {
          return Failed(KeyError);
        } else if body.itemsHtml.Unindexable? {
          return Failed(TypeError);
        } else {
          return Finished(NullItems);
        }
    }

    /** `search(query)`: the day slices of the period crawled in the order
        they are submitted; the outcome of each is collected here, where the
        source drops it. `ValueError` where a bound does not parse or the
        period has no day, with nothing crawled. */
    method Search(query: string) returns (result: Result<seq<Outcome>, Exc>)
      requires Valid()
      modifies this
      ensures Valid()
      ensures match DaySlices(query, since, until)
              case Err(e) => result == Err(e) && Now() == old(Now())
              case Ok(slices) =>
                var r := SearchSlices(rateDelay, errorDelay, limit, filepath, replies, slices, old(Now()));
                result == Ok(r.1) && Now() == r.0
    {
      var timeSince := ParseYmd(since);
      var timeUntil := ParseYmd(until);
      if timeSince.None? || timeUntil.None? {
        assert DaySlices(query, since, until) == Err(ValueError);
        return Err(ValueError);
      }
      var nDays := Civil.Ordinal(timeUntil.value) - Civil.Ordinal(timeSince.value);
      if nDays <= 0 {
        assert DaySlices(query, since, until) == Err(ValueError);
        return Err(ValueError);
      }
      var first := Civil.Ordinal(timeSince.value);
      DaySlicesDays(query, since, until, first, nDays);
      var outcomes := SearchDays(query, first, nDays);
      return Ok(outcomes);
    }

    /** The loop of `search(query)`: the slice of each of the `nDays` days
        from the day with ordinal `first` searched in turn. */
    method SearchDays(query: string, first: int, nDays: nat) returns (outcomes: seq<Outcome>)
      requires Valid() && 1 <= first && first + nDays <= Civil.MaxOrdinal
      modifies this
      ensures Valid()
      ensures (Now(), outcomes) == SearchSlices(rateDelay, errorDelay, limit, filepath, replies, Days(query, first, nDays), old(Now()))
    {
      outcomes := [];
      for i := 0 to nDays
        invariant Valid()
        invariant (Now(), outcomes) == SearchSlices(rateDelay, errorDelay, limit, filepath, replies, Days(query, first, i), old(Now()))
      {
        var slice := SliceAt(query, first, i);
        ghost var done := Days(query, first, i);
        assert Days(query, first, i + 1) == done + [slice];
        assert (done + [slice])[..i] == done;
        var o := RunTask(slice);
        outcomes := outcomes + [o];
      }
    }

    /** One task of the pool: `perform_search` of a slice. */
    method RunTask(slice: Slice) returns (outcome: Outcome)
      requires Valid()
      modifies this
      ensures Valid()
      ensures (Now(), outcome) == CrawlSlice(rateDelay, errorDelay, limit, filepath, replies, slice, old(Now()))
    {
      outcome := PerformSearch(slice.query, slice.date);
    }
  }
}
