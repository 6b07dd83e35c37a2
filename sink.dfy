/** The hour-bucketed sink of `TwitterSlicer`: `save_tweets` and
    `close_file` as functions on a value holding the shared counter, the open
    buckets (date key to the hour keys whose file is open) and the contents
    of every file written, one tweet per JSON line. */
module HourBuckets {
  import opened Wrappers
  import opened Text
  import opened TimeFormat
  import opened Search

  datatype Sink = Sink(counter: int, buckets: map<string, set<string>>, files: map<string, seq<Tweet>>)

  /** `'{0}.{1}.{2}.{3}'.format(filepath, date, hour, 'jsonl')`. */
  function FileName(path: string, date: string, hour: string): string
  {
    path + "." + date + "." + hour + ".jsonl"
  }

  /** Under one output path, a date and an hour without a `.` name their own
      file: two buckets share a file name if and only if they are the same. */
  lemma FileNameInjective(path: string, d1: string, h1: string, d2: string, h2: string)
    requires '.' !in d1 && '.' !in h1 && '.' !in d2 && '.' !in h2
    ensures FileName(path, d1, h1) == FileName(path, d2, h2) <==> d1 == d2 && h1 == h2
  {
    var n1, n2 := FileName(path, d1, h1), FileName(path, d2, h2);
    if n1 == n2 {
      var m1, m2 := d1 + ['.'] + h1, d2 + ['.'] + h2;
      assert n1 == path + "." + m1 + ".jsonl";
      assert n2 == path + "." + m2 + ".jsonl";
      assert m1 == n1[|path| + 1..|n1| - 6];
      assert m2 == n2[|path| + 1..|n2| - 6];
      SplitJoin(d1, '.', h1);
      SplitJoin(h1, '.', []);
      SplitJoin(d2, '.', h2);
      SplitJoin(h2, '.', []);
      assert [d1, h1] == Split(m1, '.') == Split(m2, '.') == [d2, h2];
    }
  }

  /** Every open bucket has its file. */
  predicate Valid(s: Sink, path: string)
  {
    forall d, h | d in s.buckets && h in s.buckets[d] :: FileName(path, d, h) in s.files
  }

  /** `str(time.strptime(tweet['created_at'], DATE_FORMAT).tm_hour)`. */
  function HourKey(t: Tweet): (r: Result<string, Exc>)
    ensures r.Ok? ==> IsDecimal(r.value)
  {
    match t.createdAt
    case None => Err(TypeError)
    case Some(text) =>
      match ParseStamp(text)
      case None => Err(ValueError)
      case Some(st) => Ok(Str(st.hour))
  }

  /** `io.open(name, 'w')`: the file exists and is empty. */
  function Open(s: Sink, date: string, hour: string, name: string): Sink
    requires date in s.buckets
  {
    Sink(s.counter, s.buckets[date := s.buckets[date] + {hour}], s.files[name := []])
  }

  /** `close_file(date, hour)`: closes and forgets the bucket of the hour
      after `hour`. */
  function Close(s: Sink, date: string, hour: string): (r: Result<Sink, Exc>)
    ensures r.Ok? <==> IsDecimal(hour) && date in s.buckets && Str(DigitsValue(hour) + 1) in s.buckets[date]
    ensures r.Ok? ==> r.value == Sink(s.counter, s.buckets[date := s.buckets[date] - {Str(DigitsValue(hour) + 1)}], s.files)
  {
    if !IsDecimal(hour) then Err(ValueError)
    else
      var previous := Str(DigitsValue(hour) + 1);
      if date !in s.buckets || previous !in s.buckets[date] then Err(KeyError)
      else Ok(Sink(s.counter, s.buckets[date := s.buckets[date] - {previous}], s.files))
  }

  /** A tweet of a batch together with its hour key. */
  datatype Entry = Entry(tweet: Tweet, hour: Result<string, Exc>)

  /** The tweets of a batch with their hour keys. */
  function Entries(tweets: seq<Tweet>): (r: seq<Entry>)
    ensures |r| == |tweets|
    ensures forall i | 0 <= i < |tweets| :: r[i] == Entry(tweets[i], HourKey(tweets[i]))
  {
    seq(|tweets|, i requires 0 <= i < |tweets| => Entry(tweets[i], HourKey(tweets[i])))
  }

  /** The part of one pass of the loop of `save_tweets` that makes sure the
      bucket (`date`, `hour`) is open: a first bucket for a new date is
      opened at once, and any other missing one replaces the bucket of the
      hour after it through `close_file`. */
  function OpenBucket(s: Sink, path: string, date: string, hour: string): (r: Result<Sink, Exc>)
    requires Valid(s, path)
    ensures r.Ok? ==> Valid(r.value, path) && date in r.value.buckets && hour in r.value.buckets[date]
                      && r.value.counter == s.counter
  {
    var name := FileName(path, date, hour);
    var s1 := if date !in s.buckets then Sink(s.counter, s.buckets[date := {hour}], s.files[name := []]) else s;
    if hour in s1.buckets[date] then Ok(s1)
    else match Close(s1, date, hour)
      case Err(x) => Err(x)
      case Ok(s2) => Ok(Open(s2, date, hour, name))
  }

  /** One pass of the loop of `save_tweets` for a tweet of the slice `date`
      with hour key `e.hour`: the state after the tweet is written, or the
      exception that stops the loop (raised before anything changed). */
  function SaveOne(s: Sink, path: string, date: string, e: Entry): (r: Result<Sink, Exc>)
    requires Valid(s, path)
    ensures r.Ok? ==> Valid(r.value, path)
  {
    match e.hour
    case Err(x) => Err(x)
    case Ok(hour) =>
      match OpenBucket(s, path, date, hour)
      case Err(x) => Err(x)
      case Ok(s3) =>
        var name := FileName(path, date, hour);
        Ok(Sink(s3.counter + 1, s3.buckets, s3.files[name := s3.files[name] + [e.tweet]]))
  }

  /** How `save_tweets` ends: with its return value, or with an exception. */
  datatype Ending = Returned(more: bool) | Threw(exc: Exc)

  datatype Saved = Saved(sink: Sink, ending: Ending)

  /** `save_tweets(tweets, date)` with the item budget `limit`. */
  function Save(s: Sink, limit: int, path: string, date: string, tweets: seq<Entry>): (r: Saved)
    requires Valid(s, path)
    ensures Valid(r.sink, path)
    decreases |tweets|
  {
    if tweets == [] then Saved(s, Returned(true))
    else
      match SaveOne(s, path, date, tweets[0])
      case Err(x) => Saved(s, Threw(x))
      case Ok(s1) =>
        if s1.counter >= limit then Saved(s1, Returned(false))
        else Save(s1, limit, path, date, tweets[1..])
  }

  /** A tweet saved below the budget leaves the rest to save from the new sink. */
  lemma SaveStep(s: Sink, limit: int, path: string, date: string, tweets: seq<Entry>)
    requires Valid(s, path) && tweets != [] && SaveOne(s, path, date, tweets[0]).Ok?
    requires SaveOne(s, path, date, tweets[0]).value.counter < limit
    ensures Save(s, limit, path, date, tweets) == Save(SaveOne(s, path, date, tweets[0]).value, limit, path, date, tweets[1..])
  {
  }

  /** The tweets written one after another, ignoring the budget. */
  function SaveAll(s: Sink, path: string, date: string, tweets: seq<Entry>): (r: Result<Sink, Exc>)
    requires Valid(s, path)
    ensures r.Ok? ==> Valid(r.value, path)
    decreases |tweets|
  {
    if tweets == [] then Ok(s)
    else
      match SaveOne(s, path, date, tweets[0])
      case Err(x) => Err(x)
      case Ok(s1) => SaveAll(s1, path, date, tweets[1..])
  }

  /** A written tweet leaves the rest to write from the new sink. */
  lemma SaveAllStep(s: Sink, path: string, date: string, tweets: seq<Entry>)
    requires Valid(s, path) && tweets != [] && SaveOne(s, path, date, tweets[0]).Ok?
    ensures SaveAll(s, path, date, tweets) == SaveAll(SaveOne(s, path, date, tweets[0]).value, path, date, tweets[1..])
  {
  }

  /** How many tweets of a batch of `size` are written when no exception
      intervenes: all of them while the counter stays below the budget, and
      at least one. */
  function Quota(counter: int, limit: int, size: nat): (n: nat)
    ensures n <= size
  {
    if size == 0 then 0
    else if limit - counter < 1 then 1
    else if limit - counter < size then limit - counter
    else size
  }

  // ---- properties ----

  /** Each written tweet adds exactly one to the counter and one line at the
      end of the file of its slice date and hour; the file was emptied first
      when its bucket had to be opened. No other file changes, and the only
      bucket set that changes is the date's: it gains the tweet's hour and,
      where `close_file` ran, loses the hour after it. */
  lemma SaveOneEffect(s: Sink, path: string, date: string, e: Entry)
    requires Valid(s, path) && SaveOne(s, path, date, e).Ok?
    ensures e.hour.Ok?
    ensures var hour := e.hour.value;
            var name := FileName(path, date, hour);
            var s' := SaveOne(s, path, date, e).value;
            var wasOpen := date in s.buckets && hour in s.buckets[date];
            var hours := if date !in s.buckets then {hour}
                         else if wasOpen then s.buckets[date]
                         else s.buckets[date] - {Str(DigitsValue(hour) + 1)} + {hour};
            s'.counter == s.counter + 1
            && s'.files == s.files[name := (if wasOpen then s.files[name] else []) + [e.tweet]]
            && s'.buckets == s.buckets[date := hours]
  {
    var hour := e.hour.value;
    if date in s.buckets && hour in s.buckets[date] {
      assert s.buckets[date := s.buckets[date]] == s.buckets;
    }
  }

  /** `close_file` removes the hour after the tweet's, not the one before:
      with exactly one open hour `x` for the date, a tweet of hour `y` is
      saved if and only if `y` is `x` or the hour just before it, and then
      `y` is the only open hour. */
  lemma HourSuccession(s: Sink, path: string, date: string, t: Tweet, x: nat, y: nat)
    requires Valid(s, path)
    requires date in s.buckets && s.buckets[date] == {Str(x)}
    ensures SaveOne(s, path, date, Entry(t, Ok(Str(y)))).Ok? <==> y == x || y + 1 == x
    ensures SaveOne(s, path, date, Entry(t, Ok(Str(y)))).Ok? ==>
              SaveOne(s, path, date, Entry(t, Ok(Str(y)))).value.buckets[date] == {Str(y)}
  {
    StrInjective(x, y);
    StrValue(y);
    StrInjective(y + 1, x);
    if y + 1 == x {
      assert {Str(x)} - {Str(x)} + {Str(y)} == {Str(y)};
    }
  }

  /** At most one open file per date. */
  predicate OnePerDate(s: Sink)
  {
    forall d | d in s.buckets :: |s.buckets[d]| == 1
  }

  /** Saving a tweet keeps at most one open file per date. */
  lemma SaveOneKeepsOnePerDate(s: Sink, path: string, date: string, e: Entry)
    requires Valid(s, path) && OnePerDate(s) && SaveOne(s, path, date, e).Ok?
    ensures OnePerDate(SaveOne(s, path, date, e).value)
  {
    var hour := e.hour.value;
    if date in s.buckets && hour !in s.buckets[date] {
      var x :| x in s.buckets[date];
      assert s.buckets[date] == {x} by {
        assert |s.buckets[date] - {x}| == 0;
      }
      var previous := Str(DigitsValue(hour) + 1);
      assert previous == x;
      assert s.buckets[date] - {previous} + {hour} == {hour};
    }
  }

  /** Saving a tweet adds one to the counter. */
  lemma SaveOneCounter(s: Sink, path: string, date: string, e: Entry)
    requires Valid(s, path) && SaveOne(s, path, date, e).Ok?
    ensures SaveOne(s, path, date, e).value.counter == s.counter + 1
  {
  }

  /** `save_tweets` writes the first `n` tweets of the batch, one after
      another, and nothing else; `n` is how far the counter moved. */
  lemma {:induction false} SaveWritesPrefix(s: Sink, limit: int, path: string, date: string, tweets: seq<Entry>)
    requires Valid(s, path)
    ensures var r := Save(s, limit, path, date, tweets);
            var n := r.sink.counter - s.counter;
            0 <= n <= |tweets| && SaveAll(s, path, date, tweets[..n]) == Ok(r.sink)
    decreases |tweets|
  {
    if tweets == [] {
    } else if SaveOne(s, path, date, tweets[0]).Err? {
      assert tweets[..0] == [];
    } else {
      var s1 := SaveOne(s, path, date, tweets[0]).value;
      SaveOneCounter(s, path, date, tweets[0]);
      if s1.counter >= limit {
        assert tweets[..1][1..] == [];
        SaveAllStep(s, path, date, tweets[..1]);
      } else {
        SaveStep(s, limit, path, date, tweets);
        SaveWritesPrefix(s1, limit, path, date, tweets[1..]);
        var r := Save(s1, limit, path, date, tweets[1..]);
        var n := r.sink.counter - s.counter;
        var written := tweets[..n];
        assert written[0] == tweets[0];
        assert written[1..] == tweets[1..][..n - 1];
        SaveAllStep(s, path, date, written);
      }
    }
  }

  /** An exception stops `save_tweets` at the first tweet that cannot be
      saved, with the tweets before it written. */
  lemma {:induction false} SaveStopsAtError(s: Sink, limit: int, path: string, date: string, tweets: seq<Entry>)
    requires Valid(s, path)
    ensures var r := Save(s, limit, path, date, tweets);
            var n := r.sink.counter - s.counter;
            r.ending.Threw? ==> 0 <= n < |tweets| && SaveOne(r.sink, path, date, tweets[n]) == Err(r.ending.exc)
    decreases |tweets|
  {
    if tweets != [] && SaveOne(s, path, date, tweets[0]).Ok? {
      var s1 := SaveOne(s, path, date, tweets[0]).value;
      SaveOneCounter(s, path, date, tweets[0]);
      if s1.counter < limit {
        SaveStopsAtError(s1, limit, path, date, tweets[1..]);
        var r := Save(s1, limit, path, date, tweets[1..]);
        var n := r.sink.counter - s.counter;
        if r.ending.Threw? {
          assert tweets[1..][n - 1] == tweets[n];
        }
      }
    }
  }

  /** How many tweets `save_tweets` writes is fixed by the budget: it
      returns `False` right after the write that brings the counter to
      `limit`, `True` when the batch ran out first, and fewer tweets are
      written only when an exception stops it. */
  lemma {:induction false} SaveQuota(s: Sink, limit: int, path: string, date: string, tweets: seq<Entry>)
    requires Valid(s, path)
    ensures var r := Save(s, limit, path, date, tweets);
            var n := r.sink.counter - s.counter;
            (r.ending.Threw? ==> n < Quota(s.counter, limit, |tweets|))
            && (r.ending.Returned? ==>
                  n == Quota(s.counter, limit, |tweets|) && r.ending.more == (tweets == [] || s.counter + n < limit))
    decreases |tweets|
  {
    if tweets != [] && SaveOne(s, path, date, tweets[0]).Ok? {
      var s1 := SaveOne(s, path, date, tweets[0]).value;
      SaveOneCounter(s, path, date, tweets[0]);
      if s1.counter < limit {
        SaveQuota(s1, limit, path, date, tweets[1..]);
      }
    }
  }

  /** Under the budget, a non-empty batch always gets at least one tweet
      written unless it raises, even when the counter already reached
      `limit`. */
  lemma SaveWritesOne(s: Sink, limit: int, path: string, date: string, tweets: seq<Entry>)
    requires Valid(s, path) && tweets != []
    requires Save(s, limit, path, date, tweets).ending.Returned?
    ensures Save(s, limit, path, date, tweets).sink.counter > s.counter
    ensures Save(s, limit, path, date, tweets).ending.more ==> Save(s, limit, path, date, tweets).sink.counter < limit
  {
    SaveQuota(s, limit, path, date, tweets);
  }

  /** The hour key of a tweet is the UTC hour of its epoch, unpadded; a
      tweet without a timestamp cannot be saved. */
  lemma HourKeyOfItem(item: Item)
    requires ToTweet(item).Some?
    ensures item.epoch.None? ==> HourKey(ToTweet(item).value) == Err(TypeError)
    ensures item.epoch.Some? ==> HourKey(ToTweet(item).value) == Ok(Str((item.epoch.value / 3600) % 24))
  {
    if item.epoch.Some? {
      CreatedAtHour(item.epoch.value);
    }
  }
}
