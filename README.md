# Twitter search scraper: crawl loop, retry policy, day slices and hour buckets

This project models the sequential core of a Twitter search scraper and proves properties of the model in Dafny.

- `TwitterSearch.perform_search` crawls one query page by page, using `min_tweet`/`max_tweet` cursors.
- `TwitterSearch.execute_search` classifies failed requests and retries them, replacing the HTTP session now and then.
- `TwitterSearch.construct_url` builds the search URL.
- The `created_at` rendering of a tweet's epoch comes from `parse_tweets`.
- `TwitterSlicer.search` cuts the period `[since, until)` into one-day sub-queries.
- `TwitterSlicer.save_tweets` and `close_file` write tweets into one file per (day, hour), under a shared item budget.

The modules follow the program:

| file | module | what it holds |
|---|---|---|
| `wrappers.dfy` | `Wrappers` | `Option` and `Result` |
| `text.dfy` | `Text` | `str(int)`, `int(str)`, zero-padded fields, `str.split` |
| `civil.dfy` | `Civil` | proleptic Gregorian dates, `toordinal`, `fromordinal`, `weekday` |
| `timefmt.dfy` | `TimeFormat` | `utcfromtimestamp`; `strftime`/`strptime` for `"%Y-%m-%d"` and `"%a %b %d %H:%M:%S +0000 %Y"` |
| `urlencode.dfy` | `UrlEncode` | UTF-8, `quote_plus`, `urlencode`, `construct_url`, and the decoders that invert them |
| `search.dfy` | `Search` | tweet records, `created_at`, server answers, and `execute_search` as the function `Execute` |
| `sink.dfy` | `HourBuckets` | `save_tweets` and `close_file` as functions on a sink value |
| `crawl.dfy` | `Crawl` | `perform_search` as a step function `Step` and its run `Run` |
| `slices.dfy` | `Slices` | the day slices of `search` |
| `slicer.dfy` | `Slicer` | the class `TwitterSlicer` (see below) |

`TwitterSlicer` in `slicer.dfy` has the scraper's fields: the counter, the bucket map, the written files, the session generation, the answers consumed and the event log. Its methods update those fields in place. The source's loops are loops there too (`SaveTweets`, `PerformSearch`, `SearchDays`), and the retries of `execute_search` are a recursion (`ExecuteSearch`). The other methods (`OpenHour`, `SaveTweet`, `LoopBody`, `LoopExit`, `SavePage`, `AdvancePage`, `RequestPage`) are pieces of those loop bodies, split out so each can be proved on its own. Each method is proved to leave exactly the state, and give exactly the result, that the functional model of the same operation computes. The properties are then proved as lemmas about the functions.

The network is an input: `replies` is the sequence of answers the server gives, one per request, in order. A request consumes the next answer.

- `Answered(payload)`: a response, whatever its status. Its body is a JSON value other than `null`, the JSON `null` (which `response.json()` returns as `None`), or text that is not JSON.
- `HttpError(status, payload, reset)`: `session.get` raising `HTTPError` for a response with that status, body and `x-rate-limit-reset` header. A plain `requests.Session()`, which is what the scraper creates, never raises `HTTPError` by itself: an error status simply comes back as an `Answered` response. The model keeps this answer so that the `except HTTPError` branch is modelled as written. The first four bullets below, on retries, session replacement, HTTP 429 and HTTP 400, describe that branch.
- `Unreachable`: a connection failure, which is not an `HTTPError`.

Sleeps, requests and session replacements are recorded as events in a log. The HTML extractor is an input too: each `Item` is what it finds in one stream item (id, optional epoch, and the rest as one opaque value).

Points where the model follows the code rather than an ideal design:

- **No give-up after 25 failures.** The rotation test `retry_num % 5 == 0 and retry_num > 0` comes first, and 25 is a multiple of 5, so the `retry_num == MAX_RETRIES` exit can never fire. A run of failures retries for as long as failures keep coming (`Search.FailureStreak`, `Search.NoDataOnlyAfterRateLimit`).
- **Session replacement starts late.** The first new session is made before the request with retry number 6, which is the 7th request, after six failures. After that, every fifth retry gets one.
- **HTTP 429 does not retry** (when raised as `HTTPError`). It sleeps `reset + retry_num * error_delay`, using the raw header value, and then the call returns `None`.
- **HTTP 400 is not "zero items"** (when raised as `HTTPError`). The error body is returned as if it were a page:
  - a body without `items_html` raises `KeyError`;
  - a `null` `items_html` ends the loop;
  - a body that is JSON `null` is returned as `None` and ends the loop.
- **The loop reads any JSON value as an object.** A body that is a JSON list, string, number or boolean raises `TypeError` at `response['items_html']` in the loop test.
- **An equal cursor does not stop the loop.** When the first and last tweet ids are equal, no new request is made. The loop saves the same page again until the sink returns `False` or raises (`Crawl.StallResaves`).
  - This also means the loop always terminates: every pass writes at least one tweet, and the sink refuses once the counter reaches `limit`. `Crawl.Run` terminates by that measure, with no fuel.
- **The pool is sized by the number of days.** `n_threads` is stored and never read. A period of zero or negative length makes the pool constructor raise `ValueError` before any slice runs.
- **Hours must descend.**
  - `close_file` closes the hour after the tweet's hour, not the one before.
  - So, starting from one open hour `x`, a tweet of hour `x - 1` switches files, and a tweet of any other new hour raises `KeyError`.
  - Hours `10, 10, 11` therefore raise at the third tweet (`HourBuckets.HourSuccession`).
- **The loop test compares ids by value.** `min_tweet['id_str'] is not max_tweet['id_str']` is modelled as `!=`, assuming equal strings are the same object.

## Model

| member | source | states |
|---|---|---|
| Text.Str | TwitterSlicer.py:65 | `str(n)` of an hour is a non-empty string of decimal digits |
| Text.StrValue | TwitterSlicer.py:106 | `int(str(n)) == n`: the hour key `close_file` parses reads back as the hour that was written |
| Text.StrInjective | TwitterSlicer.py:65 | different hours get different `str` keys, and equal keys mean equal hours |
| Text.PadValue | TwitterSearch.py:165 | a zero-padded `strftime` field reads back as the number written |
| Text.SplitOfJoin | TwitterSearch.py:202 | splitting the `&`-joined query at `&` gives back the pairs when no pair contains `&` |
| Civil.YearLength | TwitterSlicer.py:48-49 | consecutive January firsts are 365 days apart, or 366 in a Gregorian leap year |
| Civil.FromOrdinalHolds | TwitterSlicer.py:48-49 | `fromordinal(n)` is a valid date whose ordinal is `n`, for every `n` from 1 to the ordinal of 9999-12-31 |
| Civil.FromOrdinalOrdinal | TwitterSlicer.py:48-49 | `fromordinal(d.toordinal()) == d` for every valid date |
| Civil.OrdinalInjective | TwitterSlicer.py:45 | two valid dates have the same ordinal if and only if they are equal |
| Civil.OrdinalBounds | TwitterSlicer.py:42-43 | a parsed date's ordinal lies within its own year and within 1 to the ordinal of 9999-12-31 |
| Civil.OrdinalRange | TwitterSlicer.py:42-43 | a parsed date's ordinal lies from 1 to the ordinal of 9999-12-31 |
| Civil.Weekday | TwitterSearch.py:165 | the weekday `%a` names lies between Monday (0) and Sunday (6) |
| TimeFormat.UtcFromTimestamp | TwitterSearch.py:164 | a clock time returned is valid, and converts back to exactly the given epoch seconds |
| TimeFormat.UtcFromTimestampRange | TwitterSearch.py:164 | the conversion succeeds if and only if the epoch lies between 0001-01-01T00:00:00 and 9999-12-31T23:59:59 UTC |
| TimeFormat.FormatTexts | TwitterSearch.py:17 | the two formats are exactly `"%Y-%m-%d"` and `"%a %b %d %H:%M:%S +0000 %Y"` |
| TimeFormat.Strptime | TwitterSlicer.py:64 | every field matched lies in the range its directive's pattern admits |
| TimeFormat.ParseYmd | TwitterSlicer.py:42-43 | `strptime(s, "%Y-%m-%d")` succeeds only with a valid calendar date |
| TimeFormat.ParseStamp | TwitterSlicer.py:64 | a parsed `created_at` has an hour from 0 to 23 |
| TimeFormat.DirectiveOfField | TwitterSearch.py:165 | each of `%a %b %d %m %Y %H %M %S %%` matches back exactly the field `strftime` wrote for it, whatever text follows |
| TimeFormat.StrptimeStrftime | TwitterSlicer.py:64 | parsing what `strftime(fmt)` wrote, with the same supported format, yields every field the format writes and leaves the others at their defaults |
| TimeFormat.ParseFormatYmd | TwitterSlicer.py:50 | `strptime(d.strftime("%Y-%m-%d"), "%Y-%m-%d") == d` for every valid date |
| TimeFormat.FormatYmdText | TwitterSlicer.py:50 | `d.strftime("%Y-%m-%d")` is the zero-padded year, month and day joined by `-`: ten characters, none of them `.` |
| TimeFormat.FormatYmdInjective | TwitterSlicer.py:50 | two valid dates get the same `"%Y-%m-%d"` text if and only if they are equal |
| TimeFormat.ParseFormatStamp | TwitterSlicer.py:63-64 | parsing a `created_at` string yields the year, month, day, hour, minute, second and weekday of the clock time it was rendered from |
| UrlEncode.DecodeUtf8String | TwitterSearch.py:202 | UTF-8 decoding undoes the UTF-8 encoding of any string |
| UrlEncode.QuotePlus | TwitterSearch.py:202 | an escaped value uses only unreserved characters, `%` and `+`, so never `&` or `=` |
| UrlEncode.UnquoteQuotePlus | TwitterSearch.py:202 | `unquote_plus(quote_plus(s)) == s` for every string |
| UrlEncode.EncodePairs | TwitterSearch.py:202 | one `key=value` piece per parameter, none of them containing `&` |
| UrlEncode.ConstructUrlParams | TwitterSearch.py:191-203 | the URL decodes to exactly `f=tweets`, then `q` holding the query verbatim, then `max_position` with the cursor if and only if one is given |
| UrlEncode.ConstructUrlInjective | TwitterSearch.py:182-203 | two URLs are equal if and only if both queries and both cursors are equal |
| Search.CreatedAt | TwitterSearch.py:163-165 | a `created_at` text exists if and only if the epoch is within the range `utcfromtimestamp` accepts |
| Search.ToTweet | TwitterSearch.py:163-165 | the record keeps the item's id, epoch and fields, and has `created_at` if and only if it has an epoch |
| Search.ParseTweets | TwitterSearch.py:47 | one record per item in page order, or failure exactly when some item's timestamp conversion raises |
| Search.CreatedAtHour | TwitterSlicer.py:63-65 | a tweet's `created_at` parses back with the same format to the hour `(epoch div 3600) mod 24` |
| Search.Execute | TwitterSearch.py:68-106 | one call consumes no more answers than the server gave |
| Search.ExecuteFailure | TwitterSearch.py:94-106 | a transient failure requests, sleeps `error_delay`, replaces the session if and only if the retry number is a positive multiple of 5, and goes on as the call with the next retry number |
| Search.FailureStreak | TwitterSearch.py:94-106 | after `k` transient failures from retry 0, the call continues as retry number `k`, with no ceiling, after `(k - 1) div 5` session replacements and `k` sleeps of `error_delay` |
| Search.NoDataOnlyAfterRateLimit | TwitterSearch.py:78-104 | `None` is returned only right after an HTTP 429 or a body that is JSON `null`, so the `MAX_RETRIES` exit never fires |
| Search.RateLimitAfterFailures | TwitterSearch.py:86-93 | after `k` failures, a 429 with reset `t` sleeps `t + k * error_delay`, makes no further request, and returns `None` |
| Search.BadRequestAfterFailures | TwitterSearch.py:82-85 | after `k` failures, a 400 returns its error body as the result, with no further request |
| Search.ExecuteUrls | TwitterSearch.py:76 | every request of a call asks for the URL it was given, including the retries |
| Search.ExecuteRequests | TwitterSearch.py:76 | a call makes exactly as many requests as answers it consumes |
| HourBuckets.FileNameInjective | TwitterSlicer.py:72-79 | under one path, dates and hours without a `.` get the same file name if and only if both are equal |
| HourBuckets.HourKey | TwitterSlicer.py:63-65 | a bucket key is a non-empty string of decimal digits |
| HourBuckets.HourKeyOfItem | TwitterSlicer.py:63-65 | the key is `str((epoch div 3600) mod 24)`, unpadded; a tweet without an epoch raises `TypeError` |
| HourBuckets.Close | TwitterSlicer.py:105-108 | `close_file(date, hour)` succeeds if and only if the bucket `str(int(hour) + 1)` is open for the date, and then removes exactly that bucket |
| HourBuckets.OpenBucket | TwitterSlicer.py:67-81 | where the bucket of the tweet's hour can be opened, it is open afterwards, every open bucket still has its file, and the counter is untouched |
| HourBuckets.SaveOne | TwitterSlicer.py:61-90 | writing one tweet keeps every open bucket backed by a file |
| HourBuckets.SaveOneEffect | TwitterSlicer.py:68-90 | a written tweet adds exactly 1 to the counter and exactly one line to the end of its (slice date, hour) file, which was emptied first when its bucket was opened; no other file changes; the bucket map changes only at the slice date, which gains the tweet's hour and, when `close_file` ran, loses the hour after it |
| HourBuckets.HourSuccession | TwitterSlicer.py:75-80 | with one open hour `x`, a tweet of hour `y` is saved if and only if `y == x` or `y + 1 == x`, and then `y` is the only open hour |
| HourBuckets.SaveOneKeepsOnePerDate | TwitterSlicer.py:75-80 | saving a tweet keeps at most one open file per date |
| HourBuckets.SaveOneCounter | TwitterSlicer.py:85-87 | saving a tweet adds exactly one to the counter |
| HourBuckets.Save | TwitterSlicer.py:55-103 | `save_tweets` keeps every open bucket backed by a file |
| HourBuckets.SaveAll | TwitterSlicer.py:61-90 | writing tweets one after another, ignoring the budget, keeps every open bucket backed by a file |
| HourBuckets.Quota | TwitterSlicer.py:97-103 | the number of tweets the budget lets through never exceeds the batch |
| HourBuckets.SaveWritesPrefix | TwitterSlicer.py:61-103 | `save_tweets` writes exactly the first `n` tweets of the batch, in order, where `n` is how far the counter moved |
| HourBuckets.SaveStopsAtError | TwitterSlicer.py:64-77 | an exception stops the batch at the first tweet that cannot be saved, with the tweets before it written |
| HourBuckets.SaveQuota | TwitterSlicer.py:97-103 | without an exception the number written is exactly the budget's quota; the result is `True` if and only if the batch is empty or the counter stays below `limit` |
| HourBuckets.SaveWritesOne | TwitterSlicer.py:97-103 | a non-empty batch writes at least one tweet even when the counter already reached `limit`, and `True` means the counter is below `limit` |
| Crawl.CursorIds | TwitterSearch.py:62 | when neither id holds `-`, the cursor splits at `-` into exactly `TWEET`, the id of `max_tweet` and the id of `min_tweet` |
| Crawl.Request | TwitterSearch.py:66 | a request leaves the sink, `min_tweet` and `continue_search` unchanged |
| Crawl.Step | TwitterSearch.py:46-66 | a loop pass that goes on keeps the loop's invariants and strictly lowers the measure (remaining budget, plus one while the sink accepts tweets) |
| Crawl.Page | TwitterSearch.py:53-66 | a non-empty page that lets the loop go on lowers the measure |
| Crawl.Advance | TwitterSearch.py:60-66 | the end of the body keeps `min_tweet`, the sink and `continue_search`, and changes only the URL, the response and the request bookkeeping |
| Crawl.Run | TwitterSearch.py:46-66 | the loop terminates, and its final state keeps the invariants |
| Crawl.Start | TwitterSearch.py:41-45 | the first request consumes only answers the server gave |
| Crawl.PerformSearch | TwitterSearch.py:34-66 | a crawl keeps every open bucket backed by a file and consumes only answers the server gave |
| Crawl.RequestLog | TwitterSearch.py:66 | a request only appends to the log, and every request it logs asks for its URL |
| Crawl.AdvanceLog | TwitterSearch.py:60-66 | going on after a page only appends a sleep and requests, every one of them for the URL with cursor `"TWEET-" + <id of max_tweet> + "-" + <id of min_tweet>` |
| Crawl.PageLog | TwitterSearch.py:53-66 | a page sets `min_tweet` to its first tweet unless already set, and only appends requests for the URL whose cursor runs from the page's last tweet to `min_tweet` |
| Crawl.StepLog | TwitterSearch.py:46-66 | a pass only appends to the log; `min_tweet`, once set, never changes; when first set it is the first tweet of the page; every request carries the cursor ending in its id |
| Crawl.StepUrls | TwitterSearch.py:53-66 | a pass over a non-empty page asks, with every request it makes, for the URL with cursor `"TWEET-" + <id of the page's last tweet> + "-" + <id of min_tweet>` |
| Crawl.StepPage | TwitterSearch.py:46-58 | a pass over a page that parses to a non-empty list of tweets is the rest of the body for those tweets |
| Crawl.StepRequests | TwitterSearch.py:46-66 | a pass that makes a request had a non-empty page of tweets to save |
| Crawl.RunCursors | TwitterSearch.py:53-63 | over the whole loop `min_tweet` keeps its first value, and every later request's URL carries a cursor ending in `"-" + <id of min_tweet>` |
| Crawl.StallResaves | TwitterSearch.py:61-66 | when the first and last ids are equal, the loop makes no request and keeps the URL, ending only by the sink refusing (`False`) or raising |
| Crawl.RunStops | TwitterSearch.py:46-57 | the loop ends only on a `None` response, a sink that returned `False` with the counter at `limit`, a `null` `items_html`, an empty page, or answers that ran out |
| Crawl.StopExplained | TwitterSearch.py:46-57 | the pass that stops the loop stops for one of those reasons |
| Crawl.StepKeeps | TwitterSearch.py:46-57 | a pass that goes on keeps "`False` from the sink means the counter reached `limit`" and "answers run out only when all are used" |
| Crawl.ExecuteUnsupplied | TwitterSearch.py:75-78 | a request finds no answer only when every answer was consumed |
| Slices.Days | TwitterSlicer.py:47-52 | `n` days give exactly `n` slices |
| Slices.DaySlices | TwitterSlicer.py:42-52 | tasks are submitted if and only if both bounds parse and `since` is before `until`; otherwise the result is `ValueError` |
| Slices.DaysAt | TwitterSlicer.py:48-51 | slice `i` is the day `i` days after the first, with query `"<q> since:<d_i> until:<d_i+1>"` |
| Slices.DaysDates | TwitterSlicer.py:48-51 | slice `i` is dated on a text that parses back to `fromordinal(first + i)`, and its query ends at the next day |
| Slices.DaysAdjoin | TwitterSlicer.py:48-51 | the first slice starts on the first day; each slice's `until` is the next slice's date; the last runs to the day after the period |
| Slices.DayTextInjective | TwitterSlicer.py:50 | two day ordinals have the same text if and only if they are equal |
| Slices.DaysCover | TwitterSlicer.py:45-52 | a date is some slice's date if and only if its ordinal lies in `[first, first + n)` |
| Slices.DaysCoverDay | TwitterSlicer.py:45-52 | a day ordinal's text is some slice's date if and only if the ordinal lies in `[first, first + n)` |
| Slices.DaysDistinct | TwitterSlicer.py:47-52 | no two slices share a date |
| Slices.DaySlicesSpan | TwitterSlicer.py:42-51 | the first slice's date parses to `since`, even when `since` is not zero-padded; the last slice's query ends at `until` as `"%Y-%m-%d"` writes it |
| Slicer.CrawlSlice | TwitterSlicer.py:52 | one slice's crawl keeps every open bucket backed by a file and consumes only answers the server gave |
| Slicer.SearchSlices | TwitterSlicer.py:46-53 | crawling the slices in order gives one outcome per slice and keeps the sink's invariant |
| Slicer.TwitterSlicer.constructor | TwitterSlicer.py:22-35 | the settings are stored as given, including the unused thread count; there is no tweet, no bucket, no file and no request yet |
| Slicer.TwitterSlicer.CloseFile | TwitterSlicer.py:105-108 | the new bucket map is `HourBuckets.Close` of the old one, or on `ValueError`/`KeyError` it is unchanged; nothing else changes |
| Slicer.TwitterSlicer.SaveTweets | TwitterSlicer.py:55-103 | the new counter, buckets and files, and the return value or exception, are those of `HourBuckets.Save` on the old state |
| Slicer.TwitterSlicer.SaveTweet | TwitterSlicer.py:61-103 | one pass of the `for` loop leaves exactly `HourBuckets.SaveOne` of the old state, and ends `save_tweets` if and only if the counter reached `limit` or an exception was raised |
| Slicer.TwitterSlicer.OpenHour | TwitterSlicer.py:67-81 | the new bucket map and files are `HourBuckets.OpenBucket` of the old ones, or unchanged when `close_file` raises; nothing else changes |
| Slicer.TwitterSlicer.ExecuteSearch | TwitterSearch.py:68-106 | the result, answers consumed, session replacements and events are those of `Search.Execute`; the sink is untouched |
| Slicer.TwitterSlicer.RequestPage | TwitterSearch.py:45 | a first request from a crawl state leaves exactly the state of `Crawl.Request`, with the sink untouched |
| Slicer.TwitterSlicer.PerformSearch | TwitterSearch.py:34-66 | the outcome and the new state are those of `Crawl.PerformSearch` on the old state |
| Slicer.TwitterSlicer.LoopBody | TwitterSearch.py:47-66 | one pass of the loop body leaves the state of `Crawl.Step`, and leaves the loop exactly when `Crawl.Step` stops, with its outcome |
| Slicer.TwitterSlicer.LoopExit | TwitterSearch.py:46 | when the loop condition fails, `Crawl.Step` stops in the same state, with this outcome |
| Slicer.TwitterSlicer.SavePage | TwitterSearch.py:53-66 | the body for a non-empty page leaves the state of `Crawl.Page`, and stops exactly when `Crawl.Page` stops |
| Slicer.TwitterSlicer.AdvancePage | TwitterSearch.py:60-66 | the end of the body leaves the state of `Crawl.Advance`, and stops exactly when `Crawl.Advance` stops |
| Slicer.TwitterSlicer.Search | TwitterSlicer.py:37-53 | on `ValueError` nothing changes; otherwise the outcomes and the new state are those of crawling the slices of `Slices.DaySlices` in order |
| Slicer.TwitterSlicer.SearchDays | TwitterSlicer.py:47-52 | the `for` loop over the days gives the outcomes and state of `Slicer.SearchSlices` over `Slices.Days` |
| Slicer.TwitterSlicer.RunTask | TwitterSlicer.py:52 | one submitted task gives the outcome and state of `Slicer.CrawlSlice` |

## Left out

- HTML extraction with BeautifulSoup (`parse_tweets` apart from `created_at`): the extractor is an input, and each page is given as the items it yields.
- `requests`, `session.get` and `response.json()`: the server's answers are an input sequence. A body that is not JSON raises `ValueError`, as `json()` does.
- The `OutOfReplies` outcome (`Unsupplied` result) exists only in the model. It marks a server that gave no further answer, so every sequence of answers has a defined run.
- The user agent and the headers of `search` (TwitterSlicer.py:38-40, and the user agent of a new session): a session replacement is a counter and an event.
- `time.sleep`: each sleep is an event carrying its duration. A negative duration raises `ValueError`, as `time.sleep` does. The delays are integers, not floats. The 429 wait uses the raw header value and has no clock.
- `OverflowError` and `OSError` from `time.sleep` or `utcfromtimestamp` are folded into `ValueError`.
- `ThreadPoolExecutor`, `counter_lock` and `shutdown`: the tasks run one after another, in submission order, on one object. Interleavings are not modelled.
- Task outcomes: the source drops the futures' results and exceptions. The model collects one outcome per slice instead.
- `json.dumps` and the text of a line: a file is the sequence of tweets written to it, one per line.
- Logging, including the progress message every `SCRAPING_RATE` items (TwitterSlicer.py:92-95), and the `print` of the status code.
- The command-line entry point and its file-system checks. TwitterScraper.py is not part of this model.
- Python's recursion limit for the retries of `execute_search`: a long enough run of failures would raise `RecursionError` in Python, and the model retries without bound.
- Closing file handles: the model tracks which buckets are open, and what each file contains.
- `strptime` in the model:
  - matches ASCII digits only;
  - reads month and day names case-sensitively;
  - takes the first alternative of each field pattern without backtracking into a shorter match.
- Dates and years:
  - `%Y` in `strftime` is always written with four digits, which is CPython's behaviour; some C libraries do not pad years below 1000;
  - `since` and `until` must be text, so `None` (which makes `strptime` raise `TypeError`) is not modelled.
- `int()` forms other than plain ASCII decimal digits (signs, spaces, underscores) cannot occur in an hour key the model writes, and are not modelled.
- Slicer.TwitterSlicer.SaveTweets: tweets are saved on the slice's own object state; two slices sharing the counter concurrently, and the budget overshoot that allows, are not captured.
- Crawl.RunCursors: over a whole run the first id of each later cursor is only some string; that it is the last id of the page of that pass is proved pass by pass (`Crawl.StepUrls`, `Crawl.PageLog`, `Crawl.AdvanceLog`), not collected over the run, which would need the sequence of pages as a further ghost trace.
