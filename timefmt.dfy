/** UTC clock times and their text forms: `datetime.utcfromtimestamp`,
    `strftime` and `strptime` for the two formats the scraper uses,
    "%Y-%m-%d" for day slices and "%a %b %d %H:%M:%S +0000 %Y" for the
    `created_at` field of a tweet. Names of days and months are those of the
    C locale. */
module TimeFormat {
  import opened Wrappers
  import opened Text
  import opened Civil

  const SecondsPerDay := 86400

  /** `date(1970, 1, 1).toordinal()`: day 0 of POSIX time. */
  const EpochOrdinal := 719163

  const WeekdayNames: seq<string> := ["Mon", "Tue", "Wed", "Thu", "Fri", "Sat", "Sun"]
  const MonthNames: seq<string> := ["Jan", "Feb", "Mar", "Apr", "May", "Jun", "Jul", "Aug", "Sep", "Oct", "Nov", "Dec"]

  /** A broken-down UTC time as `utcfromtimestamp` yields it. */
  datatype Clock = Clock(date: Date, hour: int, minute: int, second: int)

  predicate ValidClock(c: Clock)
  {
    Valid(c.date) && 0 <= c.hour < 24 && 0 <= c.minute < 60 && 0 <= c.second < 60
  }

  /** The fields `time.strptime` returns that the scraper can consult. */
  datatype StructTime = StructTime(year: int, month: int, day: int, hour: int, minute: int, second: int, weekday: int)

  lemma EpochIsJanuaryFirst1970()
    ensures Valid(Date(1970, 1, 1)) && Ordinal(Date(1970, 1, 1)) == EpochOrdinal
  {
  }

  /** The seconds since the epoch of a UTC clock time (`calendar.timegm`):
      POSIX time counts every day as 86400 seconds. */
  function Timestamp(c: Clock): int
    requires ValidClock(c)
  {
    (Ordinal(c.date) - EpochOrdinal) * SecondsPerDay + c.hour * 3600 + c.minute * 60 + c.second
  }

  /** `datetime.utcfromtimestamp(t)` for an integer `t`; `None` where Python
      raises because the year leaves 1..9999. */
  function UtcFromTimestamp(t: int): (r: Option<Clock>)
    ensures r.Some? ==> ValidClock(r.value) && Timestamp(r.value) == t
  {
    var n := EpochOrdinal + t / SecondsPerDay;
    var s := t % SecondsPerDay;
    if 1 <= n <= MaxOrdinal then
      var c := Clock(FromOrdinal(n), s / 3600, s % 3600 / 60, s % 60);
      FromOrdinalHolds(n);
      TimeOfDay(s);
      assert Timestamp(c) == (t / SecondsPerDay) * SecondsPerDay + s;
      Some(c)
    else None
  }

  lemma TimeOfDay(s: int)
    requires 0 <= s < SecondsPerDay
    ensures 0 <= s / 3600 < 24 && 0 <= s % 3600 / 60 < 60
    ensures (s / 3600) * 3600 + (s % 3600 / 60) * 60 + s % 60 == s
  {
    var h := s / 3600;
    var r := s % 3600;
    assert s == h * 3600 + r;
    assert r == (r / 60) * 60 + r % 60;
    assert r % 60 == s % 60;
  }

  /** `utcfromtimestamp` succeeds exactly for the seconds from
      0001-01-01 00:00:00 to 9999-12-31 23:59:59 UTC. */
  lemma UtcFromTimestampRange(t: int)
    ensures UtcFromTimestamp(t).Some? <==> -62135596800 <= t <= 253402300799
  {
    var q := t / SecondsPerDay;
    assert t == q * SecondsPerDay + t % SecondsPerDay;
    if q < -719162 {
      assert q <= -719163;
      assert t < -62135596800;
    }
    if q > 2932896 {
      assert q >= 2932897;
      assert t >= 253402300800;
    }
  }

  /** Seconds since the epoch name one clock time, and the hour is read off
      the time of day. */
  lemma UtcFromTimestampHour(t: int)
    requires UtcFromTimestamp(t).Some?
    ensures UtcFromTimestamp(t).value.hour == (t % SecondsPerDay) / 3600
  {
  }

  // ---- strftime ----

  /** The format of the day slices, "%Y-%m-%d", written piece by piece. */
  const DayFormat := "%Y" + ("-" + ("%m" + ("-" + "%d")))

  /** The format of a tweet's `created_at`, "%a %b %d %H:%M:%S +0000 %Y" (as in
      "Fri Mar 29 11:03:41 +0000 2013"), written piece by piece. */
  const StampFormat := "%a" + (" " + ("%b" + (" " + ("%d" + (" " + ("%H" + (":" + ("%M" + (":" + ("%S" + (" +0000 " + "%Y")))))))))))

  /** The characters `\s` matches, as far as ASCII goes. */
  predicate IsSpace(ch: char)
  {
    ch == ' ' || '\t' <= ch <= '\r' || '\U{1c}' <= ch <= '\U{1f}'
  }

  /** What `strftime` writes for the directive `%ch` of a UTC time; a
      directive it does not know is written as it stands. */
  function Field(ch: char, c: Clock): (s: string)
    requires ValidClock(c)
    ensures |s| >= 1 && !IsSpace(s[0])
  {
    match ch
    case 'a' =>
      var w := Weekday(c.date);
      assert WeekdayNames[w][0] in "MTWFS";
      WeekdayNames[w]
    case 'b' =>
      var m := c.date.month - 1;
      assert MonthNames[m][0] in "JFMASOND";
      MonthNames[m]
    case 'd' => Pad(c.date.day, 2)
    case 'm' => Pad(c.date.month, 2)
    case 'Y' => Pad(c.date.year, 4)
    case 'H' => Pad(c.hour, 2)
    case 'M' => Pad(c.minute, 2)
    case 'S' => Pad(c.second, 2)
    case '%' => "%"
    case _ => ['%', ch]
  }

  /** `strftime(fmt)` of a UTC time: directives are replaced by fields, every
      other character is copied. */
  function Strftime(fmt: string, c: Clock): string
    requires ValidClock(c)
    decreases |fmt|
  {
    if fmt == [] then []
    else if fmt[0] == '%' && |fmt| >= 2 then Field(fmt[1], c) + Strftime(fmt[2..], c)
    else [fmt[0]] + Strftime(fmt[1..], c)
  }

  /** `date.strftime("%Y-%m-%d")`: the date at midnight. */
  function FormatYmd(d: Date): string
    requires Valid(d)
  {
    Strftime(DayFormat, Clock(d, 0, 0, 0))
  }

  /** `t.strftime("%a %b %d %H:%M:%S +0000 %Y")` for a UTC time `t`. */
  function FormatStamp(c: Clock): string
    requires ValidClock(c)
  {
    Strftime(StampFormat, c)
  }

  // ---- strptime ----

  /** The fields `_strptime` collects while matching, starting from its
      defaults: year 1900, January the first, midnight, weekday unknown. */
  datatype Fields = Fields(year: int, month: int, day: int, hour: int, minute: int, second: int, weekday: Option<int>)

  const Unset := Fields(1900, 1, 1, 0, 0, 0, None)

  /** Every field within the range its directive's pattern admits. */
  predicate InRange(f: Fields)
  {
    0 <= f.year && 1 <= f.month <= 12 && 1 <= f.day <= 31 && 0 <= f.hour <= 23
    && 0 <= f.minute <= 59 && 0 <= f.second <= 61 && (f.weekday.Some? ==> 0 <= f.weekday.value < 7)
  }

  /** `n` leading digits and the text after them. */
  function Digits(s: string, n: nat): (r: Option<(nat, string)>)
    ensures r.Some? ==> n <= |s| && r.value.0 < Pow10(n) && r.value.1 == s[n..]
  {
    if n <= |s| && forall i | 0 <= i < n :: IsDigit(s[i]) then Some((DigitsValue(s[..n]), s[n..])) else None
  }

  lemma DigitsOfPad(v: nat, n: nat, rest: string)
    requires v < Pow10(n)
    ensures Digits(Pad(v, n) + rest, n) == Some((v, rest))
  {
    var s := Pad(v, n) + rest;
    assert s[..n] == Pad(v, n);
    assert s[n..] == rest;
    PadValue(v, n);
  }

  /** The `%m` pattern of CPython's `_strptime`, alternatives tried in order:
      `1[0-2]`, `0[1-9]`, `[1-9]`; the month and the text after it. */
  function MonthField(s: string): (r: Option<(int, string)>)
    ensures r.Some? ==> 1 <= r.value.0 <= 12
  {
    if |s| >= 2 && s[0] == '1' && '0' <= s[1] <= '2' then Some((10 + DigitValue(s[1]), s[2..]))
    else if |s| >= 2 && s[0] == '0' && '1' <= s[1] <= '9' then Some((DigitValue(s[1]), s[2..]))
    else if |s| >= 1 && '1' <= s[0] <= '9' then Some((DigitValue(s[0]), s[1..]))
    else None
  }

  /** The `%d` pattern: `3[01]`, `[12]\d`, `0[1-9]`, `[1-9]`, a space then `[1-9]`. */
  function DayField(s: string): (r: Option<(int, string)>)
    ensures r.Some? ==> 1 <= r.value.0 <= 31
  {
    if |s| >= 2 && s[0] == '3' && '0' <= s[1] <= '1' then Some((30 + DigitValue(s[1]), s[2..]))
    else if |s| >= 2 && '1' <= s[0] <= '2' && IsDigit(s[1]) then Some((10 * DigitValue(s[0]) + DigitValue(s[1]), s[2..]))
    else if |s| >= 2 && s[0] == '0' && '1' <= s[1] <= '9' then Some((DigitValue(s[1]), s[2..]))
    else if |s| >= 1 && '1' <= s[0] <= '9' then Some((DigitValue(s[0]), s[1..]))
    else if |s| >= 2 && s[0] == ' ' && '1' <= s[1] <= '9' then Some((DigitValue(s[1]), s[2..]))
    else None
  }

  /** The `%H` pattern: `2[0-3]`, `[0-1]\d`, `\d`. */
  function HourField(s: string): (r: Option<(int, string)>)
    ensures r.Some? ==> 0 <= r.value.0 <= 23
  {
    if |s| >= 2 && s[0] == '2' && '0' <= s[1] <= '3' then Some((20 + DigitValue(s[1]), s[2..]))
    else if |s| >= 2 && '0' <= s[0] <= '1' && IsDigit(s[1]) then Some((10 * DigitValue(s[0]) + DigitValue(s[1]), s[2..]))
    else if |s| >= 1 && IsDigit(s[0]) then Some((DigitValue(s[0]), s[1..]))
    else None
  }

  /** The `%M` pattern: `[0-5]\d`, `\d`. */
  function MinuteField(s: string): (r: Option<(int, string)>)
    ensures r.Some? ==> 0 <= r.value.0 <= 59
  {
    if |s| >= 2 && '0' <= s[0] <= '5' && IsDigit(s[1]) then Some((10 * DigitValue(s[0]) + DigitValue(s[1]), s[2..]))
    else if |s| >= 1 && IsDigit(s[0]) then Some((DigitValue(s[0]), s[1..]))
    else None
  }

  /** The `%S` pattern: `6[0-1]`, `[0-5]\d`, `\d` (leap seconds included). */
  function SecondField(s: string): (r: Option<(int, string)>)
    ensures r.Some? ==> 0 <= r.value.0 <= 61
  {
    if |s| >= 2 && s[0] == '6' && '0' <= s[1] <= '1' then Some((60 + DigitValue(s[1]), s[2..]))
    else if |s| >= 2 && '0' <= s[0] <= '5' && IsDigit(s[1]) then Some((10 * DigitValue(s[0]) + DigitValue(s[1]), s[2..]))
    else if |s| >= 1 && IsDigit(s[0]) then Some((DigitValue(s[0]), s[1..]))
    else None
  }

  /** The position of a three-letter name in a list of names, and the text
      after it. */
  function NameIndex(names: seq<string>, s: string): (r: Option<(nat, string)>)
    ensures r.Some? ==> r.value.0 < |names|
  {
    if |s| >= 3 then
      match Position(names, s[..3])
      case None => None
      case Some(i) => Some((i, s[3..]))
    else None
  }

  /** The first position of `w` in `names`. */
  function Position(names: seq<string>, w: string): (r: Option<nat>)
    ensures r.Some? ==> r.value < |names| && names[r.value] == w
    ensures r.None? ==> w !in names
  {
    if names == [] then None
    else if names[0] == w then Some(0)
    else match Position(names[1..], w)
      case None => None
      case Some(i) => Some(i + 1)
  }

  /** Matches the directive `%ch` at the start of `s`, storing what it read;
      `None` for no match and for a directive `_strptime` refuses. */
  function Directive(ch: char, s: string, acc: Fields): (r: Option<(Fields, string)>)
    ensures r.Some? && InRange(acc) ==> InRange(r.value.0)
  {
    match ch
    case 'Y' => (match Digits(s, 4) case None => None case Some((v, rest)) => Some((acc.(year := v), rest)))
    case 'm' => (match MonthField(s) case None => None case Some((v, rest)) => Some((acc.(month := v), rest)))
    case 'd' => (match DayField(s) case None => None case Some((v, rest)) => Some((acc.(day := v), rest)))
    case 'H' => (match HourField(s) case None => None case Some((v, rest)) => Some((acc.(hour := v), rest)))
    case 'M' => (match MinuteField(s) case None => None case Some((v, rest)) => Some((acc.(minute := v), rest)))
    case 'S' => (match SecondField(s) case None => None case Some((v, rest)) => Some((acc.(second := v), rest)))
    case 'a' => (match NameIndex(WeekdayNames, s) case None => None case Some((v, rest)) => Some((acc.(weekday := Some(v)), rest)))
    case 'b' => (match NameIndex(MonthNames, s) case None => None case Some((v, rest)) => Some((acc.(month := v + 1), rest)))
    case '%' => if |s| >= 1 && s[0] == '%' then Some((acc, s[1..])) else None
    case _ => None
  }

  /** The number of whitespace characters `s` starts with. */
  function Spaces(s: string): (n: nat)
    ensures n <= |s| && (forall i | 0 <= i < n :: IsSpace(s[i])) && (n < |s| ==> !IsSpace(s[n]))
  {
    if s != [] && IsSpace(s[0]) then 1 + Spaces(s[1..]) else 0
  }

  /** `_strptime` matching `s` against `fmt` from the left: a directive reads
      its field, a run of whitespace in the format matches one or more
      whitespace characters, any other character matches itself, and no text
      may be left over. `None` where Python raises `ValueError`. */
  function Strptime(fmt: string, s: string, acc: Fields): (r: Option<Fields>)
    ensures r.Some? && InRange(acc) ==> InRange(r.value)
    decreases |fmt|
  {
    if fmt == [] then (if s == [] then Some(acc) else None)
    else if fmt[0] == '%' then
      if |fmt| < 2 then None
      else match Directive(fmt[1], s, acc)
        case None => None
        case Some((next, rest)) => Strptime(fmt[2..], rest, next)
    else if IsSpace(fmt[0]) then
      var n := Spaces(s);
      if n == 0 then None else Strptime(fmt[Spaces(fmt)..], s[n..], acc)
    else if s != [] && s[0] == fmt[0] then Strptime(fmt[1..], s[1..], acc)
    else None
  }

  /** `datetime.strptime(s, "%Y-%m-%d")`; `None` where Python raises
      `ValueError` (no match, text left over, or no such date). */
  function ParseYmd(s: string): (r: Option<Date>)
    ensures r.Some? ==> Valid(r.value)
  {
    match Strptime(DayFormat, s, Unset)
    case None => None
    case Some(f) => if Valid(Date(f.year, f.month, f.day)) then Some(Date(f.year, f.month, f.day)) else None
  }

  /** `time.strptime(s, "%a %b %d %H:%M:%S +0000 %Y")`; `None` where Python
      raises `ValueError`. The weekday is the one read by `%a`. */
  function ParseStamp(s: string): (r: Option<StructTime>)
    ensures r.Some? ==> 0 <= r.value.hour < 24
  {
    match Strptime(StampFormat, s, Unset)
    case None => None
    case Some(f) =>
      var d := Date(f.year, f.month, f.day);
      if Valid(d) then
        Some(StructTime(f.year, f.month, f.day, f.hour, f.minute, f.second,
                        if f.weekday.Some? then f.weekday.value else Weekday(d)))
      else None
  }

  // ---- reading back what was written ----

  /** The formats whose every `%` starts a directive both directions know. */
  predicate Supported(fmt: string)
    decreases |fmt|
  {
    if fmt == [] then true
    else if fmt[0] == '%' then |fmt| >= 2 && fmt[1] in "abdmYHMS%" && Supported(fmt[2..])
    else Supported(fmt[1..])
  }

  /** The directive letters of `fmt`. */
  function Directives(fmt: string): set<char>
    decreases |fmt|
  {
    if fmt == [] then {}
    else if fmt[0] == '%' && |fmt| >= 2 then {fmt[1]} + Directives(fmt[2..])
    else Directives(fmt[1..])
  }

  /** What one directive stores when it reads back its own field. */
  function Store(ch: char, c: Clock, acc: Fields): Fields
    requires ValidClock(c)
  {
    match ch
    case 'Y' => acc.(year := c.date.year)
    case 'm' => acc.(month := c.date.month)
    case 'b' => acc.(month := c.date.month)
    case 'd' => acc.(day := c.date.day)
    case 'H' => acc.(hour := c.hour)
    case 'M' => acc.(minute := c.minute)
    case 'S' => acc.(second := c.second)
    case 'a' => acc.(weekday := Some(Weekday(c.date)))
    case _ => acc
  }

  /** The fields read back from `Strftime(fmt, c)`: the clock's value for
      every field a directive of `fmt` writes, the starting value otherwise. */
  function Filled(fmt: string, c: Clock, acc: Fields): Fields
    requires ValidClock(c)
  {
    Fields(if 'Y' in Directives(fmt) then c.date.year else acc.year,
           if 'm' in Directives(fmt) || 'b' in Directives(fmt) then c.date.month else acc.month,
           if 'd' in Directives(fmt) then c.date.day else acc.day,
           if 'H' in Directives(fmt) then c.hour else acc.hour,
           if 'M' in Directives(fmt) then c.minute else acc.minute,
           if 'S' in Directives(fmt) then c.second else acc.second,
           if 'a' in Directives(fmt) then Some(Weekday(c.date)) else acc.weekday)
  }

  lemma PadTwo(n: nat)
    requires n < 100
    ensures Pad(n, 2) == [DigitChar(n / 10), DigitChar(n % 10)]
  {
    var q := n / 10;
    assert q < 10 && q / 10 == 0 && q % 10 == q;
    assert Pad(q, 1) == Pad(0, 0) + [DigitChar(q)];
    assert Pad(n, 2) == Pad(q, 1) + [DigitChar(n % 10)];
  }

  lemma {:induction false} PositionOfDistinct(names: seq<string>, i: nat)
    requires i < |names|
    requires forall j, k | 0 <= j < k < |names| :: names[j] != names[k]
    ensures Position(names, names[i]) == Some(i)
  {
    if i > 0 {
      assert names[1..][i - 1] == names[i];
      PositionOfDistinct(names[1..], i - 1);
    }
  }

  lemma NameIndexOfName(names: seq<string>, i: nat, rest: string)
    requires i < |names| && |names[i]| == 3
    requires forall j, k | 0 <= j < k < |names| :: names[j] != names[k]
    ensures NameIndex(names, names[i] + rest) == Some((i, rest))
  {
    var s := names[i] + rest;
    assert s[..3] == names[i];
    assert s[3..] == rest;
    PositionOfDistinct(names, i);
  }

  lemma HourFieldOfPad(h: int, rest: string)
    requires 0 <= h <= 23
    ensures HourField(Pad(h, 2) + rest) == Some((h, rest))
  {
    PadTwo(h);
    assert (Pad(h, 2) + rest)[2..] == rest;
  }

  lemma MinuteFieldOfPad(m: int, rest: string)
    requires 0 <= m <= 59
    ensures MinuteField(Pad(m, 2) + rest) == Some((m, rest))
    ensures SecondField(Pad(m, 2) + rest) == Some((m, rest))
  {
    PadTwo(m);
    assert (Pad(m, 2) + rest)[2..] == rest;
  }

  lemma MonthFieldOfPad(m: int, rest: string)
    requires 1 <= m <= 12
    ensures MonthField(Pad(m, 2) + rest) == Some((m, rest))
  {
    PadTwo(m);
    assert (Pad(m, 2) + rest)[2..] == rest;
  }

  lemma DayFieldOfPad(d: int, rest: string)
    requires 1 <= d <= 31
    ensures DayField(Pad(d, 2) + rest) == Some((d, rest))
  {
    PadTwo(d);
    assert (Pad(d, 2) + rest)[2..] == rest;
  }

  /** Each directive reads back exactly the field it wrote, whatever follows. */
  lemma DirectiveOfField(ch: char, c: Clock, rest: string, acc: Fields)
    requires ValidClock(c) && ch in "abdmYHMS%"
    ensures Directive(ch, Field(ch, c) + rest, acc) == Some((Store(ch, c, acc), rest))
  {
    match ch
    case 'Y' => DigitsOfPad(c.date.year, 4, rest);
    case 'm' => MonthFieldOfPad(c.date.month, rest);
    case 'd' => DayFieldOfPad(c.date.day, rest);
    case 'H' => HourFieldOfPad(c.hour, rest);
    case 'M' => MinuteFieldOfPad(c.minute, rest);
    case 'S' => MinuteFieldOfPad(c.second, rest);
    case 'a' => NameIndexOfName(WeekdayNames, Weekday(c.date), rest);
    case 'b' => NameIndexOfName(MonthNames, c.date.month - 1, rest);
    case '%' => assert ("%" + rest)[1..] == rest;
  }

  /** A directive's field followed by the rest of the format's fields. */
  lemma FilledStore(fmt: string, c: Clock, acc: Fields)
    requires ValidClock(c) && |fmt| >= 2 && fmt[0] == '%'
    ensures Filled(fmt[2..], c, Store(fmt[1], c, acc)) == Filled(fmt, c, acc)
  {
  }

  /** Text with no `%` and no whitespace in front is copied by `strftime`. */
  lemma {:induction false} StrftimeCopies(lit: string, fmt: string, c: Clock)
    requires ValidClock(c) && '%' !in lit
    ensures Strftime(lit + fmt, c) == lit + Strftime(fmt, c)
    ensures Supported(lit + fmt) == Supported(fmt)
    ensures Directives(lit + fmt) == Directives(fmt)
    decreases |lit|
  {
    if lit != [] {
      StrftimeCopies(lit[1..], fmt, c);
      assert (lit + fmt)[1..] == lit[1..] + fmt;
      assert lit == [lit[0]] + lit[1..];
    } else {
      assert lit + fmt == fmt;
    }
  }

  /** What `strftime` writes does not start with whitespace unless the format does. */
  lemma StrftimeStart(fmt: string, c: Clock)
    requires ValidClock(c) && fmt != [] && !IsSpace(fmt[0])
    ensures Strftime(fmt, c) != [] && !IsSpace(Strftime(fmt, c)[0])
  {
  }

  lemma {:induction false} SpacesOf(a: string, b: string)
    requires forall i | 0 <= i < |a| :: IsSpace(a[i])
    requires b == [] || !IsSpace(b[0])
    ensures Spaces(a + b) == |a| && (a + b)[|a|..] == b
    decreases |a|
  {
    if a != [] {
      assert a + b == [a[0]] + (a[1..] + b);
      SpacesOf(a[1..], b);
    } else {
      assert a + b == b;
    }
  }

  lemma DirectiveStep(fmt: string, c: Clock, acc: Fields)
    requires ValidClock(c) && Supported(fmt) && fmt != [] && fmt[0] == '%'
    ensures Supported(fmt[2..])
    ensures Strptime(fmt, Strftime(fmt, c), acc) == Strptime(fmt[2..], Strftime(fmt[2..], c), Store(fmt[1], c, acc))
    ensures Filled(fmt[2..], c, Store(fmt[1], c, acc)) == Filled(fmt, c, acc)
  {
    DirectiveOfField(fmt[1], c, Strftime(fmt[2..], c), acc);
    FilledStore(fmt, c, acc);
  }

  lemma SpaceStep(fmt: string, c: Clock, acc: Fields)
    requires ValidClock(c) && Supported(fmt) && fmt != [] && IsSpace(fmt[0])
    ensures 0 < Spaces(fmt) && Supported(fmt[Spaces(fmt)..])
    ensures Strptime(fmt, Strftime(fmt, c), acc) == Strptime(fmt[Spaces(fmt)..], Strftime(fmt[Spaces(fmt)..], c), acc)
    ensures Filled(fmt[Spaces(fmt)..], c, acc) == Filled(fmt, c, acc)
  {
    var n := Spaces(fmt);
    var lit, tail := fmt[..n], fmt[n..];
    assert fmt == lit + tail;
    assert forall i | 0 <= i < |lit| :: lit[i] == fmt[i];
    StrftimeCopies(lit, tail, c);
    if tail != [] {
      StrftimeStart(tail, c);
    }
    SpacesOf(lit, Strftime(tail, c));
  }

  lemma LiteralStep(fmt: string, c: Clock, acc: Fields)
    requires ValidClock(c) && Supported(fmt) && fmt != [] && fmt[0] != '%' && !IsSpace(fmt[0])
    ensures Supported(fmt[1..])
    ensures Strptime(fmt, Strftime(fmt, c), acc) == Strptime(fmt[1..], Strftime(fmt[1..], c), acc)
    ensures Filled(fmt[1..], c, acc) == Filled(fmt, c, acc)
  {
    var s := Strftime(fmt, c);
    assert s == [fmt[0]] + Strftime(fmt[1..], c);
    assert s[1..] == Strftime(fmt[1..], c);
  }

  /** Matching what `strftime` wrote against the same format reads back every
      field the format writes, and nothing else changes. */
  lemma {:induction false} StrptimeStrftime(fmt: string, c: Clock, acc: Fields)
    requires ValidClock(c) && Supported(fmt)
    ensures Strptime(fmt, Strftime(fmt, c), acc) == Some(Filled(fmt, c, acc))
    decreases |fmt|
  {
    if fmt == [] {
    } else if fmt[0] == '%' {
      DirectiveStep(fmt, c, acc);
      StrptimeStrftime(fmt[2..], c, Store(fmt[1], c, acc));
    } else if IsSpace(fmt[0]) {
      SpaceStep(fmt, c, acc);
      StrptimeStrftime(fmt[Spaces(fmt)..], c, acc);
    } else {
      LiteralStep(fmt, c, acc);
      StrptimeStrftime(fmt[1..], c, acc);
    }
  }

  /** How `Supported` and `Directives` see a directive put in front of a format. */
  lemma DirectiveInFront(ch: char, fmt: string)
    ensures Supported(['%', ch] + fmt) == (ch in "abdmYHMS%" && Supported(fmt))
    ensures Directives(['%', ch] + fmt) == {ch} + Directives(fmt)
  {
    assert (['%', ch] + fmt)[2..] == fmt;
  }

  /** How `Supported` and `Directives` see text without `%` put in front of a format. */
  lemma {:induction false} LiteralInFront(lit: string, fmt: string)
    requires '%' !in lit
    ensures Supported(lit + fmt) == Supported(fmt)
    ensures Directives(lit + fmt) == Directives(fmt)
    decreases |lit|
  {
    if lit != [] {
      LiteralInFront(lit[1..], fmt);
      assert (lit + fmt)[1..] == lit[1..] + fmt;
    } else {
      assert lit + fmt == fmt;
    }
  }

  /** Reading a formatted day back gives the day:
      `strptime(d.strftime("%Y-%m-%d"), "%Y-%m-%d") == d`. */
  lemma ParseFormatYmd(d: Date)
    requires Valid(d)
    ensures ParseYmd(FormatYmd(d)) == Some(d)
  {
    DayDirectives();
    StrptimeStrftime(DayFormat, Clock(d, 0, 0, 0), Unset);
  }

  /** A formatted day is the zero-padded year, month and day joined by `-`,
      ten characters with no `.` in them. */
  lemma FormatYmdText(d: Date)
    requires Valid(d)
    ensures FormatYmd(d) == Pad(d.year, 4) + "-" + Pad(d.month, 2) + "-" + Pad(d.day, 2)
    ensures |FormatYmd(d)| == 10 && '.' !in FormatYmd(d)
  {
    var c := Clock(d, 0, 0, 0);
    var f3 := "-" + "%d";
    var f2 := "%m" + f3;
    var f1 := "-" + f2;
    assert DayFormat[2..] == f1 && f1[1..] == f2 && f2[2..] == f3 && f3[1..] == "%d";
    assert Strftime("%d", c) == Pad(d.day, 2) + Strftime([], c);
    assert Strftime(f3, c) == "-" + Pad(d.day, 2);
    assert Strftime(f1, c) == "-" + Pad(d.month, 2) + "-" + Pad(d.day, 2);
  }

  /** Different days are written differently. */
  lemma FormatYmdInjective(d: Date, e: Date)
    requires Valid(d) && Valid(e)
    ensures FormatYmd(d) == FormatYmd(e) <==> d == e
  {
    if FormatYmd(d) == FormatYmd(e) {
      ParseFormatYmd(d);
      ParseFormatYmd(e);
    }
  }

  lemma FormatTexts()
    ensures DayFormat == "%Y-%m-%d"
    ensures StampFormat == "%a %b %d %H:%M:%S +0000 %Y"
  {
  }

  /** The directives of the day format. */
  lemma DayDirectives()
    ensures Supported(DayFormat)
    ensures Directives(DayFormat) == {'Y', 'm', 'd'}
  {
    DirectiveInFront('d', []);
    assert "%d" == ['%', 'd'] + [];
    LiteralInFront("-", "%d");
    DirectiveInFront('m', "-" + "%d");
    LiteralInFront("-", "%m" + ("-" + "%d"));
    DirectiveInFront('Y', "-" + ("%m" + ("-" + "%d")));
  }

  /** The directives of the `created_at` format. */
  lemma StampDirectives()
    ensures Supported(StampFormat)
    ensures Directives(StampFormat) == {'a'} + ({'b'} + ({'d'} + ({'H'} + ({'M'} + ({'S'} + {'Y'})))))
  {
    DirectiveInFront('Y', []);
    assert "%Y" == ['%', 'Y'] + [];
    LiteralInFront(" +0000 ", "%Y");
    DirectiveInFront('S', " +0000 " + "%Y");
    LiteralInFront(":", "%S" + (" +0000 " + "%Y"));
    DirectiveInFront('M', ":" + ("%S" + (" +0000 " + "%Y")));
    LiteralInFront(":", "%M" + (":" + ("%S" + (" +0000 " + "%Y"))));
    DirectiveInFront('H', ":" + ("%M" + (":" + ("%S" + (" +0000 " + "%Y")))));
    LiteralInFront(" ", "%H" + (":" + ("%M" + (":" + ("%S" + (" +0000 " + "%Y"))))));
    DirectiveInFront('d', " " + ("%H" + (":" + ("%M" + (":" + ("%S" + (" +0000 " + "%Y")))))));
    LiteralInFront(" ", "%d" + (" " + ("%H" + (":" + ("%M" + (":" + ("%S" + (" +0000 " + "%Y"))))))));
    DirectiveInFront('b', " " + ("%d" + (" " + ("%H" + (":" + ("%M" + (":" + ("%S" + (" +0000 " + "%Y")))))))));
    LiteralInFront(" ", "%b" + (" " + ("%d" + (" " + ("%H" + (":" + ("%M" + (":" + ("%S" + (" +0000 " + "%Y"))))))))));
    DirectiveInFront('a', " " + ("%b" + (" " + ("%d" + (" " + ("%H" + (":" + ("%M" + (":" + ("%S" + (" +0000 " + "%Y")))))))))));
  }

  /** Reading a rendered `created_at` back with the same format gives every
      field of the clock time it was rendered from. */
  lemma ParseFormatStamp(c: Clock)
    requires ValidClock(c)
    ensures ParseStamp(FormatStamp(c)) ==
            Some(StructTime(c.date.year, c.date.month, c.date.day, c.hour, c.minute, c.second, Weekday(c.date)))
  {
    StampDirectives();
    StrptimeStrftime(StampFormat, c, Unset);
  }
}
