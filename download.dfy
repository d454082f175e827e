/** logparser/download.py: the time window a run covers, the timestamps and S3
    key prefixes of the log files in it, and which local file a key is
    downloaded to. The S3 client and the download directory are modelled as two
    maps: the objects the bucket answers with, and the files already on disk. */
module Download {
  import opened Wrappers
  import opened Text
  import opened Timestamp
  import opened Folds

  /** `timedelta(minutes=5)`, the interval between two log files. */
  const Step: int := 5 * MicrosPerMinute

  /** A `(start, end)` pair of instants. */
  datatype Window = Window(start: int, end: int)

  /** The two words of `--for`, as in `--for 7 days`. */
  datatype Duration = Duration(count: string, unit: string)

  /*** datetime_range ***/

  /** What `datetime_range(start, end, delta)` yields. */
  function RangeSpec(start: int, end: int, delta: int): seq<int>
    requires delta > 0
    decreases end - start
  {
    if start < end then [start] + RangeSpec(start + delta, end, delta) else []
  }

  /** `datetime_range(start, end, delta)`, drained into a list. A delta that is
      not positive never reaches `end`; the callers always pass five minutes. */
  method DatetimeRange(start: int, end: int, delta: int) returns (out: seq<int>)
    requires delta > 0
    ensures out == RangeSpec(start, end, delta)
  {
    out := [];
    var current := start;
    while current < end
      invariant out + RangeSpec(current, end, delta) == RangeSpec(start, end, delta)
      decreases end - current
    {
      assert RangeSpec(current, end, delta) == [current] + RangeSpec(current + delta, end, delta);
      assert out + ([current] + RangeSpec(current + delta, end, delta)) ==
        (out + [current]) + RangeSpec(current + delta, end, delta);
      out := out + [current];
      current := current + delta;
    }
  }

  /** The range is `start, start + delta, ...`: every value lies before `end`,
      and the next step would not, so nothing is yielded when start >= end. */
  lemma {:induction false} RangeSpecElements(start: int, end: int, delta: int)
    requires delta > 0
    ensures var r := RangeSpec(start, end, delta);
      && (forall i | 0 <= i < |r| :: r[i] == start + i * delta && r[i] < end)
      && start + |r| * delta >= end
    decreases end - start
  {
    if start < end {
      var rest := RangeSpec(start + delta, end, delta);
      RangeSpecElements(start + delta, end, delta);
      var r := [start] + rest;
      forall i | 0 <= i < |r|
        ensures r[i] == start + i * delta
      {
        if i > 0 {
          assert r[i] == rest[i - 1] == start + delta + (i - 1) * delta;
        }
      }
      assert start + |r| * delta == start + delta + |rest| * delta;
    }
  }

  /*** list_datetime_range ***/

  /** `dt.strftime('%Y%m%dT%H%MZ')`; Python 2's strftime refuses years before
      1900 with a ValueError. */
  function Stamp(t: int): Result<string> {
    var c := CivilFromInstant(t);
    if c.year < 1900 then Err(ValueError) else Ok(Format(c))
  }

  /** `list_datetime_range(dt_range)`: the timestamp of every five-minute step of
      the window. A missing window is the None that start_end_dt_from_now falls
      through to, and indexing it is a TypeError. */
  function ListDatetimeRange(range: Option<Window>): Result<seq<string>> {
    match range
    case None => Err(TypeError)
    case Some(w) => MapAll(Stamp, RangeSpec(w.start, w.end, Step))
  }

  /** Mapping `f` over a range gives one result per step, the i-th for
      `start + i * delta`, and the steps stop at the last one before `end`. */
  lemma MapRange<U>(f: int -> Result<U>, start: int, end: int, delta: int)
    requires delta > 0
    requires MapAll(f, RangeSpec(start, end, delta)).Ok?
    ensures var r := MapAll(f, RangeSpec(start, end, delta)).value;
      && (forall i | 0 <= i < |r| :: start + i * delta < end && f(start + i * delta) == Ok(r[i]))
      && start + |r| * delta >= end
  {
    var ts := RangeSpec(start, end, delta);
    var r := MapAll(f, ts).value;
    RangeSpecElements(start, end, delta);
    MapAllOk(f, ts);
    forall i | 0 <= i < |r|
      ensures start + i * delta < end && f(start + i * delta) == Ok(r[i])
    {
      assert ts[i] == start + i * delta;
    }
  }

  /** One timestamp per step of the window, the i-th for `start + i * 5 min`,
      so the first is `start` itself whenever the window is not empty; the
      steps stop at the last one before `end`. */
  lemma ListDatetimeRangeSteps(w: Window)
    requires ListDatetimeRange(Some(w)).Ok?
    ensures var r := ListDatetimeRange(Some(w)).value;
      && (forall i | 0 <= i < |r| :: w.start + i * Step < w.end && Stamp(w.start + i * Step) == Ok(r[i]))
      && w.start + |r| * Step >= w.end
      && (w.start < w.end ==> r != [] && Stamp(w.start) == Ok(r[0]))
  {
    MapRange(Stamp, w.start, w.end, Step);
    var r := ListDatetimeRange(Some(w)).value;
    if w.start < w.end {
      assert |r| > 0;
      assert w.start + 0 * Step == w.start;
    }
  }

  /** Listing fails only on a missing window or on a step before 1900. */
  lemma ListDatetimeRangeErr(range: Option<Window>)
    requires ListDatetimeRange(range).Err?
    ensures range.None? ==> ListDatetimeRange(range).error == TypeError
    ensures range.Some? ==>
      && ListDatetimeRange(range).error == ValueError
      && exists i | 0 <= i < |RangeSpec(range.value.start, range.value.end, Step)| ::
           CivilFromInstant(RangeSpec(range.value.start, range.value.end, Step)[i]).year < 1900
  {
    if range.Some? {
      MapAllErr(Stamp, RangeSpec(range.value.start, range.value.end, Step));
    }
  }

  /*** ceiling_dt ***/

  /** `ceiling_dt(dt)`: the first five-minute mark at or after `dt`. The
      seconds already past in the hour are rounded up to a multiple of 300. */
  function CeilingDt(t: int): (r: int)
    ensures t <= r < t + Step
    ensures r % Step == 0
    ensures (r % MicrosPerHour) % Step == 0
  {
    var nsecs := t % MicrosPerHour;
    var marks := (nsecs + Step - 1) / Step;
    MarksRange(nsecs);
    var hour := t / MicrosPerHour;
    assert t == hour * MicrosPerHour + nsecs;
    var r := t + (marks * Step - nsecs);
    assert r == (hour * 12 + marks) * Step;
    MarksMod(hour * 12 + marks);
    if marks == 12 then
      assert r == (hour + 1) * MicrosPerHour + 0;
      HourOffset(hour + 1, 0);
      r
    else
      HourOffset(hour, marks * Step);
      MarksMod(marks);
      r
  }

  /** Rounding up the offset into the hour gives at most twelve marks, and
      lands less than one mark after the offset. */
  lemma MarksRange(nsecs: int)
    requires 0 <= nsecs < MicrosPerHour
    ensures var marks := (nsecs + Step - 1) / Step;
      0 <= marks <= 12 && nsecs <= marks * Step < nsecs + Step
  {
  }

  lemma MarksMod(k: int)
    ensures (k * Step) % Step == 0
  {
  }

  lemma HourOffset(hour: int, x: int)
    requires 0 <= x < MicrosPerHour
    ensures (hour * MicrosPerHour + x) % MicrosPerHour == x
  {
  }

  /** An instant already on a five-minute mark is left where it is. */
  lemma CeilingDtOnMark(t: int)
    requires t % Step == 0
    ensures CeilingDt(t) == t
  {
    var r := CeilingDt(t);
    assert (r - t) % Step == 0;
  }

  /** Rounding up twice is rounding up once. */
  lemma CeilingDtIdempotent(t: int)
    ensures CeilingDt(CeilingDt(t)) == CeilingDt(t)
  {
    CeilingDtOnMark(CeilingDt(t));
  }

  /** No five-minute mark lies between `t` and its ceiling. */
  lemma CeilingDtLeast(t: int, m: int)
    requires m % Step == 0 && t <= m
    ensures CeilingDt(t) <= m
  {
    var r := CeilingDt(t);
    if m < r {
      MarkGap(m, r);
    }
  }

  /** Two distinct five-minute marks are at least five minutes apart. */
  lemma MarkGap(a: int, b: int)
    requires a % Step == 0 && b % Step == 0 && a < b
    ensures a + Step <= b
  {
    var i, j := a / Step, b / Step;
    assert a == i * Step && b == j * Step;
    assert i < j;
    assert (j - i) * Step >= Step;
  }

  /*** start_end_dt_from_now ***/

  /** The length of one `unit`, matched exactly as the source spells the units. */
  function UnitLength(unit: string): Option<int> {
    if unit == "minute" || unit == "minutes" then Some(MicrosPerMinute)
    else if unit == "hour" || unit == "hours" then Some(MicrosPerHour)
    else if unit == "day" || unit == "days" then Some(MicrosPerDay)
    else None
  }

  /** `start_end_dt_from_now(for_)`, with the current time `now` given: the
      window of `count` units that ends at the ceiling of `now`. A unit that
      none of the three branches matches falls off the end: Ok(None). A ceiling
      past the end of year 9999, or a start outside years 1 to 9999 (the
      timedelta itself overflows first when it is longer still), is an
      OverflowError. */
  function StartEndFromNow(forArg: Option<Duration>, now: int): Result<Option<Window>> {
    var end := CeilingDt(now);
    if end > MaxInstant then Err(OverflowError)
    else match forArg
    case None => Err(TypeError)
    case Some(d) =>
      match UnitLength(d.unit)
      case None => Ok(None)
      case Some(len) =>
        match ParseInt(d.count)
        case None => Err(ValueError)
        case Some(n) =>
          var start := end - n * len;
          if !InDatetimeRange(start) then Err(OverflowError) else Ok(Some(Window(start, end)))
  }

  /** The window ends at the ceiling of `now` and begins `count` units before,
      so it is never reversed for a count that is not negative, and both ends
      are datetimes. Any unit outside the six exact words gives no window at
      all; an unreadable count is a ValueError, and a window reaching outside
      years 1 to 9999 an OverflowError. */
  lemma StartEndFromNowWindow(d: Duration, now: int)
    ensures var r := StartEndFromNow(Some(d), now);
      && (CeilingDt(now) > MaxInstant ==> r == Err(OverflowError))
      && (CeilingDt(now) <= MaxInstant ==>
            && (UnitLength(d.unit).None? <==> r == Ok(None))
            && (r == Err(ValueError) <==> UnitLength(d.unit).Some? && ParseInt(d.count).None?))
    ensures var r := StartEndFromNow(Some(d), now);
      r == Err(OverflowError) <==>
        || CeilingDt(now) > MaxInstant
        || (&& UnitLength(d.unit).Some? && ParseInt(d.count).Some?
            && !InDatetimeRange(CeilingDt(now) - ParseInt(d.count).value * UnitLength(d.unit).value))
    ensures StartEndFromNow(Some(d), now).Err? ==>
      StartEndFromNow(Some(d), now).error == ValueError || StartEndFromNow(Some(d), now).error == OverflowError
    ensures match StartEndFromNow(Some(d), now)
      case Ok(Some(w)) =>
        && w.end == CeilingDt(now) && now <= w.end < now + Step
        && w.start == w.end - ParseInt(d.count).value * UnitLength(d.unit).value
        && InDatetimeRange(w.start) && w.end <= MaxInstant
        && (ParseInt(d.count).value >= 0 ==> w.start <= w.end)
      case _ => true
  {
    match UnitLength(d.unit)
    case None =>
    case Some(len) =>
      match ParseInt(d.count)
      case None =>
      case Some(n) =>
        if n >= 0 {
          assert n * len >= 0;
        }
  }

  /** start_end_dt_from_now as its caller evidently means it: the unit is
      matched after lowering it, as validate_args lowers it before checking. */
  function StartEndFromNowCaseless(forArg: Option<Duration>, now: int): Result<Option<Window>> {
    match forArg
    case None => StartEndFromNow(None, now)
    case Some(d) => StartEndFromNow(Some(Duration(d.count, Lower(d.unit))), now)
  }

  /** "Minutes" is not one of the exact words, so the window falls through to
      None, while its lowered form is, for any clock reading more than five
      minutes away from both ends of the datetime range. */
  lemma MixedCaseUnit(now: int)
    requires MinInstant + Step <= now <= MaxInstant - Step
    ensures StartEndFromNow(Some(Duration("5", "Minutes")), now) == Ok(None)
    ensures StartEndFromNowCaseless(Some(Duration("5", "Minutes")), now).Ok?
    ensures StartEndFromNowCaseless(Some(Duration("5", "Minutes")), now).value.Some?
  {
    assert Lower("Minutes") == "minutes";
    assert "Minutes" != "minutes";
    ParseIntDigits("5");
    assert DigitsValue("5") == 5;
  }

  /*** start_end_dt_from_dates ***/

  /** Year, month and day of a `Y/M/D` stamp, read left to right: each piece
      is read by `int()` (ValueError), and a missing piece is an IndexError.
      Pieces after the third are ignored. */
  function DateParts(s: string): Result<(int, int, int)> {
    var p := Split(s, '/');
    match ParseInt(p[0])
    case None => Err(ValueError)
    case Some(y) =>
      if |p| < 2 then Err(IndexError)
      else match ParseInt(p[1])
      case None => Err(ValueError)
      case Some(m) =>
        if |p| < 3 then Err(IndexError)
        else match ParseInt(p[2])
        case None => Err(ValueError)
        case Some(d) => Ok((y, m, d))
  }

  lemma DatePartsRead(s: string)
    requires |Split(s, '/')| >= 3
    requires var p := Split(s, '/'); ParseInt(p[0]).Some? && ParseInt(p[1]).Some? && ParseInt(p[2]).Some?
    ensures var p := Split(s, '/');
      DateParts(s) == Ok((ParseInt(p[0]).value, ParseInt(p[1]).value, ParseInt(p[2]).value))
  {
  }

  /** The range of a C `int`, into which `datetime()` converts each field. */
  predicate FitsCInt(n: int) {
    -0x8000_0000 <= n < 0x8000_0000
  }

  /** `datetime(y, m, d, 0, 5)`: a field that does not fit a C `int` is an
      OverflowError, raised while the arguments are converted; a date that
      does not exist is a ValueError. */
  function MakeDate(y: int, m: int, d: int): Result<Civil> {
    if !FitsCInt(y) || !FitsCInt(m) || !FitsCInt(d) then Err(OverflowError)
    else
      var c := Civil(y, m, d, 0, 5);
      if ValidCivil(c) then Ok(c) else Err(ValueError)
  }

  /** A date is built exactly for a real calendar day; of the fields that
      are not, those too wide for a C `int` are an OverflowError and the rest a
      ValueError. */
  lemma MakeDateErr(y: int, m: int, d: int)
    ensures MakeDate(y, m, d).Ok? <==> ValidCivil(Civil(y, m, d, 0, 5))
    ensures MakeDate(y, m, d).Ok? ==> MakeDate(y, m, d).value == Civil(y, m, d, 0, 5)
    ensures MakeDate(y, m, d) == Err(OverflowError) <==> !(FitsCInt(y) && FitsCInt(m) && FitsCInt(d))
    ensures MakeDate(y, m, d).Err? ==>
      MakeDate(y, m, d).error == OverflowError || MakeDate(y, m, d).error == ValueError
  {
    if ValidCivil(Civil(y, m, d, 0, 5)) {
      assert d <= 31 by {
        assert DaysInMonth(y, m) <= 31;
      }
    }
  }

  /** `start_end_dt_from_dates(from_, to_)`: both days at 00:05. Both stamps
      are read before either date is built, and the start date is built
      before the end date. */
  function StartEndDtFromDates(from: string, to: string): Result<(Civil, Civil)> {
    match DateParts(from)
    case Err(e) => Err(e)
    case Ok((fy, fm, fd)) =>
      match DateParts(to)
      case Err(e) => Err(e)
      case Ok((ty, tm, td)) =>
        match MakeDate(fy, fm, fd)
        case Err(e) => Err(e)
        case Ok(a) =>
          match MakeDate(ty, tm, td)
          case Err(e) => Err(e)
          case Ok(b) => Ok((a, b))
  }

  /** A date written `%Y/%m/%d`. */
  function DateText(c: Civil): string {
    Pad(c.year, 4) + "/" + Pad(c.month, 2) + "/" + Pad(c.day, 2)
  }

  lemma PadReads(n: int, width: nat)
    requires width > 0 && 0 <= n < Pow10(width)
    ensures ParseInt(Pad(n, width)) == Some(n)
    ensures '/' !in Pad(n, width)
  {
    PadValue(n, width);
    ParseIntDigits(Pad(n, width));
  }

  /** A date's text splits into its three padded numbers. */
  lemma DateTextSplit(y: string, m: string, d: string)
    requires '/' !in y && '/' !in m && '/' !in d
    ensures Split(y + "/" + m + "/" + d, '/') == [y, m, d]
  {
    var pieces := [y, m, d];
    assert Join(pieces, '/') == y + "/" + m + "/" + d by {
      assert pieces[1..] == [m, d];
      assert [m, d][1..] == [d];
      assert Join([m, d], '/') == m + ['/'] + d;
      assert "/" == ['/'];
    }
    JoinSplit(pieces, '/');
  }

  lemma DateTextParts(c: Civil)
    requires ValidCivil(c)
    ensures DateParts(DateText(c)) == Ok((c.year, c.month, c.day))
  {
    assert Pow10(2) == 100 && Pow10(4) == 10000;
    PadReads(c.year, 4);
    PadReads(c.month, 2);
    PadReads(c.day, 2);
    DateTextSplit(Pad(c.year, 4), Pad(c.month, 2), Pad(c.day, 2));
    DatePartsRead(DateText(c));
  }

  /** Reading two `%Y/%m/%d` stamps of real dates gives those days at 00:05. */
  lemma StartEndDtFromDatesText(a: Civil, b: Civil)
    requires ValidCivil(a) && ValidCivil(b)
    ensures StartEndDtFromDates(DateText(a), DateText(b)) ==
      Ok((Civil(a.year, a.month, a.day, 0, 5), Civil(b.year, b.month, b.day, 0, 5)))
  {
    DateTextParts(a);
    DateTextParts(b);
    MakeDateErr(a.year, a.month, a.day);
    MakeDateErr(b.year, b.month, b.day);
  }

  /** Whatever the stamps, a result is a pair of real dates at 00:05, and the
      numbers read from the first three pieces of each stamp. */
  lemma StartEndDtFromDatesOk(from: string, to: string)
    requires StartEndDtFromDates(from, to).Ok?
    ensures var (a, b) := StartEndDtFromDates(from, to).value;
      && ValidCivil(a) && ValidCivil(b)
      && a.hour == 0 && a.minute == 5 && b.hour == 0 && b.minute == 5
      && |Split(from, '/')| >= 3 && |Split(to, '/')| >= 3
      && ParseInt(Split(from, '/')[0]) == Some(a.year)
      && ParseInt(Split(from, '/')[1]) == Some(a.month)
      && ParseInt(Split(from, '/')[2]) == Some(a.day)
      && ParseInt(Split(to, '/')[0]) == Some(b.year)
      && ParseInt(Split(to, '/')[1]) == Some(b.month)
      && ParseInt(Split(to, '/')[2]) == Some(b.day)
  {
    var (fy, fm, fd) := DateParts(from).value;
    var (ty, tm, td) := DateParts(to).value;
    MakeDateErr(fy, fm, fd);
    MakeDateErr(ty, tm, td);
  }

  /*** get_prefix_format and get_prefix_list ***/

  /** The prefix format with the account (000000000000), the region
      (us-east-1) and the load balancer (alb.name.id) filled in: everything
      between the day's slash and the timestamp. */
  const LogName: string := "000000000000_elasticloadbalancing_us-east-1_alb.name.id_"

  /** `get_prefix_format(dt)`: the day of the month (the `{month}` placeholder
      is filled with `%d`), a slash, the load balancer's log name, and the
      timestamp. A timestamp strptime cannot read is a ValueError, and so is
      one before 1900, which Python 2's strftime refuses. */
  function GetPrefixFormat(dt: string): Result<string> {
    match Parse(dt)
    case None => Err(ValueError)
    case Some(c) =>
      if c.year < 1900 then Err(ValueError)
      else Ok(Pad(c.day, 2) + "/" + LogName + dt)
  }

  /** A timestamp that strptime reads, of a year strftime accepts. */
  predicate PrefixReadable(dt: string) {
    Parse(dt).Some? && Parse(dt).value.year >= 1900
  }

  /** The prefix of a timestamp begins with the timestamp's own two day digits
      and ends with the timestamp; any other timestamp is a ValueError. */
  lemma PrefixLayout(dt: string)
    ensures GetPrefixFormat(dt).Ok? <==> PrefixReadable(dt)
    ensures GetPrefixFormat(dt).Err? ==> GetPrefixFormat(dt).error == ValueError
    ensures GetPrefixFormat(dt).Ok? ==>
      GetPrefixFormat(dt).value == dt[6..8] + "/" + LogName + dt
  {
    if PrefixReadable(dt) {
      var c := Parse(dt).value;
      FormatParse(dt);
      assert dt[6..8] == Pad(c.day, 2);
    }
  }

  /** The prefix of the timestamp of any real date from 1900 on; an earlier
      date is a ValueError. */
  lemma PrefixOfDate(c: Civil)
    requires ValidCivil(c)
    ensures GetPrefixFormat(Format(c)) ==
      if c.year < 1900 then Err(ValueError) else Ok(Pad(c.day, 2) + "/" + LogName + Format(c))
  {
    ParseFormat(c);
  }

  /** `get_prefix_list(dts)` */
  function GetPrefixList(dts: seq<string>): Result<seq<string>> {
    MapAll(GetPrefixFormat, dts)
  }

  /** One prefix per timestamp, in the same order; the list fails, with a
      ValueError, exactly when some timestamp cannot be read or is before 1900. */
  lemma GetPrefixListOrder(dts: seq<string>)
    ensures GetPrefixList(dts).Ok? <==> forall i | 0 <= i < |dts| :: PrefixReadable(dts[i])
    ensures GetPrefixList(dts).Ok? ==>
      && |GetPrefixList(dts).value| == |dts|
      && forall i | 0 <= i < |dts| :: GetPrefixList(dts).value[i] == GetPrefixFormat(dts[i]).value
    ensures GetPrefixList(dts).Err? ==> GetPrefixList(dts).error == ValueError
  {
    MapAllOk(GetPrefixFormat, dts);
    forall i | 0 <= i < |dts|
      ensures GetPrefixFormat(dts[i]).Ok? <==> PrefixReadable(dts[i])
    {
      PrefixLayout(dts[i]);
    }
    if GetPrefixList(dts).Err? {
      MapAllErr(GetPrefixFormat, dts);
    }
  }

  /*** download and download_all ***/

  /** What the bucket answers to a request for one key. */
  datatype Fetch =
    | Fetched(lines: seq<string>)   // the object, as the lines of its log file
    | NotFound                      // a ClientError with code 404
    | Failed                        // any other ClientError

  /** The bucket's answer for `key`; a key it does not hold is a 404. */
  function FetchOf(bucket: map<string, Fetch>, key: string): Fetch {
    if key in bucket then bucket[key] else NotFound
  }

  /** `file.split('/')[-1]`: the name a key is stored under in the download
      directory, and read back from by the parser. */
  function LocalName(key: string): string {
    LastPiece(key, '/')
  }

  /** A last segment that joined to the download directory names a directory,
      not a file: the directory itself (a key ending in `/`, or in `/.`) or its
      parent. `os.path.exists` holds for each, so nothing is downloaded for it,
      and opening it as a log is an IOError. */
  predicate DirName(name: string) {
    name == "" || name == "." || name == ".."
  }

  /** The local name of `dir/name` is `name`. */
  lemma LocalNameOf(dir: string, name: string)
    requires '/' !in name
    ensures LocalName(dir + "/" + name) == name
  {
    var s := dir + "/" + name;
    assert s[|dir|] == '/';
    assert s[|s| - |name|..] == name;
  }

  /** `download(bucket_name, download_dir, file)`: the key is fetched into the
      file named by its last path segment, unless a file of that name is
      already in the directory or the name is the directory's own; an error
      reply leaves the directory as it was. */
  function Download(cache: map<string, seq<string>>, bucket: map<string, Fetch>, key: string): (r: map<string, seq<string>>)
    ensures forall n | n in cache :: n in r && r[n] == cache[n]
    ensures forall n | n in r && n !in cache :: n == LocalName(key) && !DirName(n)
    ensures DirName(LocalName(key)) ==> r == cache
    ensures !DirName(LocalName(key)) ==>
      (LocalName(key) in r <==> LocalName(key) in cache || FetchOf(bucket, key).Fetched?)
    ensures LocalName(key) in r && LocalName(key) !in cache ==> r[LocalName(key)] == FetchOf(bucket, key).lines
  {
    var name := LocalName(key);
    if name in cache || DirName(name) then cache
    else match FetchOf(bucket, key)
      case Fetched(lines) => cache[name := lines]
      case _ => cache
  }

  /** `download_all(bucket_name, download_dir, files_to_download)`, one key
      after the other. */
  function DownloadAll(cache: map<string, seq<string>>, bucket: map<string, Fetch>, keys: seq<string>): map<string, seq<string>> {
    if keys == [] then cache
    else Download(DownloadAll(cache, bucket, keys[..|keys| - 1]), bucket, keys[|keys| - 1])
  }

  /** Every key the bucket serves, or whose file was already there, has its
      file afterwards unless its name is a directory's, no file that was there
      is replaced, and every new file is named after one of the keys. */
  lemma {:induction false} DownloadAllCovers(cache: map<string, seq<string>>, bucket: map<string, Fetch>, keys: seq<string>)
    ensures forall n | n in cache :: n in DownloadAll(cache, bucket, keys) && DownloadAll(cache, bucket, keys)[n] == cache[n]
    ensures forall k | k in keys && FetchOf(bucket, k).Fetched? && !DirName(LocalName(k)) ::
      LocalName(k) in DownloadAll(cache, bucket, keys)
    ensures forall n | n in DownloadAll(cache, bucket, keys) && n !in cache ::
      !DirName(n) && exists k | k in keys :: LocalName(k) == n
  {
    if keys != [] {
      var p := keys[..|keys| - 1];
      DownloadAllCovers(cache, bucket, p);
      assert keys == p + [keys[|keys| - 1]];
    }
  }

  /** Once every served key has its file, downloading changes nothing. */
  lemma {:induction false} DownloadAllSkips(cache: map<string, seq<string>>, bucket: map<string, Fetch>, keys: seq<string>)
    requires forall k | k in keys && FetchOf(bucket, k).Fetched? && !DirName(LocalName(k)) :: LocalName(k) in cache
    ensures DownloadAll(cache, bucket, keys) == cache
  {
    if keys != [] {
      var p := keys[..|keys| - 1];
      assert forall k | k in p :: k in keys;
      DownloadAllSkips(cache, bucket, p);
    }
  }

  /** Downloading the same keys a second time changes nothing. */
  lemma DownloadAllIdempotent(cache: map<string, seq<string>>, bucket: map<string, Fetch>, keys: seq<string>)
    ensures DownloadAll(DownloadAll(cache, bucket, keys), bucket, keys) == DownloadAll(cache, bucket, keys)
  {
    DownloadAllCovers(cache, bucket, keys);
    DownloadAllSkips(DownloadAll(cache, bucket, keys), bucket, keys);
  }

  /** The index of the first key stored under `name`, or `|keys|` when none is. */
  function FirstNamed(keys: seq<string>, name: string): (r: nat)
    ensures r <= |keys|
    ensures r < |keys| ==> LocalName(keys[r]) == name
    ensures forall m | 0 <= m < r :: LocalName(keys[m]) != name
  {
    if keys == [] then 0
    else if LocalName(keys[0]) == name then 0
    else 1 + FirstNamed(keys[1..], name)
  }

  /** A name not there before the downloads is filled by the first key stored
      under it, when the bucket serves that key: later keys of the same name
      find the file present and are skipped. */
  lemma {:induction false} DownloadAllFirst(cache: map<string, seq<string>>, bucket: map<string, Fetch>, keys: seq<string>, j: nat)
    requires j < |keys| && FetchOf(bucket, keys[j]).Fetched?
    requires !DirName(LocalName(keys[j])) && LocalName(keys[j]) !in cache
    requires forall m | 0 <= m < j :: LocalName(keys[m]) != LocalName(keys[j])
    ensures LocalName(keys[j]) in DownloadAll(cache, bucket, keys)
    ensures DownloadAll(cache, bucket, keys)[LocalName(keys[j])] == FetchOf(bucket, keys[j]).lines
  {
    var p := keys[..|keys| - 1];
    var n := LocalName(keys[j]);
    if j < |p| {
      assert p[j] == keys[j];
      assert forall m | 0 <= m < j :: p[m] == keys[m];
      DownloadAllFirst(cache, bucket, p, j);
    } else {
      DownloadAllCovers(cache, bucket, p);
      assert forall k | k in p :: LocalName(k) != n by {
        forall k | k in p
          ensures LocalName(k) != n
        {
          var m :| 0 <= m < |p| && p[m] == k;
          assert keys[m] == k;
        }
      }
      assert n !in DownloadAll(cache, bucket, p);
    }
  }

  /** `gzip.open(os.path.join(download_dir, file.split('/')[-1]))` read to its
      lines; a file that is not there, or a directory, is an IOError. */
  function ReadLog(cache: map<string, seq<string>>): string -> Result<seq<string>> {
    (key: string) =>
      if !DirName(LocalName(key)) && LocalName(key) in cache then Ok(cache[LocalName(key)]) else Err(IOError)
  }

  /** The lines of every key's file, in key order: the `files` the parser's
      reducers walk. */
  function LogsOf(cache: map<string, seq<string>>, keys: seq<string>): Result<seq<seq<string>>> {
    MapAll(ReadLog(cache), keys)
  }

  /** What the file of one key holds after downloading keys the bucket
      serves: the file that was already there, or what the bucket served for
      the first key of its name. */
  function FileAfter(cache: map<string, seq<string>>, bucket: map<string, Fetch>, keys: seq<string>, i: nat): seq<string>
    requires forall k | k in keys :: FetchOf(bucket, k).Fetched?
    requires i < |keys|
  {
    var n := LocalName(keys[i]);
    if n in cache then cache[n] else FetchOf(bucket, keys[FirstNamed(keys, n)]).lines
  }

  /** Reading one key's file after the downloads. */
  lemma ReadAfterDownloads(cache: map<string, seq<string>>, bucket: map<string, Fetch>, keys: seq<string>, i: nat)
    requires forall k | k in keys :: FetchOf(bucket, k).Fetched?
    requires i < |keys|
    ensures ReadLog(DownloadAll(cache, bucket, keys))(keys[i]) ==
      if DirName(LocalName(keys[i])) then Err(IOError) else Ok(FileAfter(cache, bucket, keys, i))
  {
    var after := DownloadAll(cache, bucket, keys);
    DownloadAllCovers(cache, bucket, keys);
    assert keys[i] in keys;
    var n := LocalName(keys[i]);
    if !DirName(n) && n !in cache {
      var j := FirstNamed(keys, n);
      assert keys[j] in keys;
      DownloadAllFirst(cache, bucket, keys, j);
    }
  }

  /** After downloading keys the bucket serves, the files can all be read
      exactly when no key's last segment names a directory (an IOError
      otherwise). Each reads as the file that was already there, or else as
      what the bucket served for the first key of its name (FileAfter). */
  lemma DownloadedLogsReadable(cache: map<string, seq<string>>, bucket: map<string, Fetch>, keys: seq<string>)
    requires forall k | k in keys :: FetchOf(bucket, k).Fetched?
    ensures LogsOf(DownloadAll(cache, bucket, keys), keys).Ok? <==>
      forall i | 0 <= i < |keys| :: !DirName(LocalName(keys[i]))
    ensures LogsOf(DownloadAll(cache, bucket, keys), keys).Err? ==>
      LogsOf(DownloadAll(cache, bucket, keys), keys).error == IOError
    ensures LogsOf(DownloadAll(cache, bucket, keys), keys).Ok? ==>
      && |LogsOf(DownloadAll(cache, bucket, keys), keys).value| == |keys|
      && forall i | 0 <= i < |keys| ::
           LogsOf(DownloadAll(cache, bucket, keys), keys).value[i] == FileAfter(cache, bucket, keys, i)
  {
    var after := DownloadAll(cache, bucket, keys);
    ReadEach(cache, bucket, keys, after);
    MapAllOk(ReadLog(after), keys);
    MapAllOnly(ReadLog(after), keys, IOError);
  }

  /** ReadAfterDownloads for every key at once. */
  lemma ReadEach(cache: map<string, seq<string>>, bucket: map<string, Fetch>, keys: seq<string>, after: map<string, seq<string>>)
    requires forall k | k in keys :: FetchOf(bucket, k).Fetched?
    requires after == DownloadAll(cache, bucket, keys)
    ensures forall i | 0 <= i < |keys| ::
      ReadLog(after)(keys[i]) == if DirName(LocalName(keys[i])) then Err(IOError) else Ok(FileAfter(cache, bucket, keys, i))
  {
    forall i | 0 <= i < |keys|
      ensures ReadLog(after)(keys[i]) ==
        if DirName(LocalName(keys[i])) then Err(IOError) else Ok(FileAfter(cache, bucket, keys, i))
    {
      ReadAfterDownloads(cache, bucket, keys, i);
    }
  }
}
