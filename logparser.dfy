/** logparser/logparser.py: the checks on the command line, the time window a
    run covers, the ranking of what the reducers return, and the choice of the
    S3 keys to download. */
module LogParser {
  import opened Wrappers
  import opened Text
  import opened Counter
  import opened Download
  import opened Timestamp

  /*** validate_args ***/

  /** The parsed command line. `from` and `to` are the instants `valid_date`
      reads from `--from` and `--to`; `max` is the text given to `--max`. */
  datatype Args = Args(
    getOption: string,
    code: Option<string>,
    from: Option<int>,
    to: Option<int>,
    max: Option<string>,
    forArg: Option<Duration>)

  /** The reasons `validate_args` stops the program with `parser.error`. */
  datatype ArgError =
    | BadOption
    | NoCode
    | NoRange
    | NoEndDate
    | NoStartDate
    | MixedRange
    | ReversedRange
    | BadDuration

  /** The message `parser.error` prints for each reason. */
  function Message(e: ArgError): string {
    match e
    case BadOption => "get_option must be one of [getcodes, geturls, getUAs, getreport]."
    case NoCode => "code must be specified"
    case NoRange => "Please specify either an absolute or relative datetime range"
    case NoEndDate => "Please specify an end date"
    case NoStartDate => "Please specify a start date"
    case MixedRange => "You can only specify a relative duration in the absence of absolute date stamps"
    case ReversedRange => "Start date must be older than end date"
    case BadDuration => "Cannot parse relative date/time stamps"
  }

  const Options: set<string> := {"getcodes", "geturls", "getUAs", "getreport"}
  const CodeOptions: set<string> := {"geturls", "getUAs"}
  const Units: set<string> := {"day", "days", "hour", "hours", "minute", "minutes"}

  /** `validate_args(args, parser)`: the first guard that fires, or None when
      the arguments pass. A date is always true and None false; `args.to <
      args.from_` compares two dates, or two Nones, which Python 2 orders as
      equal: the guards before it stop every other case. */
  function ValidateArgs(a: Args): Option<ArgError> {
    if a.getOption !in Options then Some(BadOption)
    else if a.getOption in CodeOptions && a.code.None? then Some(NoCode)
    else if a.from.None? && a.to.None? && a.forArg.None? then Some(NoRange)
    else if a.from.Some? && a.to.None? then Some(NoEndDate)
    else if a.to.Some? && a.from.None? then Some(NoStartDate)
    else if a.forArg.Some? && (a.from.Some? || a.to.Some?) then Some(MixedRange)
    else if a.from.Some? && a.to.Some? && a.to.value < a.from.value then Some(ReversedRange)
    else if a.forArg.Some? && (!IsDigits(a.forArg.value.count) || Lower(a.forArg.value.unit) !in Units) then Some(BadDuration)
    else None
  }

  /** What a command line that passes looks like: a known option, a code
      whenever the option filters by one, and exactly one of an ordered pair of
      dates or a duration of digits in one of the six units, in any case. */
  predicate WellFormed(a: Args) {
    && a.getOption in Options
    && (a.getOption in CodeOptions ==> a.code.Some?)
    && (|| (a.from.Some? && a.to.Some? && a.forArg.None? && a.from.value <= a.to.value)
        || (&& a.from.None? && a.to.None? && a.forArg.Some?
            && IsDigits(a.forArg.value.count) && Lower(a.forArg.value.unit) in Units))
  }

  /** The arguments pass exactly when they are well formed. */
  lemma ValidateArgsPasses(a: Args)
    ensures ValidateArgs(a).None? <==> WellFormed(a)
  {
  }

  /** What `validate_args` prints through `parser.error` before it stops the
      program: nothing exactly when the arguments are well formed. */
  function Rejection(a: Args): (r: Option<string>)
    ensures r.None? <==> WellFormed(a)
  {
    ValidateArgsPasses(a);
    match ValidateArgs(a)
    case None => None
    case Some(e) => Some(Message(e))
  }

  /*** get_dt_range ***/

  /** `get_dt_range(args)` with the current time `now`, calling the corrected
      start_end_dt_from_now: the dates each moved on by five minutes, since a
      log file holds the five minutes before its timestamp, or else the window
      of the duration. `args.to + timedelta` on a missing date is a TypeError. */
  function GetDtRange(a: Args, now: int): Result<Option<Window>> {
    if a.from.Some? then
      if a.to.None? then Err(TypeError) else Ok(Some(Window(a.from.value + Step, a.to.value + Step)))
    else StartEndFromNowCaseless(a.forArg, now)
  }

  /** `get_dt_range(args)` as written, with start_end_dt_from_now's exact,
      case-sensitive unit match. */
  function GetDtRangeAsWritten(a: Args, now: int): Result<Option<Window>> {
    if a.from.Some? then
      if a.to.None? then Err(TypeError) else Ok(Some(Window(a.from.value + Step, a.to.value + Step)))
    else StartEndFromNow(a.forArg, now)
  }

  /** Arguments that pass give a window, in order: the dates moved on by five
      minutes, or the duration's window ending at the ceiling of `now`, unless
      that window reaches outside years 1 to 9999, which is an OverflowError. */
  lemma GetDtRangeWindow(a: Args, now: int)
    requires ValidateArgs(a).None?
    ensures a.from.Some? ==>
      && GetDtRange(a, now) == Ok(Some(Window(a.from.value + Step, a.to.value + Step)))
      && a.from.value + Step <= a.to.value + Step
    ensures a.forArg.Some? ==>
      var end := CeilingDt(now);
      var start := end - DigitsValue(a.forArg.value.count) * UnitLength(Lower(a.forArg.value.unit)).value;
      if end <= MaxInstant && MinInstant <= start
      then GetDtRange(a, now) == Ok(Some(Window(start, end))) && start <= end
      else GetDtRange(a, now) == Err(OverflowError)
  {
    ValidateArgsPasses(a);
    if a.forArg.Some? {
      var d := a.forArg.value;
      var d' := Duration(d.count, Lower(d.unit));
      ParseIntDigits(d.count);
      assert UnitLength(d'.unit).Some?;
      StartEndFromNowWindow(d', now);
    }
  }

  /** The six units are written in lower case. */
  lemma UnitsLower(u: string)
    requires UnitLength(u).Some?
    ensures Lower(u) == u
  {
    assert forall i | 0 <= i < |u| :: !('A' <= u[i] <= 'Z');
  }

  /** get_dt_range as written and the corrected one agree whenever `--for` is
      absent or its unit is already in lower case, so every property of the
      corrected range holds of the code as written there. On arguments that
      pass validation with any other unit, the code as written gives no
      window at all. */
  lemma GetDtRangeAsWrittenAgrees(a: Args, now: int)
    ensures (a.forArg.None? || Lower(a.forArg.value.unit) == a.forArg.value.unit) ==>
      GetDtRangeAsWritten(a, now) == GetDtRange(a, now)
    ensures
      (&& ValidateArgs(a).None? && a.forArg.Some? && Lower(a.forArg.value.unit) != a.forArg.value.unit
       && CeilingDt(now) <= MaxInstant)
      ==> GetDtRangeAsWritten(a, now) == Ok(None)
  {
    if a.forArg.Some? && UnitLength(a.forArg.value.unit).Some? {
      UnitsLower(a.forArg.value.unit);
    }
  }

  /** A unit in capitals passes validation, which lowers it, but the exact
      match of start_end_dt_from_now then finds no unit and returns None, and
      listing the steps of None is a TypeError. The corrected range is a real
      window. */
  lemma MixedCaseUnitFinding(now: int)
    requires MinInstant + Step <= now <= MaxInstant - Step
    ensures var a := Args("getcodes", None, None, None, None, Some(Duration("5", "Minutes")));
      && ValidateArgs(a).None?
      && GetDtRangeAsWritten(a, now) == Ok(None)
      && ListDatetimeRange(GetDtRangeAsWritten(a, now).value) == Err(TypeError)
      && GetDtRange(a, now).Ok? && GetDtRange(a, now).value.Some?
  {
    MixedCaseUnit(now);
    assert IsDigits("5");
  }

  /*** process_results ***/

  /** `if args.max:` is true for any non-empty `--max` text, even "0". */
  predicate Given(max: Option<string>) {
    max.Some? && max.value != ""
  }

  /** The ranking process_results prints: `Counter(results).most_common(n)` for
      `n = int(args.max)`, which raises a ValueError on text that is not a
      number, or `most_common()` when no max is given. */
  function ProcessResults(results: seq<string>, max: Option<string>): Result<seq<Entry>> {
    if Given(max) then
      match ParseInt(max.value)
      case None => Err(ValueError)
      case Some(n) => Ok(MostCommon(Items(results), Some(n)))
    else Ok(MostCommon(Items(results), None))
  }

  /** process_results fails, with a ValueError, exactly when a max is given
      that `int()` cannot read. */
  lemma ProcessResultsErr(results: seq<string>, max: Option<string>)
    ensures ProcessResults(results, max).Err? <==> Given(max) && ParseInt(max.value).None?
    ensures ProcessResults(results, max).Err? ==> ProcessResults(results, max).error == ValueError
  {
  }

  /** Every entry of a prefix of the ranking is a distinct value of `xs` with
      its number of occurrences. */
  lemma RankedEntries(xs: seq<string>, r: seq<Entry>)
    requires r <= SortDesc(Items(xs))
    ensures forall e | e in r :: e.key in xs && e.count == multiset(xs)[e.key]
  {
    var items := Items(xs);
    var s := SortDesc(items);
    forall e | e in r
      ensures e.key in xs && e.count == multiset(xs)[e.key]
    {
      var j :| 0 <= j < |r| && r[j] == e;
      assert s[j] == e;
      assert e in multiset(s);
      assert e in multiset(items);
      var i :| 0 <= i < |items| && items[i] == e;
      assert e.count == multiset(xs)[e.key];
      assert FirstSeen(xs)[i] == e.key;
      assert e.key in FirstSeen(xs);
    }
  }

  /** The ranking lists distinct values with their number of occurrences,
      largest first; an entry left out counts no more than any entry kept. With
      a max of n it keeps min(n, distinct) entries (none for n <= 0); without
      one it keeps every distinct value. */
  lemma ProcessResultsRanking(results: seq<string>, max: Option<string>)
    requires ProcessResults(results, max).Ok?
    ensures var r := ProcessResults(results, max).value;
      && SortedDesc(r)
      && DistinctKeys(r)
      && (!Given(max) ==> multiset(r) == multiset(Items(results)))
      && (forall e | e in r :: e.key in results && e.count == multiset(results)[e.key])
      && (forall e, x | e in Items(results) && e !in r && x in r :: e.count <= x.count)
      && |r| == (if Given(max) then
                  (if ParseInt(max.value).value <= 0 then 0 else Min(ParseInt(max.value).value, |FirstSeen(results)|))
                else |FirstSeen(results)|)
  {
    var r := ProcessResults(results, max).value;
    TopIsLargest(Items(results), r);
    RankedEntries(results, r);
    ItemsEnumerate(results);
    MostCommonDistinct(Items(results), if Given(max) then Some(ParseInt(max.value).value) else None);
  }

  /** Without a max, the counts of the ranking add up to the number of results. */
  lemma ProcessResultsSum(results: seq<string>)
    ensures ProcessResults(results, None).Ok?
    ensures SumCounts(ProcessResults(results, None).value) == |results|
  {
    var items := Items(results);
    SortDescSum(items);
    ItemsEnumerate(results);
    EnumerationSum(items, results);
  }

  /*** Key selection (main, lines 111-117) ***/

  /** `filter(lambda k: prefix in k, keys)` */
  function Matching(keys: seq<string>, prefix: string): seq<string> {
    if keys == [] then []
    else
      var k := keys[|keys| - 1];
      Matching(keys[..|keys| - 1], prefix) + (if Contains(k, prefix) then [k] else [])
  }

  /** The keys selected for `prefixes`: for each prefix in turn, every key
      containing it, in key order. */
  function Selected(prefixes: seq<string>, keys: seq<string>): seq<string> {
    if prefixes == [] then []
    else Selected(prefixes[..|prefixes| - 1], keys) + Matching(keys, prefixes[|prefixes| - 1])
  }

  /** The loop of `main` that builds the list of files to download and parse. */
  method SelectKeys(prefixes: seq<string>, keys: seq<string>) returns (files: seq<string>)
    ensures files == Selected(prefixes, keys)
  {
    files := [];
    for i := 0 to |prefixes|
      invariant files == Selected(prefixes[..i], keys)
    {
      var prefix := prefixes[i];
      assert prefixes[..i + 1][..i] == prefixes[..i];
      for j := 0 to |keys|
        invariant files == Selected(prefixes[..i], keys) + Matching(keys[..j], prefix)
      {
        assert keys[..j + 1][..j] == keys[..j];
        if Contains(keys[j], prefix) {
          files := files + [keys[j]];
        }
      }
      assert keys[..|keys|] == keys;
    }
    assert prefixes[..|prefixes|] == prefixes;
  }

  /** The number of prefixes key `k` contains, counted with repetition. */
  function Hits(prefixes: seq<string>, k: string): nat {
    if prefixes == [] then 0
    else Hits(prefixes[..|prefixes| - 1], k) + (if Contains(k, prefixes[|prefixes| - 1]) then 1 else 0)
  }

  lemma {:induction false} MatchingCount(keys: seq<string>, prefix: string, k: string)
    ensures multiset(Matching(keys, prefix))[k] == if Contains(k, prefix) then multiset(keys)[k] else 0
  {
    if keys != [] {
      var p := keys[..|keys| - 1];
      MatchingCount(p, prefix, k);
      assert keys == p + [keys[|keys| - 1]];
    }
  }

  /** A key is selected once for every prefix it contains, and as often as it
      is listed: there is no deduplication. */
  lemma {:induction false} SelectedCount(prefixes: seq<string>, keys: seq<string>, k: string)
    ensures multiset(Selected(prefixes, keys))[k] == multiset(keys)[k] * Hits(prefixes, k)
  {
    if prefixes != [] {
      var p, q := prefixes[..|prefixes| - 1], prefixes[|prefixes| - 1];
      SelectedCount(p, keys, k);
      MatchingCount(keys, q, k);
      var c: nat := if Contains(k, q) then 1 else 0;
      assert Selected(prefixes, keys) == Selected(p, keys) + Matching(keys, q);
      assert Hits(prefixes, k) == Hits(p, k) + c;
      assert multiset(Matching(keys, q))[k] == multiset(keys)[k] * c;
      MulAdd(multiset(keys)[k], Hits(p, k), c);
    }
  }

  lemma MulAdd(n: nat, a: nat, b: nat)
    ensures n * (a + b) == n * a + n * b
  {
  }

  lemma {:induction false} HitsPositive(prefixes: seq<string>, k: string)
    ensures Hits(prefixes, k) > 0 <==> exists p | p in prefixes :: Contains(k, p)
  {
    if prefixes != [] {
      var p, q := prefixes[..|prefixes| - 1], prefixes[|prefixes| - 1];
      HitsPositive(p, k);
      assert prefixes == p + [q];
      if Contains(k, q) {
        assert q in prefixes;
      } else if exists x | x in prefixes :: Contains(k, x) {
        var x :| x in prefixes && Contains(k, x);
        assert x in p;
      }
    }
  }

  /** Exactly the listed keys that contain some prefix are selected. */
  lemma SelectedExactly(prefixes: seq<string>, keys: seq<string>, k: string)
    ensures k in Selected(prefixes, keys) <==> k in keys && exists p | p in prefixes :: Contains(k, p)
  {
    SelectedCount(prefixes, keys, k);
    HitsPositive(prefixes, k);
    MulPositive(multiset(keys)[k], Hits(prefixes, k));
    assert k in Selected(prefixes, keys) <==> multiset(Selected(prefixes, keys))[k] > 0;
    assert k in keys <==> multiset(keys)[k] > 0;
  }

  lemma MulPositive(n: nat, h: nat)
    ensures n * h > 0 <==> n > 0 && h > 0
  {
  }

  /*** Report ranking (main, lines 136-142) ***/

  /** `sorted(results.items(), key=count, reverse=True)[:cap]`, where `items`
      lists the dict of URL counts, and the cap is `int(args.max)` (a
      ValueError on text that is not a number) or else 10. */
  function ReportRanking(items: seq<Entry>, max: Option<string>): Result<seq<Entry>> {
    if Given(max) then
      match ParseInt(max.value)
      case None => Err(ValueError)
      case Some(n) => Ok(SliceTo(SortDesc(items), n))
    else Ok(SliceTo(SortDesc(items), 10))
  }

  /** The report keeps the URLs with the largest counts, largest first, each
      with its own count: min(cap, distinct URLs) of them for a cap that is not
      negative, and a negative cap drops that many from the end. */
  lemma ReportRankingTop(items: seq<Entry>, max: Option<string>)
    ensures ReportRanking(items, max).Err? <==> Given(max) && ParseInt(max.value).None?
    ensures ReportRanking(items, max).Err? ==> ReportRanking(items, max).error == ValueError
    ensures ReportRanking(items, max).Ok? ==>
      var r := ReportRanking(items, max).value;
      var cap := if Given(max) then ParseInt(max.value).value else 10;
      && SortedDesc(r)
      && multiset(r) <= multiset(items)
      && (forall e, x | e in items && e !in r && x in r :: e.count <= x.count)
      && |r| == (if cap >= 0 then Min(cap, |items|) else if |items| + cap >= 0 then |items| + cap else 0)
  {
    if ReportRanking(items, max).Ok? {
      var r := ReportRanking(items, max).value;
      TopIsLargest(items, r);
      forall i, j | 0 <= i < j < |r|
        ensures r[i].count >= r[j].count
      {
        assert r[i] == SortDesc(items)[i] && r[j] == SortDesc(items)[j];
      }
    }
  }
}
