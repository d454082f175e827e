# logparser in Dafny

A model of the core of `logparser`, a Python 2 command-line tool that analyses
Application Load Balancer access logs:

- **Time window and keys** (`logparser/download.py`). The tool works out the
  window a run covers: either two dates, each moved on by five minutes, or the
  last N minutes, hours or days before the current time rounded up to a
  five-minute mark. It lists the `%Y%m%dT%H%MZ` timestamp of every five-minute
  step of the window and builds the S3 key prefix of each timestamp. It keeps
  the bucket keys that contain a prefix and downloads each one to a file named
  after the key's last `/` segment, unless that file is already there.
- **Record extraction and aggregation** (`logparser/parser.py`). A log line is
  stripped and split on single spaces:
  - field 8 is the status code;
  - field 13 is the URL;
  - fields 5 to 7 are the three processing times.

  Split on double quotes, segment 3 is the user agent. Six reducers walk every
  line of every file. They produce:
  - the 4xx/5xx codes;
  - the URLs and user agents of one status code;
  - a per-URL request count;
  - the most frequent status code per URL;
  - the maximum processing times per URL.
- **Command line and ranking** (`logparser/logparser.py`). This covers:
  - the argument checks and the window selection;
  - the Counter ranking with an optional `--max`;
  - the nested loop that selects the keys;
  - the report ranking capped at `--max` or 10.

Modules:

| module | file | models |
|---|---|---|
| `Wrappers` | wrappers.dfy | Option, and the exceptions as `Result` errors |
| `Folds` | fold.dfy | the loop shape: a step per element, the first exception ends the loop |
| `Text` | text.dfy | Python 2 `split`, `strip`, `in`, `isdigit`, `lower`, `int()`, `float()` |
| `Counter` | counter.dfy | `collections.Counter`, `most_common`, `sorted(..., reverse=True)`, `[:n]` |
| `Timestamp` | timestamp.dfy | instants, `strftime`/`strptime` with `%Y%m%dT%H%MZ` |
| `LogLine` | logline.dfy | the fields of a log line; the lines of all files in order |
| `Parser` | parser.dfy | logparser/parser.py |
| `Download` | download.dfy | logparser/download.py |
| `LogParser` | logparser.dfy | logparser/logparser.py |

Conventions:

- An exception ends the whole call, so every operation that can raise returns
  a `Result`. Its error is the Python exception: IndexError, ValueError,
  TypeError, IOError or OverflowError.
- Instants are whole microseconds since 1970-01-01T00:00 UTC. A `datetime`
  holds the instants of the years 1 to 9999 (`Timestamp.InDatetimeRange`).
- The retrieved log files are `seq<seq<string>>`: the lines of each file, in
  key order.
- Each reducer of parser.py is a method with the source's nested loops. Each
  method is proved equal to a `Fold` specification over the flattened lines.
  Lemmas state what the specification means.
- The key-selection loop of `main` is a method too, proved against its
  specification in the same way.

Two behaviours of the code worth knowing:

- **Key selection.** A key that contains several prefixes is selected once per
  prefix it contains, since the loop appends it for each one
  (logparser/logparser.py:114-117): `LogParser.SelectedCount`.
- **Top-status ties.** Among equally frequent status codes, `most_common(1)`
  picks by the order `Counter` lists its items, which in Python 2 is hash
  order. The model lists a Counter in first-seen order (see Left out).

## Model

| member | source | states |
|---|---|---|
| Parser.GetCodes | logparser/parser.py:11-25 | Walks every line of every file in order. The result is the error-code specification of the flattened lines: the field-8 values matching `^[4-5][0-9][0-9]$`, in line order. The first line without field 8 is an IndexError. |
| Parser.ErrorCodesOk | logparser/parser.py:21-22 | get_codes succeeds exactly when every line has a field 8. Otherwise it raises IndexError; there is no skip path. |
| Parser.ErrorCodesBound | logparser/parser.py:15-24 | Every returned code is three characters long, starts with 4 or 5, and has digits in the other two places. There are never more codes than lines. |
| Parser.ErrorCodesCount | logparser/parser.py:21-24 | A 4xx/5xx code occurs in the result once per line whose field 8 is that code. No other code occurs at all. |
| Parser.ErrorCodesPerLine | logparser/parser.py:17-24 | When every line has field 8, the result is exactly the field-8 values of the lines whose code is 4xx/5xx: one per such line, in line order. |
| Parser.GetUrlsByError | logparser/parser.py:28-40 | The nested loops produce the URL specification of the flattened lines: field 13 of each line whose field 8 equals `code`. |
| Parser.UrlsByErrorOk | logparser/parser.py:36-39 | get_urls_by_error succeeds exactly when every line has field 8 and every line with that code has field 13. Otherwise it raises IndexError. |
| Parser.GetUasByError | logparser/parser.py:43-55 | The nested loops produce the user-agent specification of the flattened lines: segment 3 of the `"`-split line, for each line whose field 8 equals `code`. |
| Parser.UasByErrorOk | logparser/parser.py:50-54 | get_uas_by_error succeeds exactly when every line has field 8 and every line with that code has a segment 3. Otherwise it raises IndexError. |
| Parser.UrlsAndUasPerLine | logparser/parser.py:36-39 | When both succeed, the k-th URL and the k-th user agent come from the k-th line with status `code`. Duplicates are kept, and both lists are as long as there are such lines. |
| Parser.UrlsPerLine | logparser/parser.py:28-40 | Whenever every line has a field 8 and every line with status `code` a field 13, get_urls_by_error succeeds, and its k-th URL is field 13 of the k-th line with status `code`. Duplicates are kept, and the list is as long as there are such lines. |
| Parser.UasPerLine | logparser/parser.py:43-55 | Whenever every line has a field 8 and every line with status `code` a third `"`-segment, get_uas_by_error succeeds, and its k-th user agent is that segment of the k-th line with status `code`. Duplicates are kept, and the list is as long as there are such lines. |
| Parser.GetAllUrls | logparser/parser.py:58-68 | The nested loops build the URL-count specification of the flattened lines: `counts[url] = counts.get(url, 0) + 1` per line. |
| Parser.UrlCountsOk | logparser/parser.py:64-67 | get_all_urls succeeds exactly when every line has field 13. Otherwise it raises IndexError. |
| Parser.UrlCountsTally | logparser/parser.py:64-67 | When get_all_urls succeeds, its dict is the tally of the URL column. |
| Parser.UrlCountsMeaning | logparser/parser.py:60-68 | The keys are exactly the URLs of the lines. Each count is the number of lines with that URL, so at least 1. However the dict is listed, the counts sum to the number of lines. |
| Parser.CollectCodes | logparser/parser.py:109-118 | The inner loops of get_top_status_code_by_url produce the specification of the status codes of the requests for `u`. |
| Parser.CodesForUrlOk | logparser/parser.py:111-118 | Collecting the codes for `u` succeeds exactly when every line has field 13. Otherwise it raises IndexError. |
| Parser.CodesForUrlMeaning | logparser/parser.py:111-118 | When collecting succeeds, there is one code per line whose URL is `u`, and each code is the status of such a line. |
| Parser.CodesForUrlPerLine | logparser/parser.py:111-118 | When every line has field 13, the codes for `u` are exactly the field-8 values of the lines whose URL is `u`: the k-th code is the status of the k-th such line. |
| Parser.TopStatusMostCommon | logparser/parser.py:119-120 | The top code is `int()` of a code at least as frequent among the requests for `u` as any other. Among equally frequent codes it is the first seen. |
| Parser.GetTopStatusCodeByUrl | logparser/parser.py:105-121 | The loop over the URLs produces the specification rows: `(url, count, top code)` per entry, with the first exception ending the call. |
| Parser.TopStatusesRows | logparser/parser.py:108-121 | There are rows exactly when every URL has a top code. There is then one row per entry, in order, with the entry's URL and count unchanged. |
| Parser.CollectMaxima | logparser/parser.py:76-93 | The inner loops of get_max_processing_times_by_url produce the specification: the running maxima of the three times over the requests for `u`, each starting from 0.0. |
| Parser.MaxLatenciesOk | logparser/parser.py:84-93 | The maxima are computed exactly when every line has field 13 and every request for `u` has three readable times. |
| Parser.MaxLatenciesBounds | logparser/parser.py:77-93 | Each maximum is at least 0 and at least the value of every request for `u`. |
| Parser.MaxLatenciesAttained | logparser/parser.py:77-93 | Each maximum is either 0 or the value of one of the requests for `u`, so it is 0 when no line requests `u`. |
| Parser.GetMaxProcessingTimesByUrl | logparser/parser.py:71-102 | The loop over the URLs produces the specification rows: one per entry, with the entry's fields and the three maxima. |
| Parser.ReportRowsRows | logparser/parser.py:74-100 | There are rows exactly when the maxima can be computed for every URL. There is then one row per entry, in input order, with URL, count and top code passed through unchanged. |
| Download.DatetimeRange | logparser/download.py:11-16 | The while loop yields exactly the range specification. |
| Download.RangeSpecElements | logparser/download.py:13-16 | The i-th value is `start + i*delta`, and every value is before `end`. The step after the last value would not be, so nothing is yielded when `start >= end`. |
| Download.ListDatetimeRangeSteps | logparser/download.py:35-39 | There is one timestamp per five-minute step of `[start, end)`, the i-th for `start + i*5 min`, so in ascending order. The first timestamp is that of `start` whenever `start < end`. |
| Download.ListDatetimeRangeErr | logparser/download.py:35-39 | Listing fails only on a missing window, with a TypeError, or on a step before 1900, with a ValueError. |
| Download.CeilingDt | logparser/download.py:42-52 | `dt <= ceiling_dt(dt) < dt + 300 s`, and the result's seconds within the hour are a multiple of 300. |
| Download.CeilingDtOnMark | logparser/download.py:45-52 | An instant already on a five-minute mark is unchanged. |
| Download.CeilingDtIdempotent | logparser/download.py:42-52 | Applying ceiling_dt twice equals applying it once. |
| Download.CeilingDtLeast | logparser/download.py:50-52 | No five-minute mark lies between an instant and its ceiling. |
| Download.StartEndFromNowWindow | logparser/download.py:55-65 | The window ends at `ceiling_dt(now)` and starts N units earlier, so `start <= end` for N >= 0, and both ends are datetimes. Any unit other than the six exact words gives None, and an unreadable count is a ValueError. A ceiling after year 9999 or a start before year 1 (or after 9999, for a negative N) is an OverflowError, and these are the only errors. |
| Download.MixedCaseUnit | logparser/download.py:60-65 | For a `now` more than five minutes from both ends of the datetime range, `Minutes` falls through the exact match to None. The corrected, lowered match gives a window. |
| Timestamp.DatetimeMin | logparser/download.py:60-65 | The first instant a `datetime` holds is the first minute of 0001-01-01. |
| Timestamp.DatetimeMax | logparser/download.py:60-65 | The last instant a `datetime` holds falls in the last minute of 9999-12-31. |
| Download.StartEndDtFromDatesText | logparser/download.py:19-32 | Two `Y/M/D` stamps of real dates give those two days at 00:05. |
| Download.StartEndDtFromDatesOk | logparser/download.py:21-32 | Any result is a pair of real dates at 00:05. Their year, month and day are the numbers read from the first three `/`-pieces of each stamp. |
| Download.MakeDateErr | logparser/download.py:32 | `datetime(y, m, d, 0, 5)` gives that date exactly when it is a real date. A field outside the C `int` range is an OverflowError, and exactly those; any other failure is a ValueError. |
| Download.PrefixLayout | logparser/download.py:68-77 | The prefix is the timestamp's two day digits (`%d`, despite the `{month}` placeholder), then `/000000000000_elasticloadbalancing_us-east-1_alb.name.id_`, then the timestamp, so it ends with `dt`. A timestamp that cannot be read, or one before 1900 (which Python 2's `strftime` refuses), is a ValueError, and only those are. |
| Download.PrefixOfDate | logparser/download.py:76-77 | The prefix of the timestamp of any real date from 1900 on starts with its zero-padded day. An earlier date is a ValueError. |
| Download.GetPrefixListOrder | logparser/download.py:80-82 | get_prefix_list keeps length and order: the i-th prefix is that of the i-th timestamp. It fails with a ValueError exactly when some timestamp cannot be read or is before 1900. |
| Download.LocalNameOf | logparser/download.py:100 | The local file of key `dir/name` is `name`, the last `/` segment. |
| Download.Download | logparser/download.py:95-112 | A key whose file is already present changes nothing, and neither does a key whose last segment is empty, `.` or `..`, since that path is a directory and exists. Otherwise a served key adds its file under the key's last segment, and an error reply (404 or other) leaves the directory unchanged. No other file is touched. |
| Download.DownloadAllCovers | logparser/download.py:115-125 | After download_all every served key has its file unless its last segment names a directory. No file that was already there is replaced, and every new file is named after one of the keys. |
| Download.DownloadAllFirst | logparser/download.py:100-104 | A new file holds what the bucket served for the first key stored under its name. Later keys of the same name are skipped. |
| Download.DownloadAllIdempotent | logparser/download.py:103-125 | Downloading the same keys again changes nothing. |
| Download.DownloadedLogsReadable | logparser/parser.py:17-20 | Once the keys the bucket serves are downloaded, the parser can open every key's file exactly when no key's last segment names a directory; otherwise it raises IOError. There is one file per key, holding the file that was already there or else what the bucket served for the first key of that name. |
| LogParser.Rejection | logparser/logparser.py:20-54 | validate_args prints a `parser.error` message, the one of the first guard that fires, exactly when the arguments are not well formed. |
| LogParser.ValidateArgsPasses | logparser/logparser.py:20-54 | validate_args passes exactly when all of these hold: the option is known; a code is given for geturls/getUAs; either both dates are given with `from <= to` and no `--for`, or `--for` alone with an all-digit count and a unit whose lowercase is one of the six words. Any call that passes meets none of the rejection conditions. |
| LogParser.GetDtRangeWindow | logparser/logparser.py:57-62 | States the corrected get_dt_range, in which the `--for` unit is matched after lowering, as validation does (see Findings). For arguments that pass, the window is `(from + 5 min, to + 5 min)` in absolute mode. Otherwise it ends at `ceiling_dt(now)` and starts count×unit earlier, unless that start is before year 1 or the ceiling is after year 9999, which is an OverflowError. In both cases `start <= end`. |
| LogParser.GetDtRangeAsWrittenAgrees | logparser/logparser.py:57-62 | get_dt_range as written gives the same result as the corrected one in absolute mode and whenever the `--for` unit is already lower case. So GetDtRangeWindow holds for the code as written on those arguments. A validated unit that is not lower case gives None instead, when the ceiling of `now` is in range. |
| LogParser.MixedCaseUnitFinding | logparser/logparser.py:50-62 | For a `now` more than five minutes from both ends of the datetime range, `--for 5 Minutes` passes validation, but the code as written yields None and listing its steps is a TypeError. The corrected range is a window. |
| LogParser.ProcessResultsErr | logparser/logparser.py:70-71 | process_results fails, with a ValueError, exactly when a non-empty `--max` is not an integer. |
| LogParser.ProcessResultsRanking | logparser/logparser.py:65-75 | The ranking lists each value at most once, with its occurrence count, sorted by count descending. A value left out counts no more than any kept. With max n it keeps `min(n, distinct)` entries (0 for n <= 0). Without max it is a permutation of the Counter's items. |
| LogParser.ProcessResultsSum | logparser/logparser.py:73-74 | Without max, the counts of the ranking sum to the number of results. |
| LogParser.SelectKeys | logparser/logparser.py:111-117 | The nested loop appends, prefix by prefix in prefix order, every key containing the prefix, in key order. |
| LogParser.SelectedCount | logparser/logparser.py:114-117 | A key appears once per listing of it and per prefix it contains. There is no deduplication. |
| LogParser.SelectedExactly | logparser/logparser.py:114-117 | A key is selected exactly when it is listed and contains some prefix. |
| LogParser.ReportRankingTop | logparser/logparser.py:136-142 | The report keeps the URLs with the largest counts, sorted by count descending, each with its own count. It keeps `min(cap, distinct URLs)` of them, where the cap is `int(max)` or 10; a negative cap drops that many from the end. An unreadable max is a ValueError. |
| Folds.MapAllOk | logparser/download.py:80-82 | `list(map(f, xs))` succeeds exactly when `f` succeeds on every element. It then keeps length and order. |
| Folds.MapAllErr | logparser/download.py:37-39 | A failing map fails with the error `f` raises on some element. |
| Text.SplitFacts | logparser/parser.py:22 | `split(' ')` gives one piece more than there are separators, and no piece contains the separator. |
| Text.SplitJoin | logparser/parser.py:37 | Joining the pieces of a split with the separator gives back the line. |
| Text.StripFacts | logparser/parser.py:22 | `strip()` removes only leading and trailing whitespace and keeps the contiguous middle, which neither starts nor ends with whitespace. |
| Text.LastPiece | logparser/download.py:100 | `key.split('/')[-1]` contains no `/`, is a suffix of the key, and is preceded by `/` or is the whole key. |
| Timestamp.ParseFormat | logparser/download.py:37 | A timestamp written by `strftime('%Y%m%dT%H%MZ')` for a real date reads back as that date. |
| Timestamp.FormatParse | logparser/download.py:76 | A string strptime reads with that format is exactly the timestamp of what it reads. |
| Counter.TallyCounts | logparser/parser.py:66-67 | The tally's keys are exactly the values, and each count is the value's number of occurrences, at least 1. |
| Counter.EnumerationSum | logparser/parser.py:60-68 | However a tally is listed, its counts sum to the number of values. |
| Counter.SortDesc | logparser/logparser.py:139 | `sorted(..., key=count, reverse=True)` is sorted by count descending and is a permutation of its input. |
| Counter.SortDescStable | logparser/logparser.py:139 | The sort is stable: entries of equal count keep their relative order. |
| Counter.MostCommon | logparser/logparser.py:70-74 | `most_common(n)` is a prefix of the ranking, of length `min(n, distinct)`, or 0 for n <= 0; `most_common()` is the whole ranking. |
| Counter.MostCommonDistinct | logparser/logparser.py:70-74 | On a Counter's items, which have distinct keys, `most_common` lists each key at most once. `most_common()` is a permutation of the items. |
| Counter.TopIsLargest | logparser/logparser.py:137-142 | A prefix of the ranking holds the largest counts, and an entry left out counts no more than any entry kept. |
| Counter.MostCommonKey | logparser/parser.py:119 | `most_common(1)[0][0]` is a value of maximal multiplicity, and the first seen of several equally frequent values. |
| Counter.SliceTo | logparser/logparser.py:139-142 | `s[:n]` is a prefix of `s` of length `min(n, len(s))`; a negative `n` counts from the end. |

## Left out

- gzip decompression and path joining (logparser/parser.py:18-20 and the same lines in each reducer). The parser gets the lines of each file; `Download.LogsOf` is the reading of the files from the download directory.
- The S3 listing `get_keys_from_bucket` (logparser/download.py:85-92). The bucket's keys are a parameter, and the bucket's replies are a map.
- The boto3 transfer, `os.makedirs` of the download directory, and the 20-thread pool of `download_all`. Keys are downloaded one after another, so a race between two keys with the same local name is not modelled.
- A download that fails after writing part of a file is not modelled: an error reply leaves no file.
- `datetime.utcnow()` is the parameter `now`.
- `valid_date` and argparse (logparser/logparser.py:10-17, 92-99; logparser/cli.py). The dates reach the model as instants.
- `parser.error`'s exit is the `ArgError` result; the message it prints is `LogParser.Rejection`.
- `datetime.utcnow()` always lies in the datetime range, so the model does not check `now` itself. Only the ceiling and the start computed from it are checked.
- `print`, `print_results`, the `Top N`/`All` headers, and the CSV report file (logparser/logparser.py:77-85, 147-163).
- The dispatch of `main` on the option (logparser/logparser.py:121-145) is not a function of its own. Each stage it chains is modelled: key selection, download, the reducers, process_results, and the report ranking.
- The `filename` that the key-selection loop computes (logparser/logparser.py:116) is never used and has no effect.
- Text.ParseDecimal: `float()` is modelled only on plain decimals: sign, digits and at most one point, read exactly as reals. Exponents, `inf`, `nan` and binary rounding are not modelled.
- `str()` of the report numbers (logparser/parser.py:96-100): `Parser.ReportRow` keeps the numbers.
- Download.CeilingDt: the source computes seconds as a float. The model computes exactly in microseconds, so float rounding is not modelled.
- Timestamp.CivilFromInstant: the calendar conversion of an instant is H. Hinnant's algorithm, and nothing is proved about it beyond the hour and minute ranges.
- Timestamp.Format writes any fields, including ones a real calendar date never has.
- Download.Stamp: a window handed to it directly may reach past year 9999. The windows the tool builds never do, since `Download.StartEndFromNow` and the date parser keep both ends in range.
- Timestamp.Parse accepts only full-width fields; `strptime` also accepts some shorter month, day, hour and minute fields. It also matches the literal `T` and `Z` exactly, while `strptime` matches them regardless of case, so Python reads `20240115t0005z` and the model rejects it.
- Parser.TopStatusMostCommon: the first-seen tie rule holds for the model's listing of a Counter, which is first-seen order. Python 2 lists a Counter's items in hash order, so among equally frequent codes `most_common(1)` picks by that order.
- Counter.MostCommonKey: among equally frequent values the model picks the first seen. Python 2 picks by the Counter's hash order, so only "a value of maximal multiplicity" holds for the source.
- Counter.MostCommon: the order among equal counts follows first-seen order in the model, and hash order in Python 2. Sortedness, lengths, counts and the kept-versus-dropped property hold for every order.
- LogParser.ReportRankingTop takes the listing of the URL-count dict as a parameter, because its order is Python 2's hash order.
- Download.DatetimeRange requires a positive delta. With a delta that is not positive and `start < end`, the generator never stops; with `start >= end`, it yields nothing. Every caller passes five minutes.
- LogParser.ValidateArgs: `args.to < args.from_` with exactly one date set would be a TypeError in Python 2. The earlier guards make that case unreachable.
- Parser.GetTopStatusCodeByUrl and Parser.GetMaxProcessingTimesByUrl call the inner loops as the separate methods `Parser.CollectCodes` and `Parser.CollectMaxima`, rather than inline.

## Findings

| source | as written | input that shows it | evidently intended | confidence | as-written member | corrected member |
|---|---|---|---|---|---|---|
| logparser/download.py:60-65 | `start_end_dt_from_now` compares the `--for` unit exactly with six lower-case words. `validate_args` accepts the unit after lowering it (logparser/logparser.py:52). | `--for 5 Minutes`: it passes validation, and `start_end_dt_from_now` then falls through and returns None. `list_datetime_range(None)` raises TypeError. | The unit is matched after lowering, as validation does. | not executed | LogParser.MixedCaseUnitFinding | LogParser.GetDtRangeWindow |
