/** The reducers of logparser/parser.py. Each one walks every line of every
    retrieved log file, file after file; so does each method here, over
    `files`, the lines of each file in the order of the key list. Reading and
    decompressing the files is not part of this module (see Download.LogsOf).

    Each method is proved equal to a specification: a Fold over the flattened
    lines of a step that may raise. A line without a field the reducer reads is
    an IndexError and an unreadable number a ValueError; the first one ends the
    whole call, as in the source. The lemmas state what the specifications
    promise. */
module Parser {
  import opened Wrappers
  import opened Text
  import opened Counter
  import opened LogLine
  import opened Folds

  /** One line of a reducer's inner loop: the fold over the lines visited so
      far takes one step, and a step that raises is the result of the whole
      call. */
  lemma VisitStep<S>(step: (S, string) -> Result<S>, init: S, files: seq<seq<string>>, i: nat, j: nat)
    requires i < |files| && j < |files[i]|
    ensures Fold(step, init, Visited(files, i, j + 1)) ==
      match Fold(step, init, Visited(files, i, j))
      case Err(e) => Err(e)
      case Ok(acc) => step(acc, files[i][j])
    ensures Fold(step, init, Visited(files, i, j + 1)).Err? ==>
      Fold(step, init, Flatten(files)) == Fold(step, init, Visited(files, i, j + 1))
  {
    VisitedStep(files, i, j);
    FoldSnoc(step, init, Visited(files, i, j), files[i][j]);
    VisitedPrefix(files, i, j + 1);
    if Fold(step, init, Visited(files, i, j + 1)).Err? {
      FoldErr(step, init, Visited(files, i, j + 1), Flatten(files));
    }
  }

  /*** get_codes ***/

  /** One line of get_codes: its status code is kept when it is 4xx or 5xx. */
  function CodeStep(codes: seq<string>, line: string): Result<seq<string>> {
    var f := Fields(line);
    if |f| <= StatusField then Err(IndexError)
    else if IsErrorCode(f[StatusField]) then Ok(codes + [f[StatusField]])
    else Ok(codes)
  }

  /** The 4xx and 5xx status codes of `lines`, in line order, duplicates kept. */
  function ErrorCodes(lines: seq<string>): Result<seq<string>> {
    Fold(CodeStep, [], lines)
  }

  /** `get_codes(download_dir, files)` */
  method GetCodes(files: seq<seq<string>>) returns (r: Result<seq<string>>)
    ensures r == ErrorCodes(Flatten(files))
  {
    var codes: seq<string> := [];
    for i := 0 to |files|
      invariant ErrorCodes(Flatten(files[..i])) == Ok(codes)
    {
      VisitedStart(files, i);
      for j := 0 to |files[i]|
        invariant ErrorCodes(Visited(files, i, j)) == Ok(codes)
      {
        var line := files[i][j];
        VisitStep(CodeStep, [], files, i, j);
        var fields := Fields(line);
        if |fields| <= StatusField {
          return Err(IndexError);
        }
        var code := fields[StatusField];
        if IsErrorCode(code) {
          codes := codes + [code];
        }
      }
      VisitedEnd(files, i);
    }
    FlattenAll(files);
    return Ok(codes);
  }

  /** get_codes fails exactly when a line has no status field, and then with
      an IndexError. */
  lemma {:induction false} ErrorCodesOk(lines: seq<string>)
    ensures ErrorCodes(lines).Ok? <==> AllHaveField(lines, StatusField)
    ensures ErrorCodes(lines).Err? ==> ErrorCodes(lines).error == IndexError
  {
    if lines != [] {
      var p, l := lines[..|lines| - 1], lines[|lines| - 1];
      ErrorCodesOk(p);
      FoldSnoc(CodeStep, [], p, l);
      assert lines == p + [l];
      assert AllHaveField(lines, StatusField) <==> AllHaveField(p, StatusField) && HasField(l, StatusField);
    }
  }

  /** Every listed code is a 4xx or 5xx code, and there are never more codes
      than lines. */
  lemma {:induction false} ErrorCodesBound(lines: seq<string>)
    ensures ErrorCodes(lines).Ok? ==>
      && |ErrorCodes(lines).value| <= |lines|
      && forall c | c in ErrorCodes(lines).value :: IsErrorCode(c)
  {
    if lines != [] {
      var p, l := lines[..|lines| - 1], lines[|lines| - 1];
      ErrorCodesBound(p);
      FoldSnoc(CodeStep, [], p, l);
      assert lines == p + [l];
    }
  }

  /** The lines whose status field is `code`, in order. */
  function LinesWithStatus(lines: seq<string>, code: string): (r: seq<string>)
    requires AllHaveField(lines, StatusField)
    ensures multiset(r) <= multiset(lines)
    ensures forall l | l in r :: HasField(l, StatusField) && Status(l) == code
  {
    if lines == [] then []
    else
      var p, l := lines[..|lines| - 1], lines[|lines| - 1];
      assert lines == p + [l];
      LinesWithStatus(p, code) + (if Status(l) == code then [l] else [])
  }

  /** Each code is listed once per line that carries it when it is a 4xx or
      5xx code, and never otherwise. */
  lemma {:induction false} ErrorCodesCount(lines: seq<string>, c: string)
    requires AllHaveField(lines, StatusField)
    ensures ErrorCodes(lines).Ok?
    ensures multiset(ErrorCodes(lines).value)[c] == if IsErrorCode(c) then |LinesWithStatus(lines, c)| else 0
  {
    ErrorCodesOk(lines);
    if lines != [] {
      var p, l := lines[..|lines| - 1], lines[|lines| - 1];
      assert lines == p + [l];
      ErrorCodesCount(p, c);
      FoldSnoc(CodeStep, [], p, l);
    }
  }

  /** The lines whose status field is a 4xx or 5xx code, in order. */
  function LinesWithErrorCode(lines: seq<string>): (r: seq<string>)
    requires AllHaveField(lines, StatusField)
    ensures multiset(r) <= multiset(lines)
    ensures forall l | l in r :: HasField(l, StatusField) && IsErrorCode(Status(l))
  {
    if lines == [] then []
    else
      var p, l := lines[..|lines| - 1], lines[|lines| - 1];
      assert lines == p + [l];
      LinesWithErrorCode(p) + (if IsErrorCode(Status(l)) then [l] else [])
  }

  /** get_codes lists exactly the status codes of the lines that carry a 4xx
      or 5xx code, one per line and in the order of the lines. */
  lemma {:induction false} ErrorCodesPerLine(lines: seq<string>)
    requires AllHaveField(lines, StatusField)
    ensures ErrorCodes(lines).Ok?
    ensures var ms, codes := LinesWithErrorCode(lines), ErrorCodes(lines).value;
      && |codes| == |ms|
      && forall k | 0 <= k < |ms| :: codes[k] == Status(ms[k])
  {
    ErrorCodesOk(lines);
    if lines != [] {
      var p, l := lines[..|lines| - 1], lines[|lines| - 1];
      assert lines == p + [l];
      ErrorCodesPerLine(p);
      FoldSnoc(CodeStep, [], p, l);
    }
  }

  /*** get_urls_by_error and get_uas_by_error ***/

  /** One line of get_urls_by_error: the URL of a line with status `code`. */
  function UrlStep(code: string): (seq<string>, string) -> Result<seq<string>> {
    (urls: seq<string>, line: string) =>
      var f := Fields(line);
      if |f| <= StatusField then Err(IndexError)
      else if f[StatusField] != code then Ok(urls)
      else if |f| <= UrlField then Err(IndexError)
      else Ok(urls + [f[UrlField]])
  }

  /** One line of get_uas_by_error: the user agent of a line with status `code`. */
  function UaStep(code: string): (seq<string>, string) -> Result<seq<string>> {
    (uas: seq<string>, line: string) =>
      var f := Fields(line);
      var g := Segments(line);
      if |f| <= StatusField then Err(IndexError)
      else if f[StatusField] != code then Ok(uas)
      else if |g| <= UserAgentSegment then Err(IndexError)
      else Ok(uas + [g[UserAgentSegment]])
  }

  /** The URLs of the lines with status `code`, in order, duplicates kept. */
  function UrlsByError(lines: seq<string>, code: string): Result<seq<string>> {
    Fold(UrlStep(code), [], lines)
  }

  /** The user agents of the lines with status `code`, in order, duplicates kept. */
  function UasByError(lines: seq<string>, code: string): Result<seq<string>> {
    Fold(UaStep(code), [], lines)
  }

  /** Every line has a status field, and those with status `code` a URL. */
  predicate UrlsReadable(lines: seq<string>, code: string) {
    forall l | l in lines :: HasField(l, StatusField) && (Status(l) == code ==> HasField(l, UrlField))
  }

  /** Every line has a status field, and those with status `code` a user agent. */
  predicate UasReadable(lines: seq<string>, code: string) {
    forall l | l in lines :: HasField(l, StatusField) && (Status(l) == code ==> HasUserAgent(l))
  }

  /** `get_urls_by_error(download_dir, files, code)` */
  method GetUrlsByError(files: seq<seq<string>>, code: string) returns (r: Result<seq<string>>)
    ensures r == UrlsByError(Flatten(files), code)
  {
    var urls: seq<string> := [];
    for i := 0 to |files|
      invariant UrlsByError(Flatten(files[..i]), code) == Ok(urls)
    {
      VisitedStart(files, i);
      for j := 0 to |files[i]|
        invariant UrlsByError(Visited(files, i, j), code) == Ok(urls)
      {
        var line := files[i][j];
        VisitStep(UrlStep(code), [], files, i, j);
        var fields := Fields(line);
        if |fields| <= StatusField {
          return Err(IndexError);
        }
        if fields[StatusField] == code {
          if |fields| <= UrlField {
            return Err(IndexError);
          }
          urls := urls + [fields[UrlField]];
        }
      }
      VisitedEnd(files, i);
    }
    FlattenAll(files);
    return Ok(urls);
  }

  /** `get_uas_by_error(download_dir, files, code)` */
  method GetUasByError(files: seq<seq<string>>, code: string) returns (r: Result<seq<string>>)
    ensures r == UasByError(Flatten(files), code)
  {
    var uas: seq<string> := [];
    for i := 0 to |files|
      invariant UasByError(Flatten(files[..i]), code) == Ok(uas)
    {
      VisitedStart(files, i);
      for j := 0 to |files[i]|
        invariant UasByError(Visited(files, i, j), code) == Ok(uas)
      {
        var line := files[i][j];
        VisitStep(UaStep(code), [], files, i, j);
        var fields := Fields(line);
        if |fields| <= StatusField {
          return Err(IndexError);
        }
        if fields[StatusField] == code {
          var segments := Segments(line);
          if |segments| <= UserAgentSegment {
            return Err(IndexError);
          }
          uas := uas + [segments[UserAgentSegment]];
        }
      }
      VisitedEnd(files, i);
    }
    FlattenAll(files);
    return Ok(uas);
  }

  lemma UrlStepOk(code: string, urls: seq<string>, line: string)
    ensures UrlStep(code)(urls, line).Ok? <==> UrlsReadable([line], code)
    ensures UrlStep(code)(urls, line).Err? ==> UrlStep(code)(urls, line).error == IndexError
  {
    assert line in [line];
  }

  lemma UaStepOk(code: string, uas: seq<string>, line: string)
    ensures UaStep(code)(uas, line).Ok? <==> UasReadable([line], code)
    ensures UaStep(code)(uas, line).Err? ==> UaStep(code)(uas, line).error == IndexError
  {
    assert line in [line];
  }

  /** get_urls_by_error fails exactly when a line has no status field or a
      line with status `code` has no URL field, and then with an IndexError. */
  lemma {:induction false} UrlsByErrorOk(lines: seq<string>, code: string)
    ensures UrlsByError(lines, code).Ok? <==> UrlsReadable(lines, code)
    ensures UrlsByError(lines, code).Err? ==> UrlsByError(lines, code).error == IndexError
  {
    if lines != [] {
      var p, l := lines[..|lines| - 1], lines[|lines| - 1];
      UrlsByErrorOk(p, code);
      FoldSnoc(UrlStep(code), [], p, l);
      assert lines == p + [l];
      assert UrlsReadable(lines, code) <==> UrlsReadable(p, code) && UrlsReadable([l], code);
      if UrlsByError(p, code).Ok? {
        UrlStepOk(code, UrlsByError(p, code).value, l);
      }
    }
  }

  /** get_uas_by_error fails exactly when a line has no status field or a
      line with status `code` has fewer than four quoted segments, and then
      with an IndexError. */
  lemma {:induction false} UasByErrorOk(lines: seq<string>, code: string)
    ensures UasByError(lines, code).Ok? <==> UasReadable(lines, code)
    ensures UasByError(lines, code).Err? ==> UasByError(lines, code).error == IndexError
  {
    if lines != [] {
      var p, l := lines[..|lines| - 1], lines[|lines| - 1];
      UasByErrorOk(p, code);
      FoldSnoc(UaStep(code), [], p, l);
      assert lines == p + [l];
      assert UasReadable(lines, code) <==> UasReadable(p, code) && UasReadable([l], code);
      if UasByError(p, code).Ok? {
        UaStepOk(code, UasByError(p, code).value, l);
      }
    }
  }

  /** Whenever get_urls_by_error succeeds, the k-th URL is field 13 of the
      k-th line with status `code`: one per such line, duplicates kept. */
  lemma {:induction false} UrlsPerLine(lines: seq<string>, code: string)
    requires UrlsReadable(lines, code)
    ensures UrlsByError(lines, code).Ok?
    ensures var ms, urls := LinesWithStatus(lines, code), UrlsByError(lines, code).value;
      && |urls| == |ms|
      && forall k | 0 <= k < |ms| :: HasField(ms[k], UrlField) && urls[k] == Url(ms[k])
  {
    UrlsByErrorOk(lines, code);
    if lines != [] {
      var p, l := lines[..|lines| - 1], lines[|lines| - 1];
      assert lines == p + [l];
      UrlsPerLine(p, code);
      FoldSnoc(UrlStep(code), [], p, l);
    }
  }

  /** Whenever get_uas_by_error succeeds, the k-th user agent is quoted
      segment 3 of the k-th line with status `code`: one per such line,
      duplicates kept. */
  lemma {:induction false} UasPerLine(lines: seq<string>, code: string)
    requires UasReadable(lines, code)
    ensures UasByError(lines, code).Ok?
    ensures var ms, uas := LinesWithStatus(lines, code), UasByError(lines, code).value;
      && |uas| == |ms|
      && forall k | 0 <= k < |ms| :: HasUserAgent(ms[k]) && uas[k] == UserAgent(ms[k])
  {
    UasByErrorOk(lines, code);
    if lines != [] {
      var p, l := lines[..|lines| - 1], lines[|lines| - 1];
      assert lines == p + [l];
      UasPerLine(p, code);
      FoldSnoc(UaStep(code), [], p, l);
    }
  }

  /** The k-th URL and the k-th user agent both come from the k-th line with
      status `code`; so both lists are as long as there are such lines. */
  lemma UrlsAndUasPerLine(lines: seq<string>, code: string)
    requires UrlsReadable(lines, code) && UasReadable(lines, code)
    ensures UrlsByError(lines, code).Ok? && UasByError(lines, code).Ok?
    ensures var ms, urls, uas := LinesWithStatus(lines, code), UrlsByError(lines, code).value, UasByError(lines, code).value;
      && |urls| == |ms| && |uas| == |ms|
      && forall k | 0 <= k < |ms| ::
           HasField(ms[k], UrlField) && HasUserAgent(ms[k]) && urls[k] == Url(ms[k]) && uas[k] == UserAgent(ms[k])
  {
    UrlsPerLine(lines, code);
    UasPerLine(lines, code);
  }

  /*** get_all_urls ***/

  /** One line of get_all_urls: `counts[url] = counts.get(url, 0) + 1`. */
  function CountStep(counts: map<string, nat>, line: string): Result<map<string, nat>> {
    var f := Fields(line);
    if |f| <= UrlField then Err(IndexError)
    else
      var url := f[UrlField];
      Ok(counts[url := (if url in counts then counts[url] else 0) + 1])
  }

  /** The number of requests per URL. */
  function UrlCounts(lines: seq<string>): Result<map<string, nat>> {
    Fold(CountStep, map[], lines)
  }

  /** `get_all_urls(download_dir, files)` */
  method GetAllUrls(files: seq<seq<string>>) returns (r: Result<map<string, nat>>)
    ensures r == UrlCounts(Flatten(files))
  {
    var counts: map<string, nat> := map[];
    for i := 0 to |files|
      invariant UrlCounts(Flatten(files[..i])) == Ok(counts)
    {
      VisitedStart(files, i);
      for j := 0 to |files[i]|
        invariant UrlCounts(Visited(files, i, j)) == Ok(counts)
      {
        var line := files[i][j];
        VisitStep(CountStep, map[], files, i, j);
        var fields := Fields(line);
        if |fields| <= UrlField {
          return Err(IndexError);
        }
        var url := fields[UrlField];
        counts := counts[url := (if url in counts then counts[url] else 0) + 1];
      }
      VisitedEnd(files, i);
    }
    FlattenAll(files);
    return Ok(counts);
  }

  /** The URL field of every line, in order. */
  function UrlColumn(lines: seq<string>): (urls: seq<string>)
    requires AllHaveField(lines, UrlField)
    ensures |urls| == |lines|
    ensures forall k | 0 <= k < |lines| :: urls[k] == Url(lines[k])
  {
    seq(|lines|, k requires 0 <= k < |lines| => Url(lines[k]))
  }

  /** get_all_urls fails, with an IndexError, exactly when a line has no URL
      field. */
  lemma {:induction false} UrlCountsOk(lines: seq<string>)
    ensures UrlCounts(lines).Ok? <==> AllHaveField(lines, UrlField)
    ensures UrlCounts(lines).Err? ==> UrlCounts(lines).error == IndexError
  {
    if lines != [] {
      var p, l := lines[..|lines| - 1], lines[|lines| - 1];
      UrlCountsOk(p);
      FoldSnoc(CountStep, map[], p, l);
      assert lines == p + [l];
      assert AllHaveField(lines, UrlField) <==> AllHaveField(p, UrlField) && HasField(l, UrlField);
    }
  }

  /** When get_all_urls succeeds, its dict is the tally of the URL column. */
  lemma {:induction false} UrlCountsTally(lines: seq<string>)
    ensures UrlCounts(lines).Ok? ==> AllHaveField(lines, UrlField)
    ensures UrlCounts(lines).Ok? ==> UrlCounts(lines).value == Tally(UrlColumn(lines))
  {
    UrlCountsOk(lines);
    if lines != [] && UrlCounts(lines).Ok? {
      var p, l := lines[..|lines| - 1], lines[|lines| - 1];
      assert lines == p + [l];
      UrlCountsOk(p);
      UrlCountsTally(p);
      FoldSnoc(CountStep, map[], p, l);
      assert AllHaveField(p, UrlField) && HasField(l, UrlField);
      UrlColumnSnoc(p, l);
      TallySnoc(UrlColumn(p), Url(l));
    }
  }

  /** The URL column of one more line is one URL longer. */
  lemma UrlColumnSnoc(p: seq<string>, l: string)
    requires AllHaveField(p + [l], UrlField)
    ensures AllHaveField(p, UrlField)
    ensures UrlColumn(p + [l]) == UrlColumn(p) + [Url(l)]
  {
    assert forall k | 0 <= k < |p| :: (p + [l])[k] == p[k];
    assert (p + [l])[|p|] == l;
  }


  /** The counted URLs are exactly the URL fields of the lines; each count is
      the number of lines with that URL, so at least 1; and however the dict is
      listed, its counts add up to the number of lines. */
  lemma UrlCountsMeaning(lines: seq<string>, items: seq<Entry>)
    requires AllHaveField(lines, UrlField)
    requires Enumerates(items, Tally(UrlColumn(lines)))
    ensures UrlCounts(lines).Ok?
    ensures var counts := UrlCounts(lines).value;
      && (forall u :: u in counts <==> exists l | l in lines :: Url(l) == u)
      && (forall u | u in counts :: counts[u] == multiset(UrlColumn(lines))[u] >= 1)
    ensures SumCounts(items) == |lines|
  {
    UrlCountsOk(lines);
    UrlCountsTally(lines);
    var column := UrlColumn(lines);
    TallyCounts(column);
    EnumerationSum(items, column);
    forall u | u in column
      ensures exists l | l in lines :: Url(l) == u
    {
      var k :| 0 <= k < |column| && column[k] == u;
      assert lines[k] in lines;
    }
  }

  /*** get_top_status_code_by_url ***/

  /** One line of the inner loops: the status code of a request for `u`. */
  function CodeForUrlStep(u: string): (seq<string>, string) -> Result<seq<string>> {
    (codes: seq<string>, line: string) =>
      var f := Fields(line);
      if |f| <= UrlField then Err(IndexError)
      else if f[UrlField] == u then Ok(codes + [f[StatusField]])
      else Ok(codes)
  }

  /** The status codes of the requests for `u`, in order. */
  function CodesForUrl(lines: seq<string>, u: string): Result<seq<string>> {
    Fold(CodeForUrlStep(u), [], lines)
  }

  /** The inner loops of get_top_status_code_by_url: the status codes of the
      requests for `u`. */
  method CollectCodes(files: seq<seq<string>>, u: string) returns (r: Result<seq<string>>)
    ensures r == CodesForUrl(Flatten(files), u)
  {
    var respCodes: seq<string> := [];
    for i := 0 to |files|
      invariant CodesForUrl(Flatten(files[..i]), u) == Ok(respCodes)
    {
      VisitedStart(files, i);
      for j := 0 to |files[i]|
        invariant CodesForUrl(Visited(files, i, j), u) == Ok(respCodes)
      {
        var line := files[i][j];
        VisitStep(CodeForUrlStep(u), [], files, i, j);
        var fields := Fields(line);
        if |fields| <= UrlField {
          return Err(IndexError);
        }
        if fields[UrlField] == u {
          respCodes := respCodes + [fields[StatusField]];
        }
      }
      VisitedEnd(files, i);
    }
    FlattenAll(files);
    return Ok(respCodes);
  }

  /** The codes for `u` can be collected exactly when every line has a URL
      field; otherwise the first line without one raises IndexError. */
  lemma {:induction false} CodesForUrlOk(lines: seq<string>, u: string)
    ensures CodesForUrl(lines, u).Ok? <==> AllHaveField(lines, UrlField)
    ensures CodesForUrl(lines, u).Err? ==> CodesForUrl(lines, u).error == IndexError
  {
    if lines != [] {
      var p, l := lines[..|lines| - 1], lines[|lines| - 1];
      CodesForUrlOk(p, u);
      FoldSnoc(CodeForUrlStep(u), [], p, l);
      assert lines == p + [l];
      assert AllHaveField(lines, UrlField) <==> AllHaveField(p, UrlField) && HasField(l, UrlField);
    }
  }

  /** The lines that request `u`, in order. */
  function LinesWithUrl(lines: seq<string>, u: string): (r: seq<string>)
    requires AllHaveField(lines, UrlField)
    ensures multiset(r) <= multiset(lines)
    ensures forall l | l in r :: HasField(l, UrlField) && HasField(l, StatusField) && Url(l) == u
  {
    if lines == [] then []
    else
      var p, l := lines[..|lines| - 1], lines[|lines| - 1];
      assert lines == p + [l];
      LinesWithUrl(p, u) + (if Url(l) == u then [l] else [])
  }

  /** The codes collected for `u` are exactly the statuses of the lines that
      request `u`, one per line and in the order of the lines. */
  lemma {:induction false} CodesForUrlPerLine(lines: seq<string>, u: string)
    requires AllHaveField(lines, UrlField)
    ensures CodesForUrl(lines, u).Ok?
    ensures var ms, codes := LinesWithUrl(lines, u), CodesForUrl(lines, u).value;
      && |codes| == |ms|
      && forall k | 0 <= k < |ms| :: codes[k] == Status(ms[k])
  {
    CodesForUrlOk(lines, u);
    if lines != [] {
      var p, l := lines[..|lines| - 1], lines[|lines| - 1];
      assert lines == p + [l];
      CodesForUrlPerLine(p, u);
      CodesForUrlOk(p, u);
      FoldSnoc(CodeForUrlStep(u), [], p, l);
    }
  }

  /** The collected codes are one per request for `u`, and each is the status
      of a line requesting `u`. */
  lemma {:induction false} CodesForUrlMeaning(lines: seq<string>, u: string)
    ensures CodesForUrl(lines, u).Ok? ==> AllHaveField(lines, UrlField)
    ensures CodesForUrl(lines, u).Ok? ==>
      && |CodesForUrl(lines, u).value| == multiset(UrlColumn(lines))[u]
      && forall c | c in CodesForUrl(lines, u).value :: exists l | l in lines :: Url(l) == u && Status(l) == c
  {
    CodesForUrlOk(lines, u);
    if lines != [] && CodesForUrl(lines, u).Ok? {
      var p, l := lines[..|lines| - 1], lines[|lines| - 1];
      assert lines == p + [l];
      CodesForUrlMeaning(p, u);
      CodesForUrlSnoc(p, l, u);
      var codes := CodesForUrl(p, u).value;
      var all := CodesForUrl(lines, u).value;
      forall c | c in all
        ensures exists x | x in lines :: Url(x) == u && Status(x) == c
      {
        if c in codes {
          var x :| x in p && Url(x) == u && Status(x) == c;
          assert x in lines;
        } else {
          assert l in lines;
        }
      }
    }
  }

  /** get_codes_for_url over one more line adds that line's status when its URL is `u`. */
  lemma CodesForUrlSnoc(p: seq<string>, l: string, u: string)
    requires CodesForUrl(p + [l], u).Ok?
    ensures CodesForUrl(p, u).Ok? && AllHaveField(p, UrlField) && HasField(l, UrlField)
    ensures UrlColumn(p + [l]) == UrlColumn(p) + [Url(l)]
    ensures var codes := CodesForUrl(p, u).value;
      CodesForUrl(p + [l], u).value == if Url(l) == u then codes + [Status(l)] else codes
  {
    CodesForUrlOk(p + [l], u);
    CodesForUrlOk(p, u);
    FoldSnoc(CodeForUrlStep(u), [], p, l);
    assert AllHaveField(p, UrlField) && HasField(l, UrlField) by {
      assert forall k | 0 <= k < |p| :: (p + [l])[k] == p[k];
      assert (p + [l])[|p|] == l;
    }
    UrlColumnSnoc(p, l);
  }


  /** `int(Counter(resp_codes).most_common(1)[0][0])` over the codes for `u`:
      an IndexError when no line requests `u`, a ValueError when the most
      common code is not a number. */
  function TopStatus(lines: seq<string>, u: string): Result<int> {
    match CodesForUrl(lines, u)
    case Err(e) => Err(e)
    case Ok(codes) =>
      if codes == [] then Err(IndexError)
      else
        match ParseInt(MostCommonKey(codes))
        case None => Err(ValueError)
        case Some(n) => Ok(n)
  }

  /** The top status code of `u` is the value of a code at least as frequent
      among the requests for `u` as any other code, and of several equally
      frequent codes the one that occurs first. */
  lemma TopStatusMostCommon(lines: seq<string>, u: string)
    requires TopStatus(lines, u).Ok?
    ensures CodesForUrl(lines, u).Ok?
    ensures var codes := CodesForUrl(lines, u).value;
      exists c | c in codes :: ParseInt(c) == Some(TopStatus(lines, u).value)
        && (forall d | d in codes :: multiset(codes)[d] <= multiset(codes)[c])
        && (forall k | 0 <= k < |codes| && multiset(codes)[codes[k]] == multiset(codes)[c] :: c in codes[..k + 1])
  {
    var codes := CodesForUrl(lines, u).value;
    var c := MostCommonKey(codes);
    assert c in codes;
  }

  /** A (url, request count) row joined with its top status code. */
  datatype UrlTop = UrlTop(url: string, count: nat, topCode: int)

  /** The row of get_top_status_code_by_url for one URL. */
  function TopRow(lines: seq<string>): Entry -> Result<UrlTop> {
    (e: Entry) =>
      match TopStatus(lines, e.key)
      case Err(x) => Err(x)
      case Ok(t) => Ok(UrlTop(e.key, e.count, t))
  }

  /** The rows of get_top_status_code_by_url, one per URL in order. */
  function TopStatuses(lines: seq<string>, entries: seq<Entry>): Result<seq<UrlTop>> {
    MapAll(TopRow(lines), entries)
  }

  /** `get_top_status_code_by_url(urls, download_dir, files)` */
  method GetTopStatusCodeByUrl(entries: seq<Entry>, files: seq<seq<string>>) returns (r: Result<seq<UrlTop>>)
    ensures r == TopStatuses(Flatten(files), entries)
  {
    ghost var lines := Flatten(files);
    var result: seq<UrlTop> := [];
    for k := 0 to |entries|
      invariant TopStatuses(lines, entries[..k]) == Ok(result)
    {
      var u := entries[k].key;
      var respCodes := CollectCodes(files, u);
      FoldPrefix(MapStep(TopRow(lines)), [], entries, k);
      if respCodes.Err? {
        FoldStopsAt(MapStep(TopRow(lines)), [], entries, k);
        return Err(respCodes.error);
      }
      if respCodes.value == [] {
        FoldStopsAt(MapStep(TopRow(lines)), [], entries, k);
        return Err(IndexError);
      }
      var top := ParseInt(MostCommonKey(respCodes.value));
      if top.None? {
        FoldStopsAt(MapStep(TopRow(lines)), [], entries, k);
        return Err(ValueError);
      }
      result := result + [UrlTop(u, entries[k].count, top.value)];
    }
    assert entries[..|entries|] == entries;
    return Ok(result);
  }

  /** The rows are produced when every URL has a top code; then there is one
      row per URL, in the same order, with its count and its top code. */
  lemma TopStatusesRows(lines: seq<string>, entries: seq<Entry>)
    ensures TopStatuses(lines, entries).Ok? <==> forall k | 0 <= k < |entries| :: TopStatus(lines, entries[k].key).Ok?
    ensures TopStatuses(lines, entries).Ok? ==>
      var rows := TopStatuses(lines, entries).value;
      && |rows| == |entries|
      && forall k | 0 <= k < |entries| ::
           rows[k] == UrlTop(entries[k].key, entries[k].count, TopStatus(lines, entries[k].key).value)
  {
    MapAllOk(TopRow(lines), entries);
  }

  /*** get_max_processing_times_by_url ***/

  /** Each running maximum raised to the line's value when that is larger. */
  function Raise(m: Latencies, v: Latencies): Latencies {
    Latencies(if v.req > m.req then v.req else m.req,
              if v.target > m.target then v.target else m.target,
              if v.resp > m.resp then v.resp else m.resp)
  }

  /** One line of the inner loops: a request for `u` raises the maxima. */
  function MaxStep(u: string): (Latencies, string) -> Result<Latencies> {
    (m: Latencies, line: string) =>
      var f := Fields(line);
      if |f| <= UrlField then Err(IndexError)
      else if f[UrlField] != u then Ok(m)
      else
        match LatenciesOf(line)
        case None => Err(ValueError)
        case Some(v) => Ok(Raise(m, v))
  }

  /** The largest of each processing time over the requests for `u`, each
      starting from 0.0. */
  function MaxLatencies(lines: seq<string>, u: string): Result<Latencies> {
    Fold(MaxStep(u), Latencies(0.0, 0.0, 0.0), lines)
  }

  /** The inner loops of get_max_processing_times_by_url: the running maxima
      of the three processing times over the requests for `u`. */
  method CollectMaxima(files: seq<seq<string>>, u: string) returns (r: Result<Latencies>)
    ensures r == MaxLatencies(Flatten(files), u)
  {
    var maxReq, maxTarget, maxResp := 0.0, 0.0, 0.0;
    for i := 0 to |files|
      invariant MaxLatencies(Flatten(files[..i]), u) == Ok(Latencies(maxReq, maxTarget, maxResp))
    {
      VisitedStart(files, i);
      for j := 0 to |files[i]|
        invariant MaxLatencies(Visited(files, i, j), u) == Ok(Latencies(maxReq, maxTarget, maxResp))
      {
        var line := files[i][j];
        VisitStep(MaxStep(u), Latencies(0.0, 0.0, 0.0), files, i, j);
        var fields := Fields(line);
        if |fields| <= UrlField {
          return Err(IndexError);
        }
        if fields[UrlField] == u {
          var times := LatenciesOf(line);
          if times.None? {
            return Err(ValueError);
          }
          var v := times.value;
          ghost var before := Latencies(maxReq, maxTarget, maxResp);
          MaxStepRaise(u, before, line);
          if v.req > maxReq {
            maxReq := v.req;
          }
          if v.target > maxTarget {
            maxTarget := v.target;
          }
          if v.resp > maxResp {
            maxResp := v.resp;
          }
          assert Latencies(maxReq, maxTarget, maxResp) == Raise(before, v);
        }
      }
      VisitedEnd(files, i);
    }
    FlattenAll(files);
    return Ok(Latencies(maxReq, maxTarget, maxResp));
  }

  /** A readable request for `u` raises the maxima to its times. */
  lemma MaxStepRaise(u: string, m: Latencies, line: string)
    requires HasField(line, UrlField) && Url(line) == u && LatenciesOf(line).Some?
    ensures MaxStep(u)(m, line) == Ok(Raise(m, LatenciesOf(line).value))
  {
  }

  /** Every line has a URL field, and the requests for `u` three readable times. */
  predicate LatenciesReadable(lines: seq<string>, u: string) {
    forall l | l in lines :: HasField(l, UrlField) && (Url(l) == u ==> LatenciesOf(l).Some?)
  }

  lemma MaxStepOk(u: string, m: Latencies, line: string)
    ensures MaxStep(u)(m, line).Ok? <==> LatenciesReadable([line], u)
  {
    assert line in [line];
  }

  /** The maxima are computed exactly when the lines are readable for `u`;
      otherwise the first unreadable line raises. */
  lemma {:induction false} MaxLatenciesOk(lines: seq<string>, u: string)
    ensures MaxLatencies(lines, u).Ok? <==> LatenciesReadable(lines, u)
  {
    if lines != [] {
      var p, l := lines[..|lines| - 1], lines[|lines| - 1];
      assert lines == p + [l];
      MaxLatenciesOk(p, u);
      FoldSnoc(MaxStep(u), Latencies(0.0, 0.0, 0.0), p, l);
      assert LatenciesReadable(lines, u) <==> LatenciesReadable(p, u) && LatenciesReadable([l], u);
      if MaxLatencies(p, u).Ok? {
        MaxStepOk(u, MaxLatencies(p, u).value, l);
      }
    }
  }

  /** Each maximum is at least 0 and at least the value of every request for
      `u`. */
  lemma {:induction false} MaxLatenciesBounds(lines: seq<string>, u: string)
    requires LatenciesReadable(lines, u)
    ensures MaxLatencies(lines, u).Ok?
    ensures var m := MaxLatencies(lines, u).value;
      && m.req >= 0.0 && m.target >= 0.0 && m.resp >= 0.0
      && (forall l | l in lines && Url(l) == u ::
            var v := LatenciesOf(l).value; v.req <= m.req && v.target <= m.target && v.resp <= m.resp)
  {
    MaxLatenciesOk(lines, u);
    if lines != [] {
      var p, l := lines[..|lines| - 1], lines[|lines| - 1];
      assert lines == p + [l];
      assert forall x | x in p :: x in lines;
      MaxLatenciesBounds(p, u);
      FoldSnoc(MaxStep(u), Latencies(0.0, 0.0, 0.0), p, l);
      var m0 := MaxLatencies(p, u).value;
      if Url(l) == u {
        assert MaxLatencies(lines, u) == Ok(Raise(m0, LatenciesOf(l).value));
      } else {
        assert MaxLatencies(lines, u) == Ok(m0);
      }
    }
  }

  /** Each maximum is either 0 or the value of one of the requests for `u`:
      with the bounds above, the maximum of the request times and 0, so 0 when
      there is no request for `u`. */
  lemma {:induction false} MaxLatenciesAttained(lines: seq<string>, u: string)
    requires LatenciesReadable(lines, u)
    ensures MaxLatencies(lines, u).Ok?
    ensures var m := MaxLatencies(lines, u).value;
      && (m.req == 0.0 || exists l | l in lines && Url(l) == u :: LatenciesOf(l).value.req == m.req)
      && (m.target == 0.0 || exists l | l in lines && Url(l) == u :: LatenciesOf(l).value.target == m.target)
      && (m.resp == 0.0 || exists l | l in lines && Url(l) == u :: LatenciesOf(l).value.resp == m.resp)
  {
    MaxLatenciesOk(lines, u);
    if lines != [] {
      var p, l := lines[..|lines| - 1], lines[|lines| - 1];
      assert lines == p + [l];
      assert forall x | x in p :: x in lines;
      MaxLatenciesAttained(p, u);
      FoldSnoc(MaxStep(u), Latencies(0.0, 0.0, 0.0), p, l);
      var m0 := MaxLatencies(p, u).value;
      if Url(l) == u {
        assert MaxLatencies(lines, u) == Ok(Raise(m0, LatenciesOf(l).value));
        assert l in lines;
      } else {
        assert MaxLatencies(lines, u) == Ok(m0);
      }
    }
  }

  /** One row of the report, before its numbers are written out with str(). */
  datatype ReportRow = ReportRow(url: string, count: nat, topCode: int,
                                 maxReq: real, maxTarget: real, maxResp: real)

  /** The row of get_max_processing_times_by_url for one URL. */
  function ReportRowOf(lines: seq<string>): UrlTop -> Result<ReportRow> {
    (e: UrlTop) =>
      match MaxLatencies(lines, e.url)
      case Err(x) => Err(x)
      case Ok(m) => Ok(ReportRow(e.url, e.count, e.topCode, m.req, m.target, m.resp))
  }

  /** The rows of get_max_processing_times_by_url, one per URL in order. */
  function ReportRows(lines: seq<string>, entries: seq<UrlTop>): Result<seq<ReportRow>> {
    MapAll(ReportRowOf(lines), entries)
  }

  /** `get_max_processing_times_by_url(urls, download_dir, files)` */
  method GetMaxProcessingTimesByUrl(entries: seq<UrlTop>, files: seq<seq<string>>) returns (r: Result<seq<ReportRow>>)
    ensures r == ReportRows(Flatten(files), entries)
  {
    ghost var lines := Flatten(files);
    var result: seq<ReportRow> := [];
    for k := 0 to |entries|
      invariant ReportRows(lines, entries[..k]) == Ok(result)
    {
      var u := entries[k].url;
      var maxes := CollectMaxima(files, u);
      FoldPrefix(MapStep(ReportRowOf(lines)), [], entries, k);
      if maxes.Err? {
        FoldStopsAt(MapStep(ReportRowOf(lines)), [], entries, k);
        return Err(maxes.error);
      }
      var m := maxes.value;
      result := result + [ReportRow(u, entries[k].count, entries[k].topCode, m.req, m.target, m.resp)];
    }
    assert entries[..|entries|] == entries;
    return Ok(result);
  }

  /** The rows are produced when the lines are readable for every URL; then
      there is one row per URL, in the same order, carrying its count, its top
      code and its three maxima. */
  lemma ReportRowsRows(lines: seq<string>, entries: seq<UrlTop>)
    ensures ReportRows(lines, entries).Ok? <==> forall k | 0 <= k < |entries| :: MaxLatencies(lines, entries[k].url).Ok?
    ensures ReportRows(lines, entries).Ok? ==>
      var rows := ReportRows(lines, entries).value;
      && |rows| == |entries|
      && forall k | 0 <= k < |entries| ::
           var m := MaxLatencies(lines, entries[k].url).value;
           rows[k] == ReportRow(entries[k].url, entries[k].count, entries[k].topCode, m.req, m.target, m.resp)
  {
    MapAllOk(ReportRowOf(lines), entries);
  }
}
