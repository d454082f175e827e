/** The fields of one Application Load Balancer access-log line, as the parser
    reads them: the stripped line split on single spaces gives positional
    fields, and the same line split on double quotes gives the quoted segments.
    A field the line does not have is an IndexError in the source. */
module LogLine {
  import opened Wrappers
  import opened Text

  const ReqTimeField: nat := 5
  const TargetTimeField: nat := 6
  const RespTimeField: nat := 7
  const StatusField: nat := 8
  const UrlField: nat := 13
  const UserAgentSegment: nat := 3

  /** `line.strip().split(' ')` */
  function Fields(line: string): seq<string> {
    Split(Strip(line), ' ')
  }

  /** `line.strip().split('"')` */
  function Segments(line: string): seq<string> {
    Split(Strip(line), '"')
  }

  predicate HasField(line: string, k: nat) {
    k < |Fields(line)|
  }

  /** Every line has positional field `k`. */
  predicate AllHaveField(lines: seq<string>, k: nat) {
    forall l | l in lines :: HasField(l, k)
  }

  function Status(line: string): string
    requires HasField(line, StatusField)
  {
    Fields(line)[StatusField]
  }

  function Url(line: string): string
    requires HasField(line, UrlField)
  {
    Fields(line)[UrlField]
  }

  predicate HasUserAgent(line: string) {
    UserAgentSegment < |Segments(line)|
  }

  function UserAgent(line: string): string
    requires HasUserAgent(line)
  {
    Segments(line)[UserAgentSegment]
  }

  /** `re.compile("^[4-5][0-9][0-9]$").match(code)`. A field never holds a
      newline, so `$` can only match at the end of the field. */
  predicate IsErrorCode(code: string) {
    |code| == 3 && '4' <= code[0] <= '5' && IsDigit(code[1]) && IsDigit(code[2])
  }

  /** The three processing times of a request, in seconds. */
  datatype Latencies = Latencies(req: real, target: real, resp: real)

  /** `float(fields[5])`, `float(fields[6])`, `float(fields[7])`; None when one
      of them is a ValueError. */
  function LatenciesOf(line: string): Option<Latencies>
    requires HasField(line, RespTimeField)
  {
    var f := Fields(line);
    match (ParseDecimal(f[ReqTimeField]), ParseDecimal(f[TargetTimeField]), ParseDecimal(f[RespTimeField]))
    case (Some(a), Some(b), Some(c)) => Some(Latencies(a, b, c))
    case _ => None
  }

  /** The lines of all files, file after file, as the parser's nested
      `for file in files: for line in fin` loops visit them. */
  function Flatten(files: seq<seq<string>>): seq<string> {
    if files == [] then [] else Flatten(files[..|files| - 1]) + files[|files| - 1]
  }

  /** The lines visited before line `j` of file `i`. */
  function Visited(files: seq<seq<string>>, i: nat, j: nat): seq<string>
    requires i < |files| && j <= |files[i]|
  {
    Flatten(files[..i]) + files[i][..j]
  }

  lemma VisitedStart(files: seq<seq<string>>, i: nat)
    requires i < |files|
    ensures Visited(files, i, 0) == Flatten(files[..i])
  {
    assert files[i][..0] == [];
  }

  lemma VisitedStep(files: seq<seq<string>>, i: nat, j: nat)
    requires i < |files| && j < |files[i]|
    ensures Visited(files, i, j + 1) == Visited(files, i, j) + [files[i][j]]
  {
    assert files[i][..j + 1] == files[i][..j] + [files[i][j]];
  }

  lemma VisitedEnd(files: seq<seq<string>>, i: nat)
    requires i < |files|
    ensures Visited(files, i, |files[i]|) == Flatten(files[..i + 1])
  {
    assert files[..i + 1][..i] == files[..i];
    assert files[i][..|files[i]|] == files[i];
  }

  lemma {:induction false} FlattenPrefix(files: seq<seq<string>>, m: nat)
    requires m <= |files|
    ensures Flatten(files[..m]) <= Flatten(files)
  {
    if m < |files| {
      var n := |files| - 1;
      assert files[..n][..m] == files[..m];
      FlattenPrefix(files[..n], m);
    } else {
      assert files[..m] == files;
    }
  }

  /** The lines visited so far are the first lines of all the files. */
  lemma VisitedPrefix(files: seq<seq<string>>, i: nat, j: nat)
    requires i < |files| && j <= |files[i]|
    ensures Visited(files, i, j) <= Flatten(files)
  {
    FlattenPrefix(files, i + 1);
    assert files[..i + 1][..i] == files[..i];
    assert Flatten(files[..i + 1]) == Flatten(files[..i]) + files[i];
    assert files[i][..j] <= files[i];
  }

  lemma FlattenAll(files: seq<seq<string>>)
    ensures Flatten(files[..|files|]) == Flatten(files)
  {
    assert files[..|files|] == files;
  }

  /** Every line of every file is visited. */
  lemma {:induction false} InFlatten(files: seq<seq<string>>, i: nat, j: nat)
    requires i < |files| && j < |files[i]|
    ensures files[i][j] in Flatten(files)
  {
    var n := |files| - 1;
    if i < n {
      InFlatten(files[..n], i, j);
    }
  }
}
