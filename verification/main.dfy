/** The two HTTP endpoints that carry logic (backend/main.py): `/api/generate`,
    which guards the run behind the API key and maps its failure to a 500,
    and `/api/logs`, which serves the stripped tail of the log file. */
module Api {
  import opened Common
  import opened Strings
  import opened Verifier
  import opened Retry
  import opened PdfExport
  import Workflow

  /** A route's answer: the JSON body, or the `HTTPException` it raises. */
  datatype Response<T> = Body(body: T) | HttpError(status: nat, detail: string)

  const NoKey: string := "API Key not configured on server."
  const NoLogsMessage: string := "No logs available yet"
  const ReadFailure: string := "Failed to read logs: "

  /** `lines` when the query does not give it. */
  const DefaultLines: int := 100

  // ---------------------------------------------------------------- generate

  /** What `/api/generate` answers, and the disk after it. */
  datatype Served = Served(reply: Response<Workflow.Published>, disk: FileSystem)

  /** Python's truthiness of `os.getenv("GEMINI_API_KEY")`. */
  predicate KeyConfigured(key: Option<string>) {
    key.Some? && key.value != ""
  }

  /** `generate_ebook`: without a key nothing is built and the route raises
      a 500; otherwise the workflow runs and any exception it raises becomes
      a 500 carrying its message, while a result passes through as the body.
      The workflow is built from `agents`, `Workflow.BookAgents` in the
      system, and `corpus` is what its research step gathered
      (`Search.Researched`). */
  function GenerateEbook(agents: Workflow.Agents, key: Option<string>, topic: string, corpus: string,
                         env: Workflow.Env, disk: FileSystem): (r: Served)
    ensures !KeyConfigured(key) ==> r == Served(HttpError(500, NoKey), disk)
    ensures r.reply.HttpError? ==> r.reply.status == 500
    ensures KeyConfigured(key) ==>
      var run := Workflow.Generate(agents, topic, corpus, env, disk);
      && r.disk == run.disk
      && (r.reply.Body? <==> run.result.Ok?)
      && (r.reply.Body? ==> r.reply.body == run.result.value)
      && (r.reply.HttpError? ==> r.reply.detail == run.result.error)
  {
    if !KeyConfigured(key) then Served(HttpError(500, NoKey), disk)
    else
      var run := Workflow.Generate(agents, topic, corpus, env, disk);
      match run.result
      case Ok(published) => Served(Body(published), run.disk)
      case Err(e) => Served(HttpError(500, e), run.disk)
  }

  /** A book the route serves is the file the run's last attempt exported:
      it sits in the static directory, is not empty, and the body names it
      by the topic and that attempt's uuid. */
  predicate ServesLastExport(r: Served, topic: string, env: Workflow.Env, attempts: nat) {
    r.reply.Body? ==>
      && 1 <= attempts <= MaxRetries
      && var name := Filename(env.isAlnum, topic, env.uuid(attempts - 1));
      && r.reply.body == Workflow.Published("success", "static/" + name, name)
      && OutputDir + "/" + name in r.disk && r.disk[OutputDir + "/" + name] > 0
  }

  lemma ServedBookIsOnDisk(agents: Workflow.Agents, key: Option<string>, topic: string, corpus: string,
                           env: Workflow.Env, disk: FileSystem)
    requires Workflow.Conforming(agents)
    ensures var run := Workflow.Generate(agents, topic, corpus, env, disk);
      ServesLastExport(GenerateEbook(agents, key, topic, corpus, env, disk), topic, env, |run.trail|)
  {
    if corpus != "" {
      Workflow.RunPublishes(agents, topic, corpus, env, disk);
    }
  }

  /** Every failure the route reports with a key configured is explained by
      the run: the error an attempt raised outside the export, or the
      exhaustion message after three consumed attempts. */
  predicate FailureExplained(r: Served, trail: seq<AttemptEnd>) {
    r.reply.HttpError? ==>
      && 1 <= |trail| <= MaxRetries
      && var last := trail[|trail| - 1];
      && ((last.Aborted? && r.reply.detail == last.error)
          || (r.reply.detail == Workflow.Exhausted && |trail| == MaxRetries
              && forall i :: 0 <= i < |trail| ==> trail[i].ExportFailed? || trail[i].Unverified?))
  }

  lemma FailuresAreExplained(agents: Workflow.Agents, key: Option<string>, topic: string, corpus: string,
                             env: Workflow.Env, disk: FileSystem)
    requires KeyConfigured(key) && corpus != ""
    ensures var run := Workflow.Generate(agents, topic, corpus, env, disk);
      FailureExplained(GenerateEbook(agents, key, topic, corpus, env, disk), run.trail)
  {
    Workflow.RunOutcome(agents, topic, corpus, env, disk);
    Workflow.RunAttempts(agents, topic, corpus, env, disk);
  }

  // -------------------------------------------------------------------- logs

  /** The log file as the route finds it. */
  datatype LogFile = Missing | Unreadable(reason: string) | Present(text: string)

  /** The body of `/api/logs`. */
  datatype LogsBody =
    | NoLogsYet(logs: seq<string>, message: string)
    | Recent(logs: seq<string>, totalLines: nat, showing: nat)

  /** The length of the first line of a non-empty text, its newline
      included. */
  function LineEnd(text: string): (n: nat)
    requires text != []
    ensures 0 < n <= |text|
    ensures forall j :: 0 <= j < n - 1 ==> text[j] != '\n'
    ensures n < |text| ==> text[n - 1] == '\n'
    decreases |text|
  {
    if text[0] == '\n' || |text| == 1 then 1 else 1 + LineEnd(text[1..])
  }

  /** `f.readlines()`: the text cut after every newline, each line keeping
      its newline; a last line without one is kept as it is. */
  function ReadLines(text: string): (lines: seq<string>)
    decreases |text|
  {
    if text == [] then []
    else
      var n := LineEnd(text);
      [text[..n]] + ReadLines(text[n..])
  }

  /** The lines, joined again, are the text. */
  lemma {:induction false} ReadLinesJoin(text: string)
    ensures Concat(ReadLines(text)) == text
    decreases |text|
  {
    if text != [] {
      var n := LineEnd(text);
      var line, rest := text[..n], ReadLines(text[n..]);
      assert ReadLines(text) == [line] + rest;
      ReadLinesJoin(text[n..]);
      ConcatAppend([line], rest);
      ConcatOne(line);
      assert line + text[n..] == text;
    }
  }

  lemma ConcatOne(s: string)
    ensures Concat([s]) == s
  {
    assert [s][..0] == [];
  }

  /** Each line is a line: not empty, with a newline at most at its end, and
      only the last may lack one. */
  predicate Line(line: string, last: bool) {
    && line != []
    && (forall j :: 0 <= j < |line| - 1 ==> line[j] != '\n')
    && (!last ==> line[|line| - 1] == '\n')
  }

  lemma {:induction false} ReadLinesAreLines(text: string)
    ensures forall i :: 0 <= i < |ReadLines(text)| ==> Line(ReadLines(text)[i], i == |ReadLines(text)| - 1)
    decreases |text|
  {
    if text != [] {
      var n := LineEnd(text);
      var rest := ReadLines(text[n..]);
      ReadLinesAreLines(text[n..]);
      assert forall j :: 0 <= j < |rest| ==> Line(rest[j], j == |rest| - 1);
      var line := text[..n];
      assert ReadLines(text) == [line] + rest;
      assert forall j :: 0 <= j < n ==> line[j] == text[j];
      assert rest != [] ==> n < |text|;
      assert Line(line, rest == []);
      forall i | 0 <= i < |rest| + 1 ensures Line(([line] + rest)[i], i == |rest|) {
        if i == 0 {
          assert ([line] + rest)[i] == line;
        } else {
          assert ([line] + rest)[i] == rest[i - 1];
          assert Line(rest[i - 1], i - 1 == |rest| - 1);
        }
      }
    }
  }

  /** Python's `s[start:]`: a negative start counts from the end, and both
      ends are clamped to the sequence. */
  function SliceFrom<T>(s: seq<T>, start: int): (r: seq<T>)
    ensures |r| <= |s| && r == s[|s| - |r|..]
    ensures start >= 0 ==> |r| == if start <= |s| then |s| - start else 0
    ensures start < 0 ==> |r| == if -start <= |s| then -start else |s|
  {
    if start >= 0 then (if start <= |s| then s[start..] else [])
    else (if -start <= |s| then s[|s| + start..] else s)
  }

  /** `all_lines[-lines:] if len(all_lines) > lines else all_lines`. */
  function RecentLines(all: seq<string>, lines: int): (r: seq<string>)
    ensures |r| <= |all| && r == all[|all| - |r|..]
    ensures 0 < lines < |all| ==> |r| == lines
    ensures lines >= |all| ==> r == all
    ensures lines == 0 ==> r == all
    ensures lines < 0 ==> |r| == if -lines <= |all| then |all| + lines else 0
  {
    if |all| > lines then SliceFrom(all, -lines) else all
  }

  /** `[line.strip() for line in lines]` */
  function StripAll(lines: seq<string>): (r: seq<string>)
    ensures |r| == |lines|
    ensures forall i :: 0 <= i < |r| ==> r[i] == Strip(lines[i])
  {
    seq(|lines|, i requires 0 <= i < |lines| => Strip(lines[i]))
  }

  /** `get_logs`. */
  function GetLogs(file: LogFile, lines: int): (r: Response<LogsBody>)
    ensures file.Missing? <==> r == Body(NoLogsYet([], NoLogsMessage))
    ensures file.Unreadable? <==> r.HttpError?
    ensures file.Unreadable? ==> r == HttpError(500, ReadFailure + file.reason)
    ensures file.Present? ==>
      var all := ReadLines(file.text);
      && r.Body? && r.body.Recent?
      && r.body.totalLines == |all|
      && r.body.showing == |r.body.logs| <= |all|
      && forall i :: 0 <= i < r.body.showing ==> r.body.logs[i] == Strip(all[|all| - r.body.showing + i])
  {
    match file
    case Missing => Body(NoLogsYet([], NoLogsMessage))
    case Unreadable(reason) => HttpError(500, ReadFailure + reason)
    case Present(text) =>
      var all := ReadLines(text);
      var recent := RecentLines(all, lines);
      Body(Recent(StripAll(recent), |all|, |recent|))
  }

  /** How many lines the route shows of a log of `total` lines when asked
      for `lines`: the last `lines` when there are more; all of them when
      there are not, and also for `0`, since `[-0:]` is the whole list; and
      for a negative count the first `-lines` are dropped. */
  function Shown(total: nat, lines: int): nat {
    if 0 < lines < total then lines
    else if lines >= 0 then total
    else if -lines <= total then total + lines
    else 0
  }

  lemma LogsShowing(text: string, lines: int)
    ensures var r := GetLogs(Present(text), lines);
      r.Body? && r.body.showing == Shown(r.body.totalLines, lines)
  {
  }

  /** Asked for more lines than the log holds, or for none, the route shows
      the whole log, every line stripped. */
  lemma LogsWhole(text: string, lines: int)
    requires lines == 0 || lines >= |ReadLines(text)|
    ensures GetLogs(Present(text), lines) == Body(Recent(StripAll(ReadLines(text)), |ReadLines(text)|, |ReadLines(text)|))
  {
  }

  /** A log with no newline at all is one line. */
  lemma OneLineLog(text: string)
    requires text != [] && forall j :: 0 <= j < |text| ==> text[j] != '\n'
    ensures ReadLines(text) == [text]
  {
    assert LineEnd(text) == |text|;
    assert text[..|text|] == text;
  }
}
