/** The orchestrator (backend/agents/workflow.py): research once, then up to
    three outer attempts of analyse → images → format → export → verify.
    An export error or a failed verification moves on to the next attempt,
    which starts again from analysis; an error from analysis, images or
    formatting is not caught and ends the whole run. Every collaborator is
    an oracle indexed by call number, and each attempt's calls continue the
    numbering where the previous attempt stopped. */
module Workflow {
  import opened Common
  import opened Strings
  import opened PyJson
  import Paths
  import opened Verifier
  import Search
  import Analyst
  import Images
  import Formatter
  import opened PdfExport
  import opened Retry

  const SearchFailure: string := "Search failed to gather data."
  const Exhausted: string := "Failed to generate a valid PDF after 3 attempts."

  /** The prefix the success result strips from the exported path. */
  const ServerRoot: string := "backend/"

  /** A character classifier that `str.isalnum` could be. */
  type Alnum = f: char -> bool | AlnumWellFormed(f) witness (c: char) => false

  /** The agents an `EbookWorkflow` is built from, as the functions the run
      calls: the analyst, the image generator, the formatter (given how it
      renders values and markdown), the exporter (given `str.isalnum`) and
      the verifier. */
  datatype Agents = Agents(
    analyst: (string, string, nat -> Analyst.Reply) -> Analyst.Analysis,
    imager: (Json, nat -> Images.SvgReply) -> Result<Images.ImagesRun>,
    formatter: (Formatter.Show, Formatter.Markdown, Json) -> Result<string>,
    pdf: (Alnum, FileSystem, string, string, UuidHex, Renderer) -> Export,
    verifier: (FileSystem, string) -> bool)

  /** The agents of this system. */
  const BookAgents: Agents := Agents(
    Analyst.Analyze,
    Images.GenerateImages,
    (show: Formatter.Show, markdown: Formatter.Markdown, book: Json) =>
      Formatter.Page(Formatter.BookLayout, show, markdown, book),
    (isAlnum: Alnum, disk: FileSystem, html: string, topic: string, uuid: UuidHex, render: Renderer) =>
      CreatePdf(isAlnum, disk, html, topic, uuid, render),
    VerifyPdf)

  /** What the run relies on from the exporter: the page is rendered to the
      path named for the topic and the uuid under the output directory; a
      render error is raised with its message, possibly leaving a partial
      file; a rendered page is written there and its path returned. */
  ghost predicate Exports(pdf: (Alnum, FileSystem, string, string, UuidHex, Renderer) -> Export) {
    forall isAlnum: Alnum, disk: FileSystem, html: string, topic: string, uuid: UuidHex, render: Renderer ::
      var r, path, out := pdf(isAlnum, disk, html, topic, uuid, render),
                          OutputDir + "/" + Filename(isAlnum, topic, uuid), render(html);
      && (out.Written? ==> r.result == Ok(path) && r.disk == disk[path := out.size])
      && (out.RenderError? ==> r.result == Err(out.message))
      && (out.RenderError? ==> r.disk == if out.left.Some? then disk[path := out.left.value] else disk)
  }

  /** What the run relies on from the verifier: a file passes exactly when
      it exists and is not empty. */
  ghost predicate Checks(verifier: (FileSystem, string) -> bool) {
    forall fs: FileSystem, path: string :: verifier(fs, path) <==> path in fs && fs[path] > 0
  }

  ghost predicate Conforming(agents: Agents) {
    Exports(agents.pdf) && Checks(agents.verifier)
  }

  /** The system's own exporter and verifier keep those promises. */
  lemma BookAgentsConform()
    ensures Conforming(BookAgents)
  {
  }

  /** The collaborators of the outer loop. The generator and the model are
      numbered across attempts; the exporter's uuid and renderer are
      consulted once per attempt that reaches the export, numbered by
      attempt, and the renderer is handed that attempt's page. */
  datatype Env = Env(
    llm: nat -> Analyst.Reply,
    svg: nat -> Images.SvgReply,
    show: Formatter.Show,
    markdown: Formatter.Markdown,
    isAlnum: Alnum,
    uuid: nat -> UuidHex,
    render: nat -> Renderer)

  /** The dict a successful run returns. */
  datatype Published = Published(status: string, pdfPath: string, filename: string)

  /** A run: its result, how each attempt ended, and the disk afterwards. */
  datatype Run = Run(result: Result<Published>, trail: seq<AttemptEnd>, disk: FileSystem)

  /** The success dict for an exported path: the path relative to the
      server root, and its last component. */
  function Publish(path: string): Published {
    Published("success", ReplaceAll(path, ServerRoot, ""), Paths.Basename(path))
  }

  /** What `run` makes of the way the loop ended: the success dict, the
      propagated error, or the exhaustion error after the `for`. */
  function Conclude(t: Trace): Run {
    match t.outcome
    case Succeeded(path) => Run(Ok(Publish(path)), t.trail, t.disk)
    case Raised(e) => Run(Err(e), t.trail, t.disk)
    case OutOfAttempts => Run(Err(Exhausted), t.trail, t.disk)
  }

  /** The part of an attempt before the export: the page, or the error
      analysis, images or formatting raised, and where the next calls to
      the model and the generator start. */
  datatype Draft = Draft(page: Result<string>, llm: nat, svg: nat)

  /** Analyse, add images, format. */
  function Compose(agents: Agents, topic: string, corpus: string, env: Env, at: Cursor): Draft {
    var analysis := agents.analyst(topic, corpus, (n: nat) => env.llm(at.llm + n));
    var llm := at.llm + |analysis.requests|;
    match analysis.result
    case Err(e) => Draft(Err(e), llm, at.svg)
    case Ok(book) =>
      match agents.imager(book, (n: nat) => env.svg(at.svg + n))
      case Err(e) => Draft(Err(e), llm, at.svg)
      case Ok(images) =>
        Draft(agents.formatter(env.show, env.markdown, images.book), llm, at.svg + |images.resolutions|)
  }

  /** Export the page, then verify the file. */
  function Deliver(agents: Agents, topic: string, env: Env, attempt: nat, page: string, next: Cursor): Step {
    var exported := agents.pdf(env.isAlnum, next.disk, page, topic, env.uuid(attempt), env.render(attempt));
    var after := Cursor(next.llm, next.svg, exported.disk);
    match exported.result
    case Err(e) => Step(ExportFailed(e), after)
    case Ok(path) =>
      if agents.verifier(exported.disk, path) then Step(Verified(path), after)
      else Step(Unverified(path), after)
  }

  /** One outer attempt, given where it starts. */
  function Attempt(agents: Agents, topic: string, corpus: string, env: Env, attempt: nat, at: Cursor): Step {
    var d := Compose(agents, topic, corpus, env, at);
    match d.page
    case Err(e) => Step(Aborted(e), Cursor(d.llm, d.svg, at.disk))
    case Ok(html) => Deliver(agents, topic, env, attempt, html, Cursor(d.llm, d.svg, at.disk))
  }

  /** How an attempt that started at `at` treated the disk: an attempt that
      reached the export names the file for the topic and that attempt's
      uuid, which is on disk and verified exactly when it is not empty; an
      attempt that raised before the export left the disk alone; at most
      that one file changed, and no file was removed. */
  predicate Exported(s: Step, topic: string, env: Env, attempt: nat, at: Cursor) {
    var path := OutputDir + "/" + Filename(env.isAlnum, topic, env.uuid(attempt));
    && (s.end.Verified? || s.end.Unverified? ==>
         && s.end.path == path
         && path in s.next.disk
         && (s.end.Verified? <==> s.next.disk[path] > 0))
    && (s.end.Aborted? ==> s.next.disk == at.disk)
    && (s.next.disk == at.disk || (path in s.next.disk && s.next.disk == at.disk[path := s.next.disk[path]]))
    && s.next.disk.Keys >= at.disk.Keys
  }

  /** Every attempt treats the disk that way when the agents keep their
      promises. */
  lemma AttemptFacts(agents: Agents, topic: string, corpus: string, env: Env, attempt: nat, at: Cursor)
    requires Conforming(agents)
    ensures Exported(Attempt(agents, topic, corpus, env, attempt, at), topic, env, attempt, at)
  {
    var d := Compose(agents, topic, corpus, env, at);
    if d.page.Ok? {
      var r := agents.pdf(env.isAlnum, at.disk, d.page.value, topic, env.uuid(attempt), env.render(attempt));
      if r.result.Ok? {
        assert agents.verifier(r.disk, r.result.value) <==> r.result.value in r.disk && r.disk[r.result.value] > 0;
      }
    }
  }

  /** The page an attempt composed is the one the exporter renders: an
      attempt raises before the export exactly when composing raised, with
      that error; otherwise the rendering of its page decides: a render
      error is the attempt's PDF error, and a written page is the
      attempt's file, verified exactly when the renderer wrote something. */
  lemma AttemptRendersPage(agents: Agents, topic: string, corpus: string, env: Env, attempt: nat, at: Cursor)
    requires Conforming(agents)
    ensures var d, s := Compose(agents, topic, corpus, env, at), Attempt(agents, topic, corpus, env, attempt, at);
      && (s.end.Aborted? <==> d.page.Err?)
      && (d.page.Err? ==> s.end.error == d.page.error)
      && (d.page.Ok? ==> Rendered(s, env.render(attempt)(d.page.value), at))
  {
    var d := Compose(agents, topic, corpus, env, at);
    if d.page.Ok? {
      var r := agents.pdf(env.isAlnum, at.disk, d.page.value, topic, env.uuid(attempt), env.render(attempt));
      if r.result.Ok? {
        assert agents.verifier(r.disk, r.result.value) <==> r.result.value in r.disk && r.disk[r.result.value] > 0;
      }
    }
  }

  /** An attempt whose page rendered as `out`: a render error is its PDF
      error, and a written page is its file, of the rendered size and
      verified exactly when that is not zero. */
  predicate Rendered(s: Step, out: RenderOutcome, at: Cursor) {
    && (s.end.ExportFailed? <==> out.RenderError?)
    && (out.RenderError? ==> s.end.error == out.message)
    && (out.Written? ==>
         && (s.end.Verified? || s.end.Unverified?)
         && s.next.disk == at.disk[s.end.path := out.size]
         && (s.end.Verified? <==> out.size > 0))
  }

  /** A step function every one of whose attempts treats the disk that way. */
  ghost predicate ExportsEach(step: (nat, Cursor) -> Step, topic: string, env: Env) {
    forall k: nat, c: Cursor :: Exported(step(k, c), topic, env, k, c)
  }

  /** The step the run repeats. */
  function AttemptStep(agents: Agents, topic: string, corpus: string, env: Env): (nat, Cursor) -> Step {
    (k: nat, at: Cursor) => Attempt(agents, topic, corpus, env, k, at)
  }

  lemma AttemptsExport(agents: Agents, topic: string, corpus: string, env: Env)
    requires Conforming(agents)
    ensures ExportsEach(AttemptStep(agents, topic, corpus, env), topic, env)
  {
    forall k: nat, c: Cursor ensures Exported(AttemptStep(agents, topic, corpus, env)(k, c), topic, env, k, c) {
      AttemptFacts(agents, topic, corpus, env, k, c);
    }
  }

  /** `run` after the search: a falsy corpus raises before any attempt. */
  function Generate(agents: Agents, topic: string, corpus: string, env: Env, disk: FileSystem): (r: Run)
    ensures |r.trail| <= MaxRetries
    ensures r.trail == [] <==> corpus == ""
    ensures corpus == "" ==> r == Run(Err(SearchFailure), [], disk)
  {
    if corpus == "" then Run(Err(SearchFailure), [], disk)
    else Conclude(Loop(AttemptStep(agents, topic, corpus, env), 0, Cursor(0, 0, disk)))
  }

  /** The whole of `run`: the research step, then the attempts. The run is
      built from `agents`, `BookAgents` in the system. */
  function RunWorkflow(agents: Agents, topic: string, search: nat -> Search.SearchReply,
                       fetch: nat -> Search.FetchReply, env: Env, disk: FileSystem): (r: Run)
    ensures 1 <= |r.trail| <= MaxRetries
  {
    Generate(agents, topic, Search.Researched(topic, search, fetch), env, disk)
  }

  /** The research step always yields some text, so a run never fails for
      want of data: it makes between one and three attempts, reports the
      way its last attempt ended, publishes only a file it left on the disk,
      and removes no file. `BookAgentsConform` supplies the requirement for
      the system's own agents. */
  lemma RunWorkflowReports(agents: Agents, topic: string, search: nat -> Search.SearchReply,
                           fetch: nat -> Search.FetchReply, env: Env, disk: FileSystem)
    requires Conforming(agents)
    ensures var r := RunWorkflow(agents, topic, search, fetch, env, disk);
      && ReportsLast(r)
      && PublishesLast(r, topic, env)
      && r.disk.Keys >= disk.Keys
  {
    var corpus := Search.Researched(topic, search, fetch);
    RunOutcome(agents, topic, corpus, env, disk);
    RunPublishes(agents, topic, corpus, env, disk);
    RunKeepsFiles(agents, topic, corpus, env, disk);
  }

  /** The success dict for a file exported into the output directory:
      the path is the file's name under `static/`, and the filename is the
      name itself. */
  lemma PublishExported(name: string)
    requires Paths.NoSlash(name)
    ensures Publish(OutputDir + "/" + name) == Published("success", "static/" + name, name)
  {
    Paths.BasenameOfJoin(OutputDir, name);
    ServerRootLeadsPath(name);
    NameKeepsItself(name);
    StaticPathKept(name);
  }

  /** The output path starts with the server root, which `replace` removes. */
  lemma ServerRootLeadsPath(name: string)
    ensures ReplaceAll(OutputDir + "/" + name, ServerRoot, "") == ReplaceAll("static" + ("/" + name), ServerRoot, "")
  {
    var path := OutputDir + "/" + name;
    var rest := "static" + ("/" + name);
    assert path == ServerRoot + rest;
    assert path[..|ServerRoot|] == ServerRoot && path[|ServerRoot|..] == rest;
  }

  /** A name without `/` holds no server root to remove. */
  lemma NameKeepsItself(name: string)
    requires Paths.NoSlash(name)
    ensures ReplaceAll(name, ServerRoot, "") == name
  {
    forall j ensures !OccursAt(name, ServerRoot, j) {
      if 0 <= j && j + |ServerRoot| <= |name| {
        assert name[j..j + |ServerRoot|][7] == name[j + 7] != ServerRoot[7];
      }
    }
    ReplaceAllAbsent(name, ServerRoot, "");
  }

  /** `static/` in front of a name the replacement keeps is kept too. */
  lemma StaticPathKept(name: string)
    requires ReplaceAll(name, ServerRoot, "") == name
    ensures ReplaceAll("static" + ("/" + name), ServerRoot, "") == "static/" + name
  {
    ReplaceAllSkipsPrefix("/", name, ServerRoot, "");
    ReplaceAllSkipsPrefix("static", "/" + name, ServerRoot, "");
    AppendAssoc("static", "/", name);
    assert "static" + "/" == "static/";
  }

  /** The attempts of a run that gets past the search: between one and
      three, and every one but the last failed its export or its
      verification. */
  predicate ConsumedBeforeLast(r: Run) {
    && 1 <= |r.trail| <= MaxRetries
    && (forall i :: 0 <= i < |r.trail| - 1 ==> r.trail[i].ExportFailed? || r.trail[i].Unverified?)
  }

  lemma ConcludeConsumed(t: Trace, first: AttemptEnd)
    requires Leads(t, first) && |t.trail| <= MaxRetries
    ensures ConsumedBeforeLast(Conclude(t))
  {
    ConcludeKeeps(t);
  }

  lemma RunAttempts(agents: Agents, topic: string, corpus: string, env: Env, disk: FileSystem)
    requires corpus != ""
    ensures ConsumedBeforeLast(Generate(agents, topic, corpus, env, disk))
  {
    var t := Loop(AttemptStep(agents, topic, corpus, env), 0, Cursor(0, 0, disk));
    LoopLeads(AttemptStep(agents, topic, corpus, env), 0, Cursor(0, 0, disk));
    ConcludeConsumed(t, AttemptStep(agents, topic, corpus, env)(0, Cursor(0, 0, disk)).end);
    assert Generate(agents, topic, corpus, env, disk) == Conclude(t);
  }

  /** How a run that gets past the search ends: it succeeds exactly when its
      last attempt verified; an uncaught error is the run's error; when every
      attempt consumed itself it fails with the exhaustion message. */
  predicate ReportsLast(r: Run) {
    && |r.trail| > 0
    && var last := r.trail[|r.trail| - 1];
    && (r.result.Ok? <==> last.Verified?)
    && (last.Aborted? ==> r.result == Err(last.error))
    && (!Final(last) ==> r.result == Err(Exhausted) && |r.trail| == MaxRetries)
  }

  lemma ConcludeReports(t: Trace)
    requires EndsByLast(t, MaxRetries)
    ensures ReportsLast(Conclude(t))
  {
    ConcludeKeeps(t);
  }

  lemma RunOutcome(agents: Agents, topic: string, corpus: string, env: Env, disk: FileSystem)
    requires corpus != ""
    ensures ReportsLast(Generate(agents, topic, corpus, env, disk))
  {
    var t := Loop(AttemptStep(agents, topic, corpus, env), 0, Cursor(0, 0, disk));
    LoopEndsByLast(AttemptStep(agents, topic, corpus, env), 0, Cursor(0, 0, disk));
    ConcludeReports(t);
    assert Generate(agents, topic, corpus, env, disk) == Conclude(t);
  }

  /** A loop that ended on a verified export of the file `name`, left on
      the disk and not empty, concludes with the success dict naming that
      file. */
  lemma ConcludePublishes(t: Trace, name: string)
    requires Paths.NoSlash(name)
    requires t.outcome.Succeeded? ==>
      && t.outcome.path == OutputDir + "/" + name
      && OutputDir + "/" + name in t.disk && t.disk[OutputDir + "/" + name] > 0
    ensures Conclude(t).result.Ok? ==>
      && Conclude(t).result.value == Published("success", "static/" + name, name)
      && OutputDir + "/" + name in Conclude(t).disk && Conclude(t).disk[OutputDir + "/" + name] > 0
  {
    ConcludeKeeps(t);
    if t.outcome.Succeeded? {
      PublishExported(name);
    }
  }

  /** `run` reports the trail and the disk of the loop it concludes, and
      succeeds exactly when the loop did, with the path it ended on. */
  lemma ConcludeKeeps(t: Trace)
    ensures Conclude(t).trail == t.trail && Conclude(t).disk == t.disk
    ensures Conclude(t).result.Ok? <==> t.outcome.Succeeded?
    ensures t.outcome.Succeeded? ==> Conclude(t).result.value == Publish(t.outcome.path)
    ensures t.outcome.Raised? ==> Conclude(t).result == Err(t.outcome.error)
    ensures t.outcome.OutOfAttempts? ==> Conclude(t).result == Err(Exhausted)
  {
  }

  /** The path of attempt `k`'s export. */
  function ExportPath(topic: string, env: Env): nat -> string {
    (k: nat) => OutputDir + "/" + Filename(env.isAlnum, topic, env.uuid(k))
  }

  lemma ExportPathAt(topic: string, env: Env, k: nat)
    ensures ExportPath(topic, env)(k) == OutputDir + "/" + Filename(env.isAlnum, topic, env.uuid(k))
  {
  }

  /** Attempts that treat the disk as `Attempt` does write their files. */
  lemma ExportsWrite(step: (nat, Cursor) -> Step, topic: string, env: Env)
    requires ExportsEach(step, topic, env)
    ensures Writes(step, ExportPath(topic, env))
  {
    forall k: nat, c: Cursor | step(k, c).end.Verified?
      ensures step(k, c).end.path == ExportPath(topic, env)(k)
      ensures ExportPath(topic, env)(k) in step(k, c).next.disk
      ensures step(k, c).next.disk[ExportPath(topic, env)(k)] > 0
    {
      assert Exported(step(k, c), topic, env, k, c);
    }
  }

  /** A run that succeeds reports the file its last attempt `k` wrote,
      `Filename(topic, uuid(k))`, as the success dict's path under `static/`
      and as its filename; that file is on the disk and not empty. */
  predicate PublishesLast(r: Run, topic: string, env: Env) {
    r.result.Ok? ==>
      && |r.trail| > 0
      && var name := Filename(env.isAlnum, topic, env.uuid(|r.trail| - 1));
      && r.result.value == Published("success", "static/" + name, name)
      && OutputDir + "/" + name in r.disk && r.disk[OutputDir + "/" + name] > 0
  }

  /** A loop that wrote its last attempt's file concludes by publishing it. */
  lemma LoopPublishes(t: Trace, topic: string, env: Env)
    requires WroteLast(t, ExportPath(topic, env))
    ensures PublishesLast(Conclude(t), topic, env)
  {
    ConcludeKeeps(t);
    if t.outcome.Succeeded? {
      ExportPathAt(topic, env, |t.trail| - 1);
      var name := Filename(env.isAlnum, topic, env.uuid(|t.trail| - 1));
      FilenameShape(env.isAlnum, topic, env.uuid(|t.trail| - 1));
      ConcludePublishes(t, name);
    }
  }

  /** A successful run names the file its last attempt wrote, and that file
      is on the disk and not empty. */
  lemma RunPublishes(agents: Agents, topic: string, corpus: string, env: Env, disk: FileSystem)
    requires corpus != ""
    requires Conforming(agents)
    ensures PublishesLast(Generate(agents, topic, corpus, env, disk), topic, env)
  {
    var t := Loop(AttemptStep(agents, topic, corpus, env), 0, Cursor(0, 0, disk));
    AttemptsWrite(agents, topic, corpus, env);
    RunWritesLast(agents, topic, corpus, env, disk);
    LoopPublishes(t, topic, env);
    assert Generate(agents, topic, corpus, env, disk) == Conclude(t);
  }

  /** With agents that keep their promises, every verified attempt of a run
      writes its file. */
  lemma AttemptsWrite(agents: Agents, topic: string, corpus: string, env: Env)
    requires Conforming(agents)
    ensures Writes(AttemptStep(agents, topic, corpus, env), ExportPath(topic, env))
  {
    AttemptsExport(agents, topic, corpus, env);
    ExportsWrite(AttemptStep(agents, topic, corpus, env), topic, env);
  }

  /** A run whose attempts write their files succeeds with the file of its
      last attempt. */
  lemma RunWritesLast(agents: Agents, topic: string, corpus: string, env: Env, disk: FileSystem)
    requires Writes(AttemptStep(agents, topic, corpus, env), ExportPath(topic, env))
    ensures WroteLast(Loop(AttemptStep(agents, topic, corpus, env), 0, Cursor(0, 0, disk)), ExportPath(topic, env))
  {
    LoopWritesLast(AttemptStep(agents, topic, corpus, env), ExportPath(topic, env), Cursor(0, 0, disk));
  }

  /** No file that existed before a run is gone afterwards. */
  lemma RunKeepsFiles(agents: Agents, topic: string, corpus: string, env: Env, disk: FileSystem)
    requires Conforming(agents)
    ensures Generate(agents, topic, corpus, env, disk).disk.Keys >= disk.Keys
  {
    if corpus != "" {
      var step := AttemptStep(agents, topic, corpus, env);
      AttemptsExport(agents, topic, corpus, env);
      forall k: nat, c: Cursor ensures step(k, c).next.disk.Keys >= c.disk.Keys {
        assert Exported(step(k, c), topic, env, k, c);
      }
      LoopKeepsFiles(step, 0, Cursor(0, 0, disk));
    }
  }

  /** When the first two exports fail and the third attempt verifies, the
      run names the third attempt's file (the agents of this system conform,
      by `BookAgentsConform`). */
  lemma ThirdAttemptNamesItsFile(agents: Agents, topic: string, corpus: string, env: Env, disk: FileSystem)
    requires corpus != ""
    requires Conforming(agents)
    requires var r := Generate(agents, topic, corpus, env, disk);
      |r.trail| == 3 && r.trail[0].ExportFailed? && r.trail[1].ExportFailed? && r.trail[2].Verified?
    ensures var name := Filename(env.isAlnum, topic, env.uuid(2));
      Generate(agents, topic, corpus, env, disk).result == Ok(Published("success", "static/" + name, name))
  {
    RunOutcome(agents, topic, corpus, env, disk);
    RunPublishes(agents, topic, corpus, env, disk);
  }
}
