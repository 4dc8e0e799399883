/** The content structurer (backend/agents/analyst_agent.py): at most two
    generation calls, each reply passed through a gate that checks, in
    order, that it parsed, that it has enough sections and that its first
    section does not look generic. The language model and `json.loads` are
    one oracle: the i-th call's reply is `llm(i)`. */
module Analyst {
  import opened Common
  import opened Strings
  import opened PyJson
  import opened Sections

  const Attempts: nat := 2
  const MinSections: nat := 4
  const MinFirstContent: nat := 150
  const GenericMarker: string := "This guide covers"
  const ResearchLimit: nat := 30000

  /** One generation request: the model, the prompt's variable parts and
      the generation configuration. */
  datatype Request = Request(
    model: string,
    topic: string,
    research: string,
    mimeType: string,
    temperature: real,
    maxOutputTokens: nat)

  /** What one call yields after `json.loads(response.text)`: a parsed value,
      a `JSONDecodeError`, or any other exception with its message. */
  datatype Reply = Parsed(value: Json) | Malformed | Failed(cause: string)

  /** The gate's verdict on a parsed reply; `Crash` is an exception raised
      while inspecting it (a value of the wrong shape). */
  datatype Verdict = Accept | TooFewSections | LooksGeneric | Crash(cause: string)

  /** The outcome of `analyze_and_structure` and the requests it issued. */
  datatype Analysis = Analysis(result: Result<Json>, requests: seq<Request>)

  /** The request every attempt issues: the topic and the first 30000
      characters of the research corpus, JSON output, temperature 0.6 and a
      6144-token cap. */
  function Prompt(topic: string, corpus: string): (q: Request)
    ensures |q.research| <= ResearchLimit
    ensures |q.research| <= |corpus| && q.research == corpus[..|q.research|]
    ensures |corpus| <= ResearchLimit ==> q.research == corpus
    ensures |corpus| > ResearchLimit ==> |q.research| == ResearchLimit
  {
    Request("gemini-2.5-flash", topic, Take(corpus, ResearchLimit), "application/json", 0.6, 6144)
  }

  function ParseFailure(topic: string): string {
    "Failed to parse content for '" + topic + "' after 2 attempts. The AI response was not valid JSON."
  }

  function GenerationFailure(topic: string, cause: string): string {
    "Failed to generate content for '" + topic + "': " + cause
  }

  function ExhaustedFailure(topic: string): string {
    "Failed to generate content for '" + topic + "' after all attempts."
  }

  /** The generic-content test on the first section's content, for every
      shape `in` and `len` accept. */
  predicate Substantial(c: Json) {
    match c
    case JStr(s) => |s| >= MinFirstContent && !Contains(s, GenericMarker)
    case JArr(xs) => |xs| >= MinFirstContent && JStr(GenericMarker) !in xs
    case JObj(m) => |m| >= MinFirstContent && GenericMarker !in m
    case _ => false
  }

  /** What an accepted reply looks like: a dict whose `sections` is a list of
      at least four dicts, the first with substantial content. */
  predicate Acceptable(v: Json) {
    && v.JObj?
    && "sections" in v.fields
    && v.fields["sections"].JArr?
    && |v.fields["sections"].items| >= MinSections
    && AllObjects(v.fields["sections"].items)
    && Substantial(ContentOf(v.fields["sections"].items[0].fields))
  }

  /** The gate of one attempt, step by step as the source evaluates it:
      `result.get('sections', [])`, `len`, `sections[0].get('content', '')`,
      the marker test, the length test, and finally the logging loop that
      calls `get` on every section. */
  function Check(result: Json): Verdict {
    match Get(result, "sections", JArr([]))
    case Err(e) => Crash(e)
    case Ok(sections) =>
      match Len(sections)
      case Err(e) => Crash(e)
      case Ok(n) =>
        if n < MinSections then TooFewSections
        else
          match First(sections)
          case Err(e) => Crash(e)
          case Ok(first) =>
            match Get(first, "content", JStr(""))
            case Err(e) => Crash(e)
            case Ok(content) =>
              match In(GenericMarker, content)
              case Err(e) => Crash(e)
              case Ok(generic) =>
                if generic then LooksGeneric
                else
                  match Len(content)
                  case Err(e) => Crash(e)
                  case Ok(m) =>
                    if m < MinFirstContent then LooksGeneric
                    else
                      match EachObject(sections)
                      case Err(e) => Crash(e)
                      case Ok(_) => Accept
  }

  /** The gate accepts exactly the acceptable values. */
  lemma CheckAcceptsExactly(v: Json)
    ensures Check(v) == Accept <==> Acceptable(v)
  {
    if v.JObj? && "sections" in v.fields && v.fields["sections"].JArr? {
      var items := v.fields["sections"].items;
      if |items| >= MinSections && items[0].JObj? {
        var c := ContentOf(items[0].fields);
        assert Get(items[0], "content", JStr("")) == Ok(c);
      }
    }
  }

  /** Only the first section is inspected: any later section may be
      replaced by any other dict without changing the verdict. */
  lemma LaterSectionsNotInspected(v: Json, k: nat, other: map<string, Json>)
    requires v.JObj? && "sections" in v.fields && v.fields["sections"].JArr?
    requires 1 <= k < |v.fields["sections"].items|
    requires v.fields["sections"].items[k].JObj?
    ensures var items := v.fields["sections"].items;
      Check(JObj(v.fields["sections" := JArr(items[k := JObj(other)])])) == Check(v)
  {
    var items := v.fields["sections"].items;
    var items' := items[k := JObj(other)];
    var v' := JObj(v.fields["sections" := JArr(items')]);
    assert Get(v', "sections", JArr([])) == Ok(JArr(items'));
    assert Get(v, "sections", JArr([])) == Ok(JArr(items));
    SameShapeSameFirstNonObject(items, items');
    assert EachObject(JArr(items')).Ok? <==> EachObject(JArr(items)).Ok?;
    if EachObject(JArr(items)).Err? {
      assert EachObject(JArr(items')) == EachObject(JArr(items));
    }
    if |items| > 0 {
      assert items'[0] == items[0];
    }
  }

  /** Lists whose items are dicts at the same positions have their first
      non-dict at the same index. */
  lemma SameShapeSameFirstNonObject(a: seq<Json>, b: seq<Json>)
    requires |a| == |b|
    requires forall i :: 0 <= i < |a| ==> (a[i].JObj? <==> b[i].JObj?)
    ensures FirstNonObject(a) == FirstNonObject(b)
  {
  }

  /** One parsed reply is accepted. */
  predicate Accepted(reply: Reply) {
    reply.Parsed? && Check(reply.value) == Accept
  }

  /** The attempt loop from attempt `attempt` on. */
  function AnalyzeFrom(topic: string, corpus: string, llm: nat -> Reply, attempt: nat): (a: Analysis)
    requires attempt <= Attempts
    ensures |a.requests| == Attempts - attempt || (0 < |a.requests| < Attempts - attempt)
    decreases Attempts - attempt
  {
    if attempt == Attempts then Analysis(Err(ExhaustedFailure(topic)), [])
    else
      var q := Prompt(topic, corpus);
      var final := attempt + 1 == Attempts;
      match llm(attempt)
      case Malformed =>
        if !final then Issued(q, AnalyzeFrom(topic, corpus, llm, attempt + 1))
        else Analysis(Err(ParseFailure(topic)), [q])
      case Failed(cause) =>
        if !final then Issued(q, AnalyzeFrom(topic, corpus, llm, attempt + 1))
        else Analysis(Err(GenerationFailure(topic, cause)), [q])
      case Parsed(v) =>
        match Check(v)
        case Accept => Analysis(Ok(v), [q])
        case Crash(cause) =>
          if !final then Issued(q, AnalyzeFrom(topic, corpus, llm, attempt + 1))
          else Analysis(Err(GenerationFailure(topic, cause)), [q])
        case _ => Issued(q, AnalyzeFrom(topic, corpus, llm, attempt + 1))
  }

  /** Records one more issued request in front of the rest of the run. */
  function Issued(q: Request, rest: Analysis): Analysis {
    Analysis(rest.result, [q] + rest.requests)
  }

  /** `analyze_and_structure(topic, raw_data)`. */
  function Analyze(topic: string, corpus: string, llm: nat -> Reply): (a: Analysis)
    ensures 1 <= |a.requests| <= Attempts
    ensures forall i :: 0 <= i < |a.requests| ==> a.requests[i] == Prompt(topic, corpus)
    ensures |a.requests| == 1 <==> Accepted(llm(0))
    ensures a.result.Ok? <==> Accepted(llm(|a.requests| - 1))
    ensures a.result.Ok? ==> llm(|a.requests| - 1) == Parsed(a.result.value)
    ensures a.result.Ok? ==> Acceptable(a.result.value)
    ensures a.result == Err(ParseFailure(topic)) <==> |a.requests| == 2 && llm(1) == Malformed
    ensures a.result == Err(ExhaustedFailure(topic)) <==>
      |a.requests| == 2 && llm(1).Parsed? && Check(llm(1).value) in {TooFewSections, LooksGeneric}
    ensures (exists cause :: a.result == Err(GenerationFailure(topic, cause))) <==>
      |a.requests| == 2 && (llm(1).Failed? || (llm(1).Parsed? && Check(llm(1).value).Crash?))
  {
    var a := AnalyzeFrom(topic, corpus, llm, 0);
    AnalysisRequests(topic, corpus, llm);
    AnalysisAccepts(topic, corpus, llm);
    AnalysisFailures(topic, corpus, llm);
    a
  }

  /** The first attempt either is accepted or hands over to the second. */
  lemma FirstAttempt(topic: string, corpus: string, llm: nat -> Reply)
    ensures var a := AnalyzeFrom(topic, corpus, llm, 0);
      && (Accepted(llm(0)) ==> a == Analysis(Ok(llm(0).value), [Prompt(topic, corpus)]))
      && (!Accepted(llm(0)) ==> a == Issued(Prompt(topic, corpus), AnalyzeFrom(topic, corpus, llm, 1)))
  {
  }

  /** The second attempt is the last: whatever its reply, it decides. */
  lemma SecondAttempt(topic: string, corpus: string, llm: nat -> Reply)
    ensures var a := AnalyzeFrom(topic, corpus, llm, 1);
      && a.requests == [Prompt(topic, corpus)]
      && (llm(1) == Malformed ==> a.result == Err(ParseFailure(topic)))
      && (llm(1).Failed? ==> a.result == Err(GenerationFailure(topic, llm(1).cause)))
      && (Accepted(llm(1)) ==> a.result == Ok(llm(1).value))
      && (llm(1).Parsed? && Check(llm(1).value).Crash? ==>
            a.result == Err(GenerationFailure(topic, Check(llm(1).value).cause)))
      && (llm(1).Parsed? && Check(llm(1).value) in {TooFewSections, LooksGeneric} ==>
            a.result == Err(ExhaustedFailure(topic)))
  {
    assert AnalyzeFrom(topic, corpus, llm, 2) == Analysis(Err(ExhaustedFailure(topic)), []);
  }

  /** Every request is the same prompt; one suffices exactly when the first
      reply is accepted. */
  lemma AnalysisRequests(topic: string, corpus: string, llm: nat -> Reply)
    ensures var a := AnalyzeFrom(topic, corpus, llm, 0);
      && (forall i :: 0 <= i < |a.requests| ==> a.requests[i] == Prompt(topic, corpus))
      && (|a.requests| == 1 <==> Accepted(llm(0)))
  {
    FirstAttempt(topic, corpus, llm);
    SecondAttempt(topic, corpus, llm);
  }

  /** The run succeeds exactly when its last reply is accepted, with that
      reply's value, which is then acceptable. */
  lemma AnalysisAccepts(topic: string, corpus: string, llm: nat -> Reply)
    ensures var a := AnalyzeFrom(topic, corpus, llm, 0);
      && (a.result.Ok? <==> Accepted(llm(|a.requests| - 1)))
      && (a.result.Ok? ==> llm(|a.requests| - 1) == Parsed(a.result.value))
      && (a.result.Ok? ==> Acceptable(a.result.value))
  {
    FirstAttempt(topic, corpus, llm);
    SecondAttempt(topic, corpus, llm);
    var a := AnalyzeFrom(topic, corpus, llm, 0);
    if a.result.Ok? {
      CheckAcceptsExactly(a.result.value);
    }
  }

  /** Each failure message names the way the second attempt failed. */
  lemma AnalysisFailures(topic: string, corpus: string, llm: nat -> Reply)
    ensures var a := AnalyzeFrom(topic, corpus, llm, 0);
      && (a.result == Err(ParseFailure(topic)) <==> |a.requests| == 2 && llm(1) == Malformed)
      && (a.result == Err(ExhaustedFailure(topic)) <==>
           |a.requests| == 2 && llm(1).Parsed? && Check(llm(1).value) in {TooFewSections, LooksGeneric})
      && ((exists cause :: a.result == Err(GenerationFailure(topic, cause))) <==>
           |a.requests| == 2 && (llm(1).Failed? || (llm(1).Parsed? && Check(llm(1).value).Crash?)))
  {
    FirstAttempt(topic, corpus, llm);
    SecondAttempt(topic, corpus, llm);
    MessagesDistinct(topic);
    var a := AnalyzeFrom(topic, corpus, llm, 0);
    if |a.requests| == 2 && llm(1).Failed? {
      assert a.result == Err(GenerationFailure(topic, llm(1).cause));
    }
    if |a.requests| == 2 && llm(1).Parsed? && Check(llm(1).value).Crash? {
      assert a.result == Err(GenerationFailure(topic, Check(llm(1).value).cause));
    }
  }

  /** The three failure messages cannot be confused with one another. */
  lemma MessagesDistinct(topic: string)
    ensures forall cause :: ParseFailure(topic) != GenerationFailure(topic, cause)
    ensures forall cause :: ExhaustedFailure(topic) != GenerationFailure(topic, cause)
    ensures ParseFailure(topic) != ExhaustedFailure(topic)
  {
    var n := |"Failed to generate content for '"| + |topic|;
    forall cause ensures ExhaustedFailure(topic) != GenerationFailure(topic, cause) {
      assert ExhaustedFailure(topic)[n + 1] == ' ';
      assert GenerationFailure(topic, cause)[n + 1] == ':';
    }
    forall cause ensures ParseFailure(topic) != GenerationFailure(topic, cause) {
      assert ParseFailure(topic)[10] == 'p';
      assert GenerationFailure(topic, cause)[10] == 'g';
    }
    assert ParseFailure(topic)[10] != ExhaustedFailure(topic)[10];
  }
}
