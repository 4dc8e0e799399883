# BOOK-AI ebook pipeline, modelled in Dafny

A model of the ebook generator's backend: the research step
(`SearchAgent`), the content structurer (`AnalystAgent`), the image
synthesiser (`ImageAgent`), the HTML assembler (`FormatterAgent`), the
exporter (`PDFAgent`), the artifact check (`VerifierAgent`), the
orchestrator with its three outer attempts (`EbookWorkflow`), and the two
HTTP routes of `main.py` that carry logic (`/api/generate` and
`/api/logs`).

Every external collaborator is an input, never called:

- The search engine, the page fetcher, the language model (together with
  `json.loads`), the SVG generator, the PDF renderer and `uuid4` are
  oracles: functions from a call number to a reply. The renderer of an
  attempt is also handed the page it renders.
- The orchestrator continues each oracle's numbering from one attempt to
  the next.
- Python's `str.isalnum`, `str()` of a non-string value and
  `markdown.markdown` are parameters.
- The disk is a map from path to size.

One module per source file:

| module | file | what it holds |
|---|---|---|
| `Common` | | `Option`, `Result` |
| `Strings` | | Python `strip`, `find`, `in`, `replace`, slicing |
| `PyJson` | | parsed JSON values, plus `get`, `len`, `in`, `[0]` and iteration, each failing with Python's message |
| `Sections` | | what a section's `content` is |
| `Paths` | | `os.path.join` and `os.path.basename` |
| `Search` | `backend/agents/search_agent.py` | search retry, link collection, page excerpts, fallback text |
| `Analyst` | `backend/agents/analyst_agent.py` | the two-attempt loop and the validation gate |
| `Images` | `backend/agents/image_agent.py` | placeholder scanning, SVG cleaning, replacement, the section loop |
| `Formatter` | `backend/agents/formatter_agent.py` | defaults, chapter assembly, the `+=` loop |
| `PdfExport` | `backend/agents/pdf_agent.py` | topic sanitising, filename, path, render errors re-raised |
| `Verifier` | `backend/agents/verifier_agent.py` | existence and size check |
| `Retry` | `backend/agents/workflow.py` | the outer loop, for any attempt function |
| `Workflow` | `backend/agents/workflow.py` | one attempt, the success dict, the whole run |
| `Api` | `backend/main.py` | the key guard, error mapping, the log tail |

Behaviour of the code a reader may not expect:

- **Uncaught errors end the run.** An error from analysis, images or
  formatting is not caught inside the attempt loop of `workflow.py`. It ends
  the whole run. Only a PDF error or a file that fails verification uses up
  an attempt and moves on to the next one.
- **Placeholders can survive the image pass.** Dropping one placeholder can
  put together a new one from the text around it. For example, in
  `[IMA[IMAGE: z]GE: w]` the inner placeholder is removed, which leaves
  `[IMAGE: w]` (`Images.DroppingCanFormPlaceholder`).
- **The image pass adds a `content` key.** A section without `content` gets
  `content: ""` written into it (`Images.RewrittenAddsContent`). So the book
  comes back unchanged only when every section already holds string content
  and no placeholder (`Images.GenerateImagesIdentity`).
- **The log tail has Python's `[-0:]` quirk.** With `lines=0`, the slice
  `all_lines[-0:]` is the whole list, so every line is returned. A negative
  `lines` drops that many lines from the front (`Api.RecentLines`).

## Model

| member | source | states |
|---|---|---|
| PyJson.Get | backend/agents/analyst_agent.py:92 | `get` succeeds exactly on dicts, returning the stored value or the default; on anything else it is the `AttributeError` message |
| PyJson.EachObject | backend/agents/analyst_agent.py:108-110 | calling `get` on every element of the iterated value succeeds exactly for a list of dicts, an empty string or an empty dict |
| Analyst.Prompt | backend/agents/analyst_agent.py:21-86 | the request carries the first 30000 characters of the research, exactly that many when the research is longer, and all of it when it is shorter |
| Analyst.CheckAcceptsExactly | backend/agents/analyst_agent.py:92-112 | the gate accepts a parsed value exactly when it is a dict whose `sections` is a list of at least four dicts, and the first section's content (a string, list or dict) has at least 150 characters or items and does not contain "This guide covers" |
| Analyst.LaterSectionsNotInspected | backend/agents/analyst_agent.py:100-104 | replacing any section after the first by another dict never changes the gate's verdict |
| Analyst.Analyze | backend/agents/analyst_agent.py:17-130 | one or two requests, all the same prompt; success exactly when the last reply is accepted, returning that reply; each failure message corresponds to the way the second attempt failed |
| Analyst.FirstAttempt | backend/agents/analyst_agent.py:17-112 | an accepted first reply ends the loop with its value; any other first reply hands over to the second attempt |
| Analyst.SecondAttempt | backend/agents/analyst_agent.py:114-130 | the second reply decides: malformed JSON gives the parse message, an exception the generation message with its cause, a rejected value the after-all-attempts message |
| Analyst.AnalysisRequests | backend/agents/analyst_agent.py:17-86 | every request is the same prompt, and one request suffices exactly when the first reply is accepted |
| Analyst.AnalysisAccepts | backend/agents/analyst_agent.py:89-112 | the result is a value exactly when the last reply was accepted; that value is the reply's and passes the gate |
| Analyst.AnalysisFailures | backend/agents/analyst_agent.py:114-130 | each of the three failure messages occurs exactly for its cause on the second attempt |
| Analyst.MessagesDistinct | backend/agents/analyst_agent.py:120-130 | the parse, generation and exhaustion messages for a topic never coincide |
| Search.HrefsFromEntries | backend/agents/search_agent.py:24-26 | every collected link is the `href` of some result entry; when all entries have one, the links are exactly those, in order |
| Search.HrefsAppend | backend/agents/search_agent.py:24-26 | the links of two runs of entries are the links of the first followed by those of the second |
| Search.HrefsInOrder | backend/agents/search_agent.py:24-26 | each entry adds one link when it has an `href` and none otherwise, and an entry's `href` sits in the result right after the links of the entries before it, so the links are every `href` in entry order, with entries lacking one skipped |
| Search.CollectUrls | backend/agents/search_agent.py:19-35 | the search is called between one and three times |
| Search.CollectFromFirstAnswer | backend/agents/search_agent.py:19-35 | the loop stops at the first non-empty result list and takes its links; if none comes, all three calls are spent and there are no links |
| Search.PageTextBlankIff | backend/agents/search_agent.py:66-71 | a page's text is blank exactly when every element's text is blank |
| Search.KeptEmptyIff | backend/agents/search_agent.py:67 | the comprehension keeps nothing exactly when every element's text is blank |
| Search.Excerpt | backend/agents/search_agent.py:74 | a page adds its source line naming the link, then a prefix of its text: the whole text when it has at most 3000 characters, otherwise exactly its first 3000 |
| Search.ContributionShape | backend/agents/search_agent.py:55-74 | a page adds nothing exactly when it failed, was not 200 or had no text; otherwise its block starts with two newlines |
| Search.ScrapeAll | backend/agents/search_agent.py:50-82 | the loop appends, in link order, the excerpt of every usable page and skips the rest |
| Search.FallbackMentionsTopic | backend/agents/search_agent.py:94-113 | the fallback text names the topic, is not blank, and cannot be mistaken for gathered excerpts |
| Search.GatheredFallsBackIff | backend/agents/search_agent.py:40-92 | the answer is the fallback exactly when no link was found or no page was usable, and it is never blank |
| Search.ResearchFallsBackIff | backend/agents/search_agent.py:14-92 | research is never blank, and it is the topic's fallback exactly when no link was found or no linked page yielded text |
| Search.SearchAndScrape | backend/agents/search_agent.py:14-92 | one to three search calls, the links of the first answered call, and the excerpts or the fallback as the text |
| Search.Researched | backend/agents/search_agent.py:14-92 | the research text is never empty, so the orchestrator's "Search failed" branch is unreachable |
| Images.CloseAtSpec | backend/agents/image_agent.py:18 | a group found ends at a `]` with capturable text before it; when none is found, no capturable stretch is followed by `]` |
| Images.CloseAtFindsFirst | backend/agents/image_agent.py:18 | a `]` preceded by capturable text from the start is the one the lazy group stops at |
| Images.PlaceholdersCapturable | backend/agents/image_agent.py:18 | every captured description holds no `]` and no newline, and each match consumes at least the marker and the bracket |
| Images.NoBracketNoPlaceholders | backend/agents/image_agent.py:18 | text without `[` yields no placeholder |
| Images.PlaceholdersAfterProse | backend/agents/image_agent.py:18 | a placeholder after bracket-free prose is captured, and scanning resumes right after it |
| Images.TrimToSvg | backend/agents/image_agent.py:53-55 | the cut runs from the first opening tag through the first closing tag, or is empty when the closing tag comes first |
| Images.WithNamespace | backend/agents/image_agent.py:58-59 | an SVG that already has `xmlns=` is untouched; a tag-shaped one stays tag-shaped and gains `xmlns=` |
| Images.NamespacedKeepsTags | backend/agents/image_agent.py:58-59 | inserting the namespace after the opening tag keeps the closing tag at the end |
| Images.CleanSvg | backend/agents/image_agent.py:45-59 | a reply is usable exactly when it did not fail and both tags remain after unfencing; a usable SVG is empty or runs tag to tag with a namespace |
| Images.Resolve | backend/agents/image_agent.py:43-77 | a placeholder is dropped exactly when its call failed or the reply lacks either tag |
| Images.ResolveEachCalls | backend/agents/image_agent.py:20-44 | the k-th placeholder of a section is decided by generator call `from + k` alone |
| Images.ResolveSection | backend/agents/image_agent.py:16-79 | one outcome per captured placeholder; content without placeholders is kept |
| Images.OnePlaceholderReplacedInPlace | backend/agents/image_agent.py:68-77 | a lone placeholder between bracket-free prose is replaced where it stands by its figure or by nothing, and the prose survives |
| Images.DroppingCanFormPlaceholder | backend/agents/image_agent.py:73-77 | dropping the inner placeholder of `[IMA[IMAGE: z]GE: w]` leaves the placeholder `[IMAGE: w]` |
| Images.ResolveItems | backend/agents/image_agent.py:15-79 | the loop gets through exactly when every section is a dict with string content; otherwise it raises the error of the first section it cannot handle |
| Images.ThreadAt | backend/agents/image_agent.py:15-79 | section i is processed after the generator calls of the sections before it |
| Images.CallsOfPlaceholders | backend/agents/image_agent.py:15-20 | the sections make one generator call per placeholder between them |
| Images.CallsInOrder | backend/agents/image_agent.py:15-44 | over the whole book, the k-th placeholder in document order is resolved by call `from + k` |
| Images.RewriteItemsAt | backend/agents/image_agent.py:15-79 | each section the loop can handle comes out with its content rewritten, using the calls after those of earlier sections |
| Images.RewrittenUnchanged | backend/agents/image_agent.py:16-79 | a section with stored content and no placeholder comes out as it went in |
| Images.RewrittenAddsContent | backend/agents/image_agent.py:16-79 | a section without a `content` key gets `content: ""` |
| Images.GenerateImages | backend/agents/image_agent.py:12-81 | the pass gets through exactly on a dict whose `sections` is a list of dicts with string content, or an empty string or dict; it keeps every other key and leaves a non-list `sections` alone |
| Images.GenerateImagesCalls | backend/agents/image_agent.py:12-81 | one call per placeholder of the book, in document order, the k-th decided by reply k; each section rewritten in place |
| Images.GenerateImagesIdentity | backend/agents/image_agent.py:12-81 | a book whose sections all hold string content and no placeholder comes back unchanged without any generator call |
| Formatter.Assemble | backend/agents/formatter_agent.py:11-143 | the head, then one `+=` per section, then the tail, is the declarative page, or the first unconvertible section's error |
| Formatter.FormatToHtml | backend/agents/formatter_agent.py:11-143 | the page built with this system's markup is the declarative page |
| Formatter.PageFrame | backend/agents/formatter_agent.py:14-143 | the page opens with the title page and closes with the tail; a missing title or author gives "Untitled Book" or "AI Author" |
| Formatter.PageSucceedsIff | backend/agents/formatter_agent.py:14-126 | the page can be built exactly when the book is a dict and every section is a dict with string content, or `sections` is an empty string or dict |
| Formatter.ChapterInPlace | backend/agents/formatter_agent.py:117-135 | section k's block appears right after the head and the blocks of sections 0 to k-1 |
| PdfExport.FilterKeepsKept | backend/agents/pdf_agent.py:17 | the character filter leaves a string of kept characters unchanged |
| PdfExport.FilterDropsOnlyUnkept | backend/agents/pdf_agent.py:17 | a filter that removes nothing was given only kept characters |
| PdfExport.SanitizeIsSafe | backend/agents/pdf_agent.py:17 | the safe topic is alphanumerics, `-` and `_` only; it has no `/` and no whitespace and is never longer than the topic |
| PdfExport.SanitizeShape | backend/agents/pdf_agent.py:17 | the safe topic is the filtered topic between its first and last non-space character, each space turned into `_` |
| PdfExport.SanitizeIdempotent | backend/agents/pdf_agent.py:17 | sanitising a safe topic again changes nothing |
| PdfExport.FilenameShape | backend/agents/pdf_agent.py:18 | the filename is the safe topic, `_`, eight hex digits and `.pdf`, with no `/` |
| PdfExport.FilenameDeterminedBySuffix | backend/agents/pdf_agent.py:18 | two filenames for one topic differ exactly when their uuids' first eight digits differ |
| PdfExport.JoinFilename | backend/agents/pdf_agent.py:19 | joining the output directory with the filename inserts exactly one `/` |
| PdfExport.CreatePdf | backend/agents/pdf_agent.py:13-27 | the page handed in is what is rendered; a render error is re-raised with its own message, leaving the disk as it was or a partial file at the path; otherwise the file `backend/static/<filename>` is written with the rendered size and its path is returned |
| PdfExport.ExportedFileVerifies | backend/agents/pdf_agent.py:19-24 | the returned path's basename is the filename, and the written file passes verification exactly when the renderer wrote something |
| Paths.BasenameOfJoin | backend/agents/workflow.py:57 | the basename of a directory joined with a name without `/` is that name |
| Verifier.VerifyPdf | backend/agents/verifier_agent.py:10-23 | a missing file fails, an empty file fails, any other file passes |
| Verifier.VerdictDependsOnlyOnEntry | backend/agents/verifier_agent.py:10-23 | two disks that agree on the file's existence and size get the same verdict |
| Retry.Loop | backend/agents/workflow.py:29-62 | there are at most three attempts, and at least one |
| Retry.LoopFacts | backend/agents/workflow.py:29-62 | the first attempt starts from the initial cursor and only the last can be final; the loop returns a path exactly when the last attempt verified, propagates an aborting error, and otherwise gives up after every attempt |
| Retry.LoopLeads | backend/agents/workflow.py:30-47 | no attempt before the last verified or aborted |
| Retry.LoopEndsByLast | backend/agents/workflow.py:30-62 | the last attempt decides the outcome; a consumed last attempt means the budget is spent |
| Retry.LoopTrailAt | backend/agents/workflow.py:30-47 | attempt k is run from the cursor the attempts before it handed over |
| Retry.LoopDisk | backend/agents/workflow.py:30-47 | the final disk is the one the last attempt left |
| Retry.LoopKeepsFiles | backend/agents/workflow.py:30-62 | if no attempt removes a file, the loop removes none |
| Retry.SucceededLast | backend/agents/workflow.py:50-58 | a success returns the path of the last step, which verified, on the disk that step left |
| Retry.LoopWritesLast | backend/agents/workflow.py:50-58 | when verified attempts write their files, a success names the last attempt's file, present and non-empty |
| Workflow.BookAgentsConform | backend/agents/workflow.py:11-18 | the system's exporter and verifier keep the promises the run relies on |
| Workflow.AttemptFacts | backend/agents/workflow.py:34-60 | an attempt that reaches the export writes the file named for the topic and that attempt's uuid; it verifies exactly when the file is not empty; a run that ends before the export leaves the disk alone, and an attempt changes at most its own file |
| Workflow.Generate | backend/agents/workflow.py:24-30 | an empty research text raises "Search failed to gather data." before any attempt; otherwise there are one to three attempts |
| Workflow.PublishExported | backend/agents/workflow.py:53-58 | the success dict for `backend/static/<name>` has path `static/<name>` and filename `<name>` |
| Workflow.ConcludeKeeps | backend/agents/workflow.py:50-62 | the run returns the success dict exactly when the loop succeeded; it propagates a raised error and otherwise raises the three-attempts message |
| Workflow.RunOutcome | backend/agents/workflow.py:29-62 | a run succeeds exactly when its last attempt verified; an aborting error is the run's error; a run whose last attempt was consumed had three and fails with the exhaustion message |
| Workflow.RunAttempts | backend/agents/workflow.py:29-62 | one to three attempts, every one but the last a PDF error or an unverified file |
| Workflow.RunPublishes | backend/agents/workflow.py:43-58 | a successful run names the file of its last attempt under `static/`; that file is on disk and not empty |
| Workflow.RunKeepsFiles | backend/agents/workflow.py:29-62 | no file that existed before the run is gone after it |
| Workflow.AttemptRendersPage | backend/agents/workflow.py:34-58 | an attempt aborts exactly when analysis, images or formatting raised, with that error; otherwise the renderer is handed the page the formatter built: a render error is the attempt's PDF error, and a rendered page is written at its path and verifies exactly when it is not empty |
| Workflow.RunWorkflow | backend/agents/workflow.py:20-62 | the research step always yields text, so "Search failed to gather data." is never raised and a run makes one to three attempts |
| Workflow.RunWorkflowReports | backend/agents/workflow.py:20-62 | with conforming agents, a whole run reports its last attempt's end, publishes only a non-empty file it left on the disk, and removes no file |
| Workflow.ThirdAttemptNamesItsFile | backend/agents/workflow.py:29-58 | two PDF errors and then a verified third attempt publish the third attempt's file |
| Api.GenerateEbook | backend/main.py:40-56 | a missing or empty key gives a 500 "API Key not configured on server." without running anything; a run's error gives a 500 with its message; a success is returned as it is |
| Api.ServedBookIsOnDisk | backend/main.py:49-53 | a served book is the last attempt's file under `static/`, present on disk and not empty |
| Api.FailuresAreExplained | backend/main.py:50-56 | with a key, every 500 carries an aborting attempt's error or the exhaustion message after three consumed attempts |
| Api.ReadLinesJoin | backend/main.py:68 | the lines `readlines` returns, joined, are the file's text |
| Api.ReadLinesAreLines | backend/main.py:68 | each line is non-empty and has a newline only at its end; only the last may lack one |
| Api.OneLineLog | backend/main.py:68 | a text without a newline is a single line |
| Api.SliceFrom | backend/main.py:69 | Python's `s[start:]`: a suffix of `s`; a negative start counts from the end; both ends are clamped |
| Api.RecentLines | backend/main.py:69 | with 0 < lines < total, the last `lines` lines; with lines ≥ total, or lines = 0 (the `[-0:]` quirk), all of them; with negative lines, all but the first `-lines` |
| Api.GetLogs | backend/main.py:58-76 | a missing file gives empty logs and the "No logs available yet" message; a read error gives a 500 "Failed to read logs: …"; otherwise the stripped last lines, the total and the count shown |
| Api.LogsShowing | backend/main.py:69-74 | the number of lines shown for a request, counted case by case |
| Api.LogsWhole | backend/main.py:69-74 | asking for no lines, or for at least as many as there are, returns the whole stripped log |

## Left out

- Network, sleeping between retries, logging, `async`, and FastAPI routing
  and CORS set-up: they have no effect on the values the functions return.
- The text of the language-model and SVG prompts beyond the parts that vary:
  it is sent to a service that is an oracle here.
- Analyst.Prompt: records the model name, the MIME type, the temperature
  (`0.6`) and the token cap (`6144`) as data. Sampling is not modelled.
- JSON parsing, HTML parsing (BeautifulSoup), the `markdown` library,
  WeasyPrint and `uuid4`: each is an oracle or a parameter.
- Search: the fetcher's reply carries the text of the elements the parser
  would keep. Which tags are removed is not modelled.
- `str.isalnum` and Python's `str()` of non-string JSON values are
  parameters. Unicode classification is assumed only to the extent that no
  alphanumeric character is whitespace or `/`.
- WeasyPrint's `write_pdf` is a renderer oracle from the page to either
  the size written or an error message. On an error, the oracle also says
  whether a partial file of some size was left at the path.
- `str.isspace`: the model lists the Unicode whitespace characters
  explicitly.
- Api.ReadLinesJoin: the model takes the log text after Python's
  universal-newline translation, so `\r\n` and `\r` are not modelled.
- The `successful_scrapes` counter is only logged, so it is not modelled.
- Floating-point values inside parsed JSON are kept as reals, since only
  their presence matters.
- The success path of `generate_ebook` logs `result.get('filename')`, which
  has no effect on the reply.
- Api.GenerateEbook: takes the agents and the research text as inputs.
  - The system's agents are `Workflow.BookAgents`, shown to conform by
    `Workflow.BookAgentsConform`.
  - The research text is `Search.Researched`, which is never empty.
  - This keeps the literal-heavy fallback text out of its proofs.
- The `/` route returns a constant message and is not modelled.
- Sections the image pass rewrote before another section raised are
  mutated in place in Python. The model does not keep those partial
  updates, because the exception ends the workflow run.
