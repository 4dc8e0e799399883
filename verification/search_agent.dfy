/** The research step (backend/agents/search_agent.py): up to three search
    attempts for result links, one page fetch per link, one capped excerpt
    per page that yields text, and a fixed fallback text when nothing was
    gathered. The search engine and the page fetcher are oracles indexed by
    call number; HTML parsing is folded into the fetcher's reply, which
    carries the text of every element the parser would return. */
module Search {
  import opened Strings

  /** Search attempts before giving up. */
  const Attempts: nat := 3

  /** Characters kept from each page. */
  const ExcerptLimit: nat := 3000

  /** One search call: the result entries (possibly none), or an exception. */
  datatype SearchReply = Hits(entries: seq<map<string, string>>) | SearchError

  /** One page fetch: the HTTP status and the text of each paragraph,
      heading and list item left after scripts, styles and page chrome are
      removed; or an exception. */
  datatype FetchReply = Response(status: int, elements: seq<string>) | FetchError

  /** A reply that ends the retry loop: a non-empty result list. */
  predicate Answered(reply: SearchReply) {
    reply.Hits? && reply.entries != []
  }

  /** The `href` of every entry that has one, in result order. */
  function Hrefs(entries: seq<map<string, string>>): (urls: seq<string>)
    ensures |urls| <= |entries|
  {
    if entries == [] then []
    else (if "href" in entries[0] then [entries[0]["href"]] else []) + Hrefs(entries[1..])
  }

  /** Every link comes from an entry that has an `href`; when every entry
      has one, the links are exactly those, one per entry. */
  lemma {:induction false} HrefsFromEntries(entries: seq<map<string, string>>)
    ensures forall u :: u in Hrefs(entries) ==>
      exists i :: 0 <= i < |entries| && "href" in entries[i] && entries[i]["href"] == u
    ensures (forall i :: 0 <= i < |entries| ==> "href" in entries[i]) ==>
      && |Hrefs(entries)| == |entries|
      && forall i :: 0 <= i < |entries| ==> Hrefs(entries)[i] == entries[i]["href"]
  {
    if entries != [] {
      HrefsFromEntries(entries[1..]);
      forall u | u in Hrefs(entries)
        ensures exists i :: 0 <= i < |entries| && "href" in entries[i] && entries[i]["href"] == u
      {
        if u !in Hrefs(entries[1..]) {
          assert "href" in entries[0] && entries[0]["href"] == u;
        } else {
          var j :| 0 <= j < |entries[1..]| && "href" in entries[1..][j] && entries[1..][j]["href"] == u;
          assert entries[j + 1] == entries[1..][j];
        }
      }
    }
  }

  /** The links of two runs of entries, one after the other. */
  lemma {:induction false} HrefsAppend(a: seq<map<string, string>>, b: seq<map<string, string>>)
    ensures Hrefs(a + b) == Hrefs(a) + Hrefs(b)
    decreases |a|
  {
    if a != [] {
      assert (a + b)[0] == a[0];
      assert (a + b)[1..] == a[1..] + b;
      HrefsAppend(a[1..], b);
    } else {
      assert a + b == b;
    }
  }

  /** The links are the `href`s of the entries that have one, in result
      order: entry `i` adds one link exactly when it has an `href`, and that
      link comes right after the links of the entries before it. */
  lemma HrefsInOrder(entries: seq<map<string, string>>)
    ensures forall i :: 0 <= i < |entries| ==>
      |Hrefs(entries[..i + 1])| == |Hrefs(entries[..i])| + (if "href" in entries[i] then 1 else 0)
    ensures forall i :: 0 <= i < |entries| && "href" in entries[i] ==>
      |Hrefs(entries[..i])| < |Hrefs(entries)| && Hrefs(entries)[|Hrefs(entries[..i])|] == entries[i]["href"]
  {
    forall i | 0 <= i < |entries|
      ensures |Hrefs(entries[..i + 1])| == |Hrefs(entries[..i])| + (if "href" in entries[i] then 1 else 0)
      ensures "href" in entries[i] ==>
        |Hrefs(entries[..i])| < |Hrefs(entries)| && Hrefs(entries)[|Hrefs(entries[..i])|] == entries[i]["href"]
    {
      HrefsAt(entries, i);
    }
  }

  /** Entry `i`'s contribution to the links, between those of the entries
      before it and after it. */
  lemma HrefsAt(entries: seq<map<string, string>>, i: nat)
    requires i < |entries|
    ensures Hrefs(entries[..i + 1]) == Hrefs(entries[..i]) + Hrefs([entries[i]])
    ensures Hrefs(entries) == Hrefs(entries[..i + 1]) + Hrefs(entries[i + 1..])
    ensures Hrefs([entries[i]]) == if "href" in entries[i] then [entries[i]["href"]] else []
  {
    var pre, one, post := entries[..i], [entries[i]], entries[i + 1..];
    assert one[1..] == [];
    assert entries[..i + 1] == pre + one;
    HrefsAppend(pre, one);
    assert entries == entries[..i + 1] + post;
    HrefsAppend(entries[..i + 1], post);
  }

  /** How many search calls were made and which links were collected. */
  datatype Found = Found(calls: nat, urls: seq<string>)

  /** The retry loop from attempt `attempt` on: an empty list or an
      exception moves to the next attempt; the first non-empty list ends the
      loop, even when none of its entries has a link. */
  function CollectFrom(search: nat -> SearchReply, attempt: nat): (f: Found)
    requires attempt <= Attempts
    ensures attempt <= f.calls <= Attempts
    ensures attempt < Attempts ==> attempt < f.calls
    decreases Attempts - attempt
  {
    if attempt == Attempts then Found(Attempts, [])
    else if Answered(search(attempt)) then Found(attempt + 1, Hrefs(search(attempt).entries))
    else CollectFrom(search, attempt + 1)
  }

  /** The whole retry loop. */
  function CollectUrls(search: nat -> SearchReply): (f: Found)
    ensures 1 <= f.calls <= Attempts
  {
    CollectFrom(search, 0)
  }

  /** The loop stops at the first answered call and takes its links; if no
      call within the budget is answered, all three are spent and there are
      no links. */
  lemma {:induction false} CollectFromFirstAnswer(search: nat -> SearchReply, attempt: nat)
    requires attempt <= Attempts
    ensures var f := CollectFrom(search, attempt);
      && (forall k :: attempt <= k < f.calls - 1 ==> !Answered(search(k)))
      && (f.calls > attempt && Answered(search(f.calls - 1)) ==> f.urls == Hrefs(search(f.calls - 1).entries))
      && (f.calls == attempt || !Answered(search(f.calls - 1)) ==> f.calls == Attempts && f.urls == [])
    decreases Attempts - attempt
  {
    var f := CollectFrom(search, attempt);
    if attempt == Attempts {
      assert f == Found(Attempts, []);
    } else if Answered(search(attempt)) {
      assert f == Found(attempt + 1, Hrefs(search(attempt).entries));
    } else {
      CollectFromFirstAnswer(search, attempt + 1);
      assert f == CollectFrom(search, attempt + 1);
    }
  }

  /** The texts the extraction keeps: each element's text stripped, and
      only those that are not empty after stripping. */
  function Kept(elements: seq<string>): (kept: seq<string>)
    ensures |kept| <= |elements|
    ensures forall i :: 0 <= i < |kept| ==> kept[i] != [] && !IsSpace(kept[i][0])
  {
    if elements == [] then []
    else
      var t := Strip(elements[0]);
      StripIsTrimmedSlice(elements[0]);
      (if t != [] then [t] else []) + Kept(elements[1..])
  }

  /** The page text: the kept texts joined by newlines. */
  function PageText(elements: seq<string>): string {
    JoinLines(Kept(elements))
  }

  /** A page has text exactly when some element has non-blank text. */
  lemma PageTextBlankIff(elements: seq<string>)
    ensures IsBlank(PageText(elements)) <==> Kept(elements) == []
    ensures IsBlank(PageText(elements)) <==> forall i :: 0 <= i < |elements| ==> IsBlank(elements[i])
  {
    PageTextBlankKept(elements);
    KeptEmptyIff(elements);
  }

  /** The joined text is blank exactly when nothing was kept, because every
      kept text starts with a non-space character. */
  lemma PageTextBlankKept(elements: seq<string>)
    ensures IsBlank(PageText(elements)) <==> Kept(elements) == []
  {
    var kept := Kept(elements);
    if kept != [] {
      assert kept[0] != [] && !IsSpace(kept[0][0]);
      assert PageText(elements)[0] == kept[0][0];
    }
  }

  /** Nothing is kept exactly when every element's text is blank. */
  lemma {:induction false} KeptEmptyIff(elements: seq<string>)
    ensures Kept(elements) == [] <==> forall i :: 0 <= i < |elements| ==> IsBlank(elements[i])
    decreases |elements|
  {
    if elements != [] {
      var e, rest := elements[0], elements[1..];
      StripEmptyIffBlank(e);
      KeptEmptyIff(rest);
      AllBlankSplit(elements);
      assert Kept(elements) == (if Strip(e) != [] then [Strip(e)] else []) + Kept(rest);
    }
  }

  /** Every element is blank exactly when the first one and all the rest are. */
  lemma AllBlankSplit(elements: seq<string>)
    requires elements != []
    ensures (forall i :: 0 <= i < |elements| ==> IsBlank(elements[i]))
      <==> IsBlank(elements[0]) && forall i :: 0 <= i < |elements[1..]| ==> IsBlank(elements[1..][i])
  {
    assert forall i :: 0 <= i < |elements[1..]| ==> elements[1..][i] == elements[i + 1];
  }

  /** A fetch that contributes: status 200 and some text. */
  predicate Usable(reply: FetchReply) {
    reply.Response? && reply.status == 200 && !IsBlank(PageText(reply.elements))
  }

  const SourceOpen: string := "\n\n--- Source: "
  const SourceClose: string := " ---\n"

  /** The block one page contributes: a source line naming the link, then
      the first `ExcerptLimit` characters of its text, or all of it when it
      is shorter. */
  function Excerpt(url: string, text: string): (block: string)
    ensures var header := SourceOpen + url + SourceClose;
      && |block| <= |header| + ExcerptLimit
      && |header| <= |block| <= |header| + |text| && block[..|header|] == header
      && block[|header|..] == text[..|block| - |header|]
      && (|text| <= ExcerptLimit ==> block[|header|..] == text)
      && (|text| > ExcerptLimit ==> |block| == |header| + ExcerptLimit)
  {
    SourceOpen + (url + (SourceClose + Take(text, ExcerptLimit)))
  }

  /** What the `i`th link adds to the research text: its excerpt when the
      fetch is usable, nothing otherwise. */
  function Contribution(url: string, reply: FetchReply): string {
    if Usable(reply) then Excerpt(url, PageText(reply.elements)) else ""
  }

  /** The contributions of every link, the `i`th fetched by call `i`. */
  function Contributions(urls: seq<string>, fetch: nat -> FetchReply): (parts: seq<string>)
    ensures |parts| == |urls|
    ensures forall i :: 0 <= i < |urls| ==> parts[i] == Contribution(urls[i], fetch(i))
  {
    seq(|urls|, i requires 0 <= i < |urls| => Contribution(urls[i], fetch(i)))
  }

  /** The scraping loop as written: every link is fetched, in order; a
      failed, non-200 or textless page is skipped without stopping the
      others, and each usable page appends its excerpt. */
  method ScrapeAll(urls: seq<string>, fetch: nat -> FetchReply) returns (combined: string)
    ensures combined == Concat(Contributions(urls, fetch))
  {
    combined := "";
    var i := 0;
    while i < |urls|
      invariant i <= |urls|
      invariant combined == Concat(Contributions(urls[..i], fetch))
    {
      var reply := fetch(i);
      assert Contributions(urls[..i + 1], fetch) == Contributions(urls[..i], fetch) + [Contribution(urls[i], reply)];
      if reply.FetchError? || reply.status != 200 {
        i := i + 1;
        continue;
      }
      var text := PageText(reply.elements);
      if IsBlank(text) {
        i := i + 1;
        continue;
      }
      combined := combined + Excerpt(urls[i], text);
      i := i + 1;
    }
    assert urls[..i] == urls;
  }

  /** The text used when nothing could be gathered, with the topic at
      three places. */
  const FallbackIntro: string := "\n        Topic: "
  const FallbackNote: string := "\n        \n        Note: Web search was unable to gather external data. The AI will generate comprehensive content \n        based on its training data and knowledge about "
  const FallbackPlan: string := ".\n        \n        This ebook will cover:\n        - Introduction to "
  const FallbackOutro: string := "\n        - Fundamental concepts and principles\n        - Key components and features\n        - Practical applications and examples\n        - Best practices and recommendations\n        - Advanced topics and techniques\n        - Common challenges and solutions\n        - Resources for further learning\n        \n        The content will be generated using AI knowledge to provide a comprehensive learning resource.\n        "

  function Fallback(topic: string): string {
    FallbackIntro + (topic + (FallbackNote + (topic + (FallbackPlan + (topic + FallbackOutro)))))
  }

  /** The characters of the fallback's opening the proofs below look at. */
  lemma FallbackIntroChars()
    ensures |FallbackIntro| > 9 && FallbackIntro[1] == ' ' && FallbackIntro[9] == 'T'
  {
  }

  /** A text the research result can never coincide with unless nothing
      was gathered: not blank, and its second character is not a newline
      (every excerpt starts with two). */
  predicate Distinct(fallback: string) {
    !IsBlank(fallback) && |fallback| > 1 && fallback[1] != '\n'
  }

  /** The fallback names the topic, and it is distinct from any gathered
      research. */
  lemma FallbackMentionsTopic(topic: string)
    ensures OccursAt(Fallback(topic), topic, |FallbackIntro|)
    ensures Contains(Fallback(topic), topic)
    ensures Distinct(Fallback(topic))
  {
    var rest := FallbackNote + (topic + (FallbackPlan + (topic + FallbackOutro)));
    OccursBetween(FallbackIntro, topic, rest);
    FallbackIntroChars();
    BlankAppend(FallbackIntro, topic + rest);
  }

  /** What research yields, stated declaratively: the fallback text when
      there are no links or no page contributed, the contributions
      otherwise. */
  function Gathered(fallback: string, urls: seq<string>, fetch: nat -> FetchReply): string {
    var combined := Concat(Contributions(urls, fetch));
    if urls == [] || IsBlank(combined) then fallback else combined
  }

  /** The outcome of a research run. */
  datatype Research = Research(searchCalls: nat, urls: seq<string>, text: string)

  /** `search_and_scrape` as written. */
  method SearchAndScrape(topic: string, search: nat -> SearchReply, fetch: nat -> FetchReply)
    returns (r: Research)
    ensures 1 <= r.searchCalls <= Attempts
    ensures Found(r.searchCalls, r.urls) == CollectUrls(search)
    ensures r.text == Gathered(Fallback(topic), r.urls, fetch)
  {
    var found := CollectUrls(search);
    if found.urls == [] {
      return Research(found.calls, [], Fallback(topic));
    }
    var combined := ScrapeAll(found.urls, fetch);
    if !IsBlank(combined) {
      return Research(found.calls, found.urls, combined);
    }
    return Research(found.calls, found.urls, Fallback(topic));
  }

  /** A concatenation is blank exactly when every part is. */
  lemma {:induction false} ConcatBlankIff(parts: seq<string>)
    ensures IsBlank(Concat(parts)) <==> forall i :: 0 <= i < |parts| ==> IsBlank(parts[i])
    decreases |parts|
  {
    if parts != [] {
      var init := parts[..|parts| - 1];
      var last := parts[|parts| - 1];
      ConcatBlankIff(init);
      BlankAppend(Concat(init), last);
      forall i | 0 <= i < |parts| - 1 ensures parts[i] == init[i] { }
    }
  }

  /** The characters of the source line the proofs below look at. */
  lemma SourceOpenChars()
    ensures |SourceOpen| > 2 && SourceOpen[0] == '\n' && SourceOpen[1] == '\n' && SourceOpen[2] == '-'
  {
  }

  /** A contribution is blank exactly when the page was not usable, and a
      non-empty one starts with two newlines. */
  lemma ContributionShape(url: string, reply: FetchReply)
    ensures IsBlank(Contribution(url, reply)) <==> !Usable(reply)
    ensures var c := Contribution(url, reply);
      c == "" || (|c| >= 2 && c[0] == '\n' && c[1] == '\n')
  {
    if Usable(reply) {
      SourceOpenChars();
      var rest := url + (SourceClose + Take(PageText(reply.elements), ExcerptLimit));
      assert Contribution(url, reply) == SourceOpen + rest;
      assert (SourceOpen + rest)[2] == SourceOpen[2];
    }
  }

  /** The fallback is the answer exactly when no link was found or no
      fetched page was usable; otherwise the answer is the excerpts of the
      usable pages, in link order. */
  lemma GatheredFallsBackIff(fallback: string, urls: seq<string>, fetch: nat -> FetchReply)
    requires Distinct(fallback)
    ensures Gathered(fallback, urls, fetch) == fallback <==>
      (urls == [] || forall i :: 0 <= i < |urls| ==> !Usable(fetch(i)))
    ensures !IsBlank(Gathered(fallback, urls, fetch))
  {
    var parts := Contributions(urls, fetch);
    ConcatBlankIff(parts);
    forall i | 0 <= i < |urls|
      ensures IsBlank(parts[i]) <==> !Usable(fetch(i))
      ensures parts[i] == "" || (|parts[i]| >= 2 && parts[i][0] == '\n' && parts[i][1] == '\n')
    {
      ContributionShape(urls[i], fetch(i));
    }
    var combined := Concat(parts);
    if urls != [] && !IsBlank(combined) {
      LeadingNewlines(parts);
    }
  }

  /** Parts that are empty or start with two newlines join into a text
      that is empty or starts with two newlines. */
  lemma {:induction false} LeadingNewlines(parts: seq<string>)
    requires forall i :: 0 <= i < |parts| ==>
      parts[i] == "" || (|parts[i]| >= 2 && parts[i][0] == '\n' && parts[i][1] == '\n')
    ensures var c := Concat(parts); c == "" || (|c| >= 2 && c[0] == '\n' && c[1] == '\n')
    decreases |parts|
  {
    if parts != [] {
      var init := parts[..|parts| - 1];
      forall i | 0 <= i < |init|
        ensures init[i] == "" || (|init[i]| >= 2 && init[i][0] == '\n' && init[i][1] == '\n')
      {
        assert init[i] == parts[i];
      }
      LeadingNewlines(init);
    }
  }

  /** Research never comes back blank, and it is the fallback, which names
      the topic, exactly when the search found no link or no linked page
      yielded text. */
  lemma ResearchFallsBackIff(topic: string, search: nat -> SearchReply, fetch: nat -> FetchReply)
    ensures var urls := CollectUrls(search).urls;
      var text := Gathered(Fallback(topic), urls, fetch);
      && !IsBlank(text)
      && (text == Fallback(topic) <==> urls == [] || forall i :: 0 <= i < |urls| ==> !Usable(fetch(i)))
  {
    FallbackMentionsTopic(topic);
    GatheredFallsBackIff(Fallback(topic), CollectUrls(search).urls, fetch);
  }

  /** The text `search_and_scrape` returns for these collaborators; it is
      never empty. */
  function Researched(topic: string, search: nat -> SearchReply, fetch: nat -> FetchReply): (text: string)
    ensures text != ""
  {
    ResearchFallsBackIff(topic, search, fetch);
    Gathered(Fallback(topic), CollectUrls(search).urls, fetch)
  }
}
