/** The image synthesiser (backend/agents/image_agent.py): every
    `[IMAGE: <description>]` placeholder in every section is sent to the
    diagram generator; a usable SVG replaces the placeholder with a figure,
    anything else replaces it with nothing. The generator is an oracle: the
    i-th call's reply is `svg(i)`. */
module Images {
  import opened Common
  import opened Strings
  import opened PyJson
  import opened Sections

  /** The literal start of a placeholder. */
  const Marker: string := "[IMAGE: "

  /** The opening tag with the namespace the PDF renderer needs. */
  const SvgWithNamespace: string := "<svg xmlns=\"http://www.w3.org/2000/svg\""

  /** The text a placeholder for `desc` is written as. */
  function Placeholder(desc: string): string {
    Marker + desc + "]"
  }

  /** A description the placeholder pattern `\[IMAGE: (.*?)\]` can capture:
      no newline (`.` does not match it) and no `]` (the lazy group stops at
      the first one). */
  predicate Capturable(desc: string) {
    forall i :: 0 <= i < |desc| ==> desc[i] != ']' && desc[i] != '\n'
  }

  /** Where the lazy group that starts at `from` ends: the first `]`, unless
      a newline or the end of the text comes first. */
  function CloseAt(s: string, from: nat): (r: Option<nat>)
    requires from <= |s|
    ensures r.Some? ==> from <= r.value < |s|
    decreases |s| - from
  {
    if from == |s| then None
    else if s[from] == ']' then Some(from)
    else if s[from] == '\n' then None
    else CloseAt(s, from + 1)
  }

  /** The group found is capturable and ends at a `]`; when none is found,
      no capturable stretch from `from` is followed by a `]`. */
  lemma {:induction false} CloseAtSpec(s: string, from: nat)
    requires from <= |s|
    ensures var r := CloseAt(s, from);
      && (r.Some? ==> s[r.value] == ']' && Capturable(s[from..r.value]))
      && (r.None? ==> forall j :: from <= j < |s| && Capturable(s[from..j]) ==> s[j] != ']')
    decreases |s| - from
  {
    if from < |s| && s[from] != ']' && s[from] != '\n' {
      CloseAtSpec(s, from + 1);
      assert forall j :: from < j <= |s| ==> s[from..j] == [s[from]] + s[from + 1..j];
    }
  }

  /** `re.findall(r'\[IMAGE: (.*?)\]', s)`: the captured descriptions, left
      to right, each search resuming after the previous match. */
  function Placeholders(s: string): seq<string>
    decreases |s|
  {
    if |s| < |Marker| then []
    else if s[..|Marker|] == Marker then
      match CloseAt(s, |Marker|)
      case Some(j) => [s[|Marker|..j]] + Placeholders(s[j + 1..])
      case None => Placeholders(s[1..])
    else Placeholders(s[1..])
  }

  /** Every capture is a description the pattern can capture, and each
      match spends at least the marker and the closing bracket. */
  lemma {:induction false} PlaceholdersCapturable(s: string)
    ensures forall k :: 0 <= k < |Placeholders(s)| ==> Capturable(Placeholders(s)[k])
    ensures |Placeholders(s)| * (|Marker| + 1) <= |s|
    decreases |s|
  {
    if |s| >= |Marker| {
      if s[..|Marker|] == Marker {
        match CloseAt(s, |Marker|)
        case Some(j) =>
          CloseAtSpec(s, |Marker|);
          PlaceholdersCapturable(s[j + 1..]);
        case None =>
          PlaceholdersCapturable(s[1..]);
      } else {
        PlaceholdersCapturable(s[1..]);
      }
    }
  }

  /** Text without `[` holds no placeholder. */
  lemma {:induction false} NoBracketNoPlaceholders(s: string)
    requires forall i :: 0 <= i < |s| ==> s[i] != '['
    ensures Placeholders(s) == []
    decreases |s|
  {
    if |s| >= |Marker| {
      assert s[..|Marker|][0] != Marker[0];
      NoBracketNoPlaceholders(s[1..]);
    }
  }

  /** Prose without `[` in front of a placeholder is skipped, the
      placeholder's description is captured and the scan resumes right after
      it. */
  lemma {:induction false} PlaceholdersAfterProse(pre: string, desc: string, post: string)
    requires forall i :: 0 <= i < |pre| ==> pre[i] != '['
    requires Capturable(desc)
    ensures Placeholders(pre + Placeholder(desc) + post) == [desc] + Placeholders(post)
    decreases |pre|
  {
    var s := pre + Placeholder(desc) + post;
    if |pre| > 0 {
      assert s[0] == pre[0];
      assert s[..|Marker|][0] != Marker[0];
      assert s[1..] == pre[1..] + Placeholder(desc) + post;
      PlaceholdersAfterProse(pre[1..], desc, post);
    } else {
      assert s == Marker + desc + "]" + post;
      assert s[..|Marker|] == Marker;
      var close := |Marker| + |desc|;
      assert s[close] == ']';
      assert s[|Marker|..close] == desc;
      CloseAtFindsFirst(s, |Marker|, close);
      assert s[close + 1..] == post;
    }
  }

  /** The lazy group stops at the first `]` when everything before it is
      capturable. */
  lemma CloseAtFindsFirst(s: string, from: nat, close: nat)
    requires from <= close < |s| && s[close] == ']' && Capturable(s[from..close])
    ensures CloseAt(s, from) == Some(close)
  {
    CloseAtSpec(s, from);
  }

  /** A generator reply: its text, or the exception it raised. */
  datatype SvgReply = SvgText(text: string) | SvgFailed(cause: string)

  /** `strip`, remove every "```svg" and every "```", `strip` again. */
  function Unfence(text: string): string {
    Strip(ReplaceAll(ReplaceAll(Strip(text), "```svg", ""), "```", ""))
  }

  /** The validity test: both an opening and a closing tag somewhere. */
  predicate HasSvgTags(code: string) {
    Contains(code, "<svg") && Contains(code, "</svg>")
  }

  /** `code[code.find("<svg"):code.find("</svg>") + 6]`: from the first
      opening tag through the end of the first closing tag, or nothing when
      the closing tag comes first. */
  function TrimToSvg(code: string): (r: string)
    requires HasSvgTags(code)
    ensures var i, j := Find(code, "<svg"), Find(code, "</svg>");
      && (i <= j ==> r == code[i..j + 6])
      && (j < i ==> r == [])
    ensures r == [] || SvgShaped(r)
  {
    var i, j := Find(code, "<svg"), Find(code, "</svg>");
    TagsDoNotOverlap(code, j, i);
    if i <= j then
      TagSpanShaped(code, i, j);
      Slice(code, i, j + 6)
    else
      Slice(code, i, j + 6)
  }

  /** The span from an opening tag through a later closing tag is shaped
      like an SVG document. */
  lemma TagSpanShaped(code: string, i: nat, j: nat)
    requires OccursAt(code, "<svg", i) && OccursAt(code, "</svg>", j) && i + 4 <= j
    ensures Slice(code, i, j + 6) == code[i..j + 6]
    ensures SvgShaped(code[i..j + 6])
  {
    var r := code[i..j + 6];
    assert r[..4] == code[i..i + 4];
    assert r[|r| - 6..] == code[j..j + 6];
  }

  /** Starts with an opening tag, ends with a closing tag. */
  predicate SvgShaped(svg: string) {
    |svg| >= 10 && svg[..4] == "<svg" && svg[|svg| - 6..] == "</svg>"
  }

  /** An opening and a closing tag never overlap: whichever comes first ends
      before the other starts. */
  lemma TagsDoNotOverlap(code: string, j: int, i: int)
    requires OccursAt(code, "</svg>", j) && OccursAt(code, "<svg", i)
    ensures j < i ==> j + 6 <= i
    ensures i <= j ==> i + 4 <= j
  {
    assert code[i] == '<';
    assert code[j] == '<';
    assert code[j..j + 6] == "</svg>";
    assert code[i..i + 4] == "<svg";
    assert forall k :: j < k < j + 6 ==> code[k] == code[j..j + 6][k - j] != '<';
    assert forall k :: i < k < i + 4 ==> code[k] == code[i..i + 4][k - i] != '<';
    assert code[i + 1] == code[i..i + 4][1] == 's';
    assert code[j + 1] == code[j..j + 6][1] == '/';
  }

  /** Adds the namespace after every opening tag unless `xmlns=` is already
      there. */
  function WithNamespace(svg: string): (r: string)
    ensures Contains(svg, "xmlns=") ==> r == svg
    ensures svg == [] ==> r == []
    ensures SvgShaped(svg) ==> SvgShaped(r) && Contains(r, "xmlns=")
  {
    NamespacedKeepsTags(svg);
    if Contains(svg, "xmlns=") then svg else ReplaceAll(svg, "<svg", SvgWithNamespace)
  }

  /** Inserting the namespace into a tag-shaped SVG puts it right after the
      first opening tag and keeps the closing tag at the end. */
  lemma NamespacedKeepsTags(svg: string)
    ensures SvgShaped(svg) ==>
      var r := ReplaceAll(svg, "<svg", SvgWithNamespace);
      SvgShaped(r) && Contains(r, "xmlns=")
  {
    if SvgShaped(svg) {
      var rest := svg[4..];
      var mid := rest[..|rest| - 6];
      assert rest == mid + "</svg>";
      ClosingTagNotReached(mid);
      ReplaceAllKeepsTail(mid, "</svg>", "<svg", SvgWithNamespace);
      assert svg[..4] == "<svg";
      var r := ReplaceAll(svg, "<svg", SvgWithNamespace);
      var inner := ReplaceAll(mid, "<svg", SvgWithNamespace);
      assert r == SvgWithNamespace + ReplaceAll(rest, "<svg", SvgWithNamespace);
      assert r == SvgWithNamespace + (inner + "</svg>");
      NamespaceAtFront(inner + "</svg>");
    }
  }

  /** No opening tag reaches into a closing tag at the end of the text. */
  lemma ClosingTagNotReached(mid: string)
    ensures forall i :: |mid| < i + 4 ==> !OccursAt(mid + "</svg>", "<svg", i)
  {
    var s := mid + "</svg>";
    forall i | |mid| < i + 4 ensures !OccursAt(s, "<svg", i) {
      if 0 <= i && i + 4 <= |s| {
        assert s[|mid|..] == "</svg>";
        if i < |mid| {
          assert s[i..i + 4][|mid| - i] == s[|mid|] == '<';
        } else if i == |mid| {
          assert s[i..i + 4][1] == s[i + 1] == '/';
        } else {
          assert s[i..i + 4][0] == s[i] == s[|mid|..][i - |mid|];
        }
      }
    }
  }

  /** Text that starts with the namespaced tag starts with an opening tag
      and holds `xmlns=`. */
  lemma NamespaceAtFront(t: string)
    ensures var r := SvgWithNamespace + t;
      r[..4] == "<svg" && OccursAt(r, "xmlns=", 5) && Contains(r, "xmlns=")
  {
    var attr := "\"http://www.w3.org/2000/svg\"";
    NamespaceTagParts();
    var r := SvgWithNamespace + t;
    OpeningParts(attr + t);
    assert r == "<svg" + " " + "xmlns=" + (attr + t);
    OccurrenceIsContained(r, "xmlns=", 5);
  }

  lemma NamespaceTagParts()
    ensures SvgWithNamespace == "<svg" + " " + "xmlns=" + "\"http://www.w3.org/2000/svg\""
  {
  }

  lemma OpeningParts(u: string)
    ensures var r := "<svg" + " " + "xmlns=" + u;
      r[..4] == "<svg" && r[5..11] == "xmlns="
  {
  }

  /** The SVG a reply contributes, or `None` when the placeholder is to be
      dropped. A usable SVG is either empty (closing tag first) or runs from
      an opening tag to a closing tag and carries a namespace. */
  function CleanSvg(reply: SvgReply): (r: Option<string>)
    ensures r.Some? <==> reply.SvgText? && HasSvgTags(Unfence(reply.text))
    ensures r.Some? ==> r.value == [] || (SvgShaped(r.value) && Contains(r.value, "xmlns="))
  {
    match reply
    case SvgFailed(_) => None
    case SvgText(text) =>
      var code := Unfence(text);
      if HasSvgTags(code) then Some(WithNamespace(TrimToSvg(code))) else None
  }

  /** The figure a usable SVG becomes, captioned with the description. */
  function Figure(desc: string, svg: string): string {
    "\n<div class=\"image-container\">\n    " + svg + "\n</div>\n<p class=\"caption\">Figure: " + desc + "</p>\n"
  }

  /** The outcome for one placeholder. */
  datatype Resolution = Embedded(desc: string, svg: string) | Dropped(desc: string)

  /** The outcome for a placeholder given the usable SVG, if any, that its
      generator call produced. */
  function Outcome(desc: string, svg: Option<string>): Resolution {
    match svg
    case Some(code) => Embedded(desc, code)
    case None => Dropped(desc)
  }

  /** One placeholder's outcome depends on its own description and reply
      only. */
  function Resolve(desc: string, reply: SvgReply): (r: Resolution)
    ensures r.desc == desc
    ensures r.Dropped? <==> reply.SvgFailed? || !HasSvgTags(Unfence(reply.text))
  {
    Outcome(desc, CleanSvg(reply))
  }

  /** The usable SVG of each generator call, by call number. The loops below
      are written against any such sequence of calls and used with
      `CleanedReplies`. */
  type Cleaned = nat -> Option<string>

  /** The generator's replies, each cleaned. */
  function CleanedReplies(svg: nat -> SvgReply): Cleaned {
    (call: nat) => CleanSvg(svg(call))
  }

  /** The text substituted for the placeholder. */
  function Replacement(r: Resolution): string {
    match r
    case Embedded(desc, svg) => Figure(desc, svg)
    case Dropped(_) => ""
  }

  /** The successive `content.replace(placeholder, replacement)` calls. */
  function ApplyAll(content: string, rs: seq<Resolution>): string
    decreases |rs|
  {
    if rs == [] then content
    else ApplyAll(ReplaceAll(content, Placeholder(rs[0].desc), Replacement(rs[0])), rs[1..])
  }

  /** One section's rewritten content and the outcome of each placeholder. */
  datatype SectionRun = SectionRun(content: string, resolutions: seq<Resolution>)

  /** The per-placeholder outcomes for `descs`, the k-th made by generator
      call `from + k`. */
  function ResolveEach(descs: seq<string>, svgs: Cleaned, from: nat): (rs: seq<Resolution>)
    ensures |rs| == |descs|
    decreases |descs|
  {
    if descs == [] then [] else [Outcome(descs[0], svgs(from))] + ResolveEach(descs[1..], svgs, from + 1)
  }

  /** The k-th placeholder's outcome is made by call `from + k` and depends
      on nothing else. */
  lemma {:induction false} ResolveEachCalls(descs: seq<string>, svgs: Cleaned, from: nat)
    ensures forall k :: 0 <= k < |descs| ==>
      ResolveEach(descs, svgs, from)[k] == Outcome(descs[k], svgs(from + k))
    decreases |descs|
  {
    if descs != [] {
      ResolveEachCalls(descs[1..], svgs, from + 1);
      var rs := ResolveEach(descs, svgs, from);
      forall k | 1 <= k < |descs| ensures rs[k] == Outcome(descs[k], svgs(from + k)) {
        assert rs[k] == ResolveEach(descs[1..], svgs, from + 1)[k - 1];
        assert descs[1..][k - 1] == descs[k];
      }
    }
  }

  /** The loop body for one section, whose generator calls are numbered from
      `from`: one call per match, in order of appearance. */
  function ResolveSection(content: string, svgs: Cleaned, from: nat): (r: SectionRun)
    ensures |r.resolutions| == |Placeholders(content)|
    ensures Placeholders(content) == [] ==> r.content == content
  {
    var rs := ResolveEach(Placeholders(content), svgs, from);
    SectionRun(ApplyAll(content, rs), rs)
  }

  /** Text without `[` holds no placeholder text to replace. */
  lemma NoBracketNoOccurrence(s: string, desc: string)
    requires forall i :: 0 <= i < |s| ==> s[i] != '['
    ensures forall j :: !OccursAt(s, Placeholder(desc), j)
  {
    var p := Placeholder(desc);
    forall j ensures !OccursAt(s, p, j) {
      if 0 <= j && j + |p| <= |s| {
        assert s[j..j + |p|][0] == s[j] != '[' == p[0];
      }
    }
  }

  /** A single placeholder between bracket-free prose is replaced where it
      stands: the prose on both sides survives, and the one generator call
      decides what goes in between. */
  lemma OnePlaceholderReplacedInPlace(pre: string, desc: string, post: string,
                                      svgs: Cleaned, from: nat)
    requires forall i :: 0 <= i < |pre| ==> pre[i] != '['
    requires forall i :: 0 <= i < |post| ==> post[i] != '['
    requires Capturable(desc)
    ensures var r := ResolveSection(pre + Placeholder(desc) + post, svgs, from);
      && r.resolutions == [Outcome(desc, svgs(from))]
      && r.content == pre + Replacement(Outcome(desc, svgs(from))) + post
  {
    var content := pre + Placeholder(desc) + post;
    OnePlaceholderFound(pre, desc, post);
    var res := Outcome(desc, svgs(from));
    assert ResolveEach([desc], svgs, from) == [res];
    assert ApplyAll(content, [res]) == ReplaceAll(content, Placeholder(desc), Replacement(res));
    OnePlaceholderReplaced(pre, desc, post, Replacement(res));
  }

  /** The scan finds the one placeholder between prose without `[`. */
  lemma OnePlaceholderFound(pre: string, desc: string, post: string)
    requires forall i :: 0 <= i < |pre| ==> pre[i] != '['
    requires forall i :: 0 <= i < |post| ==> post[i] != '['
    requires Capturable(desc)
    ensures Placeholders(pre + Placeholder(desc) + post) == [desc]
  {
    PlaceholdersAfterProse(pre, desc, post);
    NoBracketNoPlaceholders(post);
  }

  /** `replace` swaps the one placeholder between prose without `[`. */
  lemma OnePlaceholderReplaced(pre: string, desc: string, post: string, x: string)
    requires forall i :: 0 <= i < |pre| ==> pre[i] != '['
    requires forall i :: 0 <= i < |post| ==> post[i] != '['
    ensures ReplaceAll(pre + Placeholder(desc) + post, Placeholder(desc), x) == pre + x + post
  {
    var p := Placeholder(desc);
    assert pre + p + post == pre + (p + post);
    ReplaceAllSkipsPrefix(pre, p + post, p, x);
    assert (p + post)[..|p|] == p;
    assert (p + post)[|p|..] == post;
    NoBracketNoOccurrence(post, desc);
    ReplaceAllAbsent(post, p, x);
  }

  /** The replacement step can form a placeholder that was not there: once
      the inner placeholder of `[IMA[IMAGE: z]GE: w]` is dropped, the text
      left is exactly a placeholder for `w`. Placeholders therefore do not
      all disappear. */
  lemma DroppingCanFormPlaceholder(svg: nat -> SvgReply)
    requires svg(0).SvgFailed?
    ensures var r := ResolveSection("[IMA[IMAGE: z]GE: w]", CleanedReplies(svg), 0);
      && r.resolutions == [Dropped("z")]
      && r.content == "[IMAGE: w]"
      && Placeholders(r.content) == ["w"]
  {
    var s := "[IMA[IMAGE: z]GE: w]";
    NestedResolutions(s, svg);
    NestedContent(s, svg);
    PlaceholderOfW();
  }

  lemma NestedResolutions(s: string, svg: nat -> SvgReply)
    requires s == "[IMA[IMAGE: z]GE: w]"
    requires svg(0).SvgFailed?
    ensures ResolveSection(s, CleanedReplies(svg), 0).resolutions == [Dropped("z")]
  {
    NestedPlaceholderFound(s);
  }

  lemma NestedContent(s: string, svg: nat -> SvgReply)
    requires s == "[IMA[IMAGE: z]GE: w]"
    requires svg(0).SvgFailed?
    ensures ResolveSection(s, CleanedReplies(svg), 0).content == "[IMAGE: w]"
  {
    NestedResolutions(s, svg);
    NestedPlaceholderDropped(s);
    assert ApplyAll(s, [Dropped("z")]) == ReplaceAll(s, Placeholder("z"), "");
  }

  lemma PlaceholderOfW()
    ensures Placeholders("[IMAGE: w]") == ["w"]
  {
    assert "[IMAGE: w]" == [] + Placeholder("w") + [];
    PlaceholdersAfterProse([], "w", []);
    NoBracketNoPlaceholders([]);
  }

  lemma NestedPlaceholderFound(s: string)
    requires s == "[IMA[IMAGE: z]GE: w]"
    ensures Placeholders(s) == ["z"]
  {
    var t := "IMA" + Placeholder("z") + "GE: w]";
    assert Placeholder("z") == "[IMAGE: z]";
    assert s == "[" + t;
    SkipNonMarker(s, 4);
    InnerPlaceholderFound();
  }

  /** A text whose opening differs from the marker is scanned from its
      second character on. */
  lemma SkipNonMarker(s: string, k: nat)
    requires k < |Marker| <= |s| && s[k] != Marker[k]
    ensures Placeholders(s) == Placeholders(s[1..])
  {
    assert s[..|Marker|][k] != Marker[k];
  }

  lemma InnerPlaceholderFound()
    ensures Placeholders("IMA" + Placeholder("z") + "GE: w]") == ["z"]
  {
    PlaceholdersAfterProse("IMA", "z", "GE: w]");
    assert |"GE: w]"| < |Marker|;
  }

  lemma NestedPlaceholderDropped(s: string)
    requires s == "[IMA[IMAGE: z]GE: w]"
    ensures ReplaceAll(s, Placeholder("z"), "") == "[IMAGE: w]"
  {
    var p := Placeholder("z");
    var post := "GE: w]";
    var t := p + post;
    assert p == "[IMAGE: z]";
    assert s == "[" + ("IMA" + t);
    ReplaceAllStep(s, p, "", 4);
    assert ReplaceAll("IMA" + t, p, "") == "IMA" + ReplaceAll(t, p, "") by {
      ReplaceAllSkipsPrefix("IMA", t, p, "");
    }
    assert ReplaceAll(t, p, "") == ReplaceAll(post, p, "") by {
      assert t[..|p|] == p;
      assert t[|p|..] == post;
    }
    assert |post| < |p|;
    assert s[1..] == "IMA" + t;
    SplicedText();
  }

  lemma SplicedText()
    ensures "[" + ("IMA" + "GE: w]") == "[IMAGE: w]"
  {
  }

  /** The message of the `TypeError` `re.findall` raises on a non-string. */
  function NotAString(v: Json): string {
    "expected string or bytes-like object, got '" + TypeName(v) + "'"
  }

  /** The exception the loop raises on a section it cannot get through. */
  function Unresolvable(item: Json): string
    requires !Textual(item)
  {
    if !item.JObj? then NoAttribute(item, "get") else NotAString(ContentOf(item.fields))
  }

  /** Every placeholder of every section, in document order. */
  function PlaceholdersIn(items: seq<Json>): seq<string>
    requires AllTextual(items)
  {
    if items == [] then []
    else Placeholders(ContentOf(items[0].fields).s) + PlaceholdersIn(items[1..])
  }

  /** The sections after the loop and every placeholder's outcome. */
  datatype ItemsRun = ItemsRun(items: seq<Json>, resolutions: seq<Resolution>)

  /** A section whose content has been rewritten. */
  function Rewritten(item: Json, svgs: Cleaned, from: nat): Json
    requires Textual(item)
  {
    JObj(item.fields["content" := JStr(ResolveSection(ContentOf(item.fields).s, svgs, from).content)])
  }

  /** The shape of the loop over the sections: each is rewritten by `step`,
      given the number of generator calls made before it, and makes
      `count` calls of its own. */
  function Thread(items: seq<Json>, step: (Json, nat) -> Json, count: Json -> nat, from: nat): (r: seq<Json>)
    ensures |r| == |items|
    decreases |items|
  {
    if items == [] then []
    else [step(items[0], from)] + Thread(items[1..], step, count, from + count(items[0]))
  }

  /** The number of calls the given sections make between them. */
  function CallsOf(items: seq<Json>, count: Json -> nat): nat
    decreases |items|
  {
    if items == [] then 0 else count(items[0]) + CallsOf(items[1..], count)
  }

  /** Section i is stepped with the calls of the sections before it. */
  lemma {:induction false} ThreadAt(items: seq<Json>, step: (Json, nat) -> Json, count: Json -> nat,
                                    from: nat, i: nat)
    requires i < |items|
    ensures Thread(items, step, count, from)[i] == step(items[i], from + CallsOf(items[..i], count))
    decreases i
  {
    if i == 0 {
      assert items[..0] == [];
    } else {
      ThreadAt(items[1..], step, count, from + count(items[0]), i - 1);
      assert items[..i][0] == items[0];
      assert items[..i][1..] == items[1..][..i - 1];
      assert items[1..][i - 1] == items[i];
    }
  }

  /** The loop body applied to one section. */
  function SectionStep(svgs: Cleaned): (Json, nat) -> Json {
    (item: Json, calls: nat) => if Textual(item) then Rewritten(item, svgs, calls) else item
  }

  /** The generator calls one section makes: one per placeholder. */
  function SectionCalls(item: Json): nat {
    if Textual(item) then |Placeholders(ContentOf(item.fields).s)| else 0
  }

  /** The sections the loop leaves behind when every section is a dict with
      string content, generator calls numbered from `from`. */
  function RewriteItems(items: seq<Json>, svgs: Cleaned, from: nat): (r: seq<Json>)
    ensures |r| == |items|
  {
    Thread(items, SectionStep(svgs), SectionCalls, from)
  }

  /** The outcomes of the generator calls the loop makes, section by section. */
  function CallsIn(items: seq<Json>, svgs: Cleaned, from: nat): seq<Resolution>
    requires AllTextual(items)
    decreases |items|
  {
    if items == [] then []
    else
      var content := ContentOf(items[0].fields).s;
      ResolveEach(Placeholders(content), svgs, from) + CallsIn(items[1..], svgs, from + |Placeholders(content)|)
  }

  /** The loop over sections that are all dicts with string content. */
  function RunItems(items: seq<Json>, svgs: Cleaned, from: nat): ItemsRun
    requires AllTextual(items)
  {
    ItemsRun(RewriteItems(items, svgs, from), CallsIn(items, svgs, from))
  }

  /** The loop over the sections. It gets through exactly when every section
      is a dict with string content, and otherwise raises on the first
      section it cannot get through; the generator calls made before the
      exception are lost with it. */
  function ResolveItems(items: seq<Json>, svgs: Cleaned, from: nat): (r: Result<ItemsRun>)
    ensures r.Ok? <==> AllTextual(items)
    ensures r.Err? ==>
      exists k :: 0 <= k < |items| && AllTextual(items[..k]) && !Textual(items[k])
        && r.error == Unresolvable(items[k])
  {
    if AllTextual(items) then Ok(RunItems(items, svgs, from))
    else Err(Unresolvable(items[FirstNonTextual(items)]))
  }

  /** Numbering the calls of two runs of placeholders in sequence. */
  lemma {:induction false} ResolveEachAppend(a: seq<string>, b: seq<string>, svgs: Cleaned, from: nat)
    ensures ResolveEach(a + b, svgs, from) == ResolveEach(a, svgs, from) + ResolveEach(b, svgs, from + |a|)
    decreases |a|
  {
    if a == [] {
      assert a + b == b;
    } else {
      ResolveEachAppend(a[1..], b, svgs, from + 1);
      assert (a + b)[1..] == a[1..] + b;
      assert from + 1 + |a[1..]| == from + |a|;
      var head := [Outcome(a[0], svgs(from))];
      assert ResolveEach(a + b, svgs, from) == head + ResolveEach(a[1..] + b, svgs, from + 1);
      assert ResolveEach(a, svgs, from) == head + ResolveEach(a[1..], svgs, from + 1);
      AppendAssoc(head, ResolveEach(a[1..], svgs, from + 1), ResolveEach(b, svgs, from + |a|));
    }
  }

  /** The calls of the first section come before those of the rest. */
  lemma CallsInCons(items: seq<Json>, svgs: Cleaned, from: nat)
    requires items != [] && AllTextual(items)
    ensures var p0 := Placeholders(ContentOf(items[0].fields).s);
      CallsIn(items, svgs, from) == ResolveEach(p0, svgs, from) + CallsIn(items[1..], svgs, from + |p0|)
  {
  }

  /** When the loop gets through, it makes one generator call per
      placeholder in document order: the k-th placeholder of the whole book
      is resolved by call `from + k`. */
  lemma {:induction false} CallsInOrder(items: seq<Json>, svgs: Cleaned, from: nat)
    requires AllTextual(items)
    ensures CallsIn(items, svgs, from) == ResolveEach(PlaceholdersIn(items), svgs, from)
    decreases |items|
  {
    if items != [] {
      var p0 := Placeholders(ContentOf(items[0].fields).s);
      assert AllTextual(items[1..]);
      CallsInOrder(items[1..], svgs, from + |p0|);
      ResolveEachAppend(p0, PlaceholdersIn(items[1..]), svgs, from);
      var done := ResolveEach(p0, svgs, from);
      var rest := ResolveEach(PlaceholdersIn(items[1..]), svgs, from + |p0|);
      CallsInCons(items, svgs, from);
      assert PlaceholdersIn(items) == p0 + PlaceholdersIn(items[1..]);
      assert ResolveEach(PlaceholdersIn(items), svgs, from) == done + rest;
    }
  }

  /** Counting calls section by section counts every placeholder. */
  lemma {:induction false} CallsOfPlaceholders(items: seq<Json>)
    requires AllTextual(items)
    ensures CallsOf(items, SectionCalls) == |PlaceholdersIn(items)|
    decreases |items|
  {
    if items != [] {
      assert AllTextual(items[1..]);
      CallsOfPlaceholders(items[1..]);
    }
  }

  /** A section the loop can get through comes out with its content
      rewritten, its calls numbered after those the sections before it made
      (one per placeholder, by `CallsOfPlaceholders`). */
  lemma RewriteItemsAt(items: seq<Json>, svgs: Cleaned, from: nat, i: nat)
    requires i < |items| && Textual(items[i])
    ensures RewriteItems(items, svgs, from)[i] == Rewritten(items[i], svgs, from + CallsOf(items[..i], SectionCalls))
  {
    var step := SectionStep(svgs);
    ThreadAt(items, step, SectionCalls, from, i);
    assert Textual(items[i]);
    assert RewriteItems(items, svgs, from)[i] == step(items[i], from + CallsOf(items[..i], SectionCalls));
  }

  /** A section without placeholders whose content is already stored comes
      out of the loop unchanged. */
  lemma RewrittenUnchanged(item: Json, svgs: Cleaned, from: nat)
    requires Textual(item) && "content" in item.fields
    requires Placeholders(item.fields["content"].s) == []
    ensures Rewritten(item, svgs, from) == item
  {
    var fields := item.fields;
    var c := ContentOf(fields).s;
    assert ResolveSection(c, svgs, from).content == c;
    assert fields["content" := JStr(c)] == fields;
  }

  /** A section with no `content` key gets one: the empty string. */
  lemma RewrittenAddsContent(item: Json, svgs: Cleaned, from: nat)
    requires item.JObj? && "content" !in item.fields
    ensures Rewritten(item, svgs, from).fields == item.fields["content" := JStr("")]
  {
    NoBracketNoPlaceholders("");
  }

  /** The result of the image pass: the book with its sections rewritten,
      and the outcome of every placeholder in document order. */
  datatype ImagesRun = ImagesRun(book: Json, resolutions: seq<Resolution>)

  /** The `sections` the pass iterates over: the default list when the key
      is missing. */
  function SectionsOf(book: map<string, Json>): Json {
    if "sections" in book then book["sections"] else JArr([])
  }

  /** What the pass gets through: a dict whose `sections` is a list of
      sections with string content, or an empty string or dict (iterating
      over which does nothing). */
  predicate Processable(book: Json) {
    && book.JObj?
    && var sections := SectionsOf(book.fields);
       (sections.JArr? && AllTextual(sections.items)) || sections == JStr([]) || sections == JObj(map[])
  }

  /** `ImageAgent.generate_images`: every placeholder of every section is
      sent to the generator, one call each, in document order, and replaced
      by its figure or dropped. The sections are rewritten in place. */
  function GenerateImages(book: Json, svg: nat -> SvgReply): (r: Result<ImagesRun>)
    ensures r.Ok? <==> Processable(book)
    ensures r.Ok? ==> r.value.book.JObj? && r.value.book.fields.Keys == book.fields.Keys
    ensures r.Ok? ==> forall k :: k in book.fields && k != "sections" ==> r.value.book.fields[k] == book.fields[k]
    ensures r.Ok? && !SectionsOf(book.fields).JArr? ==> r.value == ImagesRun(book, [])
  {
    match Get(book, "sections", JArr([]))
    case Err(e) => Err(e)
    case Ok(sections) =>
      if sections.JArr? then
        match ResolveItems(sections.items, CleanedReplies(svg), 0)
        case Err(e) => Err(e)
        case Ok(run) =>
          var out := if "sections" in book.fields then JObj(book.fields["sections" := JArr(run.items)]) else book;
          Ok(ImagesRun(out, run.resolutions))
      else
        match EachObject(sections)
        case Err(e) => Err(e)
        case Ok(_) => Ok(ImagesRun(book, []))
  }

  /** When the pass gets through a list of sections, the k-th placeholder of
      the book is resolved by the generator's k-th reply, and section i is
      section i with its content rewritten, its calls numbered after the
      placeholders of the sections before it. */
  lemma GenerateImagesCalls(book: Json, svg: nat -> SvgReply)
    requires Processable(book) && SectionsOf(book.fields).JArr?
    ensures var items := SectionsOf(book.fields).items;
      var r := GenerateImages(book, svg).value;
      && |r.resolutions| == |PlaceholdersIn(items)|
      && (forall k :: 0 <= k < |r.resolutions| ==> r.resolutions[k] == Resolve(PlaceholdersIn(items)[k], svg(k)))
      && ("sections" in book.fields ==> r.book.fields["sections"] == JArr(RewriteItems(items, CleanedReplies(svg), 0)))
  {
    var items := SectionsOf(book.fields).items;
    var svgs := CleanedReplies(svg);
    var descs := PlaceholdersIn(items);
    CallsInOrder(items, svgs, 0);
    ResolveEachCalls(descs, svgs, 0);
    var rs := GenerateImages(book, svg).value.resolutions;
    assert rs == ResolveEach(descs, svgs, 0);
    forall k | 0 <= k < |rs| ensures rs[k] == Resolve(descs[k], svg(k)) {
      assert rs[k] == Outcome(descs[k], svgs(k));
    }
  }

  /** A book without placeholders has none in any section. */
  lemma {:induction false} NoPlaceholdersAnywhere(items: seq<Json>, i: nat)
    requires AllTextual(items) && PlaceholdersIn(items) == [] && i < |items|
    ensures Placeholders(ContentOf(items[i].fields).s) == []
    decreases i
  {
    assert AllTextual(items[1..]);
    if i > 0 {
      NoPlaceholdersAnywhere(items[1..], i - 1);
      assert items[1..][i - 1] == items[i];
    }
  }

  /** A book whose sections all carry string content and no placeholder
      goes through the pass unchanged, without a single generator call. */
  lemma GenerateImagesIdentity(book: Json, svg: nat -> SvgReply)
    requires book.JObj? && "sections" in book.fields && book.fields["sections"].JArr?
    requires var items := book.fields["sections"].items;
      && AllTextual(items)
      && (forall i :: 0 <= i < |items| ==> "content" in items[i].fields)
      && PlaceholdersIn(items) == []
    ensures GenerateImages(book, svg) == Ok(ImagesRun(book, []))
  {
    var items := book.fields["sections"].items;
    var svgs := CleanedReplies(svg);
    var out := RewriteItems(items, svgs, 0);
    forall i | 0 <= i < |items| ensures out[i] == items[i] {
      RewriteItemsAt(items, svgs, 0, i);
      NoPlaceholdersAnywhere(items, i);
      RewrittenUnchanged(items[i], svgs, CallsOf(items[..i], SectionCalls));
    }
    assert out == items;
    CallsInOrder(items, svgs, 0);
    assert book.fields["sections" := JArr(out)] == book.fields;
  }
}
