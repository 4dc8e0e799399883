/** The HTML assembler (backend/agents/formatter_agent.py): a fixed page
    head carrying the book's title and author, one chapter block per
    section, a fixed tail. Markdown conversion is a parameter and stays
    uninterpreted, and so is Python's `str()` of a non-string value. */
module Formatter {
  import opened Common
  import opened Strings
  import opened PyJson
  import opened Sections

  const DefaultTitle: string := "Untitled Book"
  const DefaultAuthor: string := "AI Author"

  /** The extensions every conversion is asked for. */
  const Extensions: seq<string> := ["fenced_code", "tables", "nl2br"]

  /** `markdown.markdown(text, extensions=...)` on a string. */
  type Markdown = (string, seq<string>) -> string

  /** Python's `str(v)` for a value that is not a string. */
  type Show = Json -> string

  /** How a value is spliced into an f-string: strings as they are, anything
      else through `str()`. */
  function Text(show: Show, v: Json): (t: string)
    ensures v.JStr? ==> t == v.s
  {
    if v.JStr? then v.s else show(v)
  }

  /** The page head up to the title element. */
  const HeadOpen: string := "\n        <!DOCTYPE html>\n        <html>\n        <head>\n            <meta charset=\"UTF-8\">\n            <title>"

  /** Between the title element and the style sheet. */
  const TitleClose: string := "</title>\n            "

  /** The page's style sheet, line by line as the source writes it. */
  const StyleLines: seq<string> := [
    "<style>",
    "                @page {",
    "                    size: A4;",
    "                    margin: 2cm;",
    "                }",
    "                body {",
    "                    font-family: 'Helvetica', 'Arial', sans-serif;",
    "                    line-height: 1.6;",
    "                    color: #333;",
    "                    font-size: 11pt;",
    "                }",
    "                h1, h2, h3 {",
    "                    color: #2c3e50;",
    "                    page-break-after: avoid;",
    "                }",
    "                h1 {",
    "                    font-size: 24pt;",
    "                    margin-bottom: 1rem;",
    "                }",
    "                h2 {",
    "                    font-size: 18pt;",
    "                    margin-top: 2rem;",
    "                    margin-bottom: 1rem;",
    "                }",
    "                h3 {",
    "                    font-size: 14pt;",
    "                    margin-top: 1.5rem;",
    "                    margin-bottom: 0.75rem;",
    "                }",
    "                .title-page {",
    "                    text-align: center;",
    "                    padding-top: 5cm;",
    "                    page-break-after: always;",
    "                }",
    "                .chapter {",
    "                    page-break-before: always;",
    "                }",
    "                .image-container {",
    "                    margin: 2rem auto;",
    "                    text-align: center;",
    "                    page-break-inside: avoid;",
    "                }",
    "                .image-container svg {",
    "                    max-width: 100%;",
    "                    height: auto;",
    "                    display: inline-block;",
    "                    border: 1px solid #ddd;",
    "                    border-radius: 4px;",
    "                    padding: 10px;",
    "                    background: white;",
    "                }",
    "                .caption {",
    "                    text-align: center;",
    "                    font-style: italic;",
    "                    font-size: 9pt;",
    "                    color: #666;",
    "                    margin-top: 0.5rem;",
    "                }",
    "                pre {",
    "                    background-color: #f4f4f4;",
    "                    padding: 1rem;",
    "                    border-radius: 5px;",
    "                    overflow-x: auto;",
    "                    font-size: 9pt;",
    "                    page-break-inside: avoid;",
    "                }",
    "                code {",
    "                    background-color: #f4f4f4;",
    "                    padding: 0.2rem 0.4rem;",
    "                    border-radius: 3px;",
    "                    font-family: 'Courier New', monospace;",
    "                    font-size: 9pt;",
    "                }",
    "                p {",
    "                    margin-bottom: 0.75rem;",
    "                    text-align: justify;",
    "                }",
    "                ul, ol {",
    "                    margin-bottom: 1rem;",
    "                    margin-left: 2rem;",
    "                }",
    "                li {",
    "                    margin-bottom: 0.5rem;",
    "                }",
    "            </style>"
  ]

  const StyleSheet: string := JoinLines(StyleLines)

  /** From the end of the style sheet to the title heading. */
  const TitlePageOpen: string := "\n        </head>\n        <body>\n            <div class=\"title-page\">\n                <h1 style=\"font-size: 3rem; margin-bottom: 1rem;\">"

  /** Between the title heading and the author's name. */
  const Byline: string := "</h1>\n                <p style=\"font-size: 1.5rem;\">By "

  /** The end of the title page. */
  const HeadClose: string := "</p>\n            </div>\n        "

  const ChapterOpen: string := "\n            <div class=\"chapter\">\n                <h2>"
  const ChapterMiddle: string := "</h2>\n                <div class=\"content\">\n                    "
  const ChapterClose: string := "\n                </div>\n            </div>\n            "

  /** The text after the last chapter. */
  const Tail: string := "\n        </body>\n        </html>\n        "

  /** The fixed markup a page is assembled from. The assembly is stated
      over any layout, so that what is proved about it does not depend on
      the markup's exact text. */
  datatype Layout = Layout(
    headOpen: string, titleClose: string, styleSheet: string,
    titlePageOpen: string, byline: string, headClose: string,
    chapterOpen: string, chapterMiddle: string, chapterClose: string,
    tail: string)

  /** The layout `format_to_html` writes. */
  const BookLayout: Layout := Layout(
    HeadOpen, TitleClose, StyleSheet, TitlePageOpen, Byline, HeadClose,
    ChapterOpen, ChapterMiddle, ChapterClose, Tail)

  /** The text before the first chapter. */
  function Head(layout: Layout, title: string, author: string): string {
    layout.headOpen + title + layout.titleClose + layout.styleSheet + layout.titlePageOpen
      + title + layout.byline + author + layout.headClose
  }

  /** The block one section contributes. */
  function Chapter(layout: Layout, title: string, body: string): string {
    layout.chapterOpen + title + layout.chapterMiddle + body + layout.chapterClose
  }

  /** `dict.get(key, default)` on a dict. */
  function Field(fields: map<string, Json>, key: string, default: Json): Json {
    if key in fields then fields[key] else default
  }

  /** The exception a section the loop cannot convert raises: `get` on a
      non-dict, or `strip` (the first thing `markdown` does) on content that
      is not a string. */
  function SectionError(item: Json): string
    requires !Textual(item)
  {
    if !item.JObj? then NoAttribute(item, "get") else NoAttribute(ContentOf(item.fields), "strip")
  }

  /** The chapter block one convertible section contributes: its title
      (default `''`) and its converted content. */
  function ChapterText(layout: Layout, show: Show, markdown: Markdown, item: Json): string
    requires Textual(item)
  {
    Chapter(layout, Text(show, Field(item.fields, "title", JStr(""))), markdown(ContentOf(item.fields).s, Extensions))
  }

  /** One section's step of the loop. */
  function ChapterOf(layout: Layout, show: Show, markdown: Markdown, item: Json): (r: Result<string>)
    ensures r.Ok? <==> Textual(item)
    ensures r.Ok? ==> r.value == ChapterText(layout, show, markdown, item)
    ensures r.Err? ==> r.error == SectionError(item)
  {
    if !item.JObj? then Err(NoAttribute(item, "get"))
    else
      var content := ContentOf(item.fields);
      if !content.JStr? then Err(NoAttribute(content, "strip"))
      else Ok(Chapter(layout, Text(show, Field(item.fields, "title", JStr(""))), markdown(content.s, Extensions)))
  }

  /** The chapter blocks of a list of convertible sections, one per section. */
  function ChapterTexts(layout: Layout, show: Show, markdown: Markdown, items: seq<Json>): (r: seq<string>)
    requires AllTextual(items)
    ensures |r| == |items|
    ensures forall i :: 0 <= i < |items| ==> r[i] == ChapterText(layout, show, markdown, items[i])
  {
    seq(|items|, i requires 0 <= i < |items| => ChapterText(layout, show, markdown, items[i]))
  }

  /** The book's title and author as they appear on the title page. */
  function TitleText(show: Show, book: map<string, Json>): string {
    Text(show, Field(book, "title", JStr(DefaultTitle)))
  }

  function AuthorText(show: Show, book: map<string, Json>): string {
    Text(show, Field(book, "author", JStr(DefaultAuthor)))
  }

  function SectionsValue(book: map<string, Json>): Json {
    Field(book, "sections", JArr([]))
  }

  /** What the page should be, stated declaratively: the head, every
      section's chapter block in order, the tail; or the exception of the
      first section that cannot be converted. A `sections` value that is not
      a list is iterated the way Python iterates it. */
  function Page(layout: Layout, show: Show, markdown: Markdown, book: Json): Result<string> {
    if !book.JObj? then Err(NoAttribute(book, "get"))
    else
      var head := Head(layout, TitleText(show, book.fields), AuthorText(show, book.fields));
      var sections := SectionsValue(book.fields);
      if sections.JArr? then
        if AllTextual(sections.items) then
          Ok(head + Concat(ChapterTexts(layout, show, markdown, sections.items)) + layout.tail)
        else
          Err(SectionError(sections.items[FirstNonTextual(sections.items)]))
      else
        match EachObject(sections)
        case Ok(_) => Ok(head + layout.tail)
        case Err(e) => Err(e)
  }

  /** The first section that is not convertible is the one the loop stops at. */
  lemma FirstNonTextualAt(items: seq<Json>, i: nat)
    requires i < |items| && AllTextual(items[..i]) && !Textual(items[i])
    ensures FirstNonTextual(items) == i
  {
    var k := FirstNonTextual(items);
    forall j | 0 <= j < k
      ensures Textual(items[j])
    {
      assert items[..k][j] == items[j];
    }
    forall j | 0 <= j < i
      ensures Textual(items[j])
    {
      assert items[..i][j] == items[j];
    }
  }

  /** One more section converted adds its block at the end. */
  lemma ChapterTextsExtend(layout: Layout, show: Show, markdown: Markdown, items: seq<Json>, i: nat)
    requires i < |items| && AllTextual(items[..i]) && Textual(items[i])
    ensures AllTextual(items[..i + 1])
    ensures Concat(ChapterTexts(layout, show, markdown, items[..i + 1]))
         == Concat(ChapterTexts(layout, show, markdown, items[..i])) + ChapterText(layout, show, markdown, items[i])
  {
    assert items[..i + 1] == items[..i] + [items[i]];
    var texts := ChapterTexts(layout, show, markdown, items[..i + 1]);
    assert texts[..i] == ChapterTexts(layout, show, markdown, items[..i]);
  }

  /** `format_to_html` as written: the head, then one `+=` per section, then
      the tail. */
  method FormatToHtml(show: Show, markdown: Markdown, book: Json) returns (r: Result<string>)
    ensures r == Page(BookLayout, show, markdown, book)
  {
    r := Assemble(BookLayout, show, markdown, book);
  }

  /** The loop of `format_to_html` for any page frame. */
  method Assemble(layout: Layout, show: Show, markdown: Markdown, book: Json) returns (r: Result<string>)
    ensures r == Page(layout, show, markdown, book)
  {
    if !book.JObj? {
      return Err(NoAttribute(book, "get"));
    }
    var html := Head(layout, TitleText(show, book.fields), AuthorText(show, book.fields));
    var sections := SectionsValue(book.fields);
    if !sections.JArr? {
      var each := EachObject(sections);
      if each.Err? {
        return Err(each.error);
      }
      return Ok(html + layout.tail);
    }
    var items := sections.items;
    ghost var head := html;
    var i := 0;
    while i < |items|
      invariant i <= |items|
      invariant AllTextual(items[..i])
      invariant html == head + Concat(ChapterTexts(layout, show, markdown, items[..i]))
    {
      var block := ChapterOf(layout, show, markdown, items[i]);
      if block.Err? {
        FirstNonTextualAt(items, i);
        return Err(block.error);
      }
      ChapterTextsExtend(layout, show, markdown, items, i);
      ghost var done := Concat(ChapterTexts(layout, show, markdown, items[..i]));
      AppendAssoc(head, done, block.value);
      html := html + block.value;
      i := i + 1;
    }
    assert items[..i] == items;
    return Ok(html + layout.tail);
  }

  /** The page opens with the head and closes with the tail; a missing
      title or author falls back to the defaults. */
  lemma PageFrame(layout: Layout, show: Show, markdown: Markdown, book: Json)
    requires Page(layout, show, markdown, book).Ok?
    ensures book.JObj?
    ensures var page := Page(layout, show, markdown, book).value;
      var head := Head(layout, TitleText(show, book.fields), AuthorText(show, book.fields));
      && head <= page
      && page[|page| - |layout.tail|..] == layout.tail
    ensures "title" !in book.fields ==> TitleText(show, book.fields) == DefaultTitle
    ensures "author" !in book.fields ==> AuthorText(show, book.fields) == DefaultAuthor
  {
  }

  /** The page can be built exactly when the book is a dict and every
      section is a dict with string content (or `sections` is an empty
      string or dict, which the loop passes over). */
  lemma PageSucceedsIff(layout: Layout, show: Show, markdown: Markdown, book: Json)
    ensures Page(layout, show, markdown, book).Ok? <==>
      && book.JObj?
      && var sections := SectionsValue(book.fields);
         (sections.JArr? && AllTextual(sections.items)) || sections == JStr([]) || sections == JObj(map[])
  {
    if book.JObj? {
      var sections := SectionsValue(book.fields);
      if !sections.JArr? {
        assert EachObject(sections).Ok? <==> sections == JStr([]) || sections == JObj(map[]);
      }
    }
  }

  /** Every section's block appears in the page, in section order: block
      `k` starts right after the head and the blocks of the sections
      before it. */
  lemma ChapterInPlace(layout: Layout, show: Show, markdown: Markdown, book: Json, k: nat)
    requires book.JObj? && SectionsValue(book.fields).JArr?
    requires AllTextual(SectionsValue(book.fields).items)
    requires k < |SectionsValue(book.fields).items|
    ensures var items := SectionsValue(book.fields).items;
      var page := Page(layout, show, markdown, book).value;
      var at := |Head(layout, TitleText(show, book.fields), AuthorText(show, book.fields))|
        + |Concat(ChapterTexts(layout, show, markdown, items[..k]))|;
      BlockAt(page, at, ChapterText(layout, show, markdown, items[k]))
  {
    var items := SectionsValue(book.fields).items;
    ChapterTextsPrefix(layout, show, markdown, items, k);
    var head := Head(layout, TitleText(show, book.fields), AuthorText(show, book.fields));
    PageOfTextual(layout, show, markdown, book);
    PartInFrame(head, ChapterTexts(layout, show, markdown, items), layout.tail, k);
  }

  /** A book whose sections all convert is the head, their blocks and the
      tail. */
  lemma PageOfTextual(layout: Layout, show: Show, markdown: Markdown, book: Json)
    requires book.JObj? && SectionsValue(book.fields).JArr?
    requires AllTextual(SectionsValue(book.fields).items)
    ensures Page(layout, show, markdown, book)
      == Ok(Head(layout, TitleText(show, book.fields), AuthorText(show, book.fields))
            + Concat(ChapterTexts(layout, show, markdown, SectionsValue(book.fields).items)) + layout.tail)
  {
  }

  /** The blocks of the first `k` sections are the first `k` blocks. */
  lemma ChapterTextsPrefix(layout: Layout, show: Show, markdown: Markdown, items: seq<Json>, k: nat)
    requires AllTextual(items) && k <= |items|
    ensures AllTextual(items[..k])
    ensures ChapterTexts(layout, show, markdown, items)[..k] == ChapterTexts(layout, show, markdown, items[..k])
  {
  }
}
