/** The exporter (backend/agents/pdf_agent.py): a filesystem-safe filename is
    derived from the topic, the renderer writes the file, and a render error
    is re-raised unchanged. WeasyPrint and `uuid4` are inputs. */
module PdfExport {
  import opened Common
  import opened Strings
  import Paths
  import opened Verifier

  /** The exporter's output directory. */
  const OutputDir: string := "backend/static"

  /** Lower-case hexadecimal digits, the alphabet of `uuid.uuid4().hex`. */
  predicate IsHexDigit(c: char) {
    ('0' <= c <= '9') || ('a' <= c <= 'f')
  }

  /** `uuid.uuid4().hex`: always 32 lower-case hexadecimal digits. */
  type UuidHex = s: string | |s| == 32 && forall i :: 0 <= i < |s| ==> IsHexDigit(s[i])
    witness "00000000000000000000000000000000"

  /** What `write_pdf` did with one page: wrote a file of some size, or
      raised. It may raise after it has opened the file, so a render error
      can leave a partial file of size `left` at the path. */
  datatype RenderOutcome = Written(size: nat) | RenderError(message: string, left: Option<nat>)

  /** The renderer, `HTML(string=page).write_pdf`, as a function of the page. */
  type Renderer = string -> RenderOutcome

  /** What `create_pdf` returns or raises, and the disk afterwards. */
  datatype Export = Export(result: Result<string>, disk: FileSystem)

  /** Python's `str.isalnum` is Unicode-aware; the model takes it as a
      parameter and relies only on this: no alphanumeric character is
      whitespace or a path separator. */
  predicate AlnumWellFormed(isAlnum: char -> bool) {
    forall c :: isAlnum(c) ==> !IsSpace(c) && c != '/'
  }

  /** The characters the comprehension in `create_pdf` keeps. */
  predicate Kept(isAlnum: char -> bool, c: char) {
    isAlnum(c) || c == ' ' || c == '-' || c == '_'
  }

  /** The characters a sanitised topic is made of. */
  predicate Safe(isAlnum: char -> bool, c: char) {
    isAlnum(c) || c == '-' || c == '_'
  }

  /** The filter step: kept characters in their original order. */
  function Filter(isAlnum: char -> bool, s: string): (r: string)
    ensures |r| <= |s|
    ensures forall i :: 0 <= i < |r| ==> Kept(isAlnum, r[i])
  {
    if s == [] then []
    else (if Kept(isAlnum, s[0]) then [s[0]] else []) + Filter(isAlnum, s[1..])
  }

  /** Filtering a string that holds only kept characters is the identity. */
  lemma {:induction false} FilterKeepsKept(isAlnum: char -> bool, s: string)
    requires forall i :: 0 <= i < |s| ==> Kept(isAlnum, s[i])
    ensures Filter(isAlnum, s) == s
  {
    if s != [] {
      FilterKeepsKept(isAlnum, s[1..]);
    }
  }

  /** Filtering drops exactly the characters that are not kept. */
  lemma {:induction false} FilterDropsOnlyUnkept(isAlnum: char -> bool, s: string)
    ensures |Filter(isAlnum, s)| == |s| ==> forall i :: 0 <= i < |s| ==> Kept(isAlnum, s[i])
  {
    if s != [] {
      FilterDropsOnlyUnkept(isAlnum, s[1..]);
      assert |Filter(isAlnum, s[1..])| <= |s| - 1;
    }
  }

  /** `safe_topic`: filter, strip, then every remaining space becomes `_`. */
  function Sanitize(isAlnum: char -> bool, topic: string): string {
    ReplaceAll(Strip(Filter(isAlnum, topic)), " ", "_")
  }

  /** The sanitised topic is made only of alphanumerics, `-` and `_`, so it
      holds no separator and no whitespace, and it is never longer than the
      topic. */
  lemma SanitizeIsSafe(isAlnum: char -> bool, topic: string)
    requires AlnumWellFormed(isAlnum)
    ensures var r := Sanitize(isAlnum, topic);
      && |r| <= |topic|
      && (forall i :: 0 <= i < |r| ==> Safe(isAlnum, r[i]))
      && Paths.NoSlash(r)
      && (forall i :: 0 <= i < |r| ==> !IsSpace(r[i]))
  {
    SanitizeChars(isAlnum, topic);
  }

  /** Stripping keeps a slice of the filtered topic, and the replacement
      maps its only remaining non-safe character, the space, to `_`. */
  lemma SanitizeChars(isAlnum: char -> bool, topic: string)
    ensures var r := Sanitize(isAlnum, topic);
      |r| <= |topic| && forall i :: 0 <= i < |r| ==> Safe(isAlnum, r[i])
  {
    var f := Filter(isAlnum, topic);
    StripKeepsKept(isAlnum, f);
    SpacesReplacedAreSafe(isAlnum, Strip(f));
  }

  /** `strip` only removes characters, so a string of kept characters stays one. */
  lemma StripKeepsKept(isAlnum: char -> bool, f: string)
    requires forall i :: 0 <= i < |f| ==> Kept(isAlnum, f[i])
    ensures |Strip(f)| <= |f|
    ensures forall i :: 0 <= i < |Strip(f)| ==> Kept(isAlnum, Strip(f)[i])
  {
    StripSlice(f);
    SliceKeepsKept(isAlnum, f, |f| - |LStrip(f)|, Strip(f));
  }

  /** Every slice of a string of kept characters is one too. */
  lemma SliceKeepsKept(isAlnum: char -> bool, f: string, a: nat, s: string)
    requires a + |s| <= |f| && s == f[a..a + |s|]
    requires forall i :: 0 <= i < |f| ==> Kept(isAlnum, f[i])
    ensures forall i :: 0 <= i < |s| ==> Kept(isAlnum, s[i])
  {
    forall i | 0 <= i < |s| ensures Kept(isAlnum, s[i]) {
      assert s[i] == f[a + i];
    }
  }

  /** Turning every space of a string of kept characters into `_` leaves
      only safe characters. */
  lemma SpacesReplacedAreSafe(isAlnum: char -> bool, s: string)
    requires forall i :: 0 <= i < |s| ==> Kept(isAlnum, s[i])
    ensures |ReplaceAll(s, " ", "_")| == |s|
    ensures forall i :: 0 <= i < |s| ==> Safe(isAlnum, ReplaceAll(s, " ", "_")[i])
  {
    ReplaceCharIsMap(s, " ", "_");
  }

  /** Edge spaces left by the filter are dropped and each interior space
      becomes exactly one `_`: the result is the filtered topic between its
      first and last non-space character, with spaces mapped to `_`. */
  lemma SanitizeShape(isAlnum: char -> bool, topic: string)
    ensures var f, r := Filter(isAlnum, topic), Sanitize(isAlnum, topic);
      var a := |f| - |LStrip(f)|;
      && a + |r| <= |f|
      && (forall i :: 0 <= i < a ==> IsSpace(f[i]))
      && (forall i :: a + |r| <= i < |f| ==> IsSpace(f[i]))
      && (forall i :: 0 <= i < |r| ==> r[i] == if f[a + i] == ' ' then '_' else f[a + i])
      && (r == [] || (!IsSpace(f[a]) && !IsSpace(f[a + |r| - 1])))
  {
    var f := Filter(isAlnum, topic);
    StripIsTrimmedSlice(f);
    ReplaceCharIsMap(Strip(f), " ", "_");
  }

  /** Sanitising twice is sanitising once. */
  lemma SanitizeIdempotent(isAlnum: char -> bool, topic: string)
    requires AlnumWellFormed(isAlnum)
    ensures Sanitize(isAlnum, Sanitize(isAlnum, topic)) == Sanitize(isAlnum, topic)
  {
    var r := Sanitize(isAlnum, topic);
    SanitizeIsSafe(isAlnum, topic);
    FilterKeepsKept(isAlnum, r);
    StripNoSpace(r);
    NoSpaceNoBlank(r);
    ReplaceAllAbsent(r, " ", "_");
    calc {
      Sanitize(isAlnum, r);
      ReplaceAll(Strip(Filter(isAlnum, r)), " ", "_");
      ReplaceAll(r, " ", "_");
      r;
    }
  }

  /** `f"{safe_topic}_{uuid.uuid4().hex[:8]}.pdf"`. */
  function Filename(isAlnum: char -> bool, topic: string, uuid: UuidHex): string {
    Sanitize(isAlnum, topic) + "_" + Take(uuid, 8) + ".pdf"
  }

  /** The filename is the sanitised topic, `_`, eight hexadecimal digits and
      `.pdf`; it holds no separator. */
  lemma FilenameShape(isAlnum: char -> bool, topic: string, uuid: UuidHex)
    requires AlnumWellFormed(isAlnum)
    ensures var safe, name := Sanitize(isAlnum, topic), Filename(isAlnum, topic, uuid);
      && |name| == |safe| + 13
      && name[..|safe|] == safe
      && name[|safe|] == '_'
      && (forall i :: |safe| < i <= |safe| + 8 ==> IsHexDigit(name[i]))
      && name[|safe| + 9..] == ".pdf"
      && Paths.NoSlash(name)
  {
    SanitizeIsSafe(isAlnum, topic);
  }

  /** The eight characters after the separator are the uuid prefix. */
  lemma SuffixAfterTopic(safe: string, h: string)
    requires |h| == 8
    ensures (safe + "_" + h + ".pdf")[|safe| + 1..|safe| + 9] == h
  {
    var n := safe + "_" + h + ".pdf";
    assert forall i :: 0 <= i < 8 ==> n[|safe| + 1 + i] == h[i];
  }

  /** Two filenames for one topic differ exactly when their uuid prefixes
      differ, which is how retries and concurrent runs avoid collisions. */
  lemma FilenameDeterminedBySuffix(isAlnum: char -> bool, topic: string, u1: UuidHex, u2: UuidHex)
    ensures Filename(isAlnum, topic, u1) == Filename(isAlnum, topic, u2) <==> u1[..8] == u2[..8]
  {
    var safe := Sanitize(isAlnum, topic);
    var h1, h2 := Take(u1, 8), Take(u2, 8);
    assert h1 == u1[..8] && h2 == u2[..8];
    SuffixAfterTopic(safe, h1);
    SuffixAfterTopic(safe, h2);
  }

  /** Joining the output directory with a filename inserts one separator:
      the filename is never empty and never starts with one. */
  lemma JoinFilename(isAlnum: char -> bool, topic: string, uuid: UuidHex)
    requires AlnumWellFormed(isAlnum)
    ensures var name := Filename(isAlnum, topic, uuid);
      Paths.Join(OutputDir, name) == OutputDir + "/" + name
  {
    var name := Filename(isAlnum, topic, uuid);
    FilenameShape(isAlnum, topic, uuid);
    assert name[0] != '/';
    Paths.JoinRelative(OutputDir, name);
  }

  /** `create_pdf`: the page is rendered to `backend/static/<filename>`; what
      the renderer does with it decides between the written file's path and
      the renderer's own error, re-raised unchanged. Only that one path is
      touched, whichever way it goes. */
  function CreatePdf(isAlnum: char -> bool, disk: FileSystem, html: string, topic: string, uuid: UuidHex,
                     render: Renderer): (r: Export)
    requires AlnumWellFormed(isAlnum)
    ensures var path, out := OutputDir + "/" + Filename(isAlnum, topic, uuid), render(html);
      && (r.result.Err? <==> out.RenderError?)
      && (out.Written? ==> r.result == Ok(path) && r.disk == disk[path := out.size])
      && (out.RenderError? ==> r.result == Err(out.message))
      && (out.RenderError? && out.left.None? ==> r.disk == disk)
      && (out.RenderError? && out.left.Some? ==> r.disk == disk[path := out.left.value])
  {
    JoinFilename(isAlnum, topic, uuid);
    var path := Paths.Join(OutputDir, Filename(isAlnum, topic, uuid));
    match render(html)
    case Written(size) => Export(Ok(path), disk[path := size])
    case RenderError(message, left) =>
      Export(Err(message), if left.Some? then disk[path := left.value] else disk)
  }

  /** The returned path names the file by its filename, and the file passes
      verification exactly when the renderer wrote something for the page. */
  lemma ExportedFileVerifies(isAlnum: char -> bool, disk: FileSystem, html: string, topic: string, uuid: UuidHex,
                             render: Renderer)
    requires AlnumWellFormed(isAlnum)
    ensures var r := CreatePdf(isAlnum, disk, html, topic, uuid, render);
      r.result.Ok? ==>
        && Paths.Basename(r.result.value) == Filename(isAlnum, topic, uuid)
        && (VerifyPdf(r.disk, r.result.value) <==> render(html).size > 0)
  {
    var name := Filename(isAlnum, topic, uuid);
    FilenameShape(isAlnum, topic, uuid);
    Paths.BasenameOfJoin(OutputDir, name);
  }
}
