/** The handful of Python `str` operations the pipeline relies on, written out
    with their Python semantics: `strip`, `find`, `in`, `replace`, prefix
    slices and two-sided slices with clamped bounds. */
module Strings {

  /** Python's `str.isspace` characters, which `str.strip()` removes. */
  predicate IsSpace(c: char) {
    || c == ' ' || c == '\t' || c == '\n' || c == '\r'
    || c == '\U{000B}' || c == '\U{000C}'
    || ('\U{001C}' <= c <= '\U{001F}')
    || c == '\U{0085}' || c == '\U{00A0}' || c == '\U{1680}'
    || ('\U{2000}' <= c <= '\U{200A}')
    || c == '\U{2028}' || c == '\U{2029}' || c == '\U{202F}' || c == '\U{205F}' || c == '\U{3000}'
  }

  /** Python's truthiness of `s.strip()` fails exactly for blank strings. */
  predicate IsBlank(s: string) {
    forall i :: 0 <= i < |s| ==> IsSpace(s[i])
  }

  /** `s.lstrip()`: the longest all-space prefix is removed. */
  function LStrip(s: string): (r: string)
    ensures |r| <= |s| && r == s[|s| - |r|..]
    ensures r == [] || !IsSpace(r[0])
    ensures forall i :: 0 <= i < |s| - |r| ==> IsSpace(s[i])
  {
    if |s| > 0 && IsSpace(s[0]) then LStrip(s[1..]) else s
  }

  /** `s.rstrip()`: the longest all-space suffix is removed. */
  function RStrip(s: string): (r: string)
    ensures |r| <= |s| && r == s[..|r|]
    ensures r == [] || !IsSpace(r[|r| - 1])
    ensures forall i :: |r| <= i < |s| ==> IsSpace(s[i])
  {
    if |s| > 0 && IsSpace(s[|s| - 1]) then RStrip(s[..|s| - 1]) else s
  }

  /** `s.strip()`. */
  function Strip(s: string): (r: string)
  {
    RStrip(LStrip(s))
  }

  /** What `strip` keeps is a slice of the input. */
  lemma StripSlice(s: string)
    ensures var r, a := Strip(s), |s| - |LStrip(s)|;
      0 <= a <= |s| - |r| && r == s[a..a + |r|]
  {
    var l := LStrip(s);
    PrefixOfSuffix(s, |s| - |l|, |RStrip(l)|);
  }

  /** A prefix of a suffix is a slice. */
  lemma PrefixOfSuffix<T>(s: seq<T>, a: nat, n: nat)
    requires a + n <= |s|
    ensures s[a..][..n] == s[a..a + n]
  {
  }

  /** What `strip` keeps neither starts nor ends with a space. */
  lemma StripEnds(s: string)
    ensures var r := Strip(s); r == [] || (!IsSpace(r[0]) && !IsSpace(r[|r| - 1]))
  {
    var l := LStrip(s);
    var r := RStrip(l);
    assert r == [] || (r[0] == l[0] && !IsSpace(l[0]));
  }

  /** Everything `strip` drops after what it keeps is space. */
  lemma StripDropsTrailing(s: string)
    ensures forall i :: |s| - |LStrip(s)| + |Strip(s)| <= i < |s| ==> IsSpace(s[i])
  {
    var l := LStrip(s);
    var a := |s| - |l|;
    assert Strip(s) == RStrip(l);
    forall i | a + |RStrip(l)| <= i < |s| ensures IsSpace(s[i]) {
      assert s[i] == l[i - a];
    }
  }

  /** What `strip` keeps is a slice of the input whose ends are not spaces;
      everything it drops, on either side, is space. */
  lemma StripIsTrimmedSlice(s: string)
    ensures var r, a := Strip(s), |s| - |LStrip(s)|;
      && 0 <= a <= |s| - |r| && r == s[a..a + |r|]
      && (r == [] || (!IsSpace(r[0]) && !IsSpace(r[|r| - 1])))
      && (forall i :: 0 <= i < a ==> IsSpace(s[i]))
      && (forall i :: a + |r| <= i < |s| ==> IsSpace(s[i]))
  {
    StripSlice(s);
    StripEnds(s);
    StripDropsTrailing(s);
  }

  /** `s.strip()` is empty exactly when `s` is blank. */
  lemma StripEmptyIffBlank(s: string)
    ensures Strip(s) == [] <==> IsBlank(s)
  {
  }

  /** A string with no space characters is left alone by `strip`. */
  lemma StripNoSpace(s: string)
    requires forall i :: 0 <= i < |s| ==> !IsSpace(s[i])
    ensures Strip(s) == s
  {
  }

  /** A string without space characters contains no `" "`. */
  lemma NoSpaceNoBlank(s: string)
    requires forall i :: 0 <= i < |s| ==> !IsSpace(s[i])
    ensures forall j :: !OccursAt(s, " ", j)
  {
    forall j ensures !OccursAt(s, " ", j) {
      if 0 <= j < |s| {
        assert s[j..j + 1][0] == s[j];
      }
    }
  }

  /** `p` occurs in `s` at index `i`. */
  predicate OccursAt(s: string, p: string, i: int) {
    0 <= i && i + |p| <= |s| && s[i..i + |p|] == p
  }

  /** Python's `s.find(p)`: the first index where `p` occurs, or -1. */
  function Find(s: string, p: string): (r: int)
    ensures -1 <= r <= |s|
    ensures r >= 0 ==> OccursAt(s, p, r)
    ensures r >= 0 ==> forall j :: 0 <= j < r ==> !OccursAt(s, p, j)
    ensures r == -1 ==> forall j :: !OccursAt(s, p, j)
  {
    if |p| > |s| then -1
    else if s[..|p|] == p then 0
    else
      var k := Find(s[1..], p);
      assert forall j :: 1 <= j ==> (OccursAt(s, p, j) <==> OccursAt(s[1..], p, j - 1));
      if k < 0 then -1 else k + 1
  }

  /** Python's `p in s`. */
  predicate Contains(s: string, p: string) {
    Find(s, p) >= 0
  }

  /** An occurrence anywhere makes `p in s` true. */
  lemma OccurrenceIsContained(s: string, p: string, i: int)
    requires OccursAt(s, p, i)
    ensures Contains(s, p)
  {
  }

  /** `"\n".join(lines)`. */
  function JoinLines(lines: seq<string>): string {
    if lines == [] then ""
    else if |lines| == 1 then lines[0]
    else lines[0] + "\n" + JoinLines(lines[1..])
  }

  /** `p` occurs in `a + (p + b)` right after `a`. */
  lemma OccursBetween(a: string, p: string, b: string)
    ensures OccursAt(a + (p + b), p, |a|)
    ensures Contains(a + (p + b), p)
  {
    var s := a + (p + b);
    assert s[|a|..|a| + |p|] == p;
    OccurrenceIsContained(s, p, |a|);
  }

  /** A concatenation is blank exactly when both sides are. */
  lemma BlankAppend(a: string, b: string)
    ensures IsBlank(a + b) <==> IsBlank(a) && IsBlank(b)
  {
    if IsBlank(a + b) {
      forall i | 0 <= i < |a| ensures IsSpace(a[i]) {
        assert (a + b)[i] == a[i];
      }
      forall i | 0 <= i < |b| ensures IsSpace(b[i]) {
        assert (a + b)[|a| + i] == b[i];
      }
    }
  }

  /** Concatenation regroups freely. */
  lemma AppendAssoc<T>(a: seq<T>, b: seq<T>, c: seq<T>)
    ensures (a + b) + c == a + (b + c)
  {
  }

  /** Python's `s.replace(p, x)` for a non-empty pattern: occurrences are
      replaced left to right, without overlap. */
  function ReplaceAll(s: string, p: string, x: string): string
    requires |p| > 0
    decreases |s|
  {
    if |s| < |p| then s
    else if s[..|p|] == p then x + ReplaceAll(s[|p|..], p, x)
    else [s[0]] + ReplaceAll(s[1..], p, x)
  }

  /** Python's `s[:n]` for `n >= 0`. */
  function Take(s: string, n: nat): (r: string)
    ensures |r| <= n && |r| <= |s|
    ensures |s| <= n ==> r == s
    ensures |s| > n ==> |r| == n
    ensures forall i :: 0 <= i < |r| ==> r[i] == s[i]
  {
    if |s| <= n then s else s[..n]
  }

  /** Python's `s[a:b]` for non-negative bounds: both are clamped to the
      length and a reversed range is empty. */
  function Slice<T>(s: seq<T>, a: nat, b: nat): (r: seq<T>)
  {
    if a >= b || a >= |s| then [] else s[a..if b <= |s| then b else |s|]
  }

  /** Replacing a pattern that does not occur changes nothing. */
  lemma {:induction false} ReplaceAllAbsent(s: string, p: string, x: string)
    requires |p| > 0
    requires forall j :: !OccursAt(s, p, j)
    ensures ReplaceAll(s, p, x) == s
    decreases |s|
  {
    if |s| >= |p| {
      assert !OccursAt(s, p, 0);
      assert forall j :: OccursAt(s[1..], p, j) ==> OccursAt(s, p, j + 1);
      ReplaceAllAbsent(s[1..], p, x);
    }
  }

  /** Replacing one character by another is a character-wise map: the length
      is kept and every other character stays in place. */
  lemma {:induction false} ReplaceCharIsMap(s: string, p: string, x: string)
    requires |p| == 1 && |x| == 1
    ensures |ReplaceAll(s, p, x)| == |s|
    ensures forall i :: 0 <= i < |s| ==>
      ReplaceAll(s, p, x)[i] == (if s[i] == p[0] then x[0] else s[i])
    decreases |s|
  {
    if |s| >= 1 {
      ReplaceCharIsMap(s[1..], p, x);
      if s[..1] == p {
        assert ReplaceAll(s, p, x) == x + ReplaceAll(s[1..], p, x);
      } else {
        assert ReplaceAll(s, p, x) == [s[0]] + ReplaceAll(s[1..], p, x);
      }
    }
  }

  /** Where the text disagrees with the pattern at some offset `k`, no
      occurrence starts at its front, and its first character is copied
      through. */
  lemma ReplaceAllStep(t: string, p: string, x: string, k: nat)
    requires k < |p| && k < |t| && t[k] != p[k]
    ensures ReplaceAll(t, p, x) == [t[0]] + ReplaceAll(t[1..], p, x)
  {
    if |t| >= |p| {
      assert t[..|p|][k] != p[k];
    }
  }

  /** A prefix that holds no first character of the pattern passes through
      `replace` untouched. */
  lemma {:induction false} ReplaceAllSkipsPrefix(pre: string, s: string, p: string, x: string)
    requires |p| > 0
    requires forall i :: 0 <= i < |pre| ==> pre[i] != p[0]
    ensures ReplaceAll(pre + s, p, x) == pre + ReplaceAll(s, p, x)
    decreases |pre|
  {
    if |pre| > 0 {
      var t := pre + s;
      assert t[0] == pre[0];
      assert t[1..] == pre[1..] + s;
      ReplaceAllStep(t, p, x, 0);
      ReplaceAllSkipsPrefix(pre[1..], s, p, x);
      assert pre == [pre[0]] + pre[1..];
    } else {
      assert pre + s == s;
    }
  }

  /** A tail that no occurrence of the pattern reaches into passes through
      `replace` untouched. */
  lemma {:induction false} ReplaceAllKeepsTail(a: string, t: string, p: string, x: string)
    requires |p| > 0
    requires forall i :: |a| < i + |p| ==> !OccursAt(a + t, p, i)
    ensures ReplaceAll(a + t, p, x) == ReplaceAll(a, p, x) + t
    decreases |a|
  {
    var s := a + t;
    if a == [] {
      assert s == t;
      ReplaceAllAbsent(t, p, x);
    } else if OccursAt(s, p, 0) {
      assert a[..|p|] == s[..|p|];
      ReplaceAllMatch(s, p, x);
      ReplaceAllMatch(a, p, x);
      assert s[|p|..] == a[|p|..] + t;
      TailStillClear(a, t, p, |p|);
      ReplaceAllKeepsTail(a[|p|..], t, p, x);
      AppendAssoc(x, ReplaceAll(a[|p|..], p, x), t);
    } else {
      if |a| >= |p| {
        assert a[..|p|] == s[..|p|];
      }
      ReplaceAllNoMatch(s, p, x);
      ReplaceAllNoMatch(a, p, x);
      assert s[1..] == a[1..] + t;
      TailStillClear(a, t, p, 1);
      ReplaceAllKeepsTail(a[1..], t, p, x);
      AppendAssoc([a[0]], ReplaceAll(a[1..], p, x), t);
    }
  }

  /** `replace` on a text that starts with the pattern. */
  lemma ReplaceAllMatch(s: string, p: string, x: string)
    requires |p| > 0 && OccursAt(s, p, 0)
    ensures ReplaceAll(s, p, x) == x + ReplaceAll(s[|p|..], p, x)
  {
    assert s[..|p|] == s[0..|p|];
  }

  /** `replace` on a non-empty text that does not start with the pattern. */
  lemma ReplaceAllNoMatch(s: string, p: string, x: string)
    requires |p| > 0 && |s| > 0 && !OccursAt(s, p, 0)
    ensures ReplaceAll(s, p, x) == [s[0]] + ReplaceAll(s[1..], p, x)
  {
    if |s| >= |p| {
      assert s[..|p|] == s[0..|p|];
    } else {
      assert [s[0]] + s[1..] == s;
    }
  }

  /** Dropping `k` leading characters keeps the tail clear of the pattern. */
  lemma TailStillClear(a: string, t: string, p: string, k: nat)
    requires 0 < k <= |a|
    requires forall i :: |a| < i + |p| ==> !OccursAt(a + t, p, i)
    ensures forall i :: |a[k..]| < i + |p| ==> !OccursAt(a[k..] + t, p, i)
  {
    var u := a + t;
    assert a[k..] + t == u[k..];
    forall i | |a[k..]| < i + |p| ensures !OccursAt(u[k..], p, i) {
      assert !OccursAt(u, p, i + k);
      if 0 <= i && i + |p| <= |u[k..]| {
        assert u[k..][i..i + |p|] == u[i + k..i + k + |p|];
      }
    }
  }

  /** Strings joined end to end, the way repeated `+=` builds a text. */
  function Concat(parts: seq<string>): string {
    if parts == [] then [] else Concat(parts[..|parts| - 1]) + parts[|parts| - 1]
  }

  lemma {:induction false} ConcatAppend(a: seq<string>, b: seq<string>)
    ensures Concat(a + b) == Concat(a) + Concat(b)
    decreases |b|
  {
    if b == [] {
      assert a + b == a;
    } else {
      var c := b[..|b| - 1];
      assert (a + b)[..|a + b| - 1] == a + c;
      ConcatAppend(a, c);
      assert b[..|b| - 1] == c;
    }
  }

  /** Part `k` sits in the joined text right after the parts before it. */
  lemma {:induction false} ConcatAt(parts: seq<string>, k: nat)
    requires k < |parts|
    ensures var at := |Concat(parts[..k])|;
      && at + |parts[k]| <= |Concat(parts)|
      && Concat(parts)[at..at + |parts[k]|] == parts[k]
  {
    assert parts == parts[..k] + [parts[k]] + parts[k + 1..];
    ConcatAppend(parts[..k] + [parts[k]], parts[k + 1..]);
    ConcatAppend(parts[..k], [parts[k]]);
    assert Concat([parts[k]]) == parts[k] by {
      assert [parts[k]][..0] == [];
    }
  }

  /** `block` occurs in `s` starting at index `at`. */
  predicate BlockAt(s: string, at: nat, block: string) {
    at + |block| <= |s| && s[at..at + |block|] == block
  }

  /** In `head + Concat(parts) + tail`, part `k` sits right after the head
      and the parts before it. */
  lemma PartInFrame(head: string, parts: seq<string>, tail: string, k: nat)
    requires k < |parts|
    ensures BlockAt(head + Concat(parts) + tail, |head| + |Concat(parts[..k])|, parts[k])
  {
    ConcatAt(parts, k);
    SliceInFrame(head, Concat(parts), tail, |Concat(parts[..k])|, |parts[k]|);
  }

  /** A slice of the middle of `head + m + tail`, shifted by the head. */
  lemma SliceInFrame(head: string, m: string, tail: string, i: nat, n: nat)
    requires i + n <= |m|
    ensures (head + m + tail)[|head| + i..|head| + i + n] == m[i..i + n]
  {
    var w := head + m + tail;
    assert forall j :: |head| + i <= j < |head| + i + n ==> w[j] == m[j - |head|];
  }
}
