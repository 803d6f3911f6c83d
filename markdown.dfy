/**
 * The Markdown normaliser, `cleanup_markdown`: three rewrites of the raw
 * Markdown text, applied in this order before the text is parsed.
 *   1. `re.sub(r"(?m)^\s*#{1,6}\s*$\n?", "", md)` removes empty headings;
 *   2. `re.sub(r"\\([\\`*_{}\[\]()#+\-.!|>~])", r"\1", md)` unescapes
 *      backslash-escaped punctuation;
 *   3. a blank line is put between a pipe-table row and a heading line that
 *      follows it directly, so that the table parser does not take the
 *      heading into the table.
 * Each regular expression is written out as an explicit scan over characters.
 */
module Markdown {
  import opened Wrappers
  import opened Strings
  import opened Interleaving
  import opened Filtering

  // ---------------------------------------------------------------------------
  // Rule 1: empty headings
  // ---------------------------------------------------------------------------

  /** The length of the run of '#' that starts `s`. */
  function HashRun(s: string): (n: nat)
    ensures n <= |s|
    ensures n < |s| ==> s[n] != '#'
  {
    if s == [] || s[0] != '#' then 0 else 1 + HashRun(s[1..])
  }

  /** Everything HashRun counts is a '#'. */
  lemma {:induction false} HashRunSpan(s: string)
    ensures forall i :: 0 <= i < HashRun(s) ==> s[i] == '#'
    decreases |s|
  {
    if s != [] && s[0] == '#' {
      HashRunSpan(s[1..]);
      assert forall i :: 1 <= i < HashRun(s) ==> s[i] == s[1..][i - 1];
    }
  }

  /** The index of the last line feed of `s`, if any. */
  function LastNewline(s: string): (r: Option<nat>)
    ensures r.Some? ==> r.value < |s| && s[r.value] == '\n'
  {
    if s == [] then None
    else if s[|s| - 1] == '\n' then Some(|s| - 1)
    else LastNewline(s[..|s| - 1])
  }

  /** What `\s*$\n?` consumes at the start of `t`, the text after the hashes:
      all of `t` when only whitespace is left, otherwise the whitespace up to
      and including the last line feed before the next visible character.
      None when that whitespace holds no line feed. */
  function TailMatch(t: string): (r: Option<nat>)
    ensures r.Some? ==> r.value <= |t| && (r.value == |t| || (0 < r.value && t[r.value - 1] == '\n'))
  {
    var w := LeadingSpaces(t);
    if w == |t| then Some(|t|)
    else
      var ln := LastNewline(t[..w]);
      if ln.None? then None else Some(ln.value + 1)
  }

  /** The length of the match of `^\s*#{1,6}\s*$\n?` at the start of `t`
      (which must be a line start), or None when it does not match there.  A
      match always ends at the end of the text or just after a line feed. */
  function EmptyHeadingMatch(t: string): (r: Option<nat>)
    ensures r.Some? ==> 0 < r.value <= |t| && (r.value == |t| || t[r.value - 1] == '\n')
  {
    var a := LeadingSpaces(t);
    var h := HashRun(t[a..]);
    if h < 1 || 6 < h then None
    else
      var tm := TailMatch(t[a + h..]);
      if tm.None? then None else Some(a + h + tm.value)
  }

  /** `re.sub` with the rule-1 pattern, scanning `t` left to right;
      `lineStart` says whether `t` begins a line, where `(?m)^` can match. */
  function RemoveEmptyHeadingsFrom(t: string, lineStart: bool): string
    decreases |t|, 1
  {
    if t == [] then []
    else if lineStart then RemoveEmptyHeadingsAtLineStart(t)
    else [t[0]] + RemoveEmptyHeadingsFrom(t[1..], t[0] == '\n')
  }

  /** The scan at a line start: a match is dropped and the scan resumes after
      it; otherwise one character is copied. */
  function RemoveEmptyHeadingsAtLineStart(t: string): string
    requires t != []
    decreases |t|, 0
  {
    var m := EmptyHeadingMatch(t);
    if m.Some? then RemoveEmptyHeadingsFrom(t[m.value..], true)
    else [t[0]] + RemoveEmptyHeadingsFrom(t[1..], t[0] == '\n')
  }

  /** Rule 1 on the whole text (app.py line 292). */
  function RemoveEmptyHeadings(md: string): string {
    RemoveEmptyHeadingsFrom(md, true)
  }

  /** A line holding only whitespace, one to six '#' and whitespace. */
  predicate IsEmptyHeadingLine(line: string) {
    var a := LeadingSpaces(line);
    var h := HashRun(line[a..]);
    1 <= h <= 6 && AllSpace(line[a + h..])
  }

  /** Every character of `s` is a '#'. */
  predicate AllHash(s: string) {
    forall i :: 0 <= i < |s| ==> s[i] == '#'
  }

  /** The pattern of an empty heading line read declaratively, as the regular
      expression states it: whitespace up to `a`, one to six '#' up to `b`,
      whitespace to the end. */
  ghost predicate EmptyHeadingLinePattern(line: string) {
    exists a: nat, b: nat {:trigger line[a..b]} ::
      a < b <= |line| && b - a <= 6 && AllSpace(line[..a]) && AllHash(line[a..b]) && AllSpace(line[b..])
  }

  /** The first non-blank line of `lines` is an empty heading. */
  predicate StartsWithEmptyHeading(lines: seq<string>)
    decreases |lines|
  {
    |lines| > 0 &&
    if AllSpace(lines[0]) then StartsWithEmptyHeading(lines[1..]) else IsEmptyHeadingLine(lines[0])
  }

  /** `lines` without its leading blank lines. */
  function DropBlankLines(lines: seq<string>): (r: seq<string>)
    ensures |r| <= |lines| && r == lines[|lines| - |r|..]
    ensures r != [] ==> !AllSpace(r[0])
    ensures forall i :: 0 <= i < |lines| - |r| ==> AllSpace(lines[i])
  {
    if lines == [] || !AllSpace(lines[0]) then lines
    else
      var r := DropBlankLines(lines[1..]);
      assert lines[1..][|lines[1..]| - |r|..] == lines[|lines| - |r|..];
      r
  }

  /** The lines after the first non-blank one. */
  function AfterFirstNonBlank(lines: seq<string>): (r: seq<string>)
    ensures lines != [] ==> |r| < |lines|
    ensures |r| <= |lines| && r == lines[|lines| - |r|..]
  {
    if lines == [] then []
    else if AllSpace(lines[0]) then
      var r := AfterFirstNonBlank(lines[1..]);
      assert lines[1..][|lines[1..]| - |r|..] == lines[|lines| - |r|..];
      r
    else lines[1..]
  }

  /** Rule 1 restated on lines: an empty heading line goes, together with the
      blank lines around it that the pattern's `\s*` swallows (those before it
      back to the previous visible line, those after it up to the next).  When
      nothing visible follows, the text ends where the removed lines began. */
  function StripEmptyHeadingLines(lines: seq<string>): (r: seq<string>)
    requires |lines| >= 1
    ensures |r| >= 1
    decreases |lines|
  {
    if StartsWithEmptyHeading(lines) then
      var rest := DropBlankLines(AfterFirstNonBlank(lines));
      if rest == [] then [""] else StripEmptyHeadingLines(rest)
    else if |lines| == 1 then lines
    else [lines[0]] + StripEmptyHeadingLines(lines[1..])
  }

  /** A line that carries content: not blank and not an empty heading. */
  predicate IsContentLine(line: string) {
    !AllSpace(line) && !IsEmptyHeadingLine(line)
  }

  /** The content lines of `lines`, in order. */
  function ContentLines(lines: seq<string>): seq<string> {
    Filter(lines, IsContentLine)
  }

  // --- The character scan agrees with the line view ---

  lemma {:induction false} LeadingSpacesAfterSpace(p: string, t: string)
    requires AllSpace(p)
    ensures LeadingSpaces(p + t) == |p| + LeadingSpaces(t)
    decreases |p|
  {
    if p == [] {
      assert p + t == t;
    } else {
      assert (p + t)[0] == p[0] && IsSpace(p[0]);
      assert (p + t)[1..] == p[1..] + t;
      assert AllSpace(p[1..]) by {
        forall i | 0 <= i < |p[1..]| ensures IsSpace(p[1..][i]) { assert p[1..][i] == p[i + 1]; }
      }
      LeadingSpacesAfterSpace(p[1..], t);
    }
  }

  lemma {:induction false} LeadingSpacesWithinLine(x: string, y: string)
    requires LeadingSpaces(x) < |x|
    ensures LeadingSpaces(x + y) == LeadingSpaces(x)
    decreases |x|
  {
    if IsSpace(x[0]) {
      assert (x + y)[1..] == x[1..] + y;
      LeadingSpacesWithinLine(x[1..], y);
    }
  }

  lemma {:induction false} HashRunWithinLine(x: string, y: string)
    requires y == [] || y[0] != '#'
    ensures HashRun(x + y) == HashRun(x)
    decreases |x|
  {
    if x == [] {
      assert x + y == y;
    } else if x[0] == '#' {
      assert (x + y)[1..] == x[1..] + y;
      HashRunWithinLine(x[1..], y);
    }
  }

  lemma {:induction false} LastNewlineConcat(p: string, q: string)
    ensures LastNewline(q).Some? ==> LastNewline(p + q).Some? && LastNewline(p + q).value == |p| + LastNewline(q).value
    ensures LastNewline(q).None? ==> LastNewline(p + q) == LastNewline(p)
    decreases |q|
  {
    if q == [] {
      assert p + q == p;
    } else {
      var q' := q[..|q| - 1];
      DropLastOfConcat(p, q);
      assert (p + q)[|p + q| - 1] == q[|q| - 1];
      LastNewlineConcat(p, q');
    }
  }

  /** EmptyHeadingMatch from its three parts: the leading whitespace, the run
      of hashes and the match of the tail. */
  lemma {:induction false} EmptyHeadingMatchParts(t: string, a: nat, h: nat, tm: Option<nat>)
    requires LeadingSpaces(t) == a && HashRun(t[a..]) == h && TailMatch(t[a + h..]) == tm
    ensures EmptyHeadingMatch(t).Some? == (1 <= h <= 6 && tm.Some?)
    ensures EmptyHeadingMatch(t).Some? ==> EmptyHeadingMatch(t).value == a + h + tm.value
  {
    if h < 1 || 6 < h {
      assert EmptyHeadingMatch(t).None?;
    } else if tm.None? {
      assert EmptyHeadingMatch(t).None?;
    } else {
      assert EmptyHeadingMatch(t).value == a + h + tm.value;
    }
  }

  /** A match depends only on where the leading whitespace ends and on the
      text after it. */
  lemma {:induction false} EmptyHeadingMatchShift(u: string, t: string, d: nat, a: nat)
    requires a <= |t| && d + a <= |u| && u[d + a..] == t[a..]
    requires LeadingSpaces(u) == d + a && LeadingSpaces(t) == a
    ensures EmptyHeadingMatch(u).Some? == EmptyHeadingMatch(t).Some?
    ensures EmptyHeadingMatch(t).Some? ==> EmptyHeadingMatch(u).value == d + EmptyHeadingMatch(t).value
  {
    var h := HashRun(t[a..]);
    DropDrop(u, d + a, h);
    DropDrop(t, a, h);
    var tm := TailMatch(t[a + h..]);
    EmptyHeadingMatchParts(t, a, h, tm);
    EmptyHeadingMatchParts(u, d + a, h, tm);
  }

  /** Blank text in front shifts a match without changing it. */
  lemma {:induction false} EmptyHeadingMatchAfterSpace(p: string, t: string)
    requires AllSpace(p)
    ensures EmptyHeadingMatch(p + t).Some? == EmptyHeadingMatch(t).Some?
    ensures EmptyHeadingMatch(t).Some? ==> EmptyHeadingMatch(p + t).value == |p| + EmptyHeadingMatch(t).value
  {
    LeadingSpacesAfterSpace(p, t);
    var a := LeadingSpaces(t);
    assert (p + t)[|p| + a..] == t[a..];
    EmptyHeadingMatchShift(p + t, t, |p|, a);
  }

  /** TailMatch from its parts: the leading whitespace and, when something
      visible follows it, the last line feed inside that whitespace. */
  lemma TailMatchParts(t: string, w: nat)
    requires LeadingSpaces(t) == w
    ensures TailMatch(t).Some? == (w == |t| || LastNewline(t[..w]).Some?)
    ensures w == |t| ==> TailMatch(t).value == |t|
    ensures w < |t| && LastNewline(t[..w]).Some? ==> TailMatch(t).value == LastNewline(t[..w]).value + 1
  {
  }

  /** When the whitespace of `u` runs on from a prefix `p` that ends in a line
      feed into `v`, the tail match of `u` covers `p` and then that of `v`. */
  lemma {:induction false} TailMatchShift(u: string, p: string, v: string)
    requires u == p + v && |p| > 0 && p[|p| - 1] == '\n'
    requires LeadingSpaces(u) == |p| + LeadingSpaces(v)
    ensures TailMatch(u).Some?
    ensures TailMatch(v).Some? ==> TailMatch(u).value == |p| + TailMatch(v).value
    ensures TailMatch(v).None? ==> TailMatch(u).value == |p|
  {
    var w := LeadingSpaces(v);
    if w < |v| {
      TakeOfConcat(p, v, w);
      LastNewlineConcat(p, v[..w]);
      LastNewlineAtEnd(p);
      TailMatchParts(v, w);
      TailMatchParts(u, |p| + w);
    } else {
      TailMatchParts(v, w);
      TailMatchParts(u, |p| + w);
    }
  }

  lemma LastNewlineAtEnd(p: string)
    requires |p| > 0 && p[|p| - 1] == '\n'
    ensures LastNewline(p).Some? && LastNewline(p).value == |p| - 1
  {
  }

  /** The tail of a match: whitespace, a line feed, then more lines. */
  lemma {:induction false} TailMatchAfterNewline(x: string, v: string)
    requires AllSpace(x)
    ensures TailMatch(x + "\n" + v).Some?
    ensures TailMatch(v).Some? ==> TailMatch(x + "\n" + v).value == |x| + 1 + TailMatch(v).value
    ensures TailMatch(v).None? ==> TailMatch(x + "\n" + v).value == |x| + 1
  {
    var p := x + "\n";
    AllSpaceConcat(x, "\n");
    LeadingSpacesAfterSpace(p, v);
    TailMatchShift(p + v, p, v);
  }

  lemma {:induction false} TailMatchInsideLine(x: string, y: string)
    requires '\n' !in x && !AllSpace(x)
    ensures TailMatch(x + y).None?
  {
    LeadingSpacesSpan(x);
    assert LeadingSpaces(x) < |x|;
    LeadingSpacesWithinLine(x, y);
    var w := LeadingSpaces(x);
    assert (x + y)[..w] == x[..w];
    assert forall i :: 0 <= i < w ==> x[..w][i] == x[i];
  }

  /** A visible first line stops the tail match. */
  lemma {:induction false} TailMatchAtVisibleLine(rest: seq<string>)
    requires |rest| >= 1 && IsLineList(rest) && !AllSpace(rest[0])
    ensures TailMatch(Join(rest)).None?
  {
    if |rest| == 1 {
      TailMatchInsideLine(rest[0], "");
      assert rest[0] + "" == rest[0];
    } else {
      assert Join(rest) == rest[0] + ("\n" + Join(rest[1..]));
      TailMatchInsideLine(rest[0], "\n" + Join(rest[1..]));
    }
  }

  /** After an empty heading, whitespace and blank lines up to the next
      visible line are consumed. */
  lemma {:induction false} TailMatchOverLines(x: string, rest: seq<string>)
    requires AllSpace(x) && |rest| >= 1 && IsLineList(rest)
    ensures var u := x + "\n" + Join(rest);
            var after := DropBlankLines(rest);
            TailMatch(u).Some? &&
            (after == [] ==> TailMatch(u).value == |u|) &&
            (after != [] ==> u[TailMatch(u).value..] == Join(after))
    decreases |rest|
  {
    var v := Join(rest);
    TailMatchAfterNewline(x, v);
    if !AllSpace(rest[0]) {
      TailMatchAtVisibleLine(rest);
      assert (x + "\n" + v)[|x| + 1..] == v;
    } else if |rest| == 1 {
      assert LeadingSpaces(v) == |v|;
    } else {
      TailMatchOverBlankLine(x, rest);
    }
  }

  lemma {:induction false} TailMatchOverBlankLine(x: string, rest: seq<string>)
    requires AllSpace(x) && |rest| >= 2 && IsLineList(rest) && AllSpace(rest[0])
    ensures var u := x + "\n" + Join(rest);
            var after := DropBlankLines(rest);
            TailMatch(u).Some? &&
            (after == [] ==> TailMatch(u).value == |u|) &&
            (after != [] ==> u[TailMatch(u).value..] == Join(after))
    decreases |rest|, 0
  {
    assert Join(rest) == rest[0] + "\n" + Join(rest[1..]);
    assert DropBlankLines(rest) == DropBlankLines(rest[1..]);
    TailMatchOverLines(rest[0], rest[1..]);
    TailMatchCompose(x, Join(rest), DropBlankLines(rest));
  }

  /** A tail match that reaches `rest` extends over blank text and a line feed
      in front of it. */
  lemma {:induction false} TailMatchCompose(x: string, v: string, after: seq<string>)
    requires AllSpace(x) && TailMatch(v).Some?
    requires after == [] ==> TailMatch(v).value == |v|
    requires after != [] ==> v[TailMatch(v).value..] == Join(after)
    ensures var u := x + "\n" + v;
            TailMatch(u).Some? &&
            (after == [] ==> TailMatch(u).value == |u|) &&
            (after != [] ==> u[TailMatch(u).value..] == Join(after))
  {
    TailMatchAfterNewline(x, v);
    var k := TailMatch(v).value;
    assert (x + "\n" + v)[|x| + 1 + k..] == v[k..];
  }

  /** The rule-1 pattern against a text whose lines are `lines`: it matches at
      the start exactly when the first non-blank line is an empty heading, and
      the match runs to the start of the next visible line, or to the end. */
  ghost predicate MatchAgreesWithLines(lines: seq<string>)
    requires |lines| >= 1
  {
    var t := Join(lines);
    var m := EmptyHeadingMatch(t);
    var after := DropBlankLines(AfterFirstNonBlank(lines));
    (StartsWithEmptyHeading(lines) <==> m.Some?) &&
    (m.Some? && after == [] ==> m.value == |t|) &&
    (m.Some? && after != [] ==> t[m.value..] == Join(after))
  }

  /** Where the rule-1 pattern matches at the start of a joined text. */
  lemma {:induction false} EmptyHeadingMatchOfLines(lines: seq<string>)
    requires |lines| >= 1 && IsLineList(lines)
    ensures MatchAgreesWithLines(lines)
    decreases |lines|, 1
  {
    if !AllSpace(lines[0]) {
      MatchAtVisibleLine(lines);
    } else if |lines| == 1 {
      var t := Join(lines);
      assert LeadingSpaces(t) == |t|;
      EmptyHeadingMatchParts(t, |t|, 0, TailMatch(t[|t|..]));
      assert !StartsWithEmptyHeading(lines[1..]);
    } else {
      MatchAfterBlankLine(lines);
    }
  }

  lemma {:induction false} MatchAfterBlankLine(lines: seq<string>)
    requires |lines| >= 2 && IsLineList(lines) && AllSpace(lines[0])
    ensures MatchAgreesWithLines(lines)
    decreases |lines|, 0
  {
    var p := lines[0] + "\n";
    var v := Join(lines[1..]);
    AllSpaceConcat(lines[0], "\n");
    EmptyHeadingMatchAfterSpace(p, v);
    EmptyHeadingMatchOfLines(lines[1..]);
    MatchAgreesAfterPrefix(lines, p);
  }

  /** A blank first line passes the pattern's verdict on the rest through,
      shifted by its own length. */
  lemma {:induction false} MatchAgreesAfterPrefix(lines: seq<string>, p: string)
    requires |lines| >= 2 && AllSpace(lines[0]) && p == lines[0] + "\n"
    requires MatchAgreesWithLines(lines[1..])
    requires EmptyHeadingMatch(p + Join(lines[1..])).Some? == EmptyHeadingMatch(Join(lines[1..])).Some?
    requires EmptyHeadingMatch(Join(lines[1..])).Some? ==>
               EmptyHeadingMatch(p + Join(lines[1..])).value == |p| + EmptyHeadingMatch(Join(lines[1..])).value
    ensures MatchAgreesWithLines(lines)
  {
    var v := Join(lines[1..]);
    var t := Join(lines);
    assert t == p + v;
    assert StartsWithEmptyHeading(lines) == StartsWithEmptyHeading(lines[1..]);
    assert AfterFirstNonBlank(lines) == AfterFirstNonBlank(lines[1..]);
    var after := DropBlankLines(AfterFirstNonBlank(lines));
    MatchShiftedAgrees(t, p, v, StartsWithEmptyHeading(lines), after == [], Join(after));
  }

  lemma {:induction false} MatchShiftedAgrees(t: string, p: string, v: string, starts: bool, last: bool, rest: string)
    requires t == p + v
    requires EmptyHeadingMatch(t).Some? == EmptyHeadingMatch(v).Some?
    requires EmptyHeadingMatch(v).Some? ==> EmptyHeadingMatch(t).value == |p| + EmptyHeadingMatch(v).value
    requires var m := EmptyHeadingMatch(v);
             (starts <==> m.Some?) && (m.Some? && last ==> m.value == |v|) &&
             (m.Some? && !last ==> v[m.value..] == rest)
    ensures var m := EmptyHeadingMatch(t);
            (starts <==> m.Some?) && (m.Some? && last ==> m.value == |t|) &&
            (m.Some? && !last ==> t[m.value..] == rest)
  {
    var m := EmptyHeadingMatch(v);
    if m.Some? {
      assert t[|p| + m.value..] == v[m.value..];
    }
  }

  /** The first line is visible: the pattern matches iff it is an empty
      heading, and the match then swallows the blank lines after it. */
  lemma {:induction false} MatchAtVisibleLine(lines: seq<string>)
    requires |lines| >= 1 && IsLineList(lines) && !AllSpace(lines[0])
    ensures MatchAgreesWithLines(lines)
  {
    var x := lines[0];
    var a := LeadingSpaces(x);
    if IsEmptyHeadingLine(x) {
      EmptyHeadingTail(lines, a + HashRun(x[a..]));
    } else {
      assert EmptyHeadingMatch(Join(lines)).None? by {
        NoMatchAtContentLine(lines);
      }
    }
  }

  /** A visible line that is not an empty heading: no match. */
  lemma {:induction false} NoMatchAtContentLine(lines: seq<string>)
    requires |lines| >= 1 && IsLineList(lines) && !AllSpace(lines[0]) && !IsEmptyHeadingLine(lines[0])
    ensures EmptyHeadingMatch(Join(lines)).None?
  {
    var y := if |lines| == 1 then "" else "\n" + Join(lines[1..]);
    assert Join(lines) == lines[0] + y;
    NoMatchInLine(lines[0], y);
  }

  /** The head of a visible line `x` (its indentation and its hashes) is
      the same whatever follows the line. */
  lemma {:induction false} LineHead(x: string, y: string)
    requires '\n' !in x && !AllSpace(x) && (y == [] || y[0] == '\n')
    ensures LeadingSpaces(x + y) == LeadingSpaces(x)
    ensures HashRun((x + y)[LeadingSpaces(x)..]) == HashRun(x[LeadingSpaces(x)..])
    ensures (x + y)[LeadingSpaces(x) + HashRun(x[LeadingSpaces(x)..])..] ==
            x[LeadingSpaces(x) + HashRun(x[LeadingSpaces(x)..])..] + y
  {
    LeadingSpacesSpan(x);
    LeadingSpacesWithinLine(x, y);
    var a := LeadingSpaces(x);
    DropOfConcat(x, y, a);
    HashRunWithinLine(x[a..], y);
    var b := a + HashRun(x[a..]);
    DropOfConcat(x, y, b);
  }

  lemma {:induction false} NoMatchInLine(x: string, y: string)
    requires '\n' !in x && !AllSpace(x) && !IsEmptyHeadingLine(x) && (y == [] || y[0] == '\n')
    ensures EmptyHeadingMatch(x + y).None?
  {
    LineHead(x, y);
    var a := LeadingSpaces(x);
    NoMatchAfterHead(x, y, a, HashRun(x[a..]));
  }

  lemma NoMatchAfterHead(x: string, y: string, a: nat, h: nat)
    requires '\n' !in x && a + h <= |x|
    requires LeadingSpaces(x + y) == a && HashRun((x + y)[a..]) == h && (x + y)[a + h..] == x[a + h..] + y
    requires 1 <= h <= 6 ==> !AllSpace(x[a + h..])
    ensures EmptyHeadingMatch(x + y).None?
  {
    if 1 <= h <= 6 {
      NoTailMatchInLine(x, a + h, y);
    }
    NoMatchFromParts(x + y, a, h, x[a + h..] + y);
  }

  /** No match when the hashes are too few or too many, or the tail does not match. */
  lemma NoMatchFromParts(t: string, a: nat, h: nat, z: string)
    requires LeadingSpaces(t) == a && HashRun(t[a..]) == h && a + h <= |t| && t[a + h..] == z
    requires 1 <= h <= 6 ==> TailMatch(z).None?
    ensures EmptyHeadingMatch(t).None?
  {
    EmptyHeadingMatchParts(t, a, h, TailMatch(z));
  }

  /** What follows the hashes of a line that is not an empty heading holds a
      visible character before the line ends. */
  lemma {:induction false} NoTailMatchInLine(x: string, b: nat, y: string)
    requires '\n' !in x && b <= |x| && !AllSpace(x[b..])
    ensures TailMatch(x[b..] + y).None?
  {
    assert '\n' !in x[b..] by {
      assert forall i :: 0 <= i < |x[b..]| ==> x[b..][i] == x[b + i];
    }
    TailMatchInsideLine(x[b..], y);
  }

  /** An empty heading on the first line, whose hashes end at `b`. */
  lemma {:induction false} EmptyHeadingTail(lines: seq<string>, b: nat)
    requires |lines| >= 1 && IsLineList(lines) && !AllSpace(lines[0])
    requires IsEmptyHeadingLine(lines[0])
    requires b == LeadingSpaces(lines[0]) + HashRun(lines[0][LeadingSpaces(lines[0])..])
    ensures MatchAgreesWithLines(lines)
  {
    assert AfterFirstNonBlank(lines) == lines[1..];
    if |lines| == 1 {
      EmptyHeadingOnLastLine(lines[0], b);
      assert Join(lines) == lines[0];
    } else {
      EmptyHeadingBeforeLines(lines[0], b, lines[1..]);
      assert Join(lines) == lines[0] + "\n" + Join(lines[1..]);
    }
  }

  /** An empty heading on the last line matches up to the end of the text. */
  lemma {:induction false} EmptyHeadingOnLastLine(x: string, b: nat)
    requires '\n' !in x && !AllSpace(x) && IsEmptyHeadingLine(x)
    requires b == LeadingSpaces(x) + HashRun(x[LeadingSpaces(x)..])
    ensures EmptyHeadingMatch(x) == Some(|x|)
  {
    var a := LeadingSpaces(x);
    assert x + "" == x;
    LineHead(x, "");
    EmptyHeadingAtEnd(x[b..]);
    EmptyHeadingMatchParts(x, a, b - a, TailMatch(x[b..]));
  }

  /** An empty heading followed by more lines matches up to the next visible
      line, or to the end of the text. */
  lemma {:induction false} EmptyHeadingBeforeLines(x: string, b: nat, rest: seq<string>)
    requires '\n' !in x && !AllSpace(x) && IsEmptyHeadingLine(x)
    requires b == LeadingSpaces(x) + HashRun(x[LeadingSpaces(x)..])
    requires |rest| >= 1 && IsLineList(rest)
    ensures var t := x + "\n" + Join(rest);
            var after := DropBlankLines(rest);
            EmptyHeadingMatch(t).Some? &&
            (after == [] ==> EmptyHeadingMatch(t).value == |t|) &&
            (after != [] ==> t[EmptyHeadingMatch(t).value..] == Join(after))
  {
    var a := LeadingSpaces(x);
    var j := Join(rest);
    var y := "\n" + j;
    NewlineAssoc(x, j);
    LineHead(x, y);
    NewlineAssoc(x[b..], j);
    var z := x[b..] + "\n" + j;
    TailMatchOverLines(x[b..], rest);
    var t := x + "\n" + j;
    var k := TailMatch(z).value;
    MatchFromParts(t, a, b, z, k);
    MatchEndsAsTail(t, z, b, k, DropBlankLines(rest), EmptyHeadingMatch(t));
  }

  /** Carries where a tail match ends over to the whole match. */
  lemma MatchEndsAsTail(t: string, z: string, p: nat, k: nat, after: seq<string>, m: Option<nat>)
    requires m.Some? && m.value == p + k && p + k <= |t| && k <= |z| && t[p + k..] == z[k..]
    requires after == [] ==> k == |z|
    requires after != [] ==> z[k..] == Join(after)
    ensures m.Some? && m.value <= |t|
    ensures after == [] ==> m.value == |t|
    ensures after != [] ==> t[m.value..] == Join(after)
  {
  }

  /** EmptyHeadingMatch from a known indentation, run of hashes and tail match. */
  lemma {:induction false} MatchFromParts(t: string, a: nat, b: nat, z: string, k: nat)
    requires a < b <= a + 6 && b <= |t| && LeadingSpaces(t) == a && HashRun(t[a..]) == b - a
    requires t[b..] == z && TailMatch(z).Some? && TailMatch(z).value == k
    ensures EmptyHeadingMatch(t).Some? && EmptyHeadingMatch(t).value == b + k
    ensures b + k <= |t| && t[b + k..] == z[k..]
  {
    EmptyHeadingMatchParts(t, a, b - a, TailMatch(z));
    DropDrop(t, b, k);
  }

  /** Only whitespace after the hashes, up to the end of the text. */
  lemma {:induction false} EmptyHeadingAtEnd(z: string)
    requires AllSpace(z)
    ensures TailMatch(z).Some? && TailMatch(z).value == |z|
  {
    assert LeadingSpaces(z) == |z|;
    TailMatchParts(z, |z|);
  }

  /** Away from a line start the scan copies characters. */
  lemma {:induction false} ScanCopies(t: string)
    requires t != []
    ensures RemoveEmptyHeadingsFrom(t, false) == [t[0]] + RemoveEmptyHeadingsFrom(t[1..], t[0] == '\n')
  {
  }

  /** At a line start where the pattern does not match, too. */
  lemma {:induction false} ScanCopiesAtLineStart(t: string)
    requires t != [] && EmptyHeadingMatch(t).None?
    ensures RemoveEmptyHeadingsFrom(t, true) == [t[0]] + RemoveEmptyHeadingsFrom(t[1..], t[0] == '\n')
  {
  }

  /** The rest of a final line is copied. */
  lemma {:induction false} CopyLastLine(x: string)
    requires '\n' !in x
    ensures RemoveEmptyHeadingsFrom(x, false) == x
    decreases |x|
  {
    if x != [] {
      assert x[0] in x;
      ScanCopies(x);
      assert '\n' !in x[1..] by { assert forall c :: c in x[1..] ==> c in x; }
      CopyLastLine(x[1..]);
    }
  }

  /** The rest of a line is copied, and the scan goes on at the next line. */
  lemma {:induction false} CopyRestOfLine(x: string, y: string)
    requires '\n' !in x
    ensures RemoveEmptyHeadingsFrom(x + "\n" + y, false) == x + "\n" + RemoveEmptyHeadingsFrom(y, true)
    decreases |x|
  {
    var t := x + "\n" + y;
    ScanCopies(t);
    if x == [] {
      assert t[1..] == y;
    } else {
      LineTail(x, y);
      CopyRestOfLine(x[1..], y);
      LineCons(x, RemoveEmptyHeadingsFrom(y, true));
    }
  }

  /** A last line where the pattern does not match is copied whole. */
  lemma {:induction false} CopyOnlyLine(x: string)
    requires '\n' !in x && EmptyHeadingMatch(x).None?
    ensures RemoveEmptyHeadingsFrom(x, true) == x
  {
    if x != [] {
      assert x[0] in x;
      ScanCopiesAtLineStart(x);
      assert '\n' !in x[1..] by { assert forall c :: c in x[1..] ==> c in x; }
      CopyLastLine(x[1..]);
      assert x == [x[0]] + x[1..];
    }
  }

  /** A line where the pattern does not match is copied whole. */
  lemma {:induction false} CopyLine(x: string, y: string)
    requires '\n' !in x && EmptyHeadingMatch(x + "\n" + y).None?
    ensures RemoveEmptyHeadingsFrom(x + "\n" + y, true) == x + "\n" + RemoveEmptyHeadingsFrom(y, true)
  {
    var t := x + "\n" + y;
    ScanCopiesAtLineStart(t);
    if x == [] {
      assert t[1..] == y;
    } else {
      LineTail(x, y);
      CopyRestOfLine(x[1..], y);
      LineCons(x, RemoveEmptyHeadingsFrom(y, true));
    }
  }

  /** Taking the first character off a line that is followed by more text. */
  lemma LineTail(x: string, y: string)
    requires '\n' !in x && x != []
    ensures (x + "\n" + y)[0] == x[0] != '\n'
    ensures (x + "\n" + y)[1..] == x[1..] + "\n" + y
    ensures '\n' !in x[1..]
  {
    assert x[0] in x;
    assert forall c :: c in x[1..] ==> c in x;
  }

  /** Putting the first character back. */
  lemma LineCons(x: string, z: string)
    requires x != []
    ensures [x[0]] + (x[1..] + "\n" + z) == x + "\n" + z
  {
    ConsAssoc(x[0], x[1..], z);
    assert [x[0]] + x[1..] == x;
  }

  /** The character scan of rule 1 is the line-level StripEmptyHeadingLines. */
  lemma {:induction false} RemoveEmptyHeadingsByLines(lines: seq<string>)
    requires |lines| >= 1 && IsLineList(lines)
    ensures RemoveEmptyHeadingsFrom(Join(lines), true) == Join(StripEmptyHeadingLines(lines))
    decreases |lines|
  {
    var t := Join(lines);
    EmptyHeadingMatchOfLines(lines);
    if StartsWithEmptyHeading(lines) {
      var rest := DropBlankLines(AfterFirstNonBlank(lines));
      var e := EmptyHeadingMatch(t).value;
      assert t != [] by { assert lines[0] != [] || |lines| > 1; }
      assert RemoveEmptyHeadingsFrom(t, true) == RemoveEmptyHeadingsFrom(t[e..], true);
      if rest == [] {
        assert t[e..] == [];
      } else {
        SuffixLineList(lines, rest);
        RemoveEmptyHeadingsByLines(rest);
      }
    } else if |lines| == 1 {
      CopyOnlyLine(lines[0]);
    } else {
      assert t == lines[0] + "\n" + Join(lines[1..]);
      CopyLine(lines[0], Join(lines[1..]));
      RemoveEmptyHeadingsByLines(lines[1..]);
    }
  }

  lemma {:induction false} BlankIsNotEmptyHeading(line: string)
    requires AllSpace(line)
    ensures !IsEmptyHeadingLine(line)
  {
    assert LeadingSpaces(line) == |line|;
  }

  /** No line of `lines` is an empty heading. */
  predicate NoEmptyHeadingLine(lines: seq<string>) {
    forall i :: 0 <= i < |lines| ==> !IsEmptyHeadingLine(lines[i])
  }

  lemma NoEmptyHeadingLineCons(x: string, lines: seq<string>)
    requires !IsEmptyHeadingLine(x) && NoEmptyHeadingLine(lines)
    ensures NoEmptyHeadingLine([x] + lines)
  {
    assert forall i :: 1 <= i < |[x] + lines| ==> ([x] + lines)[i] == lines[i - 1];
  }

  /** The first step of StripEmptyHeadingLines when no empty heading opens `lines`. */
  lemma StripKeepsFirstLine(lines: seq<string>)
    requires |lines| >= 2 && !StartsWithEmptyHeading(lines)
    ensures StripEmptyHeadingLines(lines) == [lines[0]] + StripEmptyHeadingLines(lines[1..])
  {
  }

  lemma {:induction false} NoEmptyHeadingLineLeft(lines: seq<string>)
    requires |lines| >= 1
    ensures NoEmptyHeadingLine(StripEmptyHeadingLines(lines))
    decreases |lines|
  {
    if StartsWithEmptyHeading(lines) {
      var rest := DropBlankLines(AfterFirstNonBlank(lines));
      if rest == [] {
        BlankIsNotEmptyHeading("");
      } else {
        NoEmptyHeadingLineLeft(rest);
      }
    } else {
      assert !IsEmptyHeadingLine(lines[0]) by {
        if AllSpace(lines[0]) { BlankIsNotEmptyHeading(lines[0]); }
      }
      if |lines| > 1 {
        NoEmptyHeadingLineLeft(lines[1..]);
        StripKeepsFirstLine(lines);
        NoEmptyHeadingLineCons(lines[0], StripEmptyHeadingLines(lines[1..]));
      }
    }
  }

  /** StripEmptyHeadingLines keeps a list of lines a list of lines. */
  lemma {:induction false} StripKeepsLineList(lines: seq<string>)
    requires |lines| >= 1 && IsLineList(lines)
    ensures IsLineList(StripEmptyHeadingLines(lines))
    decreases |lines|, 1
  {
    if StartsWithEmptyHeading(lines) {
      StripDropLineList(lines);
    } else if |lines| > 1 {
      StripKeepLineList(lines);
    }
  }

  lemma {:induction false} StripDropLineList(lines: seq<string>)
    requires |lines| >= 1 && IsLineList(lines) && StartsWithEmptyHeading(lines)
    ensures IsLineList(StripEmptyHeadingLines(lines))
    decreases |lines|, 0
  {
    var rest := DropBlankLines(AfterFirstNonBlank(lines));
    StripDropIs(lines, rest);
    if rest != [] {
      SuffixLineList(lines, rest);
      StripKeepsLineList(rest);
    } else {
      assert IsLineList([""]);
    }
  }

  lemma StripDropIs(lines: seq<string>, rest: seq<string>)
    requires |lines| >= 1 && StartsWithEmptyHeading(lines) && rest == DropBlankLines(AfterFirstNonBlank(lines))
    ensures |rest| < |lines| && rest == lines[|lines| - |rest|..]
    ensures StripEmptyHeadingLines(lines) == if rest == [] then [""] else StripEmptyHeadingLines(rest)
  {
  }

  lemma {:induction false} StripKeepLineList(lines: seq<string>)
    requires |lines| >= 2 && IsLineList(lines) && !StartsWithEmptyHeading(lines)
    ensures IsLineList(StripEmptyHeadingLines(lines))
    decreases |lines|, 0
  {
    SuffixLineList(lines, lines[1..]);
    StripKeepsLineList(lines[1..]);
    StripKeepsFirstLine(lines);
    LineListCons(lines[0], StripEmptyHeadingLines(lines[1..]));
  }

  lemma SuffixLineList(lines: seq<string>, rest: seq<string>)
    requires IsLineList(lines) && |rest| <= |lines| && rest == lines[|lines| - |rest|..]
    ensures IsLineList(rest)
  {
    assert forall i :: 0 <= i < |rest| ==> rest[i] == lines[|lines| - |rest| + i];
  }

  lemma LineListCons(x: string, lines: seq<string>)
    requires '\n' !in x && IsLineList(lines)
    ensures IsLineList([x] + lines)
  {
    assert forall i :: 1 <= i < |[x] + lines| ==> ([x] + lines)[i] == lines[i - 1];
  }

  /** The lines removed together with an empty heading carry no content. */
  lemma {:induction false} ContentBeforeRest(lines: seq<string>)
    requires StartsWithEmptyHeading(lines)
    ensures ContentLines(lines) == ContentLines(DropBlankLines(AfterFirstNonBlank(lines)))
    decreases |lines|
  {
    var after := AfterFirstNonBlank(lines);
    if AllSpace(lines[0]) {
      FilterSkip(lines, 1, IsContentLine);
      ContentBeforeRest(lines[1..]);
    } else {
      FilterSkip(lines, 1, IsContentLine);
      var rest := DropBlankLines(after);
      FilterSkip(after, |after| - |rest|, IsContentLine);
    }
  }

  /** Rule 1 keeps every content line, in order. */
  lemma {:induction false} ContentLinesKept(lines: seq<string>)
    requires |lines| >= 1
    ensures ContentLines(StripEmptyHeadingLines(lines)) == ContentLines(lines)
    decreases |lines|
  {
    if StartsWithEmptyHeading(lines) {
      var rest := DropBlankLines(AfterFirstNonBlank(lines));
      ContentBeforeRest(lines);
      if rest == [] {
        assert ContentLines([""]) == [];
      } else {
        ContentLinesKept(rest);
      }
    } else if |lines| > 1 {
      ContentLinesKept(lines[1..]);
      var r := StripEmptyHeadingLines(lines);
      assert r[1..] == StripEmptyHeadingLines(lines[1..]);
    }
  }

  /** Rule 1 on text: the lines of the result are those of the input less the
      empty headings and the blank lines the pattern consumes around them; no
      empty heading line is left and every content line survives in order. */
  lemma {:induction false} EmptyHeadingsRemoved(md: string)
    ensures SplitOnNewlines(RemoveEmptyHeadings(md)) == StripEmptyHeadingLines(SplitOnNewlines(md))
    ensures NoEmptyHeadingLine(SplitOnNewlines(RemoveEmptyHeadings(md)))
    ensures ContentLines(SplitOnNewlines(RemoveEmptyHeadings(md))) == ContentLines(SplitOnNewlines(md))
  {
    var lines := SplitOnNewlines(md);
    RemoveEmptyHeadingsByLines(lines);
    StripKeepsLineList(lines);
    SplitJoin(StripEmptyHeadingLines(lines));
    NoEmptyHeadingLineLeft(lines);
    ContentLinesKept(lines);
  }

  /** The code's reading of an empty heading line agrees with the pattern's. */
  lemma {:induction false} EmptyHeadingLineMatchesPattern(line: string)
    ensures IsEmptyHeadingLine(line) <==> EmptyHeadingLinePattern(line)
  {
    if IsEmptyHeadingLine(line) {
      EmptyHeadingLineHasPattern(line);
    }
    if EmptyHeadingLinePattern(line) {
      var a: nat, b: nat :| a < b <= |line| && b - a <= 6 && AllSpace(line[..a]) &&
        AllHash(line[a..b]) && AllSpace(line[b..]);
      PatternIsEmptyHeadingLine(line, a, b);
    }
  }

  lemma {:induction false} EmptyHeadingLineHasPattern(line: string)
    requires IsEmptyHeadingLine(line)
    ensures EmptyHeadingLinePattern(line)
  {
    var a := LeadingSpaces(line);
    var b := a + HashRun(line[a..]);
    LeadingSpacesSpan(line);
    HashRunSpan(line[a..]);
    SpacePrefix(line, a);
    HashSlice(line, a, b);
    assert AllSpace(line[b..]);
  }

  /** An all-whitespace prefix, stated on the slice. */
  lemma SpacePrefix(s: string, k: nat)
    requires k <= |s| && forall i :: 0 <= i < k ==> IsSpace(s[i])
    ensures AllSpace(s[..k])
  {
    assert forall i :: 0 <= i < k ==> s[..k][i] == s[i];
  }

  /** A run of hashes from `a` to `b`, stated on the slice. */
  lemma HashSlice(s: string, a: nat, b: nat)
    requires a <= b <= |s| && forall i :: 0 <= i < b - a ==> s[a..][i] == '#'
    ensures AllHash(s[a..b])
  {
    assert forall i :: 0 <= i < b - a ==> s[a..b][i] == s[a..][i];
  }

  lemma {:induction false} PatternIsEmptyHeadingLine(line: string, a: nat, b: nat)
    requires a < b <= |line| && b - a <= 6 && AllSpace(line[..a]) && AllHash(line[a..b]) && AllSpace(line[b..])
    ensures IsEmptyHeadingLine(line)
  {
    assert line[a] == line[a..b][0];
    assert forall i :: 0 <= i < a ==> line[i] == line[..a][i];
    LeadingSpacesIs(line, a);
    assert b == |line| || IsSpace(line[b..][0]);
    assert forall i :: 0 <= i < b - a ==> line[a..][i] == line[a..b][i];
    HashRunIs(line[a..], b - a);
    assert line[a..][b - a..] == line[b..];
  }

  /** HashRun from a witness: `k` hashes, then something else. */
  lemma {:induction false} HashRunIs(s: string, k: nat)
    requires k <= |s| && (forall i :: 0 <= i < k ==> s[i] == '#') && (k < |s| ==> s[k] != '#')
    ensures HashRun(s) == k
    decreases k
  {
    if k > 0 {
      assert forall i :: 0 <= i < k - 1 ==> s[1..][i] == s[i + 1];
      HashRunIs(s[1..], k - 1);
    }
  }

  // ---------------------------------------------------------------------------
  // Rule 2: unescaping punctuation
  // ---------------------------------------------------------------------------

  /** The character class `[\\`*_{}\[\]()#+\-.!|>~]` that rule 2 unescapes. */
  predicate IsEscapable(c: char) {
    c == '\\' || c == '`' || c == '*' || c == '_' || c == '{' || c == '}' || c == '[' || c == ']' ||
    c == '(' || c == ')' || c == '#' || c == '+' || c == '-' || c == '.' || c == '!' || c == '|' ||
    c == '>' || c == '~'
  }

  /** Rule 2 (app.py line 293): each backslash followed by an escapable
      character is dropped, scanning left to right, so an escaped backslash
      shields what follows it. */
  function Unescape(s: string): (r: string)
    ensures |r| <= |s|
    decreases |s|
  {
    if |s| >= 2 && s[0] == '\\' && IsEscapable(s[1]) then [s[1]] + Unescape(s[2..])
    else if s == [] then []
    else [s[0]] + Unescape(s[1..])
  }

  /** The inverse direction: every escapable character gets a backslash. */
  function Escape(s: string): (r: string)
    ensures |r| >= |s|
  {
    if s == [] then []
    else (if IsEscapable(s[0]) then ['\\', s[0]] else [s[0]]) + Escape(s[1..])
  }

  /** Unescaping an escaped text gives back the text. */
  lemma {:induction false} UnescapeEscape(s: string)
    ensures Unescape(Escape(s)) == s
  {
    if s != [] {
      var rest := Escape(s[1..]);
      UnescapeEscape(s[1..]);
      if IsEscapable(s[0]) {
        assert Escape(s) == ['\\', s[0]] + rest;
        assert (['\\', s[0]] + rest)[2..] == rest;
      } else {
        assert Escape(s) == [s[0]] + rest;
        assert ([s[0]] + rest)[1..] == rest;
      }
    }
  }

  /** Text without backslashes is left alone. */
  lemma {:induction false} UnescapeWithoutBackslash(s: string)
    requires '\\' !in s
    ensures Unescape(s) == s
  {
    if s != [] {
      assert s[0] != '\\';
      assert forall i :: 0 <= i < |s[1..]| ==> s[1..][i] == s[i + 1];
      UnescapeWithoutBackslash(s[1..]);
    }
  }

  /** Rule 2 works line by line: no escape pair spans a line feed. */
  lemma {:induction false} UnescapeAcrossNewline(x: string, y: string)
    ensures Unescape(x + "\n" + y) == Unescape(x) + "\n" + Unescape(y)
    decreases |x|
  {
    var s := x + "\n" + y;
    if x == [] {
      assert s == "\n" + y && s[1..] == y;
      assert Unescape(s) == "\n" + Unescape(y);
    } else if |x| >= 2 && x[0] == '\\' && IsEscapable(x[1]) {
      UnescapeAcrossNewline(x[2..], y);
      UnescapePairBeforeNewline(x, y);
    } else if |x| == 1 {
      UnescapeLastBeforeNewline(x, y);
    } else {
      UnescapeAcrossNewline(x[1..], y);
      UnescapeCopyBeforeNewline(x, y);
    }
  }

  /** Unescaping a text that starts with an escape pair. */
  lemma {:induction false} UnescapePair(c: char, t: string)
    requires IsEscapable(c)
    ensures Unescape(['\\', c] + t) == [c] + Unescape(t)
  {
    assert (['\\', c] + t)[2..] == t;
  }

  /** Unescaping a text whose first character does not begin an escape pair. */
  lemma {:induction false} UnescapeCopy(c: char, t: string)
    requires !(c == '\\' && t != [] && IsEscapable(t[0]))
    ensures Unescape([c] + t) == [c] + Unescape(t)
  {
    assert ([c] + t)[1..] == t;
  }

  lemma {:induction false} UnescapePairBeforeNewline(x: string, y: string)
    requires |x| >= 2 && x[0] == '\\' && IsEscapable(x[1])
    requires Unescape(x[2..] + "\n" + y) == Unescape(x[2..]) + "\n" + Unescape(y)
    ensures Unescape(x + "\n" + y) == Unescape(x) + "\n" + Unescape(y)
  {
    var u := x[2..];
    assert x == ['\\', x[1]] + u;
    PrefixAssoc(['\\', x[1]], u, y);
    UnescapePair(x[1], u);
    UnescapePair(x[1], u + "\n" + y);
    ConsAssoc(x[1], Unescape(u), Unescape(y));
  }

  lemma {:induction false} UnescapeLastBeforeNewline(x: string, y: string)
    requires |x| == 1
    ensures Unescape(x + "\n" + y) == Unescape(x) + "\n" + Unescape(y)
  {
    assert x == [x[0]] + [];
    UnescapeCopy(x[0], []);
    assert x + "\n" + y == [x[0]] + ("\n" + y);
    UnescapeCopy(x[0], "\n" + y);
    UnescapeCopy('\n', y);
  }

  lemma {:induction false} UnescapeCopyBeforeNewline(x: string, y: string)
    requires |x| >= 2 && !(x[0] == '\\' && IsEscapable(x[1]))
    requires Unescape(x[1..] + "\n" + y) == Unescape(x[1..]) + "\n" + Unescape(y)
    ensures Unescape(x + "\n" + y) == Unescape(x) + "\n" + Unescape(y)
  {
    var u := x[1..];
    assert x == [x[0]] + u && u[0] == x[1];
    PrefixAssoc([x[0]], u, y);
    UnescapeCopy(x[0], u);
    UnescapeCopy(x[0], u + "\n" + y);
    ConsAssoc(x[0], Unescape(u), Unescape(y));
  }

  /** Rule 1 runs before rule 2, so an escaped '#' becomes an empty heading
      line that survives normalisation. */
  lemma {:induction false} EscapedHashBecomesEmptyHeading()
    ensures RemoveEmptyHeadings("\\#") == "\\#"
    ensures Unescape(RemoveEmptyHeadings("\\#")) == "#"
    ensures IsEmptyHeadingLine(Unescape(RemoveEmptyHeadings("\\#")))
  {
    var t := "\\#";
    assert LeadingSpaces(t) == 0;
    assert HashRun(t) == 0;
    assert EmptyHeadingMatch(t).None?;
    assert RemoveEmptyHeadingsFrom(t[1..], false) == "#";
    assert LeadingSpaces("#") == 0 && HashRun("#") == 1;
  }

  // ---------------------------------------------------------------------------
  // Rule 3: a blank line between a table row and a heading
  // ---------------------------------------------------------------------------

  /** `re.match(r"^\s*\|.*\|\s*$", line)`: a pipe-table row. */
  predicate IsTableRow(line: string) {
    var t := Strip(line);
    |t| >= 2 && t[0] == '|' && t[|t| - 1] == '|' && '\n' !in t
  }

  /** The table-row pattern read declaratively. */
  ghost predicate TableRowPattern(line: string) {
    exists a: nat, b: nat {:trigger line[a..b]} ::
      a < b < |line| && AllSpace(line[..a]) && line[a] == '|' && '\n' !in line[a..b] &&
      line[b] == '|' && AllSpace(line[b + 1..])
  }

  /** `re.match(r"^\s*#{1,6}\s+\S", line)`: a line that opens a heading. */
  predicate IsHeadingLine(line: string) {
    var a := LeadingSpaces(line);
    var h := HashRun(line[a..]);
    var w := LeadingSpaces(line[a + h..]);
    1 <= h <= 6 && 1 <= w < |line[a + h..]|
  }

  /** The heading-line pattern read declaratively: whitespace up to `a`, one
      to six '#' up to `b`, whitespace up to `c`, then a visible character. */
  ghost predicate HeadingLinePattern(line: string) {
    exists a: nat, b: nat, c: nat {:trigger line[a..b], line[b..c]} ::
      a < b < c < |line| && b - a <= 6 && AllSpace(line[..a]) && AllHash(line[a..b]) &&
      AllSpace(line[b..c]) && !IsSpace(line[c])
  }

  /** The successor test of rule 3: `nxt.strip() and re.match(...)`. */
  predicate IsVisibleHeadingLine(line: string) {
    Strip(line) != "" && IsHeadingLine(line)
  }

  lemma {:induction false} TableRowMatchesPattern(line: string)
    ensures IsTableRow(line) <==> TableRowPattern(line)
  {
    if IsTableRow(line) {
      TableRowHasPattern(line);
    }
    if TableRowPattern(line) {
      var a: nat, b: nat :| a < b < |line| && AllSpace(line[..a]) && line[a] == '|' &&
        '\n' !in line[a..b] && line[b] == '|' && AllSpace(line[b + 1..]);
      PatternIsTableRow(line, a, b);
    }
  }

  lemma {:induction false} TableRowHasPattern(line: string)
    requires IsTableRow(line)
    ensures TableRowPattern(line)
  {
    var a := LeadingSpaces(line);
    var t := Strip(line);
    StripFacts(line);
    var b := a + |t| - 1;
    SpacePrefix(line, a);
    SpaceSuffix(line, b + 1);
    assert line[a..b] == t[..|t| - 1];
    assert '\n' !in line[a..b] by {
      assert forall c :: c in t[..|t| - 1] ==> c in t;
    }
    assert line[a..b + 1] == t;
  }

  lemma {:induction false} PatternIsTableRow(line: string, a: nat, b: nat)
    requires a < b < |line| && AllSpace(line[..a]) && line[a] == '|'
    requires '\n' !in line[a..b] && line[b] == '|' && AllSpace(line[b + 1..])
    ensures IsTableRow(line)
  {
    assert forall i :: 0 <= i < a ==> line[i] == line[..a][i];
    LeadingSpacesIs(line, a);
    StripFacts(line);
    var t := Strip(line);
    var e := a + |t|;
    assert forall i :: b + 1 <= i < |line| ==> IsSpace(line[i]) by {
      assert forall i :: b + 1 <= i < |line| ==> line[i] == line[b + 1..][i - (b + 1)];
    }
    assert t != [] by {
      assert !IsSpace(line[a]);
    }
    assert e == b + 1;
    assert t == line[a..b] + [line[b]];
    assert forall c :: c in t ==> c in line[a..b] || c == '|';
  }

  /** An all-whitespace suffix, stated on the slice. */
  lemma SpaceSuffix(s: string, k: nat)
    requires k <= |s| && forall i :: k <= i < |s| ==> IsSpace(s[i])
    ensures AllSpace(s[k..])
  {
    assert forall i :: 0 <= i < |s| - k ==> s[k..][i] == s[k + i];
  }

  lemma {:induction false} HeadingLineMatchesPattern(line: string)
    ensures IsHeadingLine(line) <==> HeadingLinePattern(line)
  {
    if IsHeadingLine(line) {
      HeadingLineHasPattern(line);
    }
    if HeadingLinePattern(line) {
      var a: nat, b: nat, c: nat :| a < b < c < |line| && b - a <= 6 && AllSpace(line[..a]) &&
        AllHash(line[a..b]) && AllSpace(line[b..c]) && !IsSpace(line[c]);
      PatternIsHeadingLine(line, a, b, c);
    }
  }

  lemma HeadingLineHasPattern(line: string)
    requires IsHeadingLine(line)
    ensures HeadingLinePattern(line)
  {
    var a := LeadingSpaces(line);
    var b := a + HashRun(line[a..]);
    var c := b + LeadingSpaces(line[b..]);
    HeadingPartsFromCounts(line, a, b, c);
    HeadingWitness(line, a, b, c);
  }

  lemma HeadingPartsFromCounts(line: string, a: nat, b: nat, c: nat)
    requires a == LeadingSpaces(line) && b == a + HashRun(line[a..]) && c == b + LeadingSpaces(line[b..])
    requires a <= b <= c < |line|
    ensures AllSpace(line[..a]) && AllHash(line[a..b]) && AllSpace(line[b..c]) && !IsSpace(line[c])
  {
    IndentSlice(line, a);
    HashRunSlice(line, a, b);
    GapSlice(line, b, c);
  }

  lemma HeadingWitness(line: string, a: nat, b: nat, c: nat)
    requires a < b < c < |line| && b - a <= 6 && AllSpace(line[..a]) && AllHash(line[a..b])
    requires AllSpace(line[b..c]) && !IsSpace(line[c])
    ensures HeadingLinePattern(line)
  {
  }

  /** The indentation of `s`, stated on the slice. */
  lemma IndentSlice(s: string, a: nat)
    requires a == LeadingSpaces(s)
    ensures AllSpace(s[..a])
  {
    LeadingSpacesSpan(s);
    SpacePrefix(s, a);
  }

  /** The hashes from `a` to `b`, stated on the slice. */
  lemma HashRunSlice(s: string, a: nat, b: nat)
    requires a <= |s| && b == a + HashRun(s[a..])
    ensures b <= |s| && AllHash(s[a..b])
  {
    HashRunSpan(s[a..]);
    HashSlice(s, a, b);
  }

  /** The whitespace from `b` to `c`, stated on the slice, and what ends it. */
  lemma GapSlice(s: string, b: nat, c: nat)
    requires b <= |s| && c == b + LeadingSpaces(s[b..])
    ensures c <= |s| && AllSpace(s[b..c]) && (c < |s| ==> !IsSpace(s[c]))
  {
    var rest := s[b..];
    IndentSlice(rest, c - b);
    assert s[b..c] == rest[..c - b];
    assert c < |s| ==> s[c] == rest[c - b];
  }

  lemma PatternIsHeadingLine(line: string, a: nat, b: nat, c: nat)
    requires a < b < c < |line| && b - a <= 6 && AllSpace(line[..a]) && AllHash(line[a..b])
    requires AllSpace(line[b..c]) && !IsSpace(line[c])
    ensures IsHeadingLine(line)
  {
    HeadingPrefix(line, a, b, c);
    HeadingGap(line, b, c);
    HeadingLineFromParts(line, a, b - a, c - b);
  }

  /** The indentation and the hashes of a heading line given by its pattern. */
  lemma HeadingPrefix(line: string, a: nat, b: nat, c: nat)
    requires a < b < c <= |line| && AllSpace(line[..a]) && AllHash(line[a..b]) && AllSpace(line[b..c])
    ensures LeadingSpaces(line) == a && HashRun(line[a..]) == b - a
  {
    HashSliceStart(line, a, b);
    LeadingSpacesUpTo(line, a);
    SpaceSliceStart(line, b, c);
    HashRunUpTo(line, a, b);
  }

  /** The whitespace after the hashes of a heading line given by its pattern. */
  lemma HeadingGap(line: string, b: nat, c: nat)
    requires b < c < |line| && AllSpace(line[b..c]) && !IsSpace(line[c])
    ensures LeadingSpaces(line[b..]) == c - b && c - b < |line[b..]|
  {
    var rest := line[b..];
    assert rest[..c - b] == line[b..c] && rest[c - b] == line[c];
    LeadingSpacesUpTo(rest, c - b);
  }

  lemma HeadingLineFromParts(line: string, a: nat, h: nat, w: nat)
    requires LeadingSpaces(line) == a && HashRun(line[a..]) == h && 1 <= h <= 6
    requires LeadingSpaces(line[a + h..]) == w && 1 <= w < |line[a + h..]|
    ensures IsHeadingLine(line)
  {
  }

  /** The first character of a run of hashes is not whitespace. */
  lemma HashSliceStart(line: string, a: nat, b: nat)
    requires a < b <= |line| && AllHash(line[a..b])
    ensures line[a] == '#' && !IsSpace(line[a])
  {
    assert line[a] == line[a..b][0];
  }

  /** The first character of a non-empty whitespace slice is whitespace. */
  lemma SpaceSliceStart(line: string, b: nat, c: nat)
    requires b < c <= |line| && AllSpace(line[b..c])
    ensures IsSpace(line[b]) && line[b] != '#'
  {
    assert line[b] == line[b..c][0];
  }

  /** LeadingSpaces from a whitespace prefix and the character after it. */
  lemma LeadingSpacesUpTo(s: string, k: nat)
    requires k < |s| && AllSpace(s[..k]) && !IsSpace(s[k])
    ensures LeadingSpaces(s) == k
  {
    assert forall i :: 0 <= i < k ==> s[i] == s[..k][i];
    LeadingSpacesIs(s, k);
  }

  /** HashRun from a run of hashes and the character after it. */
  lemma HashRunUpTo(s: string, a: nat, b: nat)
    requires a <= b < |s| && AllHash(s[a..b]) && s[b] != '#'
    ensures HashRun(s[a..]) == b - a
  {
    assert forall i :: 0 <= i < b - a ==> s[a..][i] == s[a..b][i];
    assert s[a..][b - a] == s[b];
    HashRunIs(s[a..], b - a);
  }

  /** For every line, whether rule 3 puts an empty line after it: the line is
      a table row and the next line a non-blank heading line. */
  function Boundaries(lines: seq<string>): (b: seq<bool>)
    ensures |b| == |lines|
  {
    Choose(lines, IsTableRow, IsVisibleHeadingLine)
  }

  /** The output of rule 3's loop after its first `n` iterations. */
  function SeparatedPrefix(lines: seq<string>, n: nat): seq<string>
    requires n <= |lines|
  {
    Interleave(lines, Boundaries(lines), n)
  }

  /** Rule 3 on a list of lines. */
  function Separated(lines: seq<string>): seq<string> {
    SeparatedPrefix(lines, |lines|)
  }

  lemma SeparatedPrefixStep(lines: seq<string>, i: nat)
    requires i < |lines|
    ensures SeparatedPrefix(lines, i + 1) ==
            SeparatedPrefix(lines, i) + [lines[i]] +
            (if IsTableRow(lines[i]) && i + 1 < |lines| && IsVisibleHeadingLine(lines[i + 1]) then [""] else [])
  {
    var b := Boundaries(lines);
    assert b[i] <==> IsTableRow(lines[i]) && i + 1 < |lines| && IsVisibleHeadingLine(lines[i + 1]);
  }

  /** The loop of app.py lines 297-304. */
  method SeparateTablesFromHeadings(lines: seq<string>) returns (out: seq<string>)
    ensures out == Separated(lines)
  {
    out := [];
    for i := 0 to |lines|
      invariant out == SeparatedPrefix(lines, i)
    {
      SeparatedPrefixStep(lines, i);
      var line := lines[i];
      out := out + [line];
      if IsTableRow(line) && i + 1 < |lines| && IsVisibleHeadingLine(lines[i + 1]) {
        out := out + [""];
      }
    }
  }

  /** Rule 3 only inserts empty lines: removing them gives back exactly the
      input lines, and each sits right after a table row and right before a
      non-blank heading line, neither of them inserted. */
  lemma SeparatedInsertsOnlySeparators(lines: seq<string>)
    ensures var s, m := Separated(lines), Marks(Boundaries(lines), |lines|);
            |m| == |s| && Unmarked(s, m) == lines &&
            InsertionsPlaced(s, m, IsTableRow, IsVisibleHeadingLine) &&
            (|m| > 0 ==> !m[|m| - 1])
  {
    ChooseInserts(lines, IsTableRow, IsVisibleHeadingLine);
  }

  /** After rule 3 no table row is directly followed by a non-blank heading line. */
  predicate NoHeadingAfterTableRow(lines: seq<string>) {
    forall p :: 0 <= p < |lines| - 1 ==> !(IsTableRow(lines[p]) && IsVisibleHeadingLine(lines[p + 1]))
  }

  /** Rule 3 is idempotent: once separated, nothing more is inserted. */
  lemma SeparatedIdempotent(lines: seq<string>)
    ensures NoHeadingAfterTableRow(Separated(lines))
    ensures Separated(Separated(lines)) == Separated(lines)
  {
    StripEmpty("");
    ChooseApart(lines, IsTableRow, IsVisibleHeadingLine);
    var s := Separated(lines);
    assert Apart(s, IsTableRow, IsVisibleHeadingLine);
  }

  // ---------------------------------------------------------------------------
  // The whole normaliser
  // ---------------------------------------------------------------------------

  /** `cleanup_markdown` (app.py lines 291-305): the three rules in order, the
      text split into lines for rule 3 and joined again. In the text it
      returns, no table row is directly followed by a non-blank heading line. */
  method CleanupMarkdown(md: string) returns (r: string)
    ensures r == Join(Separated(SplitLines(Unescape(RemoveEmptyHeadings(md)))))
    ensures NoHeadingAfterTableRow(SplitOnNewlines(r))
  {
    var text := RemoveEmptyHeadings(md);
    text := Unescape(text);
    var lines := SplitLines(text);
    var out := SeparateTablesFromHeadings(lines);
    r := Join(out);
    InterleaveKeepsLines(lines, Boundaries(lines), |lines|);
    SeparatedIdempotent(lines);
    if out != [] {
      SplitJoin(out);
    }
  }
}
