/**
 * How the restructuring passes classify headings (app.py lines 289 and
 * 307-321): the normalised heading text, the section-heading pattern
 * `SECTION_RE = ^\s*([1-6])\.\s+`, the section number it captures, and
 * topic titles.
 */
module Headings {
  import opened Wrappers
  import opened Strings
  import opened Dom

  /** Text in which every whitespace character is a single space standing
      between two visible characters. */
  predicate SingleSpaced(t: string) {
    Trimmed(t) &&
    (forall i :: 0 <= i < |t| && IsSpace(t[i]) ==> t[i] == ' ') &&
    (forall i :: 0 <= i < |t| - 1 ==> !(IsSpace(t[i]) && IsSpace(t[i + 1])))
  }

  /** Collapsing the whitespace runs of stripped text and stripping again
      leaves single-spaced text, empty exactly when the input was. */
  lemma CollapseStripped(g: string)
    requires Trimmed(g)
    ensures SingleSpaced(Strip(CollapseSpaces(g)))
    ensures Strip(CollapseSpaces(g)) == [] <==> g == []
  {
    CollapsedSpacing(g);
    CollapsedEmpty(g);
  }

  lemma CollapsedSpacing(g: string)
    ensures SingleSpaced(Strip(CollapseSpaces(g)))
  {
    var c := CollapseSpaces(g);
    StripFacts(c);
    SliceKeepsSpacing(c, LeadingSpaces(c), Strip(c));
  }

  lemma CollapsedEmpty(g: string)
    requires Trimmed(g)
    ensures Strip(CollapseSpaces(g)) == [] <==> g == []
  {
    StripEmpty(CollapseSpaces(g));
    if g != [] {
      assert !AllSpace(g) by { assert !IsSpace(g[0]); }
    }
  }

  /** A slice of text whose spaces are single ' ' characters is such text. */
  lemma SliceKeepsSpacing(c: string, a: nat, t: string)
    requires a + |t| <= |c| && t == c[a..a + |t|]
    requires forall i :: 0 <= i < |c| && IsSpace(c[i]) ==> c[i] == ' '
    requires forall i :: 0 <= i < |c| - 1 ==> !(IsSpace(c[i]) && IsSpace(c[i + 1]))
    ensures forall i :: 0 <= i < |t| && IsSpace(t[i]) ==> t[i] == ' '
    ensures forall i :: 0 <= i < |t| - 1 ==> !(IsSpace(t[i]) && IsSpace(t[i + 1]))
  {
    assert forall i :: 0 <= i < |t| ==> t[i] == c[a + i];
  }

  /** `heading_text(h)`: the heading's `get_text(" ", strip=True)` with every
      whitespace run collapsed to one space, then stripped. It is empty
      exactly when all the text under the heading is whitespace. */
  function HeadingText(h: Node): (t: string)
    ensures SingleSpaced(t)
    ensures t == [] <==> AllBlank(NodeTexts(h))
  {
    var g := GetText(h);
    CollapseStripped(g);
    Strip(CollapseSpaces(g))
  }

  /** `is_heading(node)`: an `h1` to `h6` element; text nodes have no name. */
  predicate IsHeading(n: Node) {
    n.Element? && n.name in {"h1", "h2", "h3", "h4", "h5", "h6"}
  }

  function DigitChar(d: nat): char
    requires d <= 9
  {
    ('0' as int + d) as char
  }

  /** `SECTION_RE.match(t)`: after the longest whitespace prefix, a digit
      from 1 to 6, a dot and a whitespace character; the result is the
      digit's value, `int(m.group(1))`. Backtracking inside `\s*` cannot
      help, since a shorter prefix is followed by whitespace, not a digit. */
  function SectionMatch(t: string): (r: Option<nat>)
    ensures r.Some? ==> 1 <= r.value <= 6
  {
    var a := LeadingSpaces(t);
    if a + 2 < |t| && '1' <= t[a] <= '6' && t[a + 1] == '.' && IsSpace(t[a + 2])
    then Some(t[a] as int - '0' as int)
    else None
  }

  /** The section pattern read declaratively, with the digit `d` in group 1. */
  ghost predicate SectionPattern(t: string, d: nat) {
    1 <= d <= 6 &&
    exists a: nat {:trigger t[..a]} ::
      a + 2 < |t| && AllSpace(t[..a]) && t[a] == DigitChar(d) && t[a + 1] == '.' && IsSpace(t[a + 2])
  }

  /** SectionMatch finds the digit `d` exactly when the pattern matches with
      `d` in group 1. */
  lemma SectionMatchIsPattern(t: string, d: nat)
    ensures SectionMatch(t).Some? && SectionMatch(t).value == d <==> SectionPattern(t, d)
  {
    var a := LeadingSpaces(t);
    LeadingSpacesSpan(t);
    if SectionMatch(t).Some? && SectionMatch(t).value == d {
      assert AllSpace(t[..a]);
    }
    if SectionPattern(t, d) {
      var b: nat :| b + 2 < |t| && AllSpace(t[..b]) && t[b] == DigitChar(d) && t[b + 1] == '.' && IsSpace(t[b + 2]);
      assert forall i :: 0 <= i < b ==> IsSpace(t[..b][i]);
      LeadingSpacesIs(t, b);
    }
  }

  /** `is_section_heading(h)`. */
  predicate IsSectionHeading(h: Node) {
    SectionMatch(HeadingText(h)).Some?
  }

  /** `section_num(h)`: the captured digit, or None when the heading is not
      a section heading. */
  function SectionNum(h: Node): (r: Option<nat>)
    ensures r.Some? <==> IsSectionHeading(h)
    ensures r.Some? ==> 1 <= r.value <= 6
  {
    SectionMatch(HeadingText(h))
  }

  /** Heading text is already stripped, so a section heading's text starts
      with the digit itself, then ". " and nothing else in between. */
  lemma SectionHeadingText(h: Node)
    requires IsSectionHeading(h)
    ensures var t := HeadingText(h);
            |t| >= 3 && t[0] == DigitChar(SectionNum(h).value) && t[1] == '.' && t[2] == ' '
  {
    var t := HeadingText(h);
    assert !IsSpace(t[0]);
    assert LeadingSpaces(t) == 0;
  }

  /** `is_topic_title(h)`. */
  predicate IsTopicTitle(h: Node) {
    IsNamed(h, "h2") && !IsSectionHeading(h) && HeadingText(h) != ""
  }

  /** A topic title is an `h2` with some visible text that is not a section
      heading; in particular no heading is both. */
  lemma TopicTitleIff(h: Node)
    ensures IsTopicTitle(h) <==> IsNamed(h, "h2") && SectionNum(h).None? && !AllBlank(NodeTexts(h))
    ensures !(IsTopicTitle(h) && IsSectionHeading(h))
  {
  }
}
