/**
 * The string handling the converter borrows from Python: the `\s` class,
 * `str.strip()`, `re.sub(r"\s+", " ", ...)`, `str.upper()`, and splitting
 * and joining text on line feeds.
 */
module Strings {
  import opened Wrappers

  /** Whitespace as Python's `\s` and `str.strip()` see it, restricted to ASCII:
      space, tab, line feed, vertical tab, form feed, carriage return and the
      separators U+001C to U+001F. */
  predicate IsSpace(c: char) {
    c == ' ' || '\t' <= c <= '\r' || '\U{1C}' <= c <= '\U{1F}'
  }

  predicate AllSpace(s: string) {
    forall i :: 0 <= i < |s| ==> IsSpace(s[i])
  }

  lemma AllSpaceConcat(a: string, b: string)
    ensures AllSpace(a + b) <==> AllSpace(a) && AllSpace(b)
  {
    if AllSpace(a) && AllSpace(b) {
      forall i | 0 <= i < |a + b| ensures IsSpace((a + b)[i]) {
        if i < |a| { assert (a + b)[i] == a[i]; } else { assert (a + b)[i] == b[i - |a|]; }
      }
    }
    if AllSpace(a + b) {
      forall i | 0 <= i < |a| ensures IsSpace(a[i]) { assert a[i] == (a + b)[i]; }
      forall i | 0 <= i < |b| ensures IsSpace(b[i]) { assert b[i] == (a + b)[|a| + i]; }
    }
  }

  /** The length of the longest all-whitespace prefix of `s`. */
  function LeadingSpaces(s: string): (n: nat)
    ensures n <= |s|
    ensures n < |s| ==> !IsSpace(s[n])
  {
    if s == [] || !IsSpace(s[0]) then 0 else 1 + LeadingSpaces(s[1..])
  }

  /** Everything LeadingSpaces counts is whitespace. */
  lemma {:induction false} LeadingSpacesSpan(s: string)
    ensures forall i :: 0 <= i < LeadingSpaces(s) ==> IsSpace(s[i])
    decreases |s|
  {
    if s != [] && IsSpace(s[0]) {
      LeadingSpacesSpan(s[1..]);
      assert forall i :: 1 <= i < LeadingSpaces(s) ==> s[i] == s[1..][i - 1];
    }
  }

  /** LeadingSpaces from a witness: `k` whitespace characters, then none. */
  lemma {:induction false} LeadingSpacesIs(s: string, k: nat)
    requires k <= |s| && (forall i :: 0 <= i < k ==> IsSpace(s[i])) && (k < |s| ==> !IsSpace(s[k]))
    ensures LeadingSpaces(s) == k
    decreases k
  {
    if k > 0 {
      assert forall i :: 0 <= i < k - 1 ==> s[1..][i] == s[i + 1];
      LeadingSpacesIs(s[1..], k - 1);
    }
  }

  /** The length of the longest all-whitespace suffix of `s`. */
  function TrailingSpaces(s: string): (n: nat)
    ensures n <= |s|
    ensures n < |s| ==> !IsSpace(s[|s| - n - 1])
  {
    if s == [] || !IsSpace(s[|s| - 1]) then 0 else 1 + TrailingSpaces(s[..|s| - 1])
  }

  /** Everything TrailingSpaces counts is whitespace. */
  lemma {:induction false} TrailingSpacesSpan(s: string)
    ensures forall i :: |s| - TrailingSpaces(s) <= i < |s| ==> IsSpace(s[i])
    decreases |s|
  {
    if s != [] && IsSpace(s[|s| - 1]) {
      TrailingSpacesSpan(s[..|s| - 1]);
    }
  }

  /** Python's `str.strip()`: `s` without its leading and trailing whitespace. */
  function Strip(s: string): (r: string)
    ensures |r| <= |s|
  {
    var a := LeadingSpaces(s);
    var t := s[a..];
    t[..|t| - TrailingSpaces(t)]
  }

  /** What Strip keeps: a slice of `s` that neither starts nor ends with
      whitespace, with only whitespace before and after it. */
  lemma StripFacts(s: string)
    ensures LeadingSpaces(s) + |Strip(s)| <= |s|
    ensures Strip(s) == s[LeadingSpaces(s)..LeadingSpaces(s) + |Strip(s)|]
    ensures forall i :: 0 <= i < LeadingSpaces(s) ==> IsSpace(s[i])
    ensures forall i :: LeadingSpaces(s) + |Strip(s)| <= i < |s| ==> IsSpace(s[i])
    ensures Strip(s) != [] ==> !IsSpace(s[LeadingSpaces(s)]) && !IsSpace(s[LeadingSpaces(s) + |Strip(s)| - 1])
  {
    var a := LeadingSpaces(s);
    var t := s[a..];
    var n := |t| - TrailingSpaces(t);
    LeadingSpacesSpan(s);
    StripSlice(s, a, t, n);
    StripTail(s, a, t, n);
  }

  lemma StripSlice(s: string, a: nat, t: string, n: nat)
    requires a == LeadingSpaces(s) && t == s[a..] && n == |t| - TrailingSpaces(t)
    ensures Strip(s) == s[a..a + n] && |Strip(s)| == n
    ensures n > 0 ==> !IsSpace(s[a]) && !IsSpace(s[a + n - 1])
  {
    assert Strip(s) == t[..n];
    if n > 0 {
      assert s[a + n - 1] == t[n - 1];
    }
  }

  lemma StripTail(s: string, a: nat, t: string, n: nat)
    requires a == LeadingSpaces(s) && t == s[a..] && n == |t| - TrailingSpaces(t)
    ensures forall i :: a + n <= i < |s| ==> IsSpace(s[i])
  {
    TrailingSpacesSpan(t);
    SuffixSpaces(s, a, n);
  }

  lemma SuffixSpaces(s: string, a: nat, m: nat)
    requires a + m <= |s|
    requires forall j :: m <= j < |s| - a ==> IsSpace(s[a..][j])
    ensures forall i :: a + m <= i < |s| ==> IsSpace(s[i])
  {
    forall i | a + m <= i < |s| ensures IsSpace(s[i]) {
      assert s[i] == s[a..][i - a];
    }
  }

  /** Strip gives the empty string exactly for all-whitespace text. */
  lemma StripEmpty(s: string)
    ensures Strip(s) == [] <==> AllSpace(s)
  {
    StripFacts(s);
  }

  /** `re.sub(r"\s+", " ", s)`: every maximal run of whitespace becomes one space. */
  function CollapseSpaces(s: string): (r: string)
    ensures forall i :: 0 <= i < |r| && IsSpace(r[i]) ==> r[i] == ' '
    ensures forall i :: 0 <= i < |r| - 1 ==> !(IsSpace(r[i]) && IsSpace(r[i + 1]))
    ensures r != [] ==> s != [] && (IsSpace(r[0]) <==> IsSpace(s[0]))
    ensures r == [] <==> s == []
    ensures AllSpace(r) <==> AllSpace(s)
    decreases |s|
  {
    if s == [] then []
    else if IsSpace(s[0]) then
      var n := LeadingSpaces(s);
      var rest := s[n..];
      LeadingSpacesSpan(s);
      assert s == s[..n] + rest;
      AllSpaceConcat(s[..n], rest);
      AllSpaceConcat(" ", CollapseSpaces(rest));
      " " + CollapseSpaces(rest)
    else
      assert s == [s[0]] + s[1..];
      AllSpaceConcat([s[0]], s[1..]);
      AllSpaceConcat([s[0]], CollapseSpaces(s[1..]));
      [s[0]] + CollapseSpaces(s[1..])
  }

  function UpperChar(c: char): char {
    if 'a' <= c <= 'z' then (c as int - 32) as char else c
  }

  /** Python's `str.upper()` on ASCII letters; other characters are kept. */
  function Upper(s: string): (r: string)
    ensures |r| == |s|
    ensures forall i :: 0 <= i < |s| ==> r[i] == UpperChar(s[i])
  {
    seq(|s|, i requires 0 <= i < |s| => UpperChar(s[i]))
  }

  /** A list of lines: no element holds a line feed. */
  predicate IsLineList(lines: seq<string>) {
    forall i :: 0 <= i < |lines| ==> '\n' !in lines[i]
  }

  /** `"\n".join(lines)`. */
  function Join(lines: seq<string>): string {
    if |lines| == 0 then ""
    else if |lines| == 1 then lines[0]
    else lines[0] + "\n" + Join(lines[1..])
  }

  lemma {:induction false} JoinAppend(a: seq<string>, b: seq<string>)
    requires |a| >= 1 && |b| >= 1
    ensures Join(a + b) == Join(a) + "\n" + Join(b)
    decreases |a|
  {
    if |a| == 1 {
      assert (a + b)[1..] == b;
    } else {
      assert (a + b)[1..] == a[1..] + b;
      JoinAppend(a[1..], b);
    }
  }

  /** The index of the first line feed of `s`, if any. */
  function FirstNewline(s: string): (r: Option<nat>)
    ensures r.None? ==> '\n' !in s
    ensures r.Some? ==> r.value < |s| && s[r.value] == '\n' && '\n' !in s[..r.value]
  {
    if s == [] then None
    else if s[0] == '\n' then Some(0)
    else match FirstNewline(s[1..]) {
      case None => None
      case Some(k) => assert s[..k + 1] == [s[0]] + s[1..][..k]; Some(k + 1)
    }
  }

  lemma {:induction false} FirstNewlineAfterLine(x: string, t: string)
    requires '\n' !in x
    ensures FirstNewline(x + "\n" + t) == Some(|x|)
    decreases |x|
  {
    if x != [] {
      assert (x + "\n" + t)[1..] == x[1..] + "\n" + t;
      FirstNewlineAfterLine(x[1..], t);
    }
  }

  /** `s.split("\n")`: the pieces between line feeds, which Join puts back together. */
  function SplitOnNewlines(s: string): (lines: seq<string>)
    ensures |lines| >= 1
    ensures IsLineList(lines)
    ensures Join(lines) == s
    decreases |s|
  {
    match FirstNewline(s)
    case None => [s]
    case Some(k) =>
      var rest := SplitOnNewlines(s[k + 1..]);
      assert s == s[..k] + "\n" + s[k + 1..];
      [s[..k]] + rest
  }

  /** Splitting a joined list of lines gives the lines back. */
  lemma {:induction false} SplitJoin(lines: seq<string>)
    requires |lines| >= 1 && IsLineList(lines)
    ensures SplitOnNewlines(Join(lines)) == lines
    decreases |lines|
  {
    var s := Join(lines);
    if |lines| == 1 {
      assert FirstNewline(s).None?;
    } else {
      var x := lines[0];
      var t := Join(lines[1..]);
      assert s == x + "\n" + t;
      FirstNewlineAfterLine(x, t);
      assert s[..|x|] == x && s[|x| + 1..] == t;
      SplitJoin(lines[1..]);
    }
  }

  /** Python's `str.splitlines()` where "\n" is the only line boundary: no
      piece after a final line feed, and no lines at all for "". */
  function SplitLines(s: string): (lines: seq<string>)
    ensures IsLineList(lines)
    ensures lines == [] <==> s == []
    ensures s != [] ==> s == Join(lines) + (if s[|s| - 1] == '\n' then "\n" else "")
  {
    if s == [] then []
    else
      var pieces := SplitOnNewlines(s);
      var n := |pieces|;
      if pieces[n - 1] == "" then
        if n == 1 then
          assert false;
          []
        else
          JoinAppend(pieces[..n - 1], [pieces[n - 1]]);
          assert pieces == pieces[..n - 1] + [pieces[n - 1]];
          pieces[..n - 1]
      else
        assert s[|s| - 1] != '\n' by {
          if n == 1 {
          } else {
            JoinAppend(pieces[..n - 1], [pieces[n - 1]]);
            assert pieces == pieces[..n - 1] + [pieces[n - 1]];
            var last := pieces[n - 1];
            assert s == Join(pieces[..n - 1]) + "\n" + last;
            assert s[|s| - 1] == last[|last| - 1];
          }
        }
        pieces
  }

  // --- Re-associating concatenations, one small fact at a time ---

  lemma DropOfConcat<T>(p: seq<T>, q: seq<T>, k: nat)
    requires k <= |p|
    ensures (p + q)[k..] == p[k..] + q
  {
  }

  lemma TakeOfConcat<T>(p: seq<T>, q: seq<T>, k: nat)
    requires k <= |q|
    ensures (p + q)[..|p| + k] == p + q[..k]
  {
  }

  lemma DropLastOfConcat<T>(p: seq<T>, q: seq<T>)
    requires q != []
    ensures (p + q)[..|p + q| - 1] == p + q[..|q| - 1]
  {
  }

  lemma NewlineAssoc(a: string, b: string)
    ensures a + "\n" + b == a + ("\n" + b)
  {
  }

  lemma DropDrop<T>(s: seq<T>, i: nat, j: nat)
    requires i + j <= |s|
    ensures s[i..][j..] == s[i + j..]
  {
  }

  lemma PrefixAssoc(p: string, a: string, b: string)
    ensures p + a + "\n" + b == p + (a + "\n" + b)
  {
  }

  lemma ConsAssoc(c: char, a: string, b: string)
    ensures [c] + (a + "\n" + b) == [c] + a + "\n" + b
  {
  }
}
