/**
 * Inserting an extra line after chosen lines of a list, and what such an
 * insertion keeps: the original lines in order, with each inserted line
 * where the choice put it.
 */
module Interleaving {

  /** For every line, whether `row` holds for it and `head` for the next line. */
  function Choose(lines: seq<string>, row: string -> bool, head: string -> bool): (b: seq<bool>)
    ensures |b| == |lines|
    ensures forall k :: 0 <= k < |lines| ==> (b[k] <==> row(lines[k]) && k + 1 < |lines| && head(lines[k + 1]))
  {
    seq(|lines|, k requires 0 <= k < |lines| => row(lines[k]) && k + 1 < |lines| && head(lines[k + 1]))
  }

  /** Line `x` followed, when `extra` holds, by the empty line. */
  function Piece(x: string, extra: bool): (p: seq<string>)
    ensures |p| == |PieceMarks(extra)|
  {
    if extra then [x, ""] else [x]
  }

  /** Inserting empty lines puts no line feed inside any line. */
  lemma {:induction false} InterleaveKeepsLines(lines: seq<string>, b: seq<bool>, n: nat)
    requires |b| == |lines| && n <= |lines|
    requires forall i :: 0 <= i < |lines| ==> '\n' !in lines[i]
    ensures forall i :: 0 <= i < |Interleave(lines, b, n)| ==> '\n' !in Interleave(lines, b, n)[i]
    decreases n
  {
    if n > 0 {
      InterleaveKeepsLines(lines, b, n - 1);
      var p := Piece(lines[n - 1], b[n - 1]);
      assert forall i :: 0 <= i < |p| ==> '\n' !in p[i];
    }
  }

  /** Which entries of Piece(x, extra) were inserted. */
  function PieceMarks(extra: bool): seq<bool> {
    if extra then [false, true] else [false]
  }

  /** The first `n` lines, each followed by an empty line where `b` says so. */
  function Interleave(lines: seq<string>, b: seq<bool>, n: nat): (s: seq<string>)
    requires |b| == |lines| && n <= |lines|
  {
    if n == 0 then [] else Interleave(lines, b, n - 1) + Piece(lines[n - 1], b[n - 1])
  }

  lemma {:induction false} InterleaveLength(lines: seq<string>, b: seq<bool>, n: nat)
    requires |b| == |lines| && n <= |lines|
    ensures |Interleave(lines, b, n)| == |Marks(b, n)|
  {
    if n > 0 {
      InterleaveLength(lines, b, n - 1);
    }
  }

  /** Which entries of Interleave(lines, b, n) were inserted. */
  function Marks(b: seq<bool>, n: nat): seq<bool>
    requires n <= |b|
  {
    if n == 0 then [] else Marks(b, n - 1) + PieceMarks(b[n - 1])
  }

  /** `s` without the entries that `m` flags. */
  function Unmarked(s: seq<string>, m: seq<bool>): seq<string>
    requires |s| == |m|
  {
    if s == [] then []
    else Unmarked(s[..|s| - 1], m[..|s| - 1]) + (if m[|s| - 1] then [] else [s[|s| - 1]])
  }

  lemma UnmarkedSnoc(s: seq<string>, m: seq<bool>, x: string, flag: bool)
    requires |s| == |m|
    ensures Unmarked(s + [x], m + [flag]) == Unmarked(s, m) + (if flag then [] else [x])
  {
    assert (s + [x])[..|s|] == s && (m + [flag])[..|s|] == m;
  }

  lemma UnmarkedPiece(s: seq<string>, m: seq<bool>, x: string, extra: bool)
    requires |s| == |m|
    ensures |s + Piece(x, extra)| == |m + PieceMarks(extra)|
    ensures Unmarked(s + Piece(x, extra), m + PieceMarks(extra)) == Unmarked(s, m) + [x]
  {
    UnmarkedSnoc(s, m, x, false);
    if extra {
      assert s + Piece(x, extra) == (s + [x]) + [""];
      assert m + PieceMarks(extra) == (m + [false]) + [true];
      UnmarkedSnoc(s + [x], m + [false], "", true);
    } else {
      assert s + Piece(x, extra) == s + [x];
    }
  }

  /** Removing the inserted entries of the first `n` pieces gives the first
      `n` lines back. */
  predicate UnmarksTo(lines: seq<string>, b: seq<bool>, n: nat)
    requires |b| == |lines| && n <= |lines|
  {
    |Marks(b, n)| == |Interleave(lines, b, n)| && Unmarked(Interleave(lines, b, n), Marks(b, n)) == lines[..n]
  }

  lemma {:induction false} InterleaveUnmarked(lines: seq<string>, b: seq<bool>, n: nat)
    requires |b| == |lines| && n <= |lines|
    ensures UnmarksTo(lines, b, n)
  {
    if n > 0 {
      InterleaveUnmarked(lines, b, n - 1);
      UnmarkedStep(lines, b, n);
    } else {
      assert lines[..0] == [];
    }
  }

  lemma UnmarkedStep(lines: seq<string>, b: seq<bool>, n: nat)
    requires |b| == |lines| && 0 < n <= |lines|
    requires UnmarksTo(lines, b, n - 1)
    ensures UnmarksTo(lines, b, n)
  {
    UnmarkedExtend(Interleave(lines, b, n), Marks(b, n), Interleave(lines, b, n - 1), Marks(b, n - 1),
                   lines[n - 1], b[n - 1], lines[..n - 1]);
    PrefixSnoc(lines, n);
  }

  lemma UnmarkedExtend(s: seq<string>, m: seq<bool>, s0: seq<string>, m0: seq<bool>, x: string, extra: bool,
                       prefix: seq<string>)
    requires s == s0 + Piece(x, extra) && m == m0 + PieceMarks(extra)
    requires |s0| == |m0| && Unmarked(s0, m0) == prefix
    ensures |s| == |m| && Unmarked(s, m) == prefix + [x]
  {
    UnmarkedPiece(s0, m0, x, extra);
  }

  lemma PrefixSnoc(lines: seq<string>, n: nat)
    requires 0 < n <= |lines|
    ensures lines[..n] == lines[..n - 1] + [lines[n - 1]]
  {
  }

  lemma LastOfPiece(s: seq<string>, x: string, extra: bool)
    ensures var t := s + Piece(x, extra);
            |t| > 0 && t[|t| - 1] == (if extra then "" else x)
  {
  }

  lemma LastOfMarks(m: seq<bool>, extra: bool)
    ensures var t := m + PieceMarks(extra);
            |t| > 0 && t[|t| - 1] == extra
  {
  }

  /** Where entries were inserted: each is empty, follows a kept entry for
      which `row` holds and, unless it is last, precedes a kept entry for
      which `head` holds. */
  ghost predicate InsertionsPlaced(s: seq<string>, m: seq<bool>, row: string -> bool, head: string -> bool)
    requires |s| == |m|
  {
    (forall p :: 0 <= p < |s| && m[p] ==> s[p] == "" && 0 < p && !m[p - 1] && row(s[p - 1])) &&
    (forall p :: 0 <= p < |s| - 1 && m[p] ==> !m[p + 1] && head(s[p + 1]))
  }

  /** Appending a kept entry keeps the insertions placed, given that an
      inserted last entry announced an entry for which `head` holds. */
  lemma PlacedSnocKept(s: seq<string>, m: seq<bool>, x: string, row: string -> bool, head: string -> bool)
    requires |s| == |m| && InsertionsPlaced(s, m, row, head)
    requires |s| > 0 && m[|s| - 1] ==> head(x)
    ensures InsertionsPlaced(s + [x], m + [false], row, head)
  {
    var s', m' := s + [x], m + [false];
    forall p | 0 <= p < |s'| && m'[p]
      ensures s'[p] == "" && 0 < p && !m'[p - 1] && row(s'[p - 1])
    {
      assert p < |s| && m[p] && s'[p] == s[p] && m'[p - 1] == m[p - 1] && s'[p - 1] == s[p - 1];
    }
    forall p | 0 <= p < |s'| - 1 && m'[p]
      ensures !m'[p + 1] && head(s'[p + 1])
    {
      if p + 1 < |s| {
        assert m[p] && m'[p + 1] == m[p + 1] && s'[p + 1] == s[p + 1];
      } else {
        assert m[p] && s'[p + 1] == x;
      }
    }
  }

  /** Appending an inserted empty entry after a kept entry for which `row` holds. */
  lemma PlacedSnocInserted(s: seq<string>, m: seq<bool>, row: string -> bool, head: string -> bool)
    requires |s| == |m| && |s| > 0 && InsertionsPlaced(s, m, row, head)
    requires !m[|s| - 1] && row(s[|s| - 1])
    ensures InsertionsPlaced(s + [""], m + [true], row, head)
  {
    var s', m' := s + [""], m + [true];
    forall p | 0 <= p < |s'| && m'[p]
      ensures s'[p] == "" && 0 < p && !m'[p - 1] && row(s'[p - 1])
    {
      if p < |s| {
        assert m[p] && s'[p] == s[p] && m'[p - 1] == m[p - 1] && s'[p - 1] == s[p - 1];
      } else {
        assert s'[p - 1] == s[|s| - 1] && m'[p - 1] == m[|s| - 1];
      }
    }
    forall p | 0 <= p < |s'| - 1 && m'[p]
      ensures !m'[p + 1] && head(s'[p + 1])
    {
      assert m[p] && m'[p + 1] == m[p + 1] && s'[p + 1] == s[p + 1];
    }
  }

  /** Appending one piece keeps the insertions placed. */
  lemma PlacedPiece(s: seq<string>, m: seq<bool>, x: string, extra: bool, row: string -> bool, head: string -> bool)
    requires |s| == |m| && InsertionsPlaced(s, m, row, head)
    requires |s| > 0 && m[|s| - 1] ==> head(x)
    requires extra ==> row(x)
    ensures |s + Piece(x, extra)| == |m + PieceMarks(extra)|
    ensures InsertionsPlaced(s + Piece(x, extra), m + PieceMarks(extra), row, head)
  {
    PlacedSnocKept(s, m, x, row, head);
    if extra {
      PlacedSnocInserted(s + [x], m + [false], row, head);
      assert s + Piece(x, true) == s + [x] + [""];
      assert m + PieceMarks(true) == m + [false] + [true];
    } else {
      assert s + Piece(x, false) == s + [x];
      assert m + PieceMarks(false) == m + [false];
    }
  }

  /** One step of InterleavePlaces, with the facts about the earlier lines spelt out. */
  lemma PlacedStep(s0: seq<string>, m0: seq<bool>, x: string, extra: bool, lastExtra: bool,
                   row: string -> bool, head: string -> bool)
    requires |s0| == |m0| && InsertionsPlaced(s0, m0, row, head)
    requires |m0| > 0 ==> m0[|m0| - 1] == lastExtra
    requires lastExtra ==> head(x)
    requires extra ==> row(x)
    ensures var s, m := s0 + Piece(x, extra), m0 + PieceMarks(extra);
            |s| == |m| && InsertionsPlaced(s, m, row, head) && |m| > 0 && m[|m| - 1] == extra
  {
    PlacedPiece(s0, m0, x, extra, row, head);
    LastOfMarks(m0, extra);
  }

  /** An interleaving whose choices only follow a `row` entry preceding a
      `head` entry places every insertion that way. */
  lemma {:induction false} InterleavePlaces(lines: seq<string>, b: seq<bool>, n: nat,
                                            row: string -> bool, head: string -> bool)
    requires |b| == |lines| && n <= |lines|
    requires forall k :: 0 <= k < |lines| && b[k] ==> row(lines[k]) && k + 1 < |lines| && head(lines[k + 1])
    ensures |Marks(b, n)| == |Interleave(lines, b, n)|
    ensures InsertionsPlaced(Interleave(lines, b, n), Marks(b, n), row, head)
    ensures n > 0 ==> var m := Marks(b, n); |m| > 0 && m[|m| - 1] == b[n - 1]
  {
    InterleaveLength(lines, b, n);
    if n > 0 {
      InterleavePlaces(lines, b, n - 1, row, head);
      PlacedStep(Interleave(lines, b, n - 1), Marks(b, n - 1), lines[n - 1], b[n - 1], n > 1 && b[n - 2], row, head);
    }
  }

  /** No entry of `s` for which `row` holds is directly followed by one for which `head` holds. */
  ghost predicate Apart(s: seq<string>, row: string -> bool, head: string -> bool) {
    forall p :: 0 <= p < |s| - 1 ==> !(row(s[p]) && head(s[p + 1]))
  }

  lemma ApartSnoc(s: seq<string>, x: string, row: string -> bool, head: string -> bool)
    requires Apart(s, row, head)
    requires |s| > 0 ==> !(row(s[|s| - 1]) && head(x))
    ensures Apart(s + [x], row, head)
  {
    var s' := s + [x];
    forall p | 0 <= p < |s'| - 1 ensures !(row(s'[p]) && head(s'[p + 1])) {
      if p + 1 < |s| {
        assert s'[p] == s[p] && s'[p + 1] == s[p + 1];
      } else {
        assert s'[p] == s[|s| - 1] && s'[p + 1] == x;
      }
    }
  }

  /** Appending one piece keeps `row` and `head` entries apart. */
  lemma ApartPiece(s: seq<string>, x: string, extra: bool, row: string -> bool, head: string -> bool)
    requires Apart(s, row, head) && !row("") && !head("")
    requires |s| > 0 ==> !(row(s[|s| - 1]) && head(x))
    ensures Apart(s + Piece(x, extra), row, head)
  {
    ApartSnoc(s, x, row, head);
    if extra {
      ApartSnoc(s + [x], "", row, head);
      assert s + Piece(x, true) == s + [x] + [""];
    } else {
      assert s + Piece(x, false) == s + [x];
    }
  }

  /** When `b` chooses exactly the `row` entries followed by a `head` entry,
      and the empty line is neither, the interleaving keeps them apart. */
  lemma {:induction false} InterleaveApart(lines: seq<string>, b: seq<bool>, n: nat,
                                           row: string -> bool, head: string -> bool)
    requires |b| == |lines| && n <= |lines| && !row("") && !head("")
    requires forall k :: 0 <= k < |lines| ==> (b[k] <==> row(lines[k]) && k + 1 < |lines| && head(lines[k + 1]))
    ensures Apart(Interleave(lines, b, n), row, head)
    ensures n > 0 ==> var s := Interleave(lines, b, n); |s| > 0 && s[|s| - 1] == (if b[n - 1] then "" else lines[n - 1])
  {
    if n > 0 {
      InterleaveApart(lines, b, n - 1, row, head);
      ApartStep(Interleave(lines, b, n - 1), lines[n - 1], b[n - 1], n > 1 && b[n - 2],
                if n > 1 then lines[n - 2] else "", row, head);
    }
  }

  /** One step of InterleaveApart, with the facts about the earlier lines spelt out. */
  lemma ApartStep(s0: seq<string>, x: string, extra: bool, lastExtra: bool, prev: string,
                  row: string -> bool, head: string -> bool)
    requires Apart(s0, row, head) && !row("") && !head("")
    requires |s0| > 0 ==> s0[|s0| - 1] == (if lastExtra then "" else prev)
    requires |s0| > 0 && !lastExtra ==> !(row(prev) && head(x))
    ensures var s := s0 + Piece(x, extra);
            Apart(s, row, head) && |s| > 0 && s[|s| - 1] == (if extra then "" else x)
  {
    ApartPiece(s0, x, extra, row, head);
    LastOfPiece(s0, x, extra);
  }

  /** An interleaving that inserts nothing is the prefix itself. */
  lemma {:induction false} InterleaveNothing(lines: seq<string>, b: seq<bool>, n: nat)
    requires |b| == |lines| && n <= |lines|
    requires forall k :: 0 <= k < |lines| ==> !b[k]
    ensures Interleave(lines, b, n) == lines[..n]
  {
    if n > 0 {
      InterleaveNothing(lines, b, n - 1);
      PrefixSnoc(lines, n);
    }
  }

  /** Every line followed by an empty one exactly where `row` holds for it and
      `head` for the next line: removing the inserted entries gives the lines
      back, and each inserted entry sits between such a pair. */
  lemma ChooseInserts(lines: seq<string>, row: string -> bool, head: string -> bool)
    ensures var b := Choose(lines, row, head);
            var s, m := Interleave(lines, b, |lines|), Marks(b, |lines|);
            |m| == |s| && Unmarked(s, m) == lines &&
            InsertionsPlaced(s, m, row, head) && (|m| > 0 ==> !m[|m| - 1])
  {
    var b := Choose(lines, row, head);
    InterleaveUnmarked(lines, b, |lines|);
    InterleavePlaces(lines, b, |lines|, row, head);
    assert lines[..|lines|] == lines;
  }

  /** Once interleaved, no `row` entry is followed by a `head` entry, so a
      second interleaving inserts nothing. */
  lemma ChooseApart(lines: seq<string>, row: string -> bool, head: string -> bool)
    requires !row("") && !head("")
    ensures var s := Interleave(lines, Choose(lines, row, head), |lines|);
            Apart(s, row, head) && Interleave(s, Choose(s, row, head), |s|) == s
  {
    var b := Choose(lines, row, head);
    InterleaveApart(lines, b, |lines|, row, head);
    var s := Interleave(lines, b, |lines|);
    InterleaveNothing(s, Choose(s, row, head), |s|);
    assert s[..|s|] == s;
  }
}
