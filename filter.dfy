/**
 * Keeping the lines of a list that satisfy a test, in order.
 */
module Filtering {

  /** The lines of `lines` for which `keep` holds, in their order. */
  function Filter(lines: seq<string>, keep: string -> bool): (r: seq<string>)
    ensures |r| <= |lines|
  {
    if lines == [] then []
    else (if keep(lines[0]) then [lines[0]] else []) + Filter(lines[1..], keep)
  }

  /** Lines that fail the test can be skipped. */
  lemma {:induction false} FilterSkip(lines: seq<string>, k: nat, keep: string -> bool)
    requires k <= |lines|
    requires forall i :: 0 <= i < k ==> !keep(lines[i])
    ensures Filter(lines, keep) == Filter(lines[k..], keep)
    decreases k
  {
    if k > 0 {
      var tail := lines[1..];
      assert forall i :: 0 <= i < k - 1 ==> tail[i] == lines[i + 1];
      FilterSkip(tail, k - 1, keep);
      assert tail[k - 1..] == lines[k..];
    }
  }
}
