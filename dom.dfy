/**
 * The parsed HTML document as the restructuring passes see it: a tree of
 * elements and text nodes, with a `<table>` kept as the data the grid-table
 * pass reads out of it, and re-parsed cell markup kept as an opaque string.
 */
module Dom {
  import opened Wrappers
  import opened Strings

  datatype Node =
    | Element(name: string, classes: seq<string>, children: seq<Node>)
    | Text(text: string)
      /** A `<table>`: the `th` elements of its `thead` (None without a
          `thead`), and for every `tr` of its `tbody` the inner HTML of each
          of its `td`/`th` cells (None without a `tbody`). */
    | Table(head: Option<seq<Node>>, body: Option<seq<seq<string>>>)
      /** A fragment of HTML that the passes never look into. */
    | Markup(html: string)

  /** The text nodes in and under `n`, in document order. Tables and markup
      fragments contribute none. */
  function NodeTexts(n: Node): seq<string>
    decreases n
  {
    match n
    case Text(t) => [t]
    case Element(_, _, kids) => TextsOf(kids)
    case _ => []
  }

  /** The text nodes under `nodes`, in document order. */
  function TextsOf(nodes: seq<Node>): seq<string>
    decreases nodes
  {
    if nodes == [] then [] else NodeTexts(nodes[0]) + TextsOf(nodes[1..])
  }

  lemma {:induction false} TextsOfConcat(a: seq<Node>, b: seq<Node>)
    ensures TextsOf(a + b) == TextsOf(a) + TextsOf(b)
    decreases |a|
  {
    if a != [] {
      assert (a + b)[0] == a[0];
      assert (a + b)[1..] == a[1..] + b;
      assert TextsOf(a + b) == NodeTexts(a[0]) + TextsOf(a[1..] + b);
      TextsOfConcat(a[1..], b);
    } else {
      assert a + b == b;
    }
  }

  lemma SnocAssoc(r: seq<Node>, t: Node, rest: seq<Node>)
    ensures (r + [t]) + rest == r + ([t] + rest)
  {
  }

  /** Stripping text that neither starts nor ends with whitespace. */
  predicate Trimmed(s: string) {
    s == [] || (!IsSpace(s[0]) && !IsSpace(s[|s| - 1]))
  }

  /** Every one of the texts is whitespace only. */
  predicate AllBlank(ts: seq<string>) {
    forall i :: 0 <= i < |ts| ==> AllSpace(ts[i])
  }

  /** The strings `get_text(" ", strip=True)` joins: every text stripped, the
      empty ones dropped. */
  function Pieces(ts: seq<string>): (ps: seq<string>)
    ensures forall i :: 0 <= i < |ps| ==> ps[i] != [] && Trimmed(ps[i])
    ensures ps == [] <==> AllBlank(ts)
  {
    if ts == [] then []
    else
      var s := Strip(ts[0]);
      StripFacts(ts[0]);
      StripEmpty(ts[0]);
      var rest := Pieces(ts[1..]);
      assert forall i :: 1 <= i < |ts| ==> ts[i] == ts[1..][i - 1];
      (if s == [] then [] else [s]) + rest
  }

  /** `" ".join(ps)`. */
  function JoinSpaced(ps: seq<string>): (r: string)
    ensures (forall i :: 0 <= i < |ps| ==> ps[i] != [] && Trimmed(ps[i])) ==>
              (r == [] <==> ps == []) && Trimmed(r)
  {
    if |ps| == 0 then ""
    else if |ps| == 1 then ps[0]
    else
      var rest := JoinSpaced(ps[1..]);
      assert forall i :: 1 <= i < |ps| ==> ps[i] == ps[1..][i - 1];
      ps[0] + " " + rest
  }

  /** `node.get_text(" ", strip=True)`: the stripped, non-empty texts under
      the node joined by single spaces. The result is itself stripped, and
      it is empty exactly when every text under the node is whitespace. */
  function GetText(n: Node): (r: string)
    ensures Trimmed(r)
    ensures r == [] <==> AllBlank(NodeTexts(n))
  {
    var ps := Pieces(NodeTexts(n));
    assert forall i :: 0 <= i < |ps| ==> ps[i] != [] && Trimmed(ps[i]);
    JoinSpaced(ps)
  }

  predicate IsNamed(n: Node, name: string) {
    n.Element? && n.name == name
  }

  predicate HasClass(n: Node, cls: string) {
    n.Element? && cls in n.classes
  }
}
