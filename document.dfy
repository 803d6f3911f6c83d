/**
 * The parsed document that `md_to_full_html` (app.py lines 408-418)
 * restructures in place: its top-level contents, the two passes that
 * rewrite them, and the page title read from the result.
 */
module Document {
  import opened Wrappers
  import opened Strings
  import opened Dom
  import opened GridTables
  import opened Wrapping
  import opened Headings
  import opened Sections

  /** The BeautifulSoup object: the list of top-level nodes the passes
      rewrite. */
  class Soup {
    var contents: seq<Node>

    constructor(nodes: seq<Node>)
      ensures contents == nodes
    {
      contents := nodes;
    }

    /** `tables_to_gridtables(soup)`: afterwards no table is left, and a
        document that had none is unchanged. */
    method TablesToGridtables()
      modifies this
      ensures contents == GridList(old(contents))
      ensures NoTable(contents)
      ensures NoTable(old(contents)) ==> contents == old(contents)
    {
      var r := GridChildren(contents);
      GridListRemovesTables(contents);
      if NoTable(contents) {
        GridListKeepsTableFree(contents);
      }
      contents := r;
    }

    /** `wrap_sections_and_tag_topics(soup)`: the text of the document is
        kept in order, every topic title is tagged, and what the pass wraps
        a second run would leave alone. */
    method WrapSectionsAndTagTopics()
      modifies this
      ensures contents == Sections.WrapSectionsAndTagTopics(old(contents))
      ensures TextsOf(contents) == TextsOf(old(contents))
      ensures AllTagged(contents, IsTopicTitle)
      ensures WrapList(contents, false, OpensBox, EndsRun) == contents
    {
      var tagged := TagChildren(contents);
      var r := WrapChildren(tagged, false, OpensBox, EndsRun);
      PassKeepsTexts(contents);
      PassTagsAll(contents);
      WrapSectionsIdempotent(contents);
      contents := r;
    }
  }

  // ---------------------------------------------------------------------------
  // Document order and `soup.find`
  // ---------------------------------------------------------------------------

  /** Every node in and under `nodes`, in document order: each node before
      its children, its children before its next sibling. */
  function Preorder(nodes: seq<Node>): seq<Node>
    decreases nodes
  {
    if nodes == [] then [] else PreorderNode(nodes[0]) + Preorder(nodes[1..])
  }

  function PreorderNode(n: Node): seq<Node>
    decreases n
  {
    [n] + (if n.Element? then Preorder(n.children) else [])
  }

  lemma {:induction false} PreorderConcat(a: seq<Node>, b: seq<Node>)
    ensures Preorder(a + b) == Preorder(a) + Preorder(b)
    decreases |a|
  {
    if a == [] {
      assert a + b == b;
    } else {
      assert (a + b)[0] == a[0];
      assert (a + b)[1..] == a[1..] + b;
      PreorderConcat(a[1..], b);
    }
  }

  /** The position of the first element named `name` in a flat list. */
  function FirstNamed(ps: seq<Node>, name: string): (r: Option<nat>)
    ensures r.Some? ==> r.value < |ps| && IsNamed(ps[r.value], name) &&
                        forall j :: 0 <= j < r.value ==> !IsNamed(ps[j], name)
    ensures r.None? ==> forall j :: 0 <= j < |ps| ==> !IsNamed(ps[j], name)
  {
    if ps == [] then None
    else if IsNamed(ps[0], name) then Some(0)
    else
      var f := FirstNamed(ps[1..], name);
      assert forall j :: 1 <= j < |ps| ==> ps[j] == ps[1..][j - 1];
      if f.Some? then Some(f.value + 1) else None
  }

  /** `soup.find(name)`: a depth-first search that tries a node, then its
      children, then its next sibling. */
  function Find(nodes: seq<Node>, name: string): (r: Option<Node>)
    ensures r.Some? ==> IsNamed(r.value, name)
    decreases nodes
  {
    if nodes == [] then None
    else
      var f := FindNode(nodes[0], name);
      if f.Some? then f else Find(nodes[1..], name)
  }

  function FindNode(n: Node, name: string): (r: Option<Node>)
    ensures r.Some? ==> IsNamed(r.value, name)
    decreases n
  {
    if IsNamed(n, name) then Some(n)
    else if n.Element? then Find(n.children, name)
    else None
  }

  /** The node at the position FirstNamed gives, if any. */
  function FirstNamedNode(ps: seq<Node>, name: string): Option<Node> {
    var f := FirstNamed(ps, name);
    if f.Some? then Some(ps[f.value]) else None
  }

  lemma {:induction false} FirstNamedConcat(a: seq<Node>, b: seq<Node>, name: string)
    ensures FirstNamedNode(a + b, name) ==
            (if FirstNamedNode(a, name).Some? then FirstNamedNode(a, name) else FirstNamedNode(b, name))
    decreases |a|
  {
    if a == [] {
      assert a + b == b;
    } else {
      assert (a + b)[0] == a[0];
      assert (a + b)[1..] == a[1..] + b;
      FirstNamedConcat(a[1..], b, name);
    }
  }

  /** The search finds the first element named `name` in document order, and
      nothing when there is none. */
  lemma {:induction false} FindIsFirst(nodes: seq<Node>, name: string)
    ensures Find(nodes, name) == FirstNamedNode(Preorder(nodes), name)
    decreases nodes
  {
    if nodes != [] {
      var n := nodes[0];
      FindNodeIsFirst(n, name);
      FindIsFirst(nodes[1..], name);
      FirstNamedConcat(PreorderNode(n), Preorder(nodes[1..]), name);
    }
  }

  lemma {:induction false} FindNodeIsFirst(n: Node, name: string)
    ensures FindNode(n, name) == FirstNamedNode(PreorderNode(n), name)
    decreases n
  {
    var kids := if n.Element? then Preorder(n.children) else [];
    FirstNamedConcat([n], kids, name);
    if n.Element? {
      FindIsFirst(n.children, name);
    }
  }

  // ---------------------------------------------------------------------------
  // The page title
  // ---------------------------------------------------------------------------

  /** `doc_title`: the upper-cased text of the first `h1`, or the upper-cased
      fallback when the document has none. */
  function Title(nodes: seq<Node>, fallback: string): string {
    match Find(nodes, "h1")
    case Some(h) => Upper(GetText(h))
    case None => Upper(fallback)
  }

  /** The title is read from the first `h1` in document order; the fallback
      is used only when there is no `h1` at all. */
  lemma TitleFromFirstH1(nodes: seq<Node>, fallback: string)
    ensures var ps := Preorder(nodes);
            var f := FirstNamed(ps, "h1");
            Title(nodes, fallback) == if f.Some? then Upper(GetText(ps[f.value])) else Upper(fallback)
  {
    FindIsFirst(nodes, "h1");
  }

  /** An `h1` whose text is all whitespace gives an empty title, not the
      fallback. */
  lemma BlankH1GivesEmptyTitle(nodes: seq<Node>, fallback: string)
    requires Find(nodes, "h1").Some? && AllBlank(NodeTexts(Find(nodes, "h1").value))
    ensures Title(nodes, fallback) == ""
  {
  }

  // ---------------------------------------------------------------------------
  // The restructuring leaves the title alone
  // ---------------------------------------------------------------------------

  /** The texts of the elements named `name` in a flat list, in order. */
  function NamedTexts(ps: seq<Node>, name: string): seq<seq<string>>
  {
    if ps == [] then []
    else (if IsNamed(ps[0], name) then [NodeTexts(ps[0])] else []) + NamedTexts(ps[1..], name)
  }

  lemma {:induction false} NamedTextsConcat(a: seq<Node>, b: seq<Node>, name: string)
    ensures NamedTexts(a + b, name) == NamedTexts(a, name) + NamedTexts(b, name)
    decreases |a|
  {
    if a == [] {
      assert a + b == b;
    } else {
      assert (a + b)[0] == a[0];
      assert (a + b)[1..] == a[1..] + b;
      NamedTextsConcat(a[1..], b, name);
    }
  }

  /** The first element named `name` carries the first of their texts. */
  lemma {:induction false} FirstNamedText(ps: seq<Node>, name: string)
    ensures FirstNamedNode(ps, name).Some? <==> NamedTexts(ps, name) != []
    ensures FirstNamedNode(ps, name).Some? ==> NodeTexts(FirstNamedNode(ps, name).value) == NamedTexts(ps, name)[0]
    decreases ps
  {
    if ps != [] && !IsNamed(ps[0], name) {
      FirstNamedText(ps[1..], name);
    }
  }

  /** Two documents whose `h1` elements carry the same texts in the same
      order have the same title. */
  lemma TitleByH1Texts(a: seq<Node>, b: seq<Node>, fallback: string)
    requires NamedTexts(Preorder(a), "h1") == NamedTexts(Preorder(b), "h1")
    ensures Title(a, fallback) == Title(b, fallback)
  {
    FindIsFirst(a, "h1");
    FindIsFirst(b, "h1");
    FirstNamedText(Preorder(a), "h1");
    FirstNamedText(Preorder(b), "h1");
  }

  /** The named texts of `nodes` in document order. */
  function Named(nodes: seq<Node>, name: string): seq<seq<string>> {
    NamedTexts(Preorder(nodes), name)
  }

  lemma NamedCons(x: Node, rest: seq<Node>, name: string)
    ensures Named([x] + rest, name) == NamedTexts(PreorderNode(x), name) + Named(rest, name)
  {
    assert ([x] + rest)[0] == x && ([x] + rest)[1..] == rest;
    NamedTextsConcat(PreorderNode(x), Preorder(rest), name);
  }

  lemma NamedNode(x: Node, name: string)
    ensures NamedTexts(PreorderNode(x), name) ==
            (if IsNamed(x, name) then [NodeTexts(x)] else []) + (if x.Element? then Named(x.children, name) else [])
  {
    var kids := if x.Element? then Preorder(x.children) else [];
    assert PreorderNode(x) == [x] + kids;
    NamedTextsConcat([x], kids, name);
  }

  lemma NamedSplit(nodes: seq<Node>, e: nat, name: string)
    requires e <= |nodes|
    ensures Named(nodes, name) == Named(nodes[..e], name) + Named(nodes[e..], name)
  {
    assert nodes == nodes[..e] + nodes[e..];
    PreorderConcat(nodes[..e], nodes[e..]);
    NamedTextsConcat(Preorder(nodes[..e]), Preorder(nodes[e..]), name);
  }

  /** Wrapping adds only `div` boxes and keeps every moved node's text, so
      the elements of any other name carry the same texts in the same order. */
  lemma {:induction false} WrapKeepsNamed(nodes: seq<Node>, inBox: bool, opens: Node -> Option<string>, ends: Node -> bool, name: string)
    requires name != "div"
    ensures Named(WrapList(nodes, inBox, opens, ends), name) == Named(nodes, name)
    decreases nodes
  {
    if nodes != [] {
      var n := nodes[0];
      var r := WrapList(nodes, inBox, opens, ends);
      if !inBox && opens(n).Some? {
        var e := RunEnd(nodes, 0, ends);
        var b := Box(opens(n).value, nodes[..e]);
        assert r == [b] + WrapList(nodes[e..], inBox, opens, ends);
        NamedCons(b, WrapList(nodes[e..], inBox, opens, ends), name);
        NamedNode(b, name);
        WrapKeepsNamed(nodes[e..], inBox, opens, ends, name);
        NamedSplit(nodes, e, name);
      } else {
        var w := WrapNode(n, inBox, opens, ends);
        assert r == [w] + WrapList(nodes[1..], inBox, opens, ends);
        NamedCons(w, WrapList(nodes[1..], inBox, opens, ends), name);
        NamedNode(w, name);
        NamedNode(n, name);
        if n.Element? {
          WrapKeepsNamed(n.children, inBox || "colorbox" in n.classes, opens, ends, name);
          WrapKeepsTexts(n.children, inBox || "colorbox" in n.classes, opens, ends);
        }
        WrapKeepsNamed(nodes[1..], inBox, opens, ends, name);
        assert nodes == [n] + nodes[1..];
        NamedCons(n, nodes[1..], name);
      }
    }
  }

  /** Tagging changes classes only. */
  lemma {:induction false} TagKeepsNamed(nodes: seq<Node>, name: string)
    ensures Named(TagList(nodes), name) == Named(nodes, name)
    decreases nodes
  {
    if nodes != [] {
      var n := nodes[0];
      var t := TagNode(n);
      TagUnfold(nodes);
      NamedCons(t, TagList(nodes[1..]), name);
      NamedNode(t, name);
      NamedNode(n, name);
      if n.Element? {
        TagKeepsNamed(n.children, name);
      }
      TagKeepsNamed(nodes[1..], name);
      assert nodes == [n] + nodes[1..];
      NamedCons(n, nodes[1..], name);
    }
  }

  /** The title read after `wrap_sections_and_tag_topics` is the one the
      document had before it. */
  lemma WrapKeepsTitle(nodes: seq<Node>, fallback: string)
    ensures Title(Sections.WrapSectionsAndTagTopics(nodes), fallback) == Title(nodes, fallback)
  {
    TagKeepsNamed(nodes, "h1");
    WrapKeepsNamed(TagList(nodes), false, OpensBox, EndsRun, "h1");
    TitleByH1Texts(Sections.WrapSectionsAndTagTopics(nodes), nodes, fallback);
  }
}
