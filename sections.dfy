/**
 * `wrap_sections_and_tag_topics` (app.py lines 368-406) on the model: topic
 * titles get the class `topic-title`, then every section heading numbered
 * 1, 2, 4, 5 or 6 that is not already inside a colorbox is moved, together
 * with the run of siblings that follows it, into a new
 * `div class="colorbox <name>"`. The structural part of the wrapping lives
 * in the Wrapping module; this module supplies which headings open a box
 * and which siblings end a run.
 */
module Sections {
  import opened Wrappers
  import opened Dom
  import opened Headings
  import opened Wrapping

  // ---------------------------------------------------------------------------
  // Tagging topic titles
  // ---------------------------------------------------------------------------

  /** One node after tagging: a topic title gets `topic-title` appended to its
      classes; everything under it is tagged the same way. Tagging changes no
      text, no name and no other class. */
  function TagNode(n: Node): (r: Node)
    ensures r.Element? <==> n.Element?
    ensures n.Element? ==> r.name == n.name
    ensures NodeTexts(r) == NodeTexts(n)
    decreases n
  {
    match n
    case Element(name, classes, kids) =>
      Element(name, if IsTopicTitle(n) then classes + ["topic-title"] else classes, TagList(kids))
    case _ => n
  }

  /** Tagging adds exactly the class `topic-title`, and only to topic titles. */
  lemma TagNodeClasses(n: Node, c: string)
    ensures HasClass(TagNode(n), c) <==> HasClass(n, c) || (c == "topic-title" && IsTopicTitle(n))
  {
  }

  /** The tagging loop over every `h2` of the document. */
  function TagList(nodes: seq<Node>): (r: seq<Node>)
    ensures |r| == |nodes|
    ensures TextsOf(r) == TextsOf(nodes)
    decreases nodes
  {
    if nodes == [] then []
    else
      var t := [TagNode(nodes[0])] + TagList(nodes[1..]);
      assert t[1..] == TagList(nodes[1..]);
      t
  }

  predicate NodeTagged(n: Node, title: Node -> bool)
    decreases n
  {
    match n
    case Element(_, classes, kids) => (title(n) ==> "topic-title" in classes) && AllTagged(kids, title)
    case _ => true
  }

  /** Every element in or under `nodes` that `title` picks out carries the
      class `topic-title`. */
  predicate AllTagged(nodes: seq<Node>, title: Node -> bool)
    decreases nodes
  {
    nodes == [] || (NodeTagged(nodes[0], title) && AllTagged(nodes[1..], title))
  }

  lemma {:induction false} TopicTitleByNameAndText(a: Node, b: Node)
    requires a.Element? && b.Element? && a.name == b.name && NodeTexts(a) == NodeTexts(b)
    ensures IsTopicTitle(a) == IsTopicTitle(b)
    ensures IsHeading(a) == IsHeading(b)
    ensures IsSectionHeading(a) == IsSectionHeading(b)
    ensures SectionNum(a) == SectionNum(b)
  {
    assert GetText(a) == GetText(b);
    assert HeadingText(a) == HeadingText(b);
  }

  /** After tagging, every topic title anywhere in the document is tagged. */
  lemma {:induction false} TagListTagsAll(nodes: seq<Node>)
    ensures AllTagged(TagList(nodes), IsTopicTitle)
    decreases nodes
  {
    if nodes != [] {
      var n := nodes[0];
      var t := TagNode(n);
      if n.Element? {
        TagListTagsAll(n.children);
        TopicTitleByNameAndText(t, n);
        assert NodeTagged(t, IsTopicTitle);
      }
      TagListTagsAll(nodes[1..]);
      assert TagList(nodes)[0] == t && TagList(nodes)[1..] == TagList(nodes[1..]);
    }
  }

  /** The tagging loop as the source writes it: children first visited in
      order, every topic title's class list extended. */
  method TagChildren(nodes: seq<Node>) returns (r: seq<Node>)
    ensures r == TagList(nodes)
    decreases nodes
  {
    r := [];
    var i := 0;
    while i < |nodes|
      invariant i <= |nodes|
      invariant r + TagList(nodes[i..]) == TagList(nodes)
    {
      var n := nodes[i];
      var t := n;
      if n.Element? {
        var kids' := TagChildren(n.children);
        var classes' := n.classes;
        if IsTopicTitle(n) {
          classes' := classes' + ["topic-title"];
        }
        t := Element(n.name, classes', kids');
      }
      assert t == TagNode(n);
      TagStep(nodes, i, r, t);
      r := r + [t];
      i := i + 1;
    }
  }

  lemma TagStep(nodes: seq<Node>, i: nat, r: seq<Node>, t: Node)
    requires i < |nodes| && r + TagList(nodes[i..]) == TagList(nodes) && t == TagNode(nodes[i])
    ensures (r + [t]) + TagList(nodes[i + 1..]) == TagList(nodes)
  {
    assert nodes[i..][1..] == nodes[i + 1..];
    TagUnfold(nodes[i..]);
    SnocAssoc(r, t, TagList(nodes[i + 1..]));
  }

  lemma TagUnfold(l: seq<Node>)
    requires l != []
    ensures TagList(l) == [TagNode(l[0])] + TagList(l[1..])
  {
  }

  // ---------------------------------------------------------------------------
  // Which headings open a box and which siblings end it
  // ---------------------------------------------------------------------------

  /** `num_to_class`: the box class for a section number; 3 has none. */
  function BoxClass(num: nat): Option<string> {
    if num == 1 then Some("syllabus")
    else if num == 2 then Some("context")
    else if num == 4 then Some("beyond")
    else if num == 5 then Some("prelims")
    else if num == 6 then Some("mains")
    else None
  }

  /** The class of the box a heading opens when the walk reaches it outside
      any box: a section heading whose number has a class. */
  function OpensBox(n: Node): Option<string> {
    if IsHeading(n) && IsSectionHeading(n) then BoxClass(SectionNum(n).value) else None
  }

  /** A sibling that ends the run wrap_from moves: an `hr`, or a heading
      that is a topic title or a section heading. */
  predicate EndsRun(n: Node) {
    IsNamed(n, "hr") || (IsHeading(n) && (IsTopicTitle(n) || IsSectionHeading(n)))
  }

  /** Exactly the section headings numbered 1, 2, 4, 5 and 6 open a box, with
      their own class each; every heading that opens a box would also end the
      run of an earlier one, and so would section 3, which opens none. */
  lemma OpensBoxIff(n: Node)
    ensures OpensBox(n).Some? <==> IsHeading(n) && SectionNum(n).Some? && SectionNum(n).value != 3
    ensures OpensBox(n).Some? ==> OpensBox(n) == BoxClass(SectionNum(n).value) && EndsRun(n)
    ensures IsHeading(n) && SectionNum(n) == Some(3) ==> EndsRun(n)
  {
    var s := SectionNum(n);
    if s.Some? {
      BoxClassIff(s.value);
    }
  }

  lemma BoxClassIff(d: nat)
    requires 1 <= d <= 6
    ensures BoxClass(d).Some? <==> d != 3
  {
  }

  /** Distinct section numbers give distinct box classes. */
  lemma BoxClassesDistinct(m: nat, num: nat)
    requires BoxClass(num).Some? && BoxClass(m) == BoxClass(num)
    ensures m == num
  {
  }

  /** Tagging leaves which nodes open a box and end a run as they were. */
  lemma TagKeepsRoles(n: Node)
    ensures OpensBox(TagNode(n)) == OpensBox(n)
    ensures EndsRun(TagNode(n)) == EndsRun(n)
  {
    if n.Element? {
      TopicTitleByNameAndText(TagNode(n), n);
    }
  }

  /** Tagging and wrapping commute: the pass could tag the topic titles after
      wrapping instead of before and would build the same document. */
  lemma {:induction false} TagWrapCommute(nodes: seq<Node>, inBox: bool)
    ensures TagList(WrapList(nodes, inBox, OpensBox, EndsRun)) == WrapList(TagList(nodes), inBox, OpensBox, EndsRun)
    decreases nodes
  {
    if nodes != [] {
      var n := nodes[0];
      if !inBox && OpensBox(n).Some? {
        var e := RunEnd(nodes, 0, EndsRun);
        TagWrapCommute(nodes[e..], inBox);
        TagWrapOpen(nodes, inBox, e, OpensBox(n).value);
      } else {
        TagWrapCommuteNode(n, inBox);
        TagWrapCommute(nodes[1..], inBox);
        TagWrapPass(nodes, inBox);
      }
    }
  }

  /** TagWrapCommute where the first node opens a box. */
  lemma TagWrapOpen(nodes: seq<Node>, inBox: bool, e: nat, cls: string)
    requires nodes != [] && !inBox && OpensBox(nodes[0]) == Some(cls) && e == RunEnd(nodes, 0, EndsRun)
    requires TagList(WrapList(nodes[e..], inBox, OpensBox, EndsRun)) == WrapList(TagList(nodes[e..]), inBox, OpensBox, EndsRun)
    ensures TagList(WrapList(nodes, inBox, OpensBox, EndsRun)) == WrapList(TagList(nodes), inBox, OpensBox, EndsRun)
  {
    TagWrapOpenLeft(nodes, inBox, e, cls);
    TagWrapOpenRight(nodes, inBox, e, cls);
  }

  lemma TagWrapOpenLeft(nodes: seq<Node>, inBox: bool, e: nat, cls: string)
    requires nodes != [] && !inBox && OpensBox(nodes[0]) == Some(cls) && e == RunEnd(nodes, 0, EndsRun)
    ensures TagList(WrapList(nodes, inBox, OpensBox, EndsRun)) ==
            [Box(cls, TagList(nodes[..e]))] + TagList(WrapList(nodes[e..], inBox, OpensBox, EndsRun))
  {
    OpenUnfold(nodes, inBox, OpensBox, EndsRun);
    TagBox(cls, nodes[..e]);
    TagConsUnfold(Box(cls, nodes[..e]), WrapList(nodes[e..], inBox, OpensBox, EndsRun));
  }

  lemma TagWrapOpenRight(nodes: seq<Node>, inBox: bool, e: nat, cls: string)
    requires nodes != [] && !inBox && OpensBox(nodes[0]) == Some(cls) && e == RunEnd(nodes, 0, EndsRun)
    ensures WrapList(TagList(nodes), inBox, OpensBox, EndsRun) ==
            [Box(cls, TagList(nodes[..e]))] + WrapList(TagList(nodes[e..]), inBox, OpensBox, EndsRun)
  {
    var t := TagList(nodes);
    assert t[0] == TagNode(nodes[0]);
    TagKeepsRoles(nodes[0]);
    TagRunEnd(nodes, 1);
    OpenUnfold(t, inBox, OpensBox, EndsRun);
    TagSplit(nodes, e);
  }

  /** A box is a `div`, never a topic title: tagging only tags inside it. */
  lemma TagBox(cls: string, kids: seq<Node>)
    ensures TagNode(Box(cls, kids)) == Box(cls, TagList(kids))
  {
    assert !IsHeading(Box(cls, kids));
  }

  /** TagWrapCommute where the first node stays where it is. */
  lemma TagWrapPass(nodes: seq<Node>, inBox: bool)
    requires nodes != [] && (inBox || OpensBox(nodes[0]).None?)
    requires TagNode(WrapNode(nodes[0], inBox, OpensBox, EndsRun)) == WrapNode(TagNode(nodes[0]), inBox, OpensBox, EndsRun)
    requires TagList(WrapList(nodes[1..], inBox, OpensBox, EndsRun)) == WrapList(TagList(nodes[1..]), inBox, OpensBox, EndsRun)
    ensures TagList(WrapList(nodes, inBox, OpensBox, EndsRun)) == WrapList(TagList(nodes), inBox, OpensBox, EndsRun)
  {
    var t := TagList(nodes);
    TagKeepsRoles(nodes[0]);
    assert t[0] == TagNode(nodes[0]) && t[1..] == TagList(nodes[1..]);
    TagConsUnfold(WrapNode(nodes[0], inBox, OpensBox, EndsRun), WrapList(nodes[1..], inBox, OpensBox, EndsRun));
  }

  lemma {:induction false} TagWrapCommuteNode(n: Node, inBox: bool)
    ensures TagNode(WrapNode(n, inBox, OpensBox, EndsRun)) == WrapNode(TagNode(n), inBox, OpensBox, EndsRun)
    decreases n
  {
    if n.Element? {
      var w := WrapNode(n, inBox, OpensBox, EndsRun);
      var b := inBox || "colorbox" in n.classes;
      TagWrapCommute(n.children, b);
      WrapKeepsTexts(n.children, b, OpensBox, EndsRun);
      TopicTitleByNameAndText(w, n);
      assert "colorbox" in TagNode(n).classes <==> "colorbox" in n.classes;
    }
  }

  lemma TagConsUnfold(n: Node, rest: seq<Node>)
    ensures TagList([n] + rest) == [TagNode(n)] + TagList(rest)
  {
    assert ([n] + rest)[1..] == rest;
  }

  lemma {:induction false} TagListIndex(nodes: seq<Node>)
    ensures forall i :: 0 <= i < |nodes| ==> TagList(nodes)[i] == TagNode(nodes[i])
    decreases nodes
  {
    if nodes != [] {
      TagListIndex(nodes[1..]);
      assert TagList(nodes)[1..] == TagList(nodes[1..]);
    }
  }

  /** Tagging the two parts of a list split at `e` tags the list's two parts. */
  lemma TagSplit(nodes: seq<Node>, e: nat)
    requires e <= |nodes|
    ensures TagList(nodes)[..e] == TagList(nodes[..e]) && TagList(nodes)[e..] == TagList(nodes[e..])
  {
    TagListIndex(nodes);
    TagPrefix(nodes, TagList(nodes), e);
    TagSuffix(nodes, TagList(nodes), e);
  }

  lemma TagPrefix(nodes: seq<Node>, t: seq<Node>, e: nat)
    requires e <= |nodes| == |t| && forall i :: 0 <= i < |nodes| ==> t[i] == TagNode(nodes[i])
    ensures t[..e] == TagList(nodes[..e])
  {
    var p := nodes[..e];
    TagListIndex(p);
    assert forall i :: 0 <= i < e ==> t[..e][i] == TagNode(p[i]);
  }

  lemma TagSuffix(nodes: seq<Node>, t: seq<Node>, e: nat)
    requires e <= |nodes| == |t| && forall i :: 0 <= i < |nodes| ==> t[i] == TagNode(nodes[i])
    ensures t[e..] == TagList(nodes[e..])
  {
    var q := nodes[e..];
    TagListIndex(q);
    assert forall i :: 0 <= i < |q| ==> t[e..][i] == TagNode(q[i]);
  }

  /** A run ends at the same place in the tagged list. */
  lemma {:induction false} TagRunEnd(nodes: seq<Node>, j: nat)
    requires j <= |nodes|
    ensures j <= |TagList(nodes)| && RunEndFrom(TagList(nodes), j, EndsRun) == RunEndFrom(nodes, j, EndsRun)
    decreases |nodes| - j
  {
    if j < |nodes| {
      TagListIndex(nodes);
      TagKeepsRoles(nodes[j]);
      TagRunEnd(nodes, j + 1);
    }
  }

  /** The opening rule depends only on an element's name and text, and a box
      opens nothing: what the generic idempotence result needs. */
  lemma OpensBoxByNameAndText()
    ensures OpensByNameAndText(OpensBox)
  {
    forall a: Node, b: Node | a.Element? && b.Element? && a.name == b.name && NodeTexts(a) == NodeTexts(b)
      ensures OpensBox(a) == OpensBox(b)
    {
      TopicTitleByNameAndText(a, b);
    }
    forall cls: string, kids: seq<Node>
      ensures OpensBox(Box(cls, kids)).None?
    {
      assert !IsHeading(Box(cls, kids));
    }
  }

  // ---------------------------------------------------------------------------
  // The pass
  // ---------------------------------------------------------------------------

  /** The whole of `wrap_sections_and_tag_topics` on a document's contents. */
  function WrapSectionsAndTagTopics(nodes: seq<Node>): seq<Node> {
    WrapList(TagList(nodes), false, OpensBox, EndsRun)
  }

  /** The pass moves nodes and adds boxes and classes but drops, duplicates
      and reorders no text. */
  lemma PassKeepsTexts(nodes: seq<Node>)
    ensures TextsOf(WrapSectionsAndTagTopics(nodes)) == TextsOf(nodes)
  {
    WrapKeepsTexts(TagList(nodes), false, OpensBox, EndsRun);
  }

  /** Running the pass on its own output creates no box: every heading that
      could open one is inside one already. */
  lemma WrapSectionsIdempotent(nodes: seq<Node>)
    ensures var w := WrapSectionsAndTagTopics(nodes);
            WrapList(w, false, OpensBox, EndsRun) == w
  {
    OpensBoxByNameAndText();
    WrapSettles(TagList(nodes), false, OpensBox, EndsRun);
    SettledUnchanged(WrapSectionsAndTagTopics(nodes), false, OpensBox, EndsRun);
  }

  /** A document without colorboxes comes out with boxes that never nest. */
  lemma PassNeverNests(nodes: seq<Node>)
    requires BoxFree(nodes)
    ensures Flat(WrapSectionsAndTagTopics(nodes))
  {
    TagKeepsBoxFree(nodes);
    WrapNeverNests(TagList(nodes), false, OpensBox, EndsRun);
  }

  lemma {:induction false} TagKeepsBoxFree(nodes: seq<Node>)
    requires BoxFree(nodes)
    ensures BoxFree(TagList(nodes))
    decreases nodes
  {
    if nodes != [] {
      var n := nodes[0];
      if n.Element? {
        TagKeepsBoxFree(n.children);
        assert !HasClass(n, "colorbox");
        assert !HasClass(TagNode(n), "colorbox");
      }
      TagKeepsBoxFree(nodes[1..]);
      assert TagList(nodes)[0] == TagNode(n) && TagList(nodes)[1..] == TagList(nodes[1..]);
    }
  }

  /** After the pass every topic title is still tagged: wrapping moves nodes
      but changes no class list. */
  lemma PassTagsAll(nodes: seq<Node>)
    ensures AllTagged(WrapSectionsAndTagTopics(nodes), IsTopicTitle)
  {
    TagListTagsAll(nodes);
    WrapKeepsTagged(TagList(nodes), false);
  }

  lemma {:induction false} WrapKeepsTagged(nodes: seq<Node>, inBox: bool)
    requires AllTagged(nodes, IsTopicTitle)
    ensures AllTagged(WrapList(nodes, inBox, OpensBox, EndsRun), IsTopicTitle)
    decreases nodes
  {
    if nodes != [] {
      var n := nodes[0];
      var r := WrapList(nodes, inBox, OpensBox, EndsRun);
      if !inBox && OpensBox(n).Some? {
        var e := RunEnd(nodes, 0, EndsRun);
        AllTaggedSplit(nodes, e, IsTopicTitle);
        var b := Box(OpensBox(n).value, nodes[..e]);
        assert !IsTopicTitle(b);
        assert NodeTagged(b, IsTopicTitle);
        WrapKeepsTagged(nodes[e..], inBox);
        assert r[0] == b && r[1..] == WrapList(nodes[e..], inBox, OpensBox, EndsRun);
      } else {
        var w := WrapNode(n, inBox, OpensBox, EndsRun);
        if n.Element? {
          WrapKeepsTagged(n.children, inBox || "colorbox" in n.classes);
          WrapKeepsTexts(n.children, inBox || "colorbox" in n.classes, OpensBox, EndsRun);
          TopicTitleByNameAndText(w, n);
        }
        assert NodeTagged(w, IsTopicTitle);
        WrapKeepsTagged(nodes[1..], inBox);
        assert r[0] == w && r[1..] == WrapList(nodes[1..], inBox, OpensBox, EndsRun);
      }
    }
  }

  lemma {:induction false} AllTaggedSplit(nodes: seq<Node>, e: nat, title: Node -> bool)
    requires AllTagged(nodes, title) && e <= |nodes|
    ensures AllTagged(nodes[..e], title) && AllTagged(nodes[e..], title)
    decreases e
  {
    if e > 0 {
      AllTaggedSplit(nodes[1..], e - 1, title);
      assert nodes[..e] == [nodes[0]] + nodes[1..][..e - 1];
      assert nodes[1..][e - 1..] == nodes[e..];
      assert ([nodes[0]] + nodes[1..][..e - 1])[1..] == nodes[1..][..e - 1];
    }
  }
}
