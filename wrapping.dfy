/**
 * The wrap pass of the section wrapper (app.py lines 381-406) over the
 * document tree, for any rule saying which nodes open a box (`opens`, with
 * the box's class) and which siblings end a box's run (`ends`). The section
 * wrapper instantiates it with its heading rules; keeping the rules abstract
 * here keeps the tree reasoning apart from the text reasoning.
 *
 * The source visits the headings in document order and reparents nodes in
 * place. Wrapping at a heading only touches the heading's own sibling list
 * at and after the heading, and everything it moves ends up inside a box,
 * where later headings are skipped; so the walk is the same as a left to
 * right pass over each sibling list, descending into a node's children
 * before going on to its next sibling, which is how WrapList is defined.
 */
module Wrapping {
  import opened Wrappers
  import opened Dom

  /** An element `find_parent(class_="colorbox")` stops at: one of its
      classes is `colorbox`. */
  predicate IsBox(n: Node) {
    HasClass(n, "colorbox")
  }

  /** The `div class="colorbox <cls>"` that wrap_from creates. */
  function Box(cls: string, kids: seq<Node>): (b: Node)
    ensures IsBox(b)
  {
    Element("div", ["colorbox", cls], kids)
  }

  /** The first index from `j` on that ends a run, or the end of the list. */
  function RunEndFrom(nodes: seq<Node>, j: nat, ends: Node -> bool): (e: nat)
    requires j <= |nodes|
    ensures j <= e <= |nodes|
    decreases |nodes| - j
  {
    if j == |nodes| || ends(nodes[j]) then j else RunEndFrom(nodes, j + 1, ends)
  }

  /** The end of the run wrap_from moves when it starts at `start`. */
  function RunEnd(nodes: seq<Node>, start: nat, ends: Node -> bool): nat
    requires start < |nodes|
  {
    RunEndFrom(nodes, start + 1, ends)
  }

  lemma {:induction false} RunEndFromSpan(nodes: seq<Node>, j: nat, ends: Node -> bool)
    requires j <= |nodes|
    ensures forall i :: j <= i < RunEndFrom(nodes, j, ends) ==> !ends(nodes[i])
    ensures RunEndFrom(nodes, j, ends) < |nodes| ==> ends(nodes[RunEndFrom(nodes, j, ends)])
    decreases |nodes| - j
  {
    if j < |nodes| && !ends(nodes[j]) {
      RunEndFromSpan(nodes, j + 1, ends);
    }
  }

  /** The extent of a box: the start node, then every following sibling up
      to the first one that ends the run, or to the end of the list. */
  lemma RunExtent(nodes: seq<Node>, start: nat, ends: Node -> bool)
    requires start < |nodes|
    ensures start < RunEnd(nodes, start, ends) <= |nodes|
    ensures forall i :: start < i < RunEnd(nodes, start, ends) ==> !ends(nodes[i])
    ensures RunEnd(nodes, start, ends) < |nodes| ==> ends(nodes[RunEnd(nodes, start, ends)])
  {
    RunEndFromSpan(nodes, start + 1, ends);
  }

  /** `wrap_from(start_h, cls)` on the sibling list holding the start heading
      at `start`: unless the heading is already inside a box, a new box is
      inserted before it, and then the heading and the siblings after it
      are moved into the box one at a time until a sibling ends the run. */
  method WrapFrom(siblings: seq<Node>, start: nat, cls: string, inBox: bool, ends: Node -> bool) returns (r: seq<Node>)
    requires start < |siblings|
    ensures inBox ==> r == siblings
    ensures !inBox ==> r == siblings[..start] + [Box(cls, siblings[start..RunEnd(siblings, start, ends)])] +
                            siblings[RunEnd(siblings, start, ends)..]
  {
    if inBox {
      return siblings;
    }
    var moved: seq<Node> := [];
    r := siblings[..start] + [Box(cls, moved)] + siblings[start..];
    while start + 1 < |r|
      invariant start + |moved| <= |siblings|
      invariant moved == siblings[start..start + |moved|]
      invariant r == siblings[..start] + [Box(cls, moved)] + siblings[start + |moved|..]
      invariant moved != [] ==> RunEndFrom(siblings, start + |moved|, ends) == RunEnd(siblings, start, ends)
      decreases |r|
    {
      var cur := r[start + 1];
      assert cur == siblings[start + |moved|];
      if moved != [] && ends(cur) {
        break;
      }
      ghost var before := r;
      moved := moved + [cur];
      r := r[..start] + [Box(cls, moved)] + r[start + 2..];
      MoveOne(siblings, start, cls, moved, before, r);
    }
    assert moved != [];
  }

  /** One sibling moved into the box: the box grows by that sibling, and the
      siblings after it stay where they were. */
  lemma MoveOne(siblings: seq<Node>, start: nat, cls: string, moved: seq<Node>, r: seq<Node>, r2: seq<Node>)
    requires 1 <= |moved| && start + |moved| <= |siblings|
    requires moved[..|moved| - 1] == siblings[start..start + |moved| - 1]
    requires moved[|moved| - 1] == siblings[start + |moved| - 1]
    requires r == siblings[..start] + [Box(cls, moved[..|moved| - 1])] + siblings[start + |moved| - 1..]
    requires r2 == r[..start] + [Box(cls, moved)] + r[start + 2..]
    ensures moved == siblings[start..start + |moved|]
    ensures r2 == siblings[..start] + [Box(cls, moved)] + siblings[start + |moved|..]
  {
    assert r[start + 2..] == siblings[start + |moved|..];
  }

  /** The wrap pass over a sibling list whose parent is (`inBox`) or is not
      inside a colorbox. */
  function WrapList(nodes: seq<Node>, inBox: bool, opens: Node -> Option<string>, ends: Node -> bool): seq<Node>
    decreases nodes
  {
    if nodes == [] then []
    else if !inBox && opens(nodes[0]).Some? then
      var e := RunEnd(nodes, 0, ends);
      [Box(opens(nodes[0]).value, nodes[..e])] + WrapList(nodes[e..], inBox, opens, ends)
    else [WrapNode(nodes[0], inBox, opens, ends)] + WrapList(nodes[1..], inBox, opens, ends)
  }

  /** The wrap pass under a node that is not itself wrapped. */
  function WrapNode(n: Node, inBox: bool, opens: Node -> Option<string>, ends: Node -> bool): Node
    decreases n
  {
    match n
    case Element(name, classes, kids) => Element(name, classes, WrapList(kids, inBox || "colorbox" in classes, opens, ends))
    case _ => n
  }

  /** The walk over the headings, one sibling list at a time: a heading
      that opens a box is wrapped with WrapFrom and the walk goes on after
      the box; any other element has its children walked first. */
  method WrapChildren(nodes: seq<Node>, inBox: bool, opens: Node -> Option<string>, ends: Node -> bool) returns (r: seq<Node>)
    ensures r == WrapList(nodes, inBox, opens, ends)
    decreases nodes
  {
    r := nodes;
    var i := 0;
    ghost var k := 0;
    ghost var done: seq<Node> := [];
    while i < |r|
      invariant k <= |nodes| && i <= |r|
      invariant r[..i] == done && r[i..] == nodes[k..]
      invariant done + WrapList(nodes[k..], inBox, opens, ends) == WrapList(nodes, inBox, opens, ends)
      decreases |nodes| - k
    {
      var n := r[i];
      assert n == nodes[k..][0] == nodes[k];
      var cls := opens(n);
      if !inBox && cls.Some? {
        ghost var e := RunEnd(nodes[k..], 0, ends);
        ghost var before := r;
        r := WrapFrom(r, i, cls.value, inBox, ends);
        ghost var box := Box(cls.value, nodes[k..k + e]);
        OpenInvariant(nodes, inBox, k, e, done, before, i, r, opens, ends);
        done, k := done + [box], k + e;
      } else {
        var m := n;
        if n.Element? {
          var kids := WrapChildren(n.children, inBox || "colorbox" in n.classes, opens, ends);
          m := Element(n.name, n.classes, kids);
        }
        assert m == WrapNode(n, inBox, opens, ends);
        PassInvariant(nodes, inBox, k, done, r, i, m, opens, ends);
        r := r[i := m];
        done, k := done + [m], k + 1;
      }
      i := i + 1;
    }
    assert nodes[k..] == [];
  }

  /** The loop invariant of WrapChildren after a box is opened at `i`. */
  lemma OpenInvariant(nodes: seq<Node>, inBox: bool, k: nat, e: nat, done: seq<Node>, before: seq<Node>, i: nat,
                      r: seq<Node>, opens: Node -> Option<string>, ends: Node -> bool)
    requires k < |nodes| && i < |before| && before[..i] == done && before[i..] == nodes[k..]
    requires done + WrapList(nodes[k..], inBox, opens, ends) == WrapList(nodes, inBox, opens, ends)
    requires !inBox && opens(nodes[k]).Some? && e == RunEnd(nodes[k..], 0, ends)
    requires r == before[..i] + [Box(opens(nodes[k]).value, before[i..RunEnd(before, i, ends)])] + before[RunEnd(before, i, ends)..]
    ensures k + e <= |nodes| && i + 1 <= |r|
    ensures r[..i + 1] == done + [Box(opens(nodes[k]).value, nodes[k..k + e])] && r[i + 1..] == nodes[k + e..]
    ensures (done + [Box(opens(nodes[k]).value, nodes[k..k + e])]) + WrapList(nodes[k + e..], inBox, opens, ends) == WrapList(nodes, inBox, opens, ends)
  {
    var rest := nodes[k..];
    RunEndShift(before, i, rest, ends);
    assert before[i..RunEnd(before, i, ends)] == rest[..e];
    SliceOfSuffix(nodes, k, e);
    var box := Box(opens(nodes[k]).value, nodes[k..k + e]);
    Spliced(before, i, rest, done, box, e, r, ends);
    OpenStep(nodes, inBox, k, e, done, opens, ends);
  }

  /** The loop invariant of WrapChildren after the node at `i` is walked. */
  lemma PassInvariant(nodes: seq<Node>, inBox: bool, k: nat, done: seq<Node>, r: seq<Node>, i: nat, m: Node,
                      opens: Node -> Option<string>, ends: Node -> bool)
    requires k < |nodes| && i < |r| && r[..i] == done && r[i..] == nodes[k..]
    requires done + WrapList(nodes[k..], inBox, opens, ends) == WrapList(nodes, inBox, opens, ends)
    requires !(!inBox && opens(nodes[k]).Some?) && m == WrapNode(nodes[k], inBox, opens, ends)
    ensures r[i := m][..i + 1] == done + [m] && r[i := m][i + 1..] == nodes[k + 1..]
    ensures (done + [m]) + WrapList(nodes[k + 1..], inBox, opens, ends) == WrapList(nodes, inBox, opens, ends)
  {
    PassStep(nodes, inBox, k, done, opens, ends);
    Updated(r, i, nodes[k..], done, m);
    assert nodes[k..][1..] == nodes[k + 1..];
  }

  lemma SliceOfSuffix(nodes: seq<Node>, k: nat, e: nat)
    requires k + e <= |nodes|
    ensures nodes[k..][..e] == nodes[k..k + e]
  {
  }

  lemma Spliced(r: seq<Node>, i: nat, rest: seq<Node>, done: seq<Node>, b: Node, e: nat, r2: seq<Node>, ends: Node -> bool)
    requires i < |r| && r[..i] == done && r[i..] == rest && 1 <= e <= |rest| && RunEnd(r, i, ends) == i + e
    requires r2 == r[..i] + [b] + r[RunEnd(r, i, ends)..]
    ensures r2[..i + 1] == done + [b] && r2[i + 1..] == rest[e..]
  {
  }

  lemma Updated(r: seq<Node>, i: nat, rest: seq<Node>, done: seq<Node>, m: Node)
    requires i < |r| && r[..i] == done && r[i..] == rest
    ensures r[i := m][..i + 1] == done + [m] && r[i := m][i + 1..] == rest[1..]
  {
  }

  /** A heading that opens a box: the box is the next node of the output. */
  lemma OpenStep(nodes: seq<Node>, inBox: bool, k: nat, e: nat, done: seq<Node>, opens: Node -> Option<string>, ends: Node -> bool)
    requires k < |nodes| && !inBox && opens(nodes[k]).Some?
    requires e == RunEnd(nodes[k..], 0, ends)
    requires done + WrapList(nodes[k..], inBox, opens, ends) == WrapList(nodes, inBox, opens, ends)
    ensures k + e <= |nodes|
    ensures done + [Box(opens(nodes[k]).value, nodes[k..k + e])] + WrapList(nodes[k + e..], inBox, opens, ends) == WrapList(nodes, inBox, opens, ends)
  {
    var rest := nodes[k..];
    assert rest[0] == nodes[k];
    assert WrapList(rest, inBox, opens, ends) == [Box(opens(rest[0]).value, rest[..e])] + WrapList(rest[e..], inBox, opens, ends);
    assert rest[..e] == nodes[k..k + e];
    assert rest[e..] == nodes[k + e..];
  }

  /** Any other node: the node, walked, is the next node of the output. */
  lemma PassStep(nodes: seq<Node>, inBox: bool, k: nat, done: seq<Node>, opens: Node -> Option<string>, ends: Node -> bool)
    requires k < |nodes| && !(!inBox && opens(nodes[k]).Some?)
    requires done + WrapList(nodes[k..], inBox, opens, ends) == WrapList(nodes, inBox, opens, ends)
    ensures done + [WrapNode(nodes[k], inBox, opens, ends)] + WrapList(nodes[k + 1..], inBox, opens, ends) == WrapList(nodes, inBox, opens, ends)
  {
    assert nodes[k..][1..] == nodes[k + 1..];
    PassUnfold(nodes[k..], inBox, opens, ends);
    SnocAssoc(done, WrapNode(nodes[k], inBox, opens, ends), WrapList(nodes[k + 1..], inBox, opens, ends));
  }

  lemma OpenUnfold(l: seq<Node>, inBox: bool, opens: Node -> Option<string>, ends: Node -> bool)
    requires l != [] && !inBox && opens(l[0]).Some?
    ensures WrapList(l, inBox, opens, ends) ==
            [Box(opens(l[0]).value, l[..RunEnd(l, 0, ends)])] + WrapList(l[RunEnd(l, 0, ends)..], inBox, opens, ends)
  {
  }

  lemma PassUnfold(l: seq<Node>, inBox: bool, opens: Node -> Option<string>, ends: Node -> bool)
    requires l != [] && !(!inBox && opens(l[0]).Some?)
    ensures WrapList(l, inBox, opens, ends) == [WrapNode(l[0], inBox, opens, ends)] + WrapList(l[1..], inBox, opens, ends)
  {
  }

  lemma {:induction false} RunEndFromShift(r: seq<Node>, i: nat, rest: seq<Node>, j: nat, ends: Node -> bool)
    requires i <= |r| && r[i..] == rest && j <= |rest|
    ensures RunEndFrom(r, i + j, ends) == i + RunEndFrom(rest, j, ends)
    decreases |rest| - j
  {
    if j < |rest| {
      assert r[i + j] == rest[j];
      if !ends(rest[j]) {
        RunEndFromShift(r, i, rest, j + 1, ends);
      }
    }
  }

  lemma RunEndShift(r: seq<Node>, i: nat, rest: seq<Node>, ends: Node -> bool)
    requires i < |r| && r[i..] == rest
    ensures RunEnd(r, i, ends) == i + RunEnd(rest, 0, ends)
    ensures r[i..RunEnd(r, i, ends)] == rest[..RunEnd(rest, 0, ends)]
    ensures r[RunEnd(r, i, ends)..] == rest[RunEnd(rest, 0, ends)..]
  {
    RunEndFromShift(r, i, rest, 1, ends);
  }

  // ---------------------------------------------------------------------------
  // Inside a box nothing moves
  // ---------------------------------------------------------------------------

  /** Under a colorbox every heading is skipped, so nothing changes. */
  lemma {:induction false} WrapInsideBox(nodes: seq<Node>, opens: Node -> Option<string>, ends: Node -> bool)
    ensures WrapList(nodes, true, opens, ends) == nodes
    decreases nodes
  {
    if nodes != [] {
      var n := nodes[0];
      if n.Element? {
        WrapInsideBox(n.children, opens, ends);
      }
      assert WrapNode(n, true, opens, ends) == n;
      WrapInsideBox(nodes[1..], opens, ends);
      assert nodes == [n] + nodes[1..];
    }
  }

  // ---------------------------------------------------------------------------
  // Nothing lost, nothing duplicated, order kept
  // ---------------------------------------------------------------------------

  /** The document with every colorbox dissolved into its contents. */
  function UnboxList(nodes: seq<Node>): seq<Node>
    decreases nodes
  {
    if nodes == [] then [] else UnboxNode(nodes[0]) + UnboxList(nodes[1..])
  }

  function UnboxNode(n: Node): seq<Node>
    decreases n
  {
    match n
    case Element(name, classes, kids) =>
      if "colorbox" in classes then UnboxList(kids) else [Element(name, classes, UnboxList(kids))]
    case _ => [n]
  }

  lemma {:induction false} UnboxConcat(a: seq<Node>, b: seq<Node>)
    ensures UnboxList(a + b) == UnboxList(a) + UnboxList(b)
    decreases |a|
  {
    if a == [] {
      assert a + b == b;
    } else {
      assert (a + b)[0] == a[0];
      assert (a + b)[1..] == a[1..] + b;
      UnboxConcat(a[1..], b);
    }
  }

  lemma UnboxCons(x: Node, rest: seq<Node>)
    ensures UnboxList([x] + rest) == UnboxNode(x) + UnboxList(rest)
  {
    assert ([x] + rest)[1..] == rest;
  }

  /** Wrapping only puts runs of siblings into boxes: with the boxes
      dissolved, the document is exactly what it was, every node in its
      place and in its order, none lost and none repeated. */
  lemma {:induction false} WrapKeepsContent(nodes: seq<Node>, inBox: bool, opens: Node -> Option<string>, ends: Node -> bool)
    ensures UnboxList(WrapList(nodes, inBox, opens, ends)) == UnboxList(nodes)
    decreases nodes
  {
    if nodes != [] {
      var n := nodes[0];
      if !inBox && opens(n).Some? {
        var e := RunEnd(nodes, 0, ends);
        var b := Box(opens(n).value, nodes[..e]);
        WrapKeepsContent(nodes[e..], inBox, opens, ends);
        UnboxCons(b, WrapList(nodes[e..], inBox, opens, ends));
        assert nodes == nodes[..e] + nodes[e..];
        UnboxConcat(nodes[..e], nodes[e..]);
      } else {
        var w := WrapNode(n, inBox, opens, ends);
        if n.Element? {
          WrapKeepsContent(n.children, inBox || "colorbox" in n.classes, opens, ends);
        }
        assert UnboxNode(w) == UnboxNode(n);
        WrapKeepsContent(nodes[1..], inBox, opens, ends);
        UnboxCons(w, WrapList(nodes[1..], inBox, opens, ends));
        assert nodes == [n] + nodes[1..];
        UnboxCons(n, nodes[1..]);
      }
    }
  }

  lemma {:induction false} UnboxKeepsTexts(nodes: seq<Node>)
    ensures TextsOf(UnboxList(nodes)) == TextsOf(nodes)
    decreases nodes
  {
    if nodes != [] {
      var n := nodes[0];
      if n.Element? {
        UnboxKeepsTexts(n.children);
        if "colorbox" !in n.classes {
          var m := Element(n.name, n.classes, UnboxList(n.children));
          assert TextsOf([m]) == NodeTexts(m) + TextsOf([]);
        }
      } else {
        assert TextsOf([n]) == NodeTexts(n) + TextsOf([]);
      }
      assert TextsOf(UnboxNode(n)) == NodeTexts(n);
      UnboxKeepsTexts(nodes[1..]);
      TextsOfConcat(UnboxNode(n), UnboxList(nodes[1..]));
    }
  }

  /** Boxes hold no text of their own, so wrapping leaves the text of the
      document, and of every node it does not move, as it was. */
  lemma WrapKeepsTexts(nodes: seq<Node>, inBox: bool, opens: Node -> Option<string>, ends: Node -> bool)
    ensures TextsOf(WrapList(nodes, inBox, opens, ends)) == TextsOf(nodes)
  {
    WrapKeepsContent(nodes, inBox, opens, ends);
    UnboxKeepsTexts(nodes);
    UnboxKeepsTexts(WrapList(nodes, inBox, opens, ends));
  }

  // ---------------------------------------------------------------------------
  // Boxes never nest
  // ---------------------------------------------------------------------------

  predicate NodeBoxFree(n: Node)
    decreases n
  {
    match n
    case Element(_, classes, kids) => "colorbox" !in classes && BoxFree(kids)
    case _ => true
  }

  /** No colorbox anywhere in or under `nodes`. */
  predicate BoxFree(nodes: seq<Node>)
    decreases nodes
  {
    nodes == [] || (NodeBoxFree(nodes[0]) && BoxFree(nodes[1..]))
  }

  predicate NodeFlat(n: Node)
    decreases n
  {
    match n
    case Element(_, classes, kids) => if "colorbox" in classes then BoxFree(kids) else Flat(kids)
    case _ => true
  }

  /** No colorbox in or under `nodes` holds another one. */
  predicate Flat(nodes: seq<Node>)
    decreases nodes
  {
    nodes == [] || (NodeFlat(nodes[0]) && Flat(nodes[1..]))
  }

  lemma {:induction false} BoxFreeSplit(nodes: seq<Node>, e: nat)
    requires BoxFree(nodes) && e <= |nodes|
    ensures BoxFree(nodes[..e]) && BoxFree(nodes[e..])
    decreases e
  {
    if e > 0 {
      BoxFreeSplit(nodes[1..], e - 1);
      assert nodes[..e] == [nodes[0]] + nodes[1..][..e - 1];
      assert nodes[1..][e - 1..] == nodes[e..];
      assert ([nodes[0]] + nodes[1..][..e - 1])[1..] == nodes[1..][..e - 1];
    }
  }

  lemma {:induction false} BoxFreeIsFlat(nodes: seq<Node>)
    requires BoxFree(nodes)
    ensures Flat(nodes)
    decreases nodes
  {
    if nodes != [] {
      if nodes[0].Element? {
        BoxFreeIsFlat(nodes[0].children);
      }
      BoxFreeIsFlat(nodes[1..]);
    }
  }

  /** In a document without colorboxes, the boxes the pass makes never
      contain one another. */
  lemma {:induction false} WrapNeverNests(nodes: seq<Node>, inBox: bool, opens: Node -> Option<string>, ends: Node -> bool)
    requires BoxFree(nodes)
    ensures Flat(WrapList(nodes, inBox, opens, ends))
    decreases nodes
  {
    if inBox {
      WrapInsideBox(nodes, opens, ends);
      BoxFreeIsFlat(nodes);
    } else if nodes != [] {
      var n := nodes[0];
      var r := WrapList(nodes, inBox, opens, ends);
      if opens(n).Some? {
        var e := RunEnd(nodes, 0, ends);
        BoxFreeSplit(nodes, e);
        WrapNeverNests(nodes[e..], inBox, opens, ends);
        assert r[0] == Box(opens(n).value, nodes[..e]);
        assert r[1..] == WrapList(nodes[e..], inBox, opens, ends);
      } else {
        if n.Element? {
          WrapNeverNests(n.children, inBox, opens, ends);
        }
        WrapNeverNests(nodes[1..], inBox, opens, ends);
        assert r[0] == WrapNode(n, inBox, opens, ends);
        assert r[1..] == WrapList(nodes[1..], inBox, opens, ends);
      }
    }
  }

  // ---------------------------------------------------------------------------
  // A second pass changes nothing
  // ---------------------------------------------------------------------------

  predicate NodeSettled(n: Node, inBox: bool, opens: Node -> Option<string>)
    decreases n
  {
    (inBox || opens(n).None?) &&
    match n
    case Element(_, classes, kids) => Settled(kids, inBox || "colorbox" in classes, opens)
    case _ => true
  }

  /** No node of `nodes` outside a colorbox would open one. */
  predicate Settled(nodes: seq<Node>, inBox: bool, opens: Node -> Option<string>)
    decreases nodes
  {
    nodes == [] || (NodeSettled(nodes[0], inBox, opens) && Settled(nodes[1..], inBox, opens))
  }

  lemma {:induction false} SettledInBox(nodes: seq<Node>, opens: Node -> Option<string>)
    ensures Settled(nodes, true, opens)
    decreases nodes
  {
    if nodes != [] {
      if nodes[0].Element? {
        SettledInBox(nodes[0].children, opens);
      }
      SettledInBox(nodes[1..], opens);
    }
  }

  lemma {:induction false} SettledUnchanged(nodes: seq<Node>, inBox: bool, opens: Node -> Option<string>, ends: Node -> bool)
    requires Settled(nodes, inBox, opens)
    ensures WrapList(nodes, inBox, opens, ends) == nodes
    decreases nodes
  {
    if nodes != [] {
      var n := nodes[0];
      if n.Element? {
        SettledUnchanged(n.children, inBox || "colorbox" in n.classes, opens, ends);
      }
      assert WrapNode(n, inBox, opens, ends) == n;
      SettledUnchanged(nodes[1..], inBox, opens, ends);
      assert nodes == [n] + nodes[1..];
    }
  }

  /** Which nodes open a box depends only on the element's name and its text,
      and a box itself opens none. */
  ghost predicate OpensByNameAndText(opens: Node -> Option<string>) {
    (forall a: Node, b: Node {:trigger opens(a), opens(b)} ::
       a.Element? && b.Element? && a.name == b.name && NodeTexts(a) == NodeTexts(b) ==> opens(a) == opens(b)) &&
    (forall cls: string, kids: seq<Node> {:trigger Box(cls, kids)} :: opens(Box(cls, kids)).None?)
  }

  /** After the pass every node that could open a box is inside one. */
  lemma {:induction false} WrapSettles(nodes: seq<Node>, inBox: bool, opens: Node -> Option<string>, ends: Node -> bool)
    requires OpensByNameAndText(opens)
    ensures Settled(WrapList(nodes, inBox, opens, ends), inBox, opens)
    decreases nodes
  {
    if nodes != [] {
      var n := nodes[0];
      var r := WrapList(nodes, inBox, opens, ends);
      if !inBox && opens(n).Some? {
        var e := RunEnd(nodes, 0, ends);
        var b := Box(opens(n).value, nodes[..e]);
        SettledInBox(nodes[..e], opens);
        assert opens(b).None?;
        assert NodeSettled(b, inBox, opens);
        WrapSettles(nodes[e..], inBox, opens, ends);
        assert r[0] == b && r[1..] == WrapList(nodes[e..], inBox, opens, ends);
      } else {
        var w := WrapNode(n, inBox, opens, ends);
        if n.Element? {
          WrapSettles(n.children, inBox || "colorbox" in n.classes, opens, ends);
          WrapKeepsTexts(n.children, inBox || "colorbox" in n.classes, opens, ends);
          assert NodeTexts(w) == NodeTexts(n);
          assert opens(w) == opens(n);
        }
        assert NodeSettled(w, inBox, opens);
        WrapSettles(nodes[1..], inBox, opens, ends);
        assert r[0] == w && r[1..] == WrapList(nodes[1..], inBox, opens, ends);
      }
    }
  }

  /** Running the pass a second time creates no new box and moves nothing. */
  lemma WrapIdempotent(nodes: seq<Node>, inBox: bool, opens: Node -> Option<string>, ends: Node -> bool)
    requires OpensByNameAndText(opens)
    ensures WrapList(WrapList(nodes, inBox, opens, ends), inBox, opens, ends) == WrapList(nodes, inBox, opens, ends)
  {
    WrapSettles(nodes, inBox, opens, ends);
    SettledUnchanged(WrapList(nodes, inBox, opens, ends), inBox, opens, ends);
  }
}
