/** The stackless walks over a document that collect the XPath axes. */
module XmlAxes {
  import opened XmlTree

  // --- handles: everything about the null node is null ---

  function Parent(n: XmlNode?): (r: XmlNode?)
    reads n
  {
    if n == null then null else n.parent
  }

  function FirstChild(n: XmlNode?): (r: XmlNode?)
    reads n
  {
    if n == null then null else n.firstChild
  }

  function NextSibling(n: XmlNode?): (r: XmlNode?)
    reads n
  {
    if n == null then null else n.nextSibling
  }

  function PreviousSibling(n: XmlNode?): (r: XmlNode?)
    requires n != null ==> n.prevSiblingC != null
    reads n, if n == null then null else n.prevSiblingC
  {
    if n == null then null else if n.prevSiblingC.nextSibling != null then n.prevSiblingC else null
  }

  function LastChild(n: XmlNode?): (r: XmlNode?)
    reads n, if n == null then null else n.firstChild
  {
    if n == null || n.firstChild == null then null else n.firstChild.prevSiblingC
  }

  // --- document order ---

  /** Where a node stands in document order: its parent, the end of its descendants, its previous
      sibling and its last child; -1 for none. */
  datatype Place = Place(parent: int, end: nat, prev: int, last: int)

  predicate Placed(ps: seq<Place>, i: nat)
    requires i < |ps|
  {
    var p := ps[i];
    && i < p.end <= |ps|
    && (if i == 0 then p.parent == -1 && p.end == |ps|
        else 0 <= p.parent < i < ps[p.parent].end && p.end <= ps[p.parent].end)
    && (i + 1 < p.end ==> ps[i + 1].parent == i)
    && (HasNext(ps, i) ==> p.end < |ps| && ps[p.end].parent == p.parent && ps[p.end].prev == i)
    && (if i == 0 || i == p.parent + 1 then p.prev == -1
        else 0 <= p.prev < i && ps[p.prev].parent == p.parent && ps[p.prev].end == i)
    && (if p.end == i + 1 then p.last == -1
        else i < p.last < p.end && ps[p.last].parent == i && ps[p.last].end == p.end)
  }

  predicate HasNext(ps: seq<Place>, i: nat)
    requires i < |ps|
  {
    0 <= ps[i].parent < |ps| && ps[i].end < ps[ps[i].parent].end
  }

  /** A node inside another one's descendants has its parent and its own descendants there too. */
  predicate Nested(ps: seq<Place>, i: nat, c: nat)
    requires i < |ps| && c < |ps|
  {
    i < c < ps[i].end ==> i <= ps[c].parent && ps[c].end <= ps[i].end
  }

  /** The places of the nodes of one tree, in document order. */
  ghost predicate Numbered(ps: seq<Place>)
  {
    && |ps| > 0
    && (forall i :: 0 <= i < |ps| ==> Placed(ps, i))
    && (forall i, c :: 0 <= i < |ps| && 0 <= c < |ps| ==> Nested(ps, i, c))
  }

  /** The links of a document whose nodes stand at these places. */
  ghost predicate LinkedAs(nodes: seq<XmlNode>, ps: seq<Place>, i: nat)
    requires |nodes| == |ps| && i < |ps|
    reads nodes
  {
    var n, p := nodes[i], ps[i];
    && n.parent == At(nodes, p.parent)
    && n.firstChild == At(nodes, if i + 1 < p.end then i + 1 else -1)
    && n.nextSibling == At(nodes, if HasNext(ps, i) then p.end else -1)
    && n.prevSiblingC != null
    && (p.prev >= 0 ==> n.prevSiblingC == At(nodes, p.prev))
    && (p.prev < 0 && 0 <= p.parent < |ps| ==> n.prevSiblingC == At(nodes, ps[p.parent].last))
    && (p.parent < 0 ==> n.prevSiblingC == n)
  }

  function At(nodes: seq<XmlNode>, i: int): (n: XmlNode?)
  {
    if 0 <= i < |nodes| then nodes[i] else null
  }

  ghost predicate Document(nodes: seq<XmlNode>, ps: seq<Place>)
    reads nodes
  {
    && |nodes| == |ps| && Numbered(ps)
    && Distinct(nodes)
    && (forall i :: 0 <= i < |ps| ==> LinkedAs(nodes, ps, i))
  }

  /** What the handle operations give at a place. */
  lemma Links(nodes: seq<XmlNode>, ps: seq<Place>, i: nat)
    requires Document(nodes, ps) && i < |ps|
    ensures |nodes| == |ps| && nodes[i].prevSiblingC != null
    ensures Parent(nodes[i]) == At(nodes, ps[i].parent)
    ensures FirstChild(nodes[i]) == At(nodes, if i + 1 < ps[i].end then i + 1 else -1)
    ensures NextSibling(nodes[i]) == At(nodes, if HasNext(ps, i) then ps[i].end else -1)
    ensures PreviousSibling(nodes[i]) == At(nodes, ps[i].prev)
    ensures LastChild(nodes[i]) == At(nodes, ps[i].last)
  {
    assert LinkedAs(nodes, ps, i) && Placed(ps, i);
    if ps[i].prev >= 0 {
      assert LinkedAs(nodes, ps, ps[i].prev) && HasNext(ps, ps[i].prev);
    } else if i > 0 {
      var last := ps[ps[i].parent].last;
      assert Placed(ps, ps[i].parent);
      assert LinkedAs(nodes, ps, last) && !HasNext(ps, last);
    }
    if i + 1 < ps[i].end {
      assert LinkedAs(nodes, ps, i + 1) && Placed(ps, i + 1);
      assert ps[i + 1].prev == -1;
    }
  }

  lemma DocumentNumbered(nodes: seq<XmlNode>, ps: seq<Place>)
    requires Document(nodes, ps)
    ensures |nodes| == |ps| && Numbered(ps)
  {
  }

  lemma SameNode(nodes: seq<XmlNode>, ps: seq<Place>, i: nat, j: nat)
    requires Document(nodes, ps) && i < |ps| && j < |ps|
    ensures |nodes| == |ps| && (nodes[i] == nodes[j] <==> i == j)
  {
  }

  // --- the axes, as places ---

  /** XPath 1.0, section 2.2, by places: an ancestor starts before the node and ends after it. */
  predicate IsAncestor(ps: seq<Place>, a: nat, i: nat)
    requires a < |ps|
  {
    a < i < ps[a].end
  }

  /** Ancestors of `i` down from its parent to place `from`. */
  function Ancestors(ps: seq<Place>, i: nat, from: nat): (s: seq<nat>)
    requires from <= i < |ps|
    decreases i - from
  {
    if from == i then [] else Ancestors(ps, i, from + 1) + if i < ps[from].end then [from] else []
  }

  /** Nodes that end before `i` starts, the last one first, down to place `from`. */
  function Preceding(ps: seq<Place>, i: nat, from: nat): (s: seq<nat>)
    requires from <= i < |ps|
    decreases i - from
  {
    if from == i then [] else Preceding(ps, i, from + 1) + if i < ps[from].end then [] else [from]
  }

  /** The nodes at the given places. */
  function Pick(nodes: seq<XmlNode>, s: seq<nat>): (r: seq<XmlNode>)
    requires forall k :: 0 <= k < |s| ==> s[k] < |nodes|
    ensures |r| == |s|
  {
    seq(|s|, k requires 0 <= k < |s| => nodes[s[k]])
  }

  lemma {:induction false} InRange(ps: seq<Place>, i: nat, from: nat)
    requires from <= i < |ps|
    ensures forall k :: 0 <= k < |Ancestors(ps, i, from)| ==> Ancestors(ps, i, from)[k] < |ps|
    ensures forall k :: 0 <= k < |Preceding(ps, i, from)| ==> Preceding(ps, i, from)[k] < |ps|
    decreases i - from
  {
    if from < i {
      InRange(ps, i, from + 1);
    }
  }

  /** Down to place `from`, what the ancestor walk has collected. */
  ghost function AncestorNodes(nodes: seq<XmlNode>, ps: seq<Place>, i: nat, from: nat): (r: seq<XmlNode>)
    requires from <= i < |ps| == |nodes|
  {
    InRange(ps, i, from);
    Pick(nodes, Ancestors(ps, i, from))
  }

  ghost function PrecedingNodes(nodes: seq<XmlNode>, ps: seq<Place>, i: nat, from: nat): (r: seq<XmlNode>)
    requires from <= i < |ps| == |nodes|
  {
    InRange(ps, i, from);
    Pick(nodes, Preceding(ps, i, from))
  }

  lemma OneMorePlace(nodes: seq<XmlNode>, ps: seq<Place>, i: nat, from: nat)
    requires from < i < |ps| == |nodes|
    ensures AncestorNodes(nodes, ps, i, from)
         == AncestorNodes(nodes, ps, i, from + 1) + if i < ps[from].end then [nodes[from]] else []
    ensures PrecedingNodes(nodes, ps, i, from)
         == PrecedingNodes(nodes, ps, i, from + 1) + if i < ps[from].end then [] else [nodes[from]]
  {
    InRange(ps, i, from);
    InRange(ps, i, from + 1);
  }

  /** Between a node on the way up and its parent there are no ancestors. */
  lemma {:induction false} NoAncestorBetween(nodes: seq<XmlNode>, ps: seq<Place>, i: nat, from: nat, upto: nat)
    requires Numbered(ps) && from <= upto <= i < |ps| == |nodes|
    requires forall k :: from <= k < upto ==> !IsAncestor(ps, k, i)
    ensures AncestorNodes(nodes, ps, i, from) == AncestorNodes(nodes, ps, i, upto)
    decreases upto - from
  {
    hide Numbered, AncestorNodes;
    if from < upto {
      NoAncestorBetween(nodes, ps, i, from + 1, upto);
      OneMorePlace(nodes, ps, i, from);
      assert !IsAncestor(ps, from, i);
    }
  }

  lemma NothingCollected(nodes: seq<XmlNode>, ps: seq<Place>, i: nat)
    requires i < |ps| == |nodes|
    ensures AncestorNodes(nodes, ps, i, i) == [] && PrecedingNodes(nodes, ps, i, i) == []
  {
  }

  /** No ancestor of `i` lies between a node on its way up and that node's parent. */
  lemma ParentIsNext(ps: seq<Place>, i: nat, c: nat, k: nat)
    requires Numbered(ps) && i < |ps| && c <= i < ps[c].end && ps[c].parent < k < c
    ensures !IsAncestor(ps, k, i)
  {
    assert Placed(ps, c) && Nested(ps, k, c);
  }

  // --- the walks ---

  method StepAncestor(n: XmlNode, ghost nodes: seq<XmlNode>, ghost ps: seq<Place>, ghost i: nat)
    returns (ns: seq<XmlNode>)
    requires Document(nodes, ps) && i < |nodes| == |ps| && nodes[i] == n
    ensures ns == AncestorNodes(nodes, ps, i, 0)
  {
    hide Document, AncestorNodes, Numbered, LinkedAs;
    DocumentNumbered(nodes, ps);
    ns := [];
    var cur := Parent(n);
    ghost var c: int := i;
    NothingCollected(nodes, ps, i);
    AncestorStep(nodes, ps, i, i);
    while cur != null
      invariant 0 <= c <= i < ps[c].end
      invariant cur == At(nodes, ps[c].parent) && -1 <= ps[c].parent < c
      invariant ps[c].parent >= 0 ==> IsAncestor(ps, ps[c].parent, i)
      invariant ns == AncestorNodes(nodes, ps, i, ps[c].parent + 1)
      decreases c
    {
      ns := ns + [cur];
      OneMorePlace(nodes, ps, i, ps[c].parent);
      c := ps[c].parent;
      AncestorStep(nodes, ps, i, c);
      cur := Parent(cur);
    }
  }

  /** From a node at or above `i` to its parent. */
  lemma AncestorStep(nodes: seq<XmlNode>, ps: seq<Place>, i: nat, c: nat)
    requires Document(nodes, ps) && Numbered(ps) && c <= i < |nodes| == |ps|
    requires c == i || IsAncestor(ps, c, i)
    ensures c <= i < ps[c].end && -1 <= ps[c].parent < c && Parent(nodes[c]) == At(nodes, ps[c].parent)
    ensures ps[c].parent >= 0 ==> IsAncestor(ps, ps[c].parent, i)
    ensures AncestorNodes(nodes, ps, i, ps[c].parent + 1) == AncestorNodes(nodes, ps, i, c)
  {
    hide Document, AncestorNodes;
    Links(nodes, ps, c);
    assert Placed(ps, c) && Placed(ps, i);
    forall k | ps[c].parent + 1 <= k < c ensures !IsAncestor(ps, k, i) {
      ParentIsNext(ps, i, c, k);
    }
    NoAncestorBetween(nodes, ps, i, ps[c].parent + 1, c);
  }

  /** `step_push` for the node test that takes every node; the null node is not pushed. */
  function StepPush(ns: seq<XmlNode>, n: XmlNode?): (r: seq<XmlNode>)
  {
    if n == null then ns else ns + [n]
  }

  /** Where a walk in document order goes from `c`: into the children, or behind them. */
  lemma WalkStep(nodes: seq<XmlNode>, ps: seq<Place>, c: nat)
    requires Document(nodes, ps) && c < |nodes| == |ps|
    ensures c < ps[c].end <= |ps| && -1 <= ps[c].parent < c
    ensures FirstChild(nodes[c]) == if c + 1 < ps[c].end then At(nodes, c + 1) else null
    ensures NextSibling(nodes[c]) == if HasNext(ps, c) then At(nodes, ps[c].end) else null
    ensures HasNext(ps, c) ==> ps[c].end < |ps|
    ensures Parent(nodes[c]) == At(nodes, ps[c].parent)
    ensures !HasNext(ps, c) && c > 0 ==> ps[c].parent >= 0 && ps[ps[c].parent].end == ps[c].end
  {
    Links(nodes, ps, c);
    assert Placed(ps, c);
  }

  /** The climb of the descendant walk, from a node without a next sibling. */
  method ClimbTo(cur0: XmlNode, n: XmlNode, ghost nodes: seq<XmlNode>, ghost ps: seq<Place>, ghost i: nat,
                 ghost c0: nat)
    returns (cur: XmlNode)
    requires Document(nodes, ps) && i <= c0 < |nodes| == |ps| && nodes[i] == n && nodes[c0] == cur0
    requires c0 < ps[i].end
    ensures cur == n ==> ps[c0].end == ps[i].end
    ensures cur != n ==> ps[c0].end < ps[i].end <= |ps| && NextSibling(cur) == nodes[ps[c0].end]
  {
    hide Document, Numbered, LinkedAs;
    cur := cur0;
    ghost var c: nat := c0;
    DocumentNumbered(nodes, ps);
    WalkStep(nodes, ps, c);
    SameNode(nodes, ps, c, i);
    while NextSibling(cur) == null && cur != n
      invariant i <= c <= c0 && ps[c].end == ps[c0].end && cur == nodes[c] && c < ps[i].end
      invariant NextSibling(cur) == if HasNext(ps, c) then At(nodes, ps[c].end) else null
      invariant HasNext(ps, c) ==> ps[c].end < |ps|
      invariant cur == n <==> c == i
      decreases c
    {
      WalkStep(nodes, ps, c);
      InsideParent(ps, i, c);
      c := ps[c].parent;
      cur := cur.parent;
      WalkStep(nodes, ps, c);
      SameNode(nodes, ps, c, i);
    }
    WalkStep(nodes, ps, i);
    if cur != n {
      NextInside(ps, i, c);
    }
  }

  lemma InsideParent(ps: seq<Place>, i: nat, c: nat)
    requires Numbered(ps) && i < c < |ps| && c < ps[i].end
    ensures i <= ps[c].parent < c && ps[c].end <= ps[i].end
  {
    assert Nested(ps, i, c) && Placed(ps, c);
  }

  /** One step of the descendant walk that needs no climb. */
  lemma DescendStep(nodes: seq<XmlNode>, ps: seq<Place>, i: nat, c: nat)
    requires Document(nodes, ps) && i < c < |nodes| == |ps| && c < ps[i].end
    ensures c < ps[i].end <= |ps|
    ensures FirstChild(nodes[c]) != null ==> c + 1 < ps[i].end && FirstChild(nodes[c]) == nodes[c + 1]
    ensures FirstChild(nodes[c]) == null ==> ps[c].end == c + 1
    ensures FirstChild(nodes[c]) == null && NextSibling(nodes[c]) != null ==>
              c + 1 < ps[i].end && NextSibling(nodes[c]) == nodes[c + 1]
  {
    hide Document, Numbered;
    DocumentNumbered(nodes, ps);
    WalkStep(nodes, ps, c);
    WalkStep(nodes, ps, i);
    InsideParent(ps, i, c);
    if HasNext(ps, c) {
      NextInside(ps, i, c);
    }
  }

  /** Where the descendant walk goes from `cur`; back to `n` when all is done. */
  method Descend(cur: XmlNode, n: XmlNode, ghost nodes: seq<XmlNode>, ghost ps: seq<Place>, ghost i: nat, ghost c: nat)
    returns (next: XmlNode)
    requires Document(nodes, ps) && i < c < |nodes| == |ps| && nodes[i] == n && nodes[c] == cur && c < ps[i].end
    ensures c < ps[i].end <= |ps| && next == if c + 1 < ps[i].end then nodes[c + 1] else n
  {
    hide Document, Numbered, LinkedAs, FirstChild, NextSibling, HasNext;
    DescendStep(nodes, ps, i, c);
    if FirstChild(cur) != null {
      next := FirstChild(cur);
    } else if NextSibling(cur) != null {
      next := NextSibling(cur);
    } else {
      next := ClimbTo(cur, n, nodes, ps, i, c);
      if next != n {
        next := NextSibling(next);
      }
    }
  }

  lemma SliceGrows(nodes: seq<XmlNode>, from: nat, c: nat)
    requires from <= c < |nodes|
    ensures nodes[from..c + 1] == nodes[from..c] + [nodes[c]]
  {
  }

  method StepDescendant(n: XmlNode, ghost nodes: seq<XmlNode>, ghost ps: seq<Place>, ghost i: nat)
    returns (ns: seq<XmlNode>)
    requires Document(nodes, ps) && i < |nodes| == |ps| && nodes[i] == n
    ensures i < ps[i].end <= |ps| && ns == nodes[i + 1..ps[i].end]
  {
    hide Document, Numbered, LinkedAs, FirstChild, NextSibling, HasNext, At, Parent;
    ns := [];
    var cur := FirstChild(n);
    ghost var c: nat := i + 1;
    WalkStep(nodes, ps, i);
    AtPlace(nodes, c);
    assert nodes[i + 1..c] == [];
    while cur != null && cur != n
      invariant i < c <= ps[i].end <= |ps| && ns == nodes[i + 1..c]
      invariant if c < ps[i].end then cur == nodes[c] else cur == null || cur == n
      decreases ps[i].end - c
    {
      ns := StepPush(ns, cur);
      SliceGrows(nodes, i + 1, c);
      cur := Descend(cur, n, nodes, ps, i, c);
      c := c + 1;
    }
    if c < |ps| {
      SameNode(nodes, ps, c, i);
    }
  }

  lemma NextInside(ps: seq<Place>, i: nat, c: nat)
    requires Numbered(ps) && i < c < |ps| && c < ps[i].end && HasNext(ps, c)
    ensures ps[c].end < ps[i].end
  {
    InsideParent(ps, i, c);
    if ps[c].parent > i {
      InsideParent(ps, i, ps[c].parent);
    }
  }

  /** The climb of the following walk: up to the first node with a next sibling, and over to it. */
  method ClimbOut(cur0: XmlNode?, ghost nodes: seq<XmlNode>, ghost ps: seq<Place>, ghost c0: nat)
    returns (cur: XmlNode?)
    requires Document(nodes, ps) && c0 < |nodes| == |ps| && nodes[c0] == cur0
    ensures ps[c0].end <= |ps| && cur == At(nodes, ps[c0].end)
  {
    hide Document, Numbered, LinkedAs;
    cur := cur0;
    ghost var c: int := c0;
    WalkStep(nodes, ps, c);
    while cur != null && NextSibling(cur) == null
      invariant -1 <= c <= c0 && cur == At(nodes, c)
      invariant if c < 0 then ps[c0].end == |ps| else ps[c].end == ps[c0].end
      decreases c
    {
      WalkStep(nodes, ps, c);
      RootEnds(nodes, ps);
      c := ps[c].parent;
      cur := cur.parent;
    }
    if c >= 0 {
      WalkStep(nodes, ps, c);
    }
    cur := NextSibling(cur);
  }

  lemma RootEnds(nodes: seq<XmlNode>, ps: seq<Place>)
    requires Document(nodes, ps)
    ensures |ps| > 0 && ps[0].end == |ps| && ps[0].parent == -1
  {
    assert Placed(ps, 0);
  }

  method StepFollowing(n: XmlNode, ghost nodes: seq<XmlNode>, ghost ps: seq<Place>, ghost i: nat)
    returns (ns: seq<XmlNode>)
    requires Document(nodes, ps) && i < |nodes| == |ps| && nodes[i] == n
    ensures ps[i].end <= |ps| && ns == nodes[ps[i].end..]
  {
    hide Document, Numbered, LinkedAs, At;
    ns := [];
    var cur := ClimbOut(n, nodes, ps, i);
    ghost var c: nat := ps[i].end;
    AtPlace(nodes, c);
    while true
      invariant ps[i].end <= c <= |ps| && ns == nodes[ps[i].end..c] && cur == At(nodes, c)
      decreases |ps| - c
    {
      AtPlace(nodes, c);
      if c < |ps| {
        SliceGrows(nodes, ps[i].end, c);
        WalkStep(nodes, ps, c);
        AtPlace(nodes, c + 1);
      }
      ns := StepPush(ns, cur);
      if FirstChild(cur) != null {
        cur := FirstChild(cur);
      } else if NextSibling(cur) != null {
        cur := NextSibling(cur);
      } else {
        if cur != null {
          cur := ClimbOut(cur, nodes, ps, c);
        }
        if cur == null {
          assert nodes[ps[i].end..] == nodes[ps[i].end..|ps|];
          break;
        }
      }
      c := c + 1;
    }
  }

  lemma AtPlace(nodes: seq<XmlNode>, c: nat)
    ensures At(nodes, c) == null <==> c >= |nodes|
    ensures c < |nodes| ==> At(nodes, c) == nodes[c]
  {
  }

  /** Within the span of `p`: at `p` or among its descendants. */
  predicate Within(ps: seq<Place>, p: nat, i: int)
    requires p < |ps|
  {
    p <= i < ps[p].end
  }

  lemma WithinParent(ps: seq<Place>, p: nat, c: nat)
    requires Numbered(ps) && p < |ps| && c < |ps| && c != p
    ensures -1 <= ps[c].parent < c && (Within(ps, p, c) <==> Within(ps, p, ps[c].parent))
  {
    assert Placed(ps, c) && Nested(ps, p, c);
    if ps[c].parent >= 0 {
      assert Placed(ps, ps[c].parent) && Nested(ps, p, ps[c].parent);
    }
  }

  method NodeIsAncestor(parent: XmlNode?, node: XmlNode?, ghost nodes: seq<XmlNode>, ghost ps: seq<Place>, ghost p: nat,
                        ghost i: nat)
    returns (r: bool)
    requires Document(nodes, ps) && p < |nodes| == |ps| && i < |ps| && nodes[p] == parent && nodes[i] == node
    ensures r <==> Within(ps, p, i)
  {
    hide Document, Numbered, LinkedAs;
    DocumentNumbered(nodes, ps);
    RootEnds(nodes, ps);
    var cur := node;
    ghost var c: int := i;
    SameNode(nodes, ps, c, p);
    while cur != null && cur != parent
      invariant -1 <= c <= i && cur == At(nodes, c) && (Within(ps, p, i) <==> Within(ps, p, c))
      invariant cur == parent <==> c == p
      decreases c
    {
      WithinParent(ps, p, c);
      WalkStep(nodes, ps, c);
      c := ps[c].parent;
      cur := Parent(cur);
      if c >= 0 {
        SameNode(nodes, ps, c, p);
      }
    }
    if c >= 0 {
      WalkStep(nodes, ps, c);
    }
    return parent != null && cur == parent;
  }

  /** What the preceding walk meets at `c`. */
  lemma BackStep(nodes: seq<XmlNode>, ps: seq<Place>, c: nat)
    requires Document(nodes, ps) && c < |nodes| == |ps|
    ensures c < ps[c].end <= |ps| && nodes[c].prevSiblingC != null
    ensures LastChild(nodes[c]) == At(nodes, ps[c].last)
    ensures
      if ps[c].last >= 0 then c < ps[c].last < ps[c].end && ps[ps[c].last].end == ps[c].end
      else ps[c].end == c + 1
    ensures PreviousSibling(nodes[c]) == At(nodes, ps[c].prev)
    ensures ps[c].prev >= 0 ==> ps[c].prev < c && ps[ps[c].prev].end == c
    ensures Parent(nodes[c]) == At(nodes, ps[c].parent)
    ensures ps[c].prev < 0 ==> ps[c].parent == c - 1
  {
    Links(nodes, ps, c);
    assert Placed(ps, c);
  }

  /** The climb from a first child to a node with a previous sibling, which it moves to. */
  method ClimbBack(cur0: XmlNode, ns0: seq<XmlNode>, n: XmlNode, ghost nodes: seq<XmlNode>, ghost ps: seq<Place>,
                   ghost i: nat, ghost c0: nat)
    returns (cur: XmlNode?, ns: seq<XmlNode>, ghost c: int)
    requires Document(nodes, ps) && c0 <= i < |nodes| == |ps| && nodes[i] == n && nodes[c0] == cur0
    requires ps[c0].prev < 0 && ns0 == PrecedingNodes(nodes, ps, i, c0)
    ensures -1 <= c < c0 && cur == At(nodes, c)
    ensures if c < 0 then ns == PrecedingNodes(nodes, ps, i, 0)
            else ps[c].end <= c0 && ns == PrecedingNodes(nodes, ps, i, ps[c].end)
  {
    hide Document, Numbered, LinkedAs, PrecedingNodes, PreviousSibling;
    cur, ns := cur0, ns0;
    c := c0;
    RootEnds(nodes, ps);
    while true
      invariant 0 <= c <= c0 && cur == nodes[c] && ps[c].prev < 0 && ns == PrecedingNodes(nodes, ps, i, c)
      decreases c
    {
      BackStep(nodes, ps, c);
      cur := Parent(cur);
      c := c - 1;
      if cur == null {
        break;
      }
      OneMorePlace(nodes, ps, i, c);
      BackStep(nodes, ps, c);
      var above := NodeIsAncestor(cur, n, nodes, ps, c, i);
      if !above {
        ns := StepPush(ns, cur);
      }
      if PreviousSibling(cur) != null {
        cur := PreviousSibling(cur);
        c := ps[c].prev;
        break;
      }
    }
  }

  method StepPreceding(n: XmlNode, ghost nodes: seq<XmlNode>, ghost ps: seq<Place>, ghost i: nat)
    returns (ns: seq<XmlNode>)
    requires Document(nodes, ps) && i < |nodes| == |ps| && nodes[i] == n
    ensures ns == PrecedingNodes(nodes, ps, i, 0)
  {
    hide Document, Numbered, LinkedAs, PrecedingNodes, PreviousSibling, LastChild;
    ns := [];
    var cur, c := FirstBefore(n, nodes, ps, i);
    while cur != null
      invariant -1 <= c < i && cur == At(nodes, c)
      invariant if c < 0 then ns == PrecedingNodes(nodes, ps, i, 0)
                else ps[c].end <= i && ns == PrecedingNodes(nodes, ps, i, ps[c].end)
      decreases if c < 0 then 0 else ps[c].end, |ps| - c
    {
      BackStep(nodes, ps, c);
      if LastChild(cur) != null {
        cur := LastChild(cur);
        c := ps[c].last;
      } else {
        ns := StepPush(ns, cur);
        OneMorePlace(nodes, ps, i, c);
        if PreviousSibling(cur) != null {
          cur := PreviousSibling(cur);
          c := ps[c].prev;
        } else {
          cur, ns, c := ClimbBack(cur, ns, n, nodes, ps, i, c);
        }
      }
    }
  }

  /** The previous sibling of the node, or of its nearest ancestor that has one. */
  method FirstBefore(n: XmlNode, ghost nodes: seq<XmlNode>, ghost ps: seq<Place>, ghost i: nat)
    returns (cur: XmlNode?, ghost c: int)
    requires Document(nodes, ps) && i < |nodes| == |ps| && nodes[i] == n
    ensures -1 <= c < i && cur == At(nodes, c)
    ensures if c < 0 then PrecedingNodes(nodes, ps, i, 0) == []
            else ps[c].end <= i && PrecedingNodes(nodes, ps, i, ps[c].end) == []
  {
    hide Document, Numbered, LinkedAs, PrecedingNodes, PreviousSibling;
    cur, c := n, i;
    DocumentNumbered(nodes, ps);
    RootEnds(nodes, ps);
    NothingCollected(nodes, ps, i);
    BackStep(nodes, ps, i);
    while cur != null && PreviousSibling(cur) == null
      invariant -1 <= c <= i && cur == At(nodes, c)
      invariant cur != null ==> c >= 0 && cur.prevSiblingC != null && Within(ps, c, i)
      invariant PrecedingNodes(nodes, ps, i, if c < 0 then 0 else c) == []
      decreases c
    {
      BackStep(nodes, ps, c);
      c := c - 1;
      cur := Parent(cur);
      if cur != null {
        BackStep(nodes, ps, c);
        WithinUp(ps, c + 1, i);
        OneMorePlace(nodes, ps, i, c);
      }
    }
    if cur != null {
      BackStep(nodes, ps, c);
      cur, c := PreviousSibling(cur), ps[c].prev;
    }
  }

  lemma WithinUp(ps: seq<Place>, c: nat, i: nat)
    requires Numbered(ps) && c < |ps| && Within(ps, c, i) && ps[c].parent >= 0
    ensures ps[c].parent < |ps| && Within(ps, ps[c].parent, i)
  {
    assert Placed(ps, c);
  }

  // --- comparing two nodes ---

  /** The number of nodes from a place up to the root. */
  function Height(ps: seq<Place>, c: int): (h: nat)
    requires c < |ps|
    decreases c
  {
    if c < 0 then 0 else if ps[c].parent < c then 1 + Height(ps, ps[c].parent) else 1
  }

  /** A node has one ancestor more than its parent, the parent itself. */
  lemma {:induction false} AncestorsOfParent(ps: seq<Place>, i: nat, from: nat)
    requires Numbered(ps) && i < |ps| && from <= ps[i].parent < i
    ensures |Ancestors(ps, i, from)| == 1 + |Ancestors(ps, ps[i].parent, from)|
    decreases ps[i].parent - from
  {
    hide Numbered;
    var p := ps[i].parent;
    if from < p {
      AncestorsOfParent(ps, i, from + 1);
      WithinParent(ps, from, i);
    } else {
      NoneBetween(ps, i, p + 1);
      WithinParent(ps, p, i);
      ParentSpans(ps, p);
    }
  }

  lemma ParentSpans(ps: seq<Place>, p: nat)
    requires Numbered(ps) && p < |ps|
    ensures p < ps[p].end
  {
    assert Placed(ps, p);
  }

  lemma {:induction false} NoneBetween(ps: seq<Place>, i: nat, from: nat)
    requires Numbered(ps) && i < |ps| && ps[i].parent < from <= i
    ensures Ancestors(ps, i, from) == []
    decreases i - from
  {
    hide Numbered;
    if from < i {
      NoneBetween(ps, i, from + 1);
      ParentSpans(ps, i);
      ParentIsNext(ps, i, i, from);
    }
  }

  /** The height is the number of ancestors and the node itself. */
  lemma {:induction false} HeightCounts(ps: seq<Place>, i: nat)
    requires Numbered(ps) && i < |ps|
    ensures Height(ps, i) == |Ancestors(ps, i, 0)| + 1
    decreases i
  {
    hide Numbered, Ancestors;
    InRange(ps, i, 0);
    ParentBefore(ps, i);
    if ps[i].parent >= 0 {
      AncestorsOfParent(ps, i, 0);
      HeightCounts(ps, ps[i].parent);
    } else {
      NoneBetween(ps, i, 0);
    }
  }

  lemma ParentBefore(ps: seq<Place>, i: nat)
    requires Numbered(ps) && i < |ps|
    ensures -1 <= ps[i].parent < i
  {
    assert Placed(ps, i);
  }

  method NodeHeight(n0: XmlNode, ghost nodes: seq<XmlNode>, ghost ps: seq<Place>, ghost i: nat) returns (result: nat)
    requires Document(nodes, ps) && i < |nodes| == |ps| && nodes[i] == n0
    ensures result == Height(ps, i)
  {
    hide Document, Numbered, LinkedAs;
    var n: XmlNode? := n0;
    ghost var c: int := i;
    result := 0;
    while n != null
      invariant -1 <= c <= i && n == At(nodes, c) && result + Height(ps, c) == Height(ps, i)
      decreases c
    {
      WalkStep(nodes, ps, c);
      result := result + 1;
      n := Parent(n);
      c := ps[c].parent;
    }
  }

  /** Climbs `times` steps; the way up stays within the root's span. */
  method Climb(n0: XmlNode, times: nat, ghost nodes: seq<XmlNode>, ghost ps: seq<Place>, ghost i: nat)
    returns (n: XmlNode, ghost c: nat)
    requires Document(nodes, ps) && i < |nodes| == |ps| && nodes[i] == n0 && times < Height(ps, i)
    ensures c < |ps| && n == nodes[c] && Within(ps, c, i) && Height(ps, c) == Height(ps, i) - times
  {
    hide Document, Numbered, LinkedAs;
    n, c := n0, i;
    DocumentNumbered(nodes, ps);
    WalkStep(nodes, ps, i);
    for k := 0 to times
      invariant c < |ps| && n == nodes[c] && Within(ps, c, i) && Height(ps, c) == Height(ps, i) - k
    {
      WalkStep(nodes, ps, c);
      WithinUp(ps, c, i);
      c := ps[c].parent;
      n := n.parent;
    }
  }

  /** Two places whose spans are disjoint compare like any places within the spans. */
  lemma DisjointSpans(ps: seq<Place>, l: nat, r: nat, i: nat, j: nat)
    requires Numbered(ps) && l < |ps| && r < |ps| && l != r && Height(ps, l) == Height(ps, r)
    requires Within(ps, l, i) && Within(ps, r, j) && i < |ps| && j < |ps|
    ensures i != j && (i < j <==> l < r)
  {
    if l < r < ps[l].end {
      DeeperInside(ps, l, r);
    } else if r < l < ps[r].end {
      DeeperInside(ps, r, l);
    }
  }

  lemma {:induction false} DeeperInside(ps: seq<Place>, l: nat, r: nat)
    requires Numbered(ps) && l < r < |ps| && r < ps[l].end
    ensures Height(ps, r) > Height(ps, l)
    decreases r
  {
    InsideParent(ps, l, r);
    if ps[r].parent > l {
      DeeperInside(ps, l, ps[r].parent);
    }
  }

  /** Whether one node comes before another in document order, an ancestor before its descendants. */
  method NodeIsBefore(ln0: XmlNode, lh: nat, rn0: XmlNode, rh: nat, ghost nodes: seq<XmlNode>, ghost ps: seq<Place>,
                      ghost i: nat, ghost j: nat)
    returns (before: bool)
    requires Document(nodes, ps) && i < |nodes| == |ps| && j < |ps| && nodes[i] == ln0 && nodes[j] == rn0
    requires lh == Height(ps, i) && rh == Height(ps, j)
    ensures before <==> i < j
  {
    hide Document, Numbered, LinkedAs, Height;
    DocumentNumbered(nodes, ps);
    HeightPositive(ps, i);
    HeightPositive(ps, j);
    var ln: XmlNode, rn: XmlNode;
    ghost var l: nat, r: nat;
    ln, l := Climb(ln0, if lh > rh then lh - rh else 0, nodes, ps, i);
    rn, r := Climb(rn0, if rh > lh then rh - lh else 0, nodes, ps, j);
    SameNode(nodes, ps, l, r);
    if ln == rn {
      SameSpan(ps, l, i, j);
      return lh < rh;
    }
    ghost var l0: nat, r0: nat := l, r;
    while ln.parent != rn.parent
      invariant l < |ps| && r < |ps| && l != r && ln == nodes[l] && rn == nodes[r]
      invariant Height(ps, l) == Height(ps, r) && (l < r <==> l0 < r0)
      invariant Height(ps, l) > 0
      decreases l
    {
      BothUp(nodes, ps, l, r);
      ln, rn, l, r := ln.parent, rn.parent, ps[l].parent, ps[r].parent;
    }
    DisjointSpans(ps, l0, r0, i, j);
    before := FindSibling(ln, rn, nodes, ps, l, r);
  }

  lemma HeightPositive(ps: seq<Place>, i: nat)
    requires i < |ps|
    ensures Height(ps, i) > 0
  {
  }

  /** Below one and the same node of the higher one's height, the deeper place is the later one. */
  lemma SameSpan(ps: seq<Place>, l: nat, i: nat, j: nat)
    requires Numbered(ps) && l < |ps| && i < |ps| && j < |ps| && Within(ps, l, i) && Within(ps, l, j)
    requires Height(ps, l) == if Height(ps, i) > Height(ps, j) then Height(ps, j) else Height(ps, i)
    ensures i < j <==> Height(ps, i) < Height(ps, j)
  {
    hide Numbered, Height;
    if i > l {
      DeeperInside(ps, l, i);
    }
    if j > l {
      DeeperInside(ps, l, j);
    }
  }

  /** Two different nodes of one height with different parents. */
  lemma BothUp(nodes: seq<XmlNode>, ps: seq<Place>, l: nat, r: nat)
    requires Document(nodes, ps) && l < |nodes| == |ps| && r < |ps| && l != r
    requires Height(ps, l) == Height(ps, r) && nodes[l].parent != nodes[r].parent
    ensures var p, q := ps[l].parent, ps[r].parent;
      && 0 <= p < l && 0 <= q < r && p != q
      && nodes[l].parent == nodes[p] && nodes[r].parent == nodes[q]
      && Height(ps, p) == Height(ps, q) && Height(ps, p) > 0
      && (p < q <==> l < r)
  {
    DocumentNumbered(nodes, ps);
    WalkStep(nodes, ps, l);
    WalkStep(nodes, ps, r);
    RootEnds(nodes, ps);
    assert Placed(ps, l) && Placed(ps, r);
    if l == 0 || r == 0 {
      OnlyRoot(ps, l);
      OnlyRoot(ps, r);
    }
    DisjointSpans(ps, ps[l].parent, ps[r].parent, l, r);
  }

  lemma OnlyRoot(ps: seq<Place>, c: nat)
    requires Numbered(ps) && c < |ps|
    ensures Height(ps, c) == 1 <==> c == 0
  {
    assert Placed(ps, c) && Placed(ps, 0);
  }

  /** Looks for `rn` among `ln` and its next siblings. */
  method FindSibling(ln0: XmlNode, rn: XmlNode, ghost nodes: seq<XmlNode>, ghost ps: seq<Place>, ghost l0: nat,
                     ghost r: nat)
    returns (found: bool)
    requires Document(nodes, ps) && l0 < |nodes| == |ps| && r < |ps| && nodes[l0] == ln0 && nodes[r] == rn
    requires l0 != r && ln0.parent == rn.parent
    ensures found <==> l0 < r
  {
    hide Document, Numbered, LinkedAs;
    DocumentNumbered(nodes, ps);
    SameParent(nodes, ps, l0, r);
    var ln: XmlNode? := ln0;
    ghost var l: nat := l0;
    while ln != null
      invariant l0 <= l && (ln != null ==> l < |ps| && ln == nodes[l] && ps[l].parent == ps[r].parent)
      invariant l0 < r ==> l <= r && ln != null
      decreases |ps| - l, ln != null
    {
      SameNode(nodes, ps, l, r);
      if ln == rn {
        return true;
      }
      NextToward(nodes, ps, l, r);
      l := ps[l].end;
      ln := NextSibling(ln);
    }
    return false;
  }

  lemma SameParent(nodes: seq<XmlNode>, ps: seq<Place>, l: nat, r: nat)
    requires Document(nodes, ps) && l < |nodes| == |ps| && r < |ps| && nodes[l].parent == nodes[r].parent
    ensures ps[l].parent == ps[r].parent
  {
    hide Document;
    DocumentNumbered(nodes, ps);
    WalkStep(nodes, ps, l);
    WalkStep(nodes, ps, r);
    if ps[l].parent >= 0 && ps[r].parent >= 0 {
      SameNode(nodes, ps, ps[l].parent, ps[r].parent);
    }
  }

  /** A later sibling is not skipped by going to the next one. */
  lemma NextToward(nodes: seq<XmlNode>, ps: seq<Place>, l: nat, r: nat)
    requires Document(nodes, ps) && l < |nodes| == |ps| && r < |ps| && ps[l].parent == ps[r].parent && l != r
    ensures l < ps[l].end <= |ps|
    ensures NextSibling(nodes[l]) != null ==> ps[l].end < |ps| && NextSibling(nodes[l]) == nodes[ps[l].end]
                                              && ps[ps[l].end].parent == ps[r].parent
    ensures l < r ==> NextSibling(nodes[l]) != null && ps[l].end <= r
  {
    DocumentNumbered(nodes, ps);
    WalkStep(nodes, ps, l);
    assert Placed(ps, l) && Placed(ps, r) && Nested(ps, l, r);
  }

  // --- the axes together ---

  /** Strictly downwards: in reverse document order. */
  predicate Descending(s: seq<nat>)
  {
    forall k, l :: 0 <= k < l < |s| ==> s[k] > s[l]
  }

  lemma {:induction false} AncestorsExactly(ps: seq<Place>, i: nat, from: nat)
    requires Numbered(ps) && from <= i < |ps|
    ensures Descending(Ancestors(ps, i, from))
    ensures forall j :: j in Ancestors(ps, i, from) <==> from <= j < i && i < ps[j].end
    decreases i - from
  {
    hide Numbered;
    if from < i {
      AncestorsExactly(ps, i, from + 1);
      OneLower(Ancestors(ps, i, from + 1), from);
    }
  }

  lemma {:induction false} PrecedingExactly(ps: seq<Place>, i: nat, from: nat)
    requires Numbered(ps) && from <= i < |ps|
    ensures Descending(Preceding(ps, i, from))
    ensures forall j :: j in Preceding(ps, i, from) <==> from <= j < i && ps[j].end <= i
    decreases i - from
  {
    hide Numbered;
    if from < i {
      PrecedingExactly(ps, i, from + 1);
      OneLower(Preceding(ps, i, from + 1), from);
    }
  }

  lemma OneLower(s: seq<nat>, low: nat)
    requires Descending(s) && forall j :: j in s ==> j > low
    ensures Descending(s + [low]) && Descending(s + [])
    ensures forall j :: j in s + [low] <==> j in s || j == low
    ensures s + [] == s
  {
    forall k | 0 <= k < |s| ensures s[k] > low {
      assert s[k] in s;
    }
    assert s + [] == s;
  }

  /** Reverse axes: exactly the ancestors, exactly the rest before the node, in reverse order. */
  lemma ReverseAxes(ps: seq<Place>, i: nat)
    requires Numbered(ps) && i < |ps|
    ensures Descending(Ancestors(ps, i, 0)) && Descending(Preceding(ps, i, 0))
    ensures forall j :: j in Ancestors(ps, i, 0) <==> 0 <= j < i && IsAncestor(ps, j, i)
    ensures forall j :: j in Preceding(ps, i, 0) <==> 0 <= j < i && !IsAncestor(ps, j, i)
  {
    hide Numbered;
    AncestorsExactly(ps, i, 0);
    PrecedingExactly(ps, i, 0);
  }

  /** The nodes are nodes of the document, in reverse document order. */
  ghost predicate InReverse(nodes: seq<XmlNode>, s: seq<XmlNode>)
  {
    exists places: seq<nat> ::
      Descending(places) && (forall k :: 0 <= k < |places| ==> places[k] < |nodes|) && s == Pick(nodes, places)
  }

  /** Before the node, going down to place `from`: ancestors and preceding nodes together. */
  lemma {:induction false} BeforePartition(nodes: seq<XmlNode>, ps: seq<Place>, i: nat, from: nat)
    requires from <= i < |ps| == |nodes|
    ensures multiset(AncestorNodes(nodes, ps, i, from)) + multiset(PrecedingNodes(nodes, ps, i, from))
         == multiset(nodes[from..i])
    decreases i - from
  {
    hide AncestorNodes, PrecedingNodes;
    if from == i {
      NothingCollected(nodes, ps, i);
    } else {
      BeforePartition(nodes, ps, i, from + 1);
      OneMorePlace(nodes, ps, i, from);
      assert nodes[from..i] == [nodes[from]] + nodes[from + 1..i];
    }
  }

  /** What the four walks return, and the node itself, are together the nodes of the document,
      each exactly once; the reverse axes come in reverse document order. */
  lemma AxesPartition(nodes: seq<XmlNode>, ps: seq<Place>, i: nat)
    requires Document(nodes, ps) && i < |nodes| == |ps| && i < ps[i].end <= |ps|
    ensures multiset(AncestorNodes(nodes, ps, i, 0)) + multiset(PrecedingNodes(nodes, ps, i, 0)) + multiset{nodes[i]}
            + multiset(nodes[i + 1..ps[i].end]) + multiset(nodes[ps[i].end..])
         == multiset(nodes)
    ensures forall n | n in nodes :: multiset(nodes)[n] == 1
    ensures InReverse(nodes, AncestorNodes(nodes, ps, i, 0)) && InReverse(nodes, PrecedingNodes(nodes, ps, i, 0))
  {
    hide Numbered, LinkedAs;
    BeforePartition(nodes, ps, i, 0);
    var end := ps[i].end;
    assert nodes == nodes[0..i] + [nodes[i]] + nodes[i + 1..end] + nodes[end..];
    DistinctOnce(nodes);
    ReverseAxes(ps, i);
    InRange(ps, i, 0);
  }

  lemma {:induction false} DistinctOnce(s: seq<XmlNode>)
    requires Distinct(s)
    ensures forall n | n in s :: multiset(s)[n] == 1
  {
    if s != [] {
      DistinctOnce(s[1..]);
      assert s == [s[0]] + s[1..];
      assert s[0] !in s[1..];
    }
  }

  /** An ancestor by place is a node met on the way up through the parents. */
  lemma {:induction false} AncestorsAreParents(ps: seq<Place>, a: nat, i: nat)
    requires Numbered(ps) && a < |ps| && i < |ps|
    ensures IsAncestor(ps, a, i)
       <==> i > 0 && 0 <= ps[i].parent < i && (a == ps[i].parent || IsAncestor(ps, a, ps[i].parent))
    decreases i
  {
    assert Placed(ps, i) && Placed(ps, a) && Nested(ps, a, i);
    if i > 0 {
      assert Nested(ps, a, ps[i].parent);
    }
  }
}
