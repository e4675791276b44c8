/** Documents built from lists of children stand in document order as the walks expect. */
module XmlDocument {
  import opened XmlTree
  import opened XmlAxes

  /** The shape of a linked tree, with its nodes. */
  datatype Tree = Tree(node: XmlNode, kids: seq<Tree>)

  function Size(t: Tree): (n: nat)
    ensures n > 0
  {
    1 + SizeAll(t.kids)
  }

  function SizeAll(ts: seq<Tree>): (n: nat)
    ensures ts != [] ==> n > 0
  {
    if ts == [] then 0 else Size(ts[0]) + SizeAll(ts[1..])
  }

  function Preorder(t: Tree): (s: seq<XmlNode>)
    ensures |s| == Size(t) && s[0] == t.node
  {
    [t.node] + PreorderAll(t.kids)
  }

  function PreorderAll(ts: seq<Tree>): (s: seq<XmlNode>)
    ensures |s| == SizeAll(ts)
  {
    if ts == [] then [] else Preorder(ts[0]) + PreorderAll(ts[1..])
  }

  function Roots(ts: seq<Tree>): (s: seq<XmlNode>)
    ensures |s| == |ts|
  {
    seq(|ts|, i requires 0 <= i < |ts| => ts[i].node)
  }

  /** Every node's links represent the list of its children in the tree; `all` are its nodes. */
  ghost predicate Built(t: Tree, all: set<XmlNode>)
    reads all
  {
    && t.node in all
    && t.node.children == Roots(t.kids)
    && (forall k :: 0 <= k < |t.kids| ==> Roots(t.kids)[k] in all)
    && t.node.Valid()
    && (forall k :: 0 <= k < |t.kids| ==> Built(t.kids[k], all))
  }

  // --- places ---

  function PlacesOf(t: Tree, start: nat, parent: int, prev: int): (ps: seq<Place>)
    ensures |ps| == Size(t)
    decreases t, 0
  {
    var last := if t.kids == [] then -1 else start + Size(t) - Size(t.kids[|t.kids| - 1]);
    [Place(parent, start + Size(t), prev, last)] + PlacesAll(t.kids, start + 1, start, -1)
  }

  function PlacesAll(ts: seq<Tree>, start: nat, parent: int, prev: int): (ps: seq<Place>)
    ensures |ps| == SizeAll(ts)
    decreases ts, 0
  {
    if ts == [] then [] else
      PlacesOf(ts[0], start, parent, prev) + PlacesAll(ts[1..], start + Size(ts[0]), parent, start)
  }

  /** The tree's places and nodes stand in `ps` and `nodes` from `start` on. */
  ghost predicate Stands(ps: seq<Place>, nodes: seq<XmlNode>, t: Tree, start: nat, parent: int, prev: int)
  {
    && start + Size(t) <= |ps| == |nodes|
    && ps[start..start + Size(t)] == PlacesOf(t, start, parent, prev)
    && nodes[start..start + Size(t)] == Preorder(t)
  }

  ghost predicate StandAll(ps: seq<Place>, nodes: seq<XmlNode>, ts: seq<Tree>, start: nat, parent: int, prev: int)
  {
    && start + SizeAll(ts) <= |ps| == |nodes|
    && ps[start..start + SizeAll(ts)] == PlacesAll(ts, start, parent, prev)
    && nodes[start..start + SizeAll(ts)] == PreorderAll(ts)
  }

  lemma Apart<T>(s: seq<T>, start: nat, mid: nat, end: nat, a: seq<T>, b: seq<T>)
    requires start <= mid <= end <= |s| && s[start..end] == a + b && |a| == mid - start
    ensures s[start..mid] == a && s[mid..end] == b
  {
    assert s[start..mid] == s[start..end][..mid - start] && s[mid..end] == s[start..end][mid - start..];
  }

  /** The root's own place, and its children behind it. */
  lemma StandsApart(ps: seq<Place>, nodes: seq<XmlNode>, t: Tree, start: nat, parent: int, prev: int)
    requires Stands(ps, nodes, t, start, parent, prev)
    ensures start + Size(t) <= |ps| == |nodes|
    ensures ps[start].parent == parent && ps[start].end == start + Size(t) && ps[start].prev == prev
    ensures ps[start].last == if t.kids == [] then -1 else start + Size(t) - Size(t.kids[|t.kids| - 1])
    ensures nodes[start] == t.node
    ensures StandAll(ps, nodes, t.kids, start + 1, start, -1)
  {
    hide PlacesOf, PlacesAll, PreorderAll, SizeAll;
    var end, places := start + Size(t), PlacesOf(t, start, parent, prev);
    PlacesFront(t, start, parent, prev);
    Apart(ps, start, start + 1, end, [places[0]], PlacesAll(t.kids, start + 1, start, -1));
    Apart(nodes, start, start + 1, end, [t.node], PreorderAll(t.kids));
    assert ps[start] == ps[start..start + 1][0] && nodes[start] == nodes[start..start + 1][0];
  }

  lemma PlacesFront(t: Tree, start: nat, parent: int, prev: int)
    ensures var places := PlacesOf(t, start, parent, prev);
      && places == [places[0]] + PlacesAll(t.kids, start + 1, start, -1)
      && places[0] == Place(parent, start + Size(t), prev,
                            if t.kids == [] then -1 else start + Size(t) - Size(t.kids[|t.kids| - 1]))
  {
    hide PlacesAll, Size, SizeAll;
  }

  lemma AllFront(ts: seq<Tree>, start: nat, parent: int, prev: int)
    requires ts != []
    ensures SizeAll(ts) == Size(ts[0]) + SizeAll(ts[1..])
    ensures PreorderAll(ts) == Preorder(ts[0]) + PreorderAll(ts[1..])
    ensures PlacesAll(ts, start, parent, prev)
         == PlacesOf(ts[0], start, parent, prev) + PlacesAll(ts[1..], start + Size(ts[0]), parent, start)
  {
    hide PlacesOf, Preorder, Size;
  }

  /** The first tree, and the others behind it. */
  lemma StandAllApart(ps: seq<Place>, nodes: seq<XmlNode>, ts: seq<Tree>, start: nat, parent: int, prev: int)
    requires StandAll(ps, nodes, ts, start, parent, prev) && ts != []
    ensures start + SizeAll(ts) <= |ps| == |nodes|
    ensures Stands(ps, nodes, ts[0], start, parent, prev)
    ensures StandAll(ps, nodes, ts[1..], start + Size(ts[0]), parent, start)
  {
    hide PlacesOf, PlacesAll, Preorder, PreorderAll, Size, SizeAll;
    AllFront(ts, start, parent, prev);
    var mid, end := start + Size(ts[0]), start + SizeAll(ts);
    Apart(ps, start, mid, end, PlacesOf(ts[0], start, parent, prev), PlacesAll(ts[1..], mid, parent, start));
    Apart(nodes, start, mid, end, Preorder(ts[0]), PreorderAll(ts[1..]));
  }

  /** Below a node everything has its parent at or below it and ends where it ends. */
  lemma {:induction false} TreeInside(ps: seq<Place>, nodes: seq<XmlNode>, t: Tree, start: nat, parent: int, prev: int,
                                      c: nat)
    requires Stands(ps, nodes, t, start, parent, prev) && start < c < start + Size(t)
    ensures start <= ps[c].parent && ps[c].end <= start + Size(t)
    decreases t, 0
  {
    hide Stands, StandAll;
    StandsApart(ps, nodes, t, start, parent, prev);
    ForestInside(ps, nodes, t.kids, start + 1, start, -1, c);
  }

  lemma {:induction false} ForestInside(ps: seq<Place>, nodes: seq<XmlNode>, ts: seq<Tree>, start: nat, parent: int,
                                        prev: int, c: nat)
    requires StandAll(ps, nodes, ts, start, parent, prev) && parent < start <= c < start + SizeAll(ts)
          && |ps| == |nodes|
    requires start + SizeAll(ts) <= |ps|
    ensures parent <= ps[c].parent && ps[c].end <= start + SizeAll(ts)
    decreases ts, 0
  {
    hide Stands, StandAll;
    StandAllApart(ps, nodes, ts, start, parent, prev);
    StandsApart(ps, nodes, ts[0], start, parent, prev);
    if c < start + Size(ts[0]) {
      if c > start {
        TreeInside(ps, nodes, ts[0], start, parent, prev, c);
      }
    } else {
      ForestInside(ps, nodes, ts[1..], start + Size(ts[0]), parent, start, c);
    }
  }

  lemma {:induction false} LastStands(ps: seq<Place>, nodes: seq<XmlNode>, ts: seq<Tree>, start: nat, parent: int,
                                      prev: int)
    requires StandAll(ps, nodes, ts, start, parent, prev) && ts != []
    ensures var l := start + SizeAll(ts) - Size(ts[|ts| - 1]);
      start <= l < start + SizeAll(ts) <= |ps| == |nodes|
      && ps[l].parent == parent && ps[l].end == start + SizeAll(ts) && nodes[l] == ts[|ts| - 1].node
    decreases |ts|
  {
    hide Stands, StandAll;
    StandAllApart(ps, nodes, ts, start, parent, prev);
    StandsApart(ps, nodes, ts[0], start, parent, prev);
    if |ts| > 1 {
      assert ts[1..][|ts[1..]| - 1] == ts[|ts| - 1];
      LastStands(ps, nodes, ts[1..], start + Size(ts[0]), parent, start);
    }
  }

  lemma FirstStands(ps: seq<Place>, nodes: seq<XmlNode>, ts: seq<Tree>, start: nat, parent: int, prev: int)
    requires StandAll(ps, nodes, ts, start, parent, prev) && ts != []
    ensures start < |ps| == |nodes| && ps[start].parent == parent && ps[start].prev == prev
          && nodes[start] == ts[0].node
  {
    hide Stands, StandAll;
    StandAllApart(ps, nodes, ts, start, parent, prev);
    StandsApart(ps, nodes, ts[0], start, parent, prev);
  }

  /** What is around a run of siblings that starts at `start` and goes up to its parent's end. */
  ghost predicate Follows(ps: seq<Place>, nodes: seq<XmlNode>, kids: seq<Tree>, k: nat, start: nat, parent: nat,
                          prev: int)
  {
    && |ps| == |nodes| && k <= |kids| && parent < start <= |ps|
    && StandAll(ps, nodes, kids[k..], start, parent, prev)
    && ps[parent].end == start + SizeAll(kids[k..])
    && (if k == 0 then start == parent + 1 && prev == -1
        else
          && parent < prev < start && ps[prev].parent == parent && ps[prev].end == start
          && nodes[prev] == kids[k - 1].node)
    && (kids != [] ==> 0 <= ps[parent].last < |nodes| && nodes[ps[parent].last] == kids[|kids| - 1].node)
  }

  /** The first of a run of siblings, and the run behind it. */
  lemma FollowsRest(ps: seq<Place>, nodes: seq<XmlNode>, kids: seq<Tree>, k: nat, start: nat, parent: nat, prev: int)
    requires Follows(ps, nodes, kids, k, start, parent, prev) && k < |kids|
    ensures Stands(ps, nodes, kids[k], start, parent, prev)
    ensures Follows(ps, nodes, kids, k + 1, start + Size(kids[k]), parent, start) && ps[parent].end <= |ps|
  {
    hide Stands, StandAll;
    var ts := kids[k..];
    assert ts[1..] == kids[k + 1..] && ts[0] == kids[k];
    StandAllApart(ps, nodes, ts, start, parent, prev);
    StandsApart(ps, nodes, ts[0], start, parent, prev);
  }

  /** What stands behind the first of a run: its next sibling, if there is one. */
  lemma FollowsNext(ps: seq<Place>, nodes: seq<XmlNode>, kids: seq<Tree>, k: nat, start: nat, parent: nat, prev: int)
    requires Follows(ps, nodes, kids, k, start, parent, prev) && k < |kids|
    ensures start < |ps| == |nodes| && ps[start].parent == parent && ps[start].prev == prev
    ensures ps[start].end == start + Size(kids[k]) <= ps[parent].end <= |ps|
    ensures ps[start].end < ps[parent].end <==> k + 1 < |kids|
    ensures k + 1 < |kids| ==>
              var next := ps[start].end;
              next < |ps| && ps[next].parent == parent && ps[next].prev == start && nodes[next] == kids[k + 1].node
  {
    hide Stands, StandAll, Size;
    FollowsRest(ps, nodes, kids, k, start, parent, prev);
    StandsApart(ps, nodes, kids[k], start, parent, prev);
    if k + 1 < |kids| {
      assert kids[k + 1..][0] == kids[k + 1];
      FirstStands(ps, nodes, kids[k + 1..], start + Size(kids[k]), parent, start);
      StandAllApart(ps, nodes, kids[k + 1..], start + Size(kids[k]), parent, start);
      StandsApart(ps, nodes, kids[k + 1], start + Size(kids[k]), parent, start);
    } else {
      assert SizeAll(kids[k + 1..]) == 0;
    }
  }

  /** The place of the first of a run. */
  lemma FollowsStep(ps: seq<Place>, nodes: seq<XmlNode>, kids: seq<Tree>, k: nat, start: nat, parent: nat, prev: int)
    requires Follows(ps, nodes, kids, k, start, parent, prev) && k < |kids|
    ensures Stands(ps, nodes, kids[k], start, parent, prev)
    ensures Follows(ps, nodes, kids, k + 1, start + Size(kids[k]), parent, start)
    ensures start < |ps| && Placed(ps, start)
    ensures HasNext(ps, start) <==> k + 1 < |kids|
    ensures k + 1 < |kids| ==> ps[start].end < |nodes| && nodes[ps[start].end] == kids[k + 1].node
  {
    hide Stands, StandAll;
    FollowsRest(ps, nodes, kids, k, start, parent, prev);
    FollowsNext(ps, nodes, kids, k, start, parent, prev);
    StandsApart(ps, nodes, kids[k], start, parent, prev);
    if kids[k].kids != [] {
      FirstStands(ps, nodes, kids[k].kids, start + 1, start, -1);
      LastStands(ps, nodes, kids[k].kids, start + 1, start, -1);
    }
  }

  /** The children of a tree follow its root. */
  lemma ChildrenFollow(ps: seq<Place>, nodes: seq<XmlNode>, t: Tree, start: nat, parent: int, prev: int)
    requires Stands(ps, nodes, t, start, parent, prev)
    ensures Follows(ps, nodes, t.kids, 0, start + 1, start, -1)
  {
    hide Stands, StandAll;
    StandsApart(ps, nodes, t, start, parent, prev);
    assert t.kids[0..] == t.kids;
    if t.kids != [] {
      LastStands(ps, nodes, t.kids, start + 1, start, -1);
    }
  }

  // --- numbering ---

  lemma {:induction false} TreePlaced(ps: seq<Place>, nodes: seq<XmlNode>, t: Tree, start: nat, parent: int, prev: int,
                                      c: nat)
    requires Stands(ps, nodes, t, start, parent, prev) && start < c < start + Size(t)
    ensures c < |ps| && Placed(ps, c)
    decreases t, 0
  {
    hide Stands, Follows, Placed;
    StandsApart(ps, nodes, t, start, parent, prev);
    ChildrenFollow(ps, nodes, t, start, parent, prev);
    assert t.kids[0..] == t.kids;
    ForestPlaced(ps, nodes, t.kids, 0, start + 1, start, -1, c);
  }

  lemma {:induction false} ForestPlaced(ps: seq<Place>, nodes: seq<XmlNode>, kids: seq<Tree>, k: nat, start: nat,
                                        parent: nat, prev: int, c: nat)
    requires Follows(ps, nodes, kids, k, start, parent, prev) && k <= |kids| && start <= c < start + SizeAll(kids[k..])
    ensures c < |ps| && Placed(ps, c)
    decreases kids, |kids| - k
  {
    hide Stands, Follows, Placed;
    if k < |kids| {
      assert kids[k..][0] == kids[k] && kids[k..][1..] == kids[k + 1..];
      FollowsStep(ps, nodes, kids, k, start, parent, prev);
      if c > start && c < start + Size(kids[k]) {
        TreePlaced(ps, nodes, kids[k], start, parent, prev, c);
      } else if c > start {
        ForestPlaced(ps, nodes, kids, k + 1, start + Size(kids[k]), parent, start, c);
      }
    }
  }

  lemma {:induction false} TreeNested(ps: seq<Place>, nodes: seq<XmlNode>, t: Tree, start: nat, parent: int, prev: int,
                                      i: nat, c: nat)
    requires Stands(ps, nodes, t, start, parent, prev) && start <= i < start + Size(t) && c < |ps|
    ensures i < |ps| && ps[i].end <= start + Size(t) && Nested(ps, i, c)
    decreases t, 0
  {
    hide Stands, StandAll;
    StandsApart(ps, nodes, t, start, parent, prev);
    if i == start {
      if start < c < ps[start].end {
        TreeInside(ps, nodes, t, start, parent, prev, c);
      }
    } else {
      ForestNested(ps, nodes, t.kids, start + 1, start, -1, i, c);
    }
  }

  lemma {:induction false} ForestNested(ps: seq<Place>, nodes: seq<XmlNode>, ts: seq<Tree>, start: nat, parent: int,
                                        prev: int, i: nat, c: nat)
    requires StandAll(ps, nodes, ts, start, parent, prev) && start <= i < start + SizeAll(ts) && c < |ps|
    ensures i < |ps| && ps[i].end <= start + SizeAll(ts) && Nested(ps, i, c)
    decreases ts, 0
  {
    hide Stands, StandAll;
    StandAllApart(ps, nodes, ts, start, parent, prev);
    if i < start + Size(ts[0]) {
      TreeNested(ps, nodes, ts[0], start, parent, prev, i, c);
    } else {
      ForestNested(ps, nodes, ts[1..], start + Size(ts[0]), parent, start, i, c);
    }
  }

  // --- links ---

  /** A child's links are those of its place. */
  lemma ChildLinked(ps: seq<Place>, nodes: seq<XmlNode>, n: XmlNode, kids: seq<Tree>, k: nat, start: nat, parent: nat,
                    prev: int, all: set<XmlNode>)
    requires Follows(ps, nodes, kids, k, start, parent, prev) && k < |kids|
    requires parent < |nodes| == |ps| && nodes[parent] == n && n.Valid() && n.children == Roots(kids)
    requires Built(kids[k], all)
    ensures start < |ps| && LinkedAs(nodes, ps, start)
  {
    hide Stands, StandAll;
    FollowsStep(ps, nodes, kids, k, start, parent, prev);
    StandsApart(ps, nodes, kids[k], start, parent, prev);
    assert n.Linked(k);
    OwnChildren(ps, nodes, kids[k], start, parent, prev, all);
  }

  lemma OwnChildren(ps: seq<Place>, nodes: seq<XmlNode>, t: Tree, start: nat, parent: int, prev: int, all: set<XmlNode>)
    requires Stands(ps, nodes, t, start, parent, prev) && Built(t, all)
    ensures start < ps[start].end <= |ps| == |nodes| && nodes[start] == t.node
    ensures t.node.firstChild == At(nodes, if start + 1 < ps[start].end then start + 1 else -1)
  {
    hide Stands, StandAll;
    StandsApart(ps, nodes, t, start, parent, prev);
    if t.kids != [] {
      FirstStands(ps, nodes, t.kids, start + 1, start, -1);
    }
  }

  lemma {:induction false} TreeLinked(ps: seq<Place>, nodes: seq<XmlNode>, t: Tree, start: nat, parent: int, prev: int,
                                      all: set<XmlNode>, c: nat)
    requires Stands(ps, nodes, t, start, parent, prev) && Built(t, all) && start < c < start + Size(t)
    ensures c < |ps| == |nodes| && LinkedAs(nodes, ps, c)
    decreases t, 0
  {
    hide Stands, Follows, LinkedAs;
    StandsApart(ps, nodes, t, start, parent, prev);
    ChildrenFollow(ps, nodes, t, start, parent, prev);
    assert t.kids[0..] == t.kids;
    ForestLinked(ps, nodes, t.node, t.kids, 0, start + 1, start, -1, all, c);
  }

  lemma {:induction false} ForestLinked(ps: seq<Place>, nodes: seq<XmlNode>, n: XmlNode, kids: seq<Tree>, k: nat,
                                        start: nat, parent: nat, prev: int, all: set<XmlNode>, c: nat)
    requires Follows(ps, nodes, kids, k, start, parent, prev) && k <= |kids| && start <= c < start + SizeAll(kids[k..])
    requires parent < |nodes| == |ps| && nodes[parent] == n && n.Valid() && n.children == Roots(kids)
    requires forall j :: 0 <= j < |kids| ==> Built(kids[j], all)
    ensures c < |ps| && LinkedAs(nodes, ps, c)
    decreases kids, |kids| - k
  {
    hide Stands, Follows, LinkedAs, Built;
    if k < |kids| {
      assert kids[k..][0] == kids[k] && kids[k..][1..] == kids[k + 1..];
      FollowsStep(ps, nodes, kids, k, start, parent, prev);
      if c == start {
        ChildLinked(ps, nodes, n, kids, k, start, parent, prev, all);
      } else if c < start + Size(kids[k]) {
        TreeLinked(ps, nodes, kids[k], start, parent, prev, all, c);
      } else {
        ForestLinked(ps, nodes, n, kids, k + 1, start + Size(kids[k]), parent, start, all, c);
      }
    }
  }

  /** A tree whose lists of children are well linked is a document for the walks. */
  lemma BuiltIsDocument(t: Tree, all: set<XmlNode>)
    requires Built(t, all) && Distinct(Preorder(t))
    requires t.node.parent == null && t.node.nextSibling == null && t.node.prevSiblingC == t.node
    ensures XmlAxes.Document(Preorder(t), PlacesOf(t, 0, -1, -1))
  {
    hide Placed, Nested, LinkedAs, Size, PlacesOf, Preorder, StandAll, Built;
    var ps, nodes := PlacesOf(t, 0, -1, -1), Preorder(t);
    assert ps[0..Size(t)] == ps && nodes[0..Size(t)] == nodes;
    assert Stands(ps, nodes, t, 0, -1, -1);
    StandsApart(ps, nodes, t, 0, -1, -1);
    RootPlaced(ps, nodes, t);
    RootLinked(ps, nodes, t, all);
    forall i | 0 <= i < |ps| ensures Placed(ps, i) {
      if i > 0 {
        TreePlaced(ps, nodes, t, 0, -1, -1, i);
      }
    }
    forall i, c | 0 <= i < |ps| && 0 <= c < |ps| ensures Nested(ps, i, c) {
      TreeNested(ps, nodes, t, 0, -1, -1, i, c);
    }
    forall i | 0 <= i < |ps| ensures LinkedAs(nodes, ps, i) {
      if i > 0 {
        TreeLinked(ps, nodes, t, 0, -1, -1, all, i);
      }
    }
  }

  lemma RootLinked(ps: seq<Place>, nodes: seq<XmlNode>, t: Tree, all: set<XmlNode>)
    requires Stands(ps, nodes, t, 0, -1, -1) && Built(t, all) && |ps| > 0
    requires t.node.parent == null && t.node.nextSibling == null && t.node.prevSiblingC == t.node
    ensures |nodes| == |ps| && LinkedAs(nodes, ps, 0)
  {
    hide Stands, StandAll;
    StandsApart(ps, nodes, t, 0, -1, -1);
    OwnChildren(ps, nodes, t, 0, -1, -1, all);
  }

  lemma RootPlaced(ps: seq<Place>, nodes: seq<XmlNode>, t: Tree)
    requires Stands(ps, nodes, t, 0, -1, -1) && |ps| == Size(t)
    ensures Placed(ps, 0)
  {
    hide Stands, StandAll;
    StandsApart(ps, nodes, t, 0, -1, -1);
    if t.kids != [] {
      FirstStands(ps, nodes, t.kids, 1, 0, -1);
      LastStands(ps, nodes, t.kids, 1, 0, -1);
    }
  }
}
