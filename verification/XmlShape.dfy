/** Which trees the operations on children can build, by the kinds of their nodes. */
module XmlShape {
  import opened XmlTree

  datatype Shape = Shape(kind: NodeType, kids: seq<Shape>)

  /** A node is reached by the positions on the way down to it. A new child is put at a position among
      its children: the last, the first, or before or behind another one. */
  datatype Step =
    | Insert(path: seq<nat>, at: nat, kind: NodeType)
    | Remove(path: seq<nat>, at: nat)

  function Leaf(kind: NodeType): (t: Shape)
  {
    Shape(kind, [])
  }

  /** What a step makes of the tree; one that is refused or finds no place changes nothing. */
  function Apply(t: Shape, e: Step): (r: Shape)
    decreases |e.path|
  {
    if e.path != [] then
      if e.path[0] < |t.kids| then
        t.(kids := t.kids[e.path[0] := Apply(t.kids[e.path[0]], e.(path := e.path[1..]))])
      else t
    else match e
      case Insert(_, at, kind) =>
        if at <= |t.kids| && AllowInsertChild(t.kind, kind) then
          t.(kids := t.kids[..at] + [Leaf(kind)] + t.kids[at..])
        else t
      case Remove(_, at) => if at < |t.kids| then t.(kids := t.kids[..at] + t.kids[at + 1..]) else t
  }

  function After(t: Shape, es: seq<Step>): (r: Shape)
    decreases |es|
  {
    if es == [] then t else After(Apply(t, es[0]), es[1..])
  }

  /** Exactly when a child is taken: below an element only what an element can hold, below a document
      anything but a document or nothing, and below any other node nothing at all. */
  lemma AllowedIff(parent: NodeType, child: NodeType)
    ensures AllowInsertChild(Element, child) <==> child in {Element, Pcdata, Cdata, Comment, Pi}
    ensures AllowInsertChild(Document, child) <==> child !in {Null, Document}
    ensures parent !in {Document, Element} ==> !AllowInsertChild(parent, child)
  {
  }

  /** Declarations and document types stand only right below a document, documents and empty nodes below
      nothing, and only documents and elements have anything below them. */
  predicate WellShaped(t: Shape)
  {
    && (t.kids != [] ==> t.kind == Document || t.kind == Element)
    && forall i :: 0 <= i < |t.kids| ==>
         && t.kids[i].kind != Null && t.kids[i].kind != Document
         && (t.kids[i].kind == Declaration || t.kids[i].kind == Doctype ==> t.kind == Document)
         && WellShaped(t.kids[i])
  }

  lemma {:induction false} StepKeeps(t: Shape, e: Step)
    requires WellShaped(t)
    ensures WellShaped(Apply(t, e)) && Apply(t, e).kind == t.kind
    decreases |e.path|
  {
    if e.path != [] {
      if e.path[0] < |t.kids| {
        StepKeeps(t.kids[e.path[0]], e.(path := e.path[1..]));
      }
    } else if e.Insert? {
      AllowedIff(t.kind, e.kind);
    }
  }

  /** Every tree that the steps make of a well-shaped one is well-shaped. */
  lemma {:induction false} EveryRun(t: Shape, es: seq<Step>)
    requires WellShaped(t)
    ensures WellShaped(After(t, es)) && After(t, es).kind == t.kind
    decreases |es|
  {
    if es != [] {
      StepKeeps(t, es[0]);
      EveryRun(Apply(t, es[0]), es[1..]);
    }
  }

  // --- building ---

  /** The steps that put a tree's children below a single node of its kind. */
  function Building(t: Shape): (es: seq<Step>)
    decreases t, 0
  {
    BuildingAll(t.kids, 0)
  }

  function BuildingAll(ts: seq<Shape>, at: nat): (es: seq<Step>)
    decreases ts, 1
  {
    if ts == [] then [] else
      [Insert([], at, ts[0].kind)] + Below(Building(ts[0]), at) + BuildingAll(ts[1..], at + 1)
  }

  /** The same steps one level further down. */
  function Below(es: seq<Step>, at: nat): (fs: seq<Step>)
  {
    if es == [] then [] else [es[0].(path := [at] + es[0].path)] + Below(es[1..], at)
  }

  lemma {:induction false} AfterAppend(t: Shape, es: seq<Step>, fs: seq<Step>)
    ensures After(t, es + fs) == After(After(t, es), fs)
    decreases |es|
  {
    if es == [] {
      assert es + fs == fs;
    } else {
      assert (es + fs)[1..] == es[1..] + fs;
      AfterAppend(Apply(t, es[0]), es[1..], fs);
    }
  }

  lemma {:induction false} AfterBelow(t: Shape, es: seq<Step>, at: nat)
    requires at < |t.kids|
    ensures After(t, Below(es, at)) == t.(kids := t.kids[at := After(t.kids[at], es)])
    decreases |es|
  {
    if es == [] {
      assert t.kids[at := t.kids[at]] == t.kids;
    } else {
      var e := es[0].(path := [at] + es[0].path);
      assert e.(path := e.path[1..]) == es[0];
      var u := t.(kids := t.kids[at := Apply(t.kids[at], es[0])]);
      assert Apply(t, e) == u;
      AfterBelow(u, es[1..], at);
      assert Below(es, at)[1..] == Below(es[1..], at);
      assert u.kids[at := After(u.kids[at], es[1..])] == t.kids[at := After(t.kids[at], es)];
    }
  }

  lemma {:induction false} BuildingBuilds(t: Shape)
    requires WellShaped(t)
    ensures After(Leaf(t.kind), Building(t)) == t
    decreases t, 1
  {
    BuildingAllBuilds(t, 0);
    assert t.kids[..0] == [] && t.kids[0..] == t.kids;
  }

  /** With the first children in place, the steps for the others complete the tree. */
  lemma {:induction false} BuildingAllBuilds(t: Shape, n: nat)
    requires WellShaped(t) && n <= |t.kids|
    ensures After(Shape(t.kind, t.kids[..n]), BuildingAll(t.kids[n..], n)) == t
    decreases t, 0, |t.kids| - n
  {
    if n == |t.kids| {
      assert t.kids[..n] == t.kids;
    } else {
      var kid, rest := t.kids[n], t.kids[n..];
      assert rest[0] == kid && rest[1..] == t.kids[n + 1..];
      var start := Shape(t.kind, t.kids[..n]);
      var insert, inner := Insert([], n, kid.kind), Below(Building(kid), n);
      AllowedIff(t.kind, kid.kind);
      var grown := Shape(t.kind, t.kids[..n] + [Leaf(kid.kind)]);
      assert Apply(start, insert) == grown by {
        assert t.kids[..n][..n] == t.kids[..n] && t.kids[..n][n..] == [];
      }
      BuildingBuilds(kid);
      AfterBelow(grown, Building(kid), n);
      var done := Shape(t.kind, t.kids[..n + 1]);
      assert grown.kids[n := kid] == done.kids;
      assert ([insert] + inner)[1..] == inner;
      assert After(start, [insert] + inner) == done;
      AfterAppend(start, [insert] + inner, BuildingAll(t.kids[n + 1..], n + 1));
      BuildingAllBuilds(t, n + 1);
    }
  }

  /** The trees that can be built below a single node are exactly the well-shaped ones. */
  lemma BuildableIff(t: Shape)
    ensures (exists es :: After(Leaf(t.kind), es) == t) <==> WellShaped(t)
  {
    if es :| After(Leaf(t.kind), es) == t {
      EveryRun(Leaf(t.kind), es);
    }
    if WellShaped(t) {
      BuildingBuilds(t);
    }
  }
}
