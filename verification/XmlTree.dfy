/** The nodes of a document tree and the lists that hold their children. */
module XmlTree {

  datatype NodeType = Null | Document | Element | Pcdata | Cdata | Comment | Pi | Declaration | Doctype

  /** Which kinds of nodes may be put below which. */
  predicate AllowInsertChild(parent: NodeType, child: NodeType)
  {
    && (parent.Document? || parent.Element?)
    && !child.Document? && !child.Null?
    && (parent.Document? || (!child.Declaration? && !child.Doctype?))
  }

  ghost predicate Distinct(s: seq<XmlNode>)
  {
    forall i, j :: 0 <= i < j < |s| ==> s[i] != s[j]
  }

  function NextIn(s: seq<XmlNode>, i: nat): (n: XmlNode?)
    requires i < |s|
  {
    if i + 1 < |s| then s[i + 1] else null
  }

  /** The one before, and cyclically the last one for the first. */
  function PreviousIn(s: seq<XmlNode>, i: nat): (n: XmlNode)
    requires i < |s|
  {
    s[if i > 0 then i - 1 else |s| - 1]
  }

  /** Without the element at `k`: only the one before it has another next one, and only the one behind it
      another previous one. */
  lemma RemovedAt(s: seq<XmlNode>, k: nat, j: nat)
    requires k < |s| && j < |s| && j != k
    ensures var r, i := s[..k] + s[k + 1..], if j < k then j else j - 1;
      && r[i] == s[j]
      && NextIn(r, i) == NextIn(s, if j + 1 == k then k else j)
      && PreviousIn(r, i) == PreviousIn(s, if j == k + 1 || (j == 0 && k == |s| - 1) then k else j)
  {
  }

  /** With a new element at `k`: it is the next one of the element before it, and the previous one of the
      element behind it. */
  lemma InsertedAt(s: seq<XmlNode>, k: nat, x: XmlNode, j: nat)
    requires k <= |s| && j < |s|
    ensures var r, i := s[..k] + [x] + s[k..], if j < k then j else j + 1;
      && r[i] == s[j] && r[k] == x
      && NextIn(r, i) == (if j + 1 == k then x else NextIn(s, j))
      && PreviousIn(r, i) == (if j == k || (j == 0 && k == |s|) then x else PreviousIn(s, j))
  {
  }

  lemma DistinctInsert(s: seq<XmlNode>, k: nat, x: XmlNode)
    requires Distinct(s) && k <= |s| && x !in s
    ensures Distinct(s[..k] + [x] + s[k..])
  {
  }

  lemma DistinctRemove(s: seq<XmlNode>, k: nat)
    requires Distinct(s) && k < |s|
    ensures Distinct(s[..k] + s[k + 1..])
  {
  }

  /** A node: its next sibling, and cyclically its previous one, so that the first child knows the
      last. `children` is the sequence the links stand for. */
  class XmlNode {
    const nodeType: NodeType
    var parent: XmlNode?
    var firstChild: XmlNode?
    var prevSiblingC: XmlNode?
    var nextSibling: XmlNode?
    ghost var children: seq<XmlNode>

    constructor (nodeType: NodeType)
      ensures this.nodeType == nodeType && children == []
      ensures parent == null && firstChild == null && prevSiblingC == null && nextSibling == null
    {
      this.nodeType, children := nodeType, [];
      parent, firstChild, prevSiblingC, nextSibling := null, null, null, null;
    }

    /** The links below this node represent the sequence of its children. */
    ghost predicate Valid()
      reads this`firstChild, this`children, children`parent, children`nextSibling, children`prevSiblingC
    {
      && Distinct(children)
      && firstChild == (if children == [] then null else children[0])
      && (forall i :: 0 <= i < |children| ==> Linked(i))
    }

    ghost predicate Linked(i: nat)
      requires i < |children|
      reads this`children, children`parent, children`nextSibling, children`prevSiblingC
    {
      && children[i].parent == this
      && children[i].nextSibling == NextIn(children, i)
      && children[i].prevSiblingC == PreviousIn(children, i)
    }

    // --- changing the list of children ---

    /** Changing this node's list leaves the list of every other node as it represents. */
    twostate lemma OtherListsStay(p: XmlNode)
      requires p != this && old(Valid()) && old(p.Valid())
      requires unchanged(p`firstChild) && unchanged(p`children)
      requires forall o :: o in old(p.children) ==> unchanged(o`parent)
      requires forall o :: o in old(p.children) && o !in old(children) ==>
                 unchanged(o`nextSibling) && unchanged(o`prevSiblingC)
      ensures p.Valid()
    {
      forall i | 0 <= i < |p.children| ensures p.Linked(i) {
        assert old(p.Linked(i)) && p.children[i] in old(p.children);
        forall j | 0 <= j < |old(children)| ensures old(children)[j] != p.children[i] {
          assert old(Linked(j));
        }
      }
    }

    /** Appends a fresh node. */
    method AppendNode(nodeType: NodeType) returns (child: XmlNode)
      requires Valid()
      modifies this`firstChild, this`children, children`nextSibling, children`prevSiblingC
      ensures Valid() && children == old(children) + [child]
      ensures fresh(child) && child.nodeType == nodeType && child.children == [] && child.Valid()
    {
      ghost var c := children;
      child := new XmlNode(nodeType);
      child.parent := this;
      if firstChild != null {
        assert Linked(0) && Linked(|c| - 1);
        var lastChild := firstChild.prevSiblingC;
        lastChild.nextSibling := child;
        child.prevSiblingC := lastChild;
        firstChild.prevSiblingC := child;
      } else {
        firstChild := child;
        child.prevSiblingC := child;
      }
      children := children + [child];
      assert children == c[..|c|] + [child] + c[|c|..];
      DistinctInsert(c, |c|, child);
      forall i | 0 <= i < |children| ensures Linked(i) {
        if i < |c| {
          assert old(Linked(i));
          assert i < |c| - 1 ==> c[i] != c[|c| - 1];
        }
      }
    }

    method AppendChild(nodeType: NodeType) returns (child: XmlNode?)
      requires Valid()
      modifies this`firstChild, this`children, children`nextSibling, children`prevSiblingC
      ensures Valid() && (child != null <==> AllowInsertChild(this.nodeType, nodeType))
      ensures if child == null then children == old(children) else children == old(children) + [child]
      ensures child != null ==> fresh(child) && child.nodeType == nodeType && child.children == [] && child.Valid()
      ensures child == null ==> unchanged(this) && unchanged(children)
      ensures forall p: XmlNode :: p != this && old(allocated(p)) && old(p.Valid()) ==> p.Valid()
    {
      if !AllowInsertChild(this.nodeType, nodeType) {
        return null;
      }
      child := AppendNode(nodeType);
      forall p: XmlNode | p != this && old(allocated(p)) && old(p.Valid()) ensures p.Valid() {
        OtherListsStay(p);
      }
    }

    /** Puts a new node in front of all children. */
    method LinkFirst(n: XmlNode)
      requires Valid() && n !in children && n != this
      modifies this`firstChild, this`children, children`nextSibling, children`prevSiblingC
      modifies n`parent, n`nextSibling, n`prevSiblingC
      ensures Valid() && children == [n] + old(children)
    {
      ghost var c := children;
      n.parent := this;
      var head := firstChild;
      if head != null {
        assert Linked(0) && Linked(|c| - 1);
        n.prevSiblingC := head.prevSiblingC;
        head.prevSiblingC := n;
      } else {
        n.prevSiblingC := n;
      }
      n.nextSibling := head;
      firstChild := n;
      children := [n] + children;
      assert children == c[..0] + [n] + c[0..];
      DistinctInsert(c, 0, n);
      forall i | 0 <= i < |children| ensures Linked(i) {
        if i > 0 {
          assert children[i] == c[i - 1] && old(Linked(i - 1));
          assert i > 1 ==> c[0] != c[i - 1];
        }
      }
    }

    method PrependChild(nodeType: NodeType) returns (child: XmlNode?)
      requires Valid()
      modifies this`firstChild, this`children, children`nextSibling, children`prevSiblingC
      ensures Valid() && (child != null <==> AllowInsertChild(this.nodeType, nodeType))
      ensures if child == null then children == old(children) else children == [child] + old(children)
      ensures child != null ==> fresh(child) && child.nodeType == nodeType && child.children == [] && child.Valid()
      ensures child == null ==> unchanged(this) && unchanged(children)
      ensures forall p: XmlNode :: p != this && old(allocated(p)) && old(p.Valid()) ==> p.Valid()
    {
      if !AllowInsertChild(this.nodeType, nodeType) {
        return null;
      }
      var n := new XmlNode(nodeType);
      LinkFirst(n);
      child := n;
      forall p: XmlNode | p != this && old(allocated(p)) && old(p.Valid()) ensures p.Valid() {
        OtherListsStay(p);
      }
    }

    /** Puts a new node before the child `node`. */
    method LinkBefore(n: XmlNode, node: XmlNode, ghost k: nat)
      requires Valid() && k < |children| && children[k] == node && n !in children && n != this
      modifies this`firstChild, this`children, children`nextSibling, children`prevSiblingC
      modifies n`parent, n`nextSibling, n`prevSiblingC
      ensures Valid() && children == old(children)[..k] + [n] + old(children)[k..]
    {
      ghost var c := children;
      assert Linked(k) && Linked(if k > 0 then k - 1 else |c| - 1);
      DistinctInsert(c, k, n);
      children := c[..k] + [n] + c[k..];
      n.parent := this;
      if node.prevSiblingC.nextSibling != null {
        node.prevSiblingC.nextSibling := n;
      } else {
        firstChild := n;
      }
      n.prevSiblingC := node.prevSiblingC;
      n.nextSibling := node;
      node.prevSiblingC := n;
      forall j | 0 <= j < |c| ensures MakesRoom(c, k, n, j) {
        assert old(Linked(j)) && (j != k ==> c[j] != c[k]);
      }
      RelinkedAround(c, k, n);
    }

    /** Puts a new node behind the child `node`. */
    method LinkAfter(n: XmlNode, node: XmlNode, ghost k: nat)
      requires Valid() && k < |children| && children[k] == node && n !in children && n != this
      modifies this`firstChild, this`children, children`nextSibling, children`prevSiblingC
      modifies n`parent, n`nextSibling, n`prevSiblingC
      ensures Valid() && children == old(children)[..k + 1] + [n] + old(children)[k + 1..]
    {
      ghost var c, at := children, k + 1;
      assert Linked(0) && Linked(k) && Linked(if k + 1 < |c| then k + 1 else 0);
      DistinctInsert(c, at, n);
      children := c[..at] + [n] + c[at..];
      n.parent := this;
      if node.nextSibling != null {
        node.nextSibling.prevSiblingC := n;
      } else {
        firstChild.prevSiblingC := n;
      }
      n.nextSibling := node.nextSibling;
      n.prevSiblingC := node;
      node.nextSibling := n;
      forall j | 0 <= j < |c| ensures MakesRoom(c, at, n, j) {
        assert old(Linked(j)) && (j != k ==> c[j] != c[k]);
      }
      RelinkedAround(c, at, n);
    }

    method InsertChildBefore(nodeType: NodeType, node: XmlNode?, ghost k: nat) returns (child: XmlNode?)
      requires Valid() && (node != null && node.parent == this ==> k < |children| && children[k] == node)
      modifies this`firstChild, this`children, children`nextSibling, children`prevSiblingC
      ensures Valid()
      ensures child != null <==> AllowInsertChild(this.nodeType, nodeType) && node != null && old(node.parent) == this
      ensures child != null ==> k <= |old(children)| && children == old(children)[..k] + [child] + old(children)[k..]
      ensures child != null ==> fresh(child) && child.nodeType == nodeType && child.children == [] && child.Valid()
      ensures child == null ==> unchanged(this) && unchanged(children)
      ensures forall p: XmlNode :: p != this && old(allocated(p)) && old(p.Valid()) ==> p.Valid()
    {
      if !AllowInsertChild(this.nodeType, nodeType) {
        return null;
      }
      if node == null || node.parent != this {
        return null;
      }
      var n := new XmlNode(nodeType);
      LinkBefore(n, node, k);
      child := n;
      forall p: XmlNode | p != this && old(allocated(p)) && old(p.Valid()) ensures p.Valid() {
        OtherListsStay(p);
      }
    }

    method InsertChildAfter(nodeType: NodeType, node: XmlNode?, ghost k: nat) returns (child: XmlNode?)
      requires Valid() && (node != null && node.parent == this ==> k < |children| && children[k] == node)
      modifies this`firstChild, this`children, children`nextSibling, children`prevSiblingC
      ensures Valid()
      ensures child != null <==> AllowInsertChild(this.nodeType, nodeType) && node != null && old(node.parent) == this
      ensures child != null
            ==> k < |old(children)| && children == old(children)[..k + 1] + [child] + old(children)[k + 1..]
      ensures child != null ==> fresh(child) && child.nodeType == nodeType && child.children == [] && child.Valid()
      ensures child == null ==> unchanged(this) && unchanged(children)
      ensures forall p: XmlNode :: p != this && old(allocated(p)) && old(p.Valid()) ==> p.Valid()
    {
      if !AllowInsertChild(this.nodeType, nodeType) {
        return null;
      }
      if node == null || node.parent != this {
        return null;
      }
      var n := new XmlNode(nodeType);
      LinkAfter(n, node, k);
      child := n;
      forall p: XmlNode | p != this && old(allocated(p)) && old(p.Valid()) ensures p.Valid() {
        OtherListsStay(p);
      }
    }

    /** Takes a child out of the list. */
    method Unlink(n: XmlNode, ghost k: nat)
      requires Valid() && k < |children| && children[k] == n
      modifies this`firstChild, this`children, children`nextSibling, children`prevSiblingC
      ensures Valid() && children == old(children)[..k] + old(children)[k + 1..]
    {
      ghost var c := children;
      assert Linked(0) && Linked(k) && Linked(if k + 1 < |c| then k + 1 else 0)
        && Linked(if k > 0 then k - 1 else |c| - 1);
      DistinctRemove(c, k);
      children := c[..k] + c[k + 1..];
      if n.nextSibling != null {
        n.nextSibling.prevSiblingC := n.prevSiblingC;
      } else if firstChild != null {
        firstChild.prevSiblingC := n.prevSiblingC;
      }
      if n.prevSiblingC.nextSibling != null {
        n.prevSiblingC.nextSibling := n.nextSibling;
      } else {
        firstChild := n.nextSibling;
      }
      forall j | 0 <= j < |c| && j != k ensures Skips(c, k, j) {
        assert old(Linked(j)) && c[j] != c[k];
      }
      Relinked(c, k);
    }

    /** The links of the child at `j` go around the one at `k`. */
    ghost predicate Skips(c: seq<XmlNode>, k: nat, j: nat)
      requires k < |c| && j < |c|
      reads c`parent, c`nextSibling, c`prevSiblingC
    {
      && c[j].parent == this
      && c[j].nextSibling == NextIn(c, if j + 1 == k then k else j)
      && c[j].prevSiblingC == PreviousIn(c, if j == k + 1 || (j == 0 && k == |c| - 1) then k else j)
    }

    /** The links of the child at `j` make room for a new one at `k`. */
    ghost predicate MakesRoom(c: seq<XmlNode>, k: nat, n: XmlNode, j: nat)
      requires k <= |c| && j < |c|
      reads c`parent, c`nextSibling, c`prevSiblingC
    {
      && c[j].parent == this
      && c[j].nextSibling == (if j + 1 == k then n else NextIn(c, j))
      && c[j].prevSiblingC == (if j == k || (j == 0 && k == |c|) then n else PreviousIn(c, j))
    }

    lemma RelinkedAround(c: seq<XmlNode>, k: nat, n: XmlNode)
      requires k <= |c| && children == c[..k] + [n] + c[k..] && n.parent == this
      requires n.nextSibling == if k < |c| then c[k] else null
      requires n.prevSiblingC == if k > 0 then c[k - 1] else if c == [] then n else c[|c| - 1]
      requires forall j :: 0 <= j < |c| ==> MakesRoom(c, k, n, j)
      ensures forall i :: 0 <= i < |children| ==> Linked(i)
    {
      forall i | 0 <= i < |children| ensures Linked(i) {
        if i != k {
          NextToNew(c, k, n, i);
        }
      }
    }

    lemma NextToNew(c: seq<XmlNode>, k: nat, n: XmlNode, i: nat)
      requires k <= |c| && children == c[..k] + [n] + c[k..] && i < |children| && i != k
      requires forall j :: 0 <= j < |c| ==> MakesRoom(c, k, n, j)
      ensures Linked(i)
    {
      hide NextIn, PreviousIn;
      var j := if i < k then i else i - 1;
      assert MakesRoom(c, k, n, j);
      InsertedAt(c, k, n, j);
    }

    lemma Relinked(c: seq<XmlNode>, k: nat)
      requires k < |c| && children == c[..k] + c[k + 1..]
      requires forall j :: 0 <= j < |c| && j != k ==> Skips(c, k, j)
      ensures forall i :: 0 <= i < |children| ==> Linked(i)
    {
      hide NextIn, PreviousIn;
      forall i | 0 <= i < |children| ensures Linked(i) {
        var j := if i < k then i else i + 1;
        assert Skips(c, k, j);
        RemovedAt(c, k, j);
      }
    }

    /** Unlinks a child; the node itself is destroyed. */
    method RemoveChild(n: XmlNode?, ghost k: nat) returns (removed: bool)
      requires Valid() && (n != null && n.parent == this ==> k < |children| && children[k] == n)
      modifies this`firstChild, this`children, children`nextSibling, children`prevSiblingC
      ensures Valid() && (removed <==> n != null && old(n.parent) == this)
      ensures removed ==> k < |old(children)| && children == old(children)[..k] + old(children)[k + 1..]
      ensures !removed ==> unchanged(this) && unchanged(children)
      ensures forall p: XmlNode :: p != this && old(allocated(p)) && old(p.Valid()) ==> p.Valid()
    {
      if n == null || n.parent != this {
        return false;
      }
      Unlink(n, k);
      forall p: XmlNode | p != this && old(allocated(p)) && old(p.Valid()) ensures p.Valid() {
        OtherListsStay(p);
      }
      return true;
    }
  }
}
