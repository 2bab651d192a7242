/**
  The intrusive node tree: parent, first child, next sibling and the circular previous sibling. A ghost map gives each
  node its sequence of children; every list operation changes exactly one entry of that map.
*/
module Dom {
  import opened Basics
  import opened Bytes
  import opened Document

  datatype Data = Data(name: bytes, value: bytes, attrs: seq<Attr>)

  class XmlNode {
    const kind: Kind
    const document: nat
    var data: Data
    var parent: XmlNode?
    var firstChild: XmlNode?
    var prevSiblingC: XmlNode?
    var nextSibling: XmlNode?

    /** `allocate_node`: a node with no links and no contents. */
    constructor (kind: Kind, document: nat)
      ensures this.kind == kind && this.document == document && data == Data([], [], [])
      ensures parent == null && firstChild == null && prevSiblingC == null && nextSibling == null
    {
      this.kind, this.document := kind, document;
      data := Data([], [], []);
      parent, firstChild, prevSiblingC, nextSibling := null, null, null, null;
    }
  }

  type Kids = map<XmlNode, seq<XmlNode>>

  /** The links stored in one node. */
  datatype Links = Links(parent: XmlNode?, first: XmlNode?, prev: XmlNode?, next: XmlNode?)

  ghost function LinksOf(n: XmlNode): Links
    reads n
  {
    Links(n.parent, n.firstChild, n.prevSiblingC, n.nextSibling)
  }

  type Shape = map<XmlNode, Links>

  /** All links of a set of nodes, as a value. */
  ghost function ShapeOf(U: set<XmlNode>): (m: Shape)
    reads U
    ensures m.Keys == U && forall n :: n in U ==> m[n] == LinksOf(n)
  {
    map n | n in U :: LinksOf(n)
  }

  /** Member i of s is linked to its neighbours; the first member points back to the last. */
  ghost predicate Sibling(m: Shape, n: XmlNode, s: seq<XmlNode>, i: int)
    requires 0 <= i < |s|
  {
    && s[i] in m
    && m[s[i]].parent == n
    && m[s[i]].next == (if i + 1 < |s| then s[i + 1] else null)
    && m[s[i]].prev == (if i > 0 then s[i - 1] else s[|s| - 1])
  }

  /** The links of n and of the members of s say that s is the list of children of n. */
  ghost predicate IsList(m: Shape, n: XmlNode, s: seq<XmlNode>) {
    && n in m
    && m[n].first == (if s == [] then null else s[0])
    && (forall i :: 0 <= i < |s| ==> Sibling(m, n, s, i))
    && NoRepeats(s)
  }

  /** The links m describe exactly the child lists in kids. */
  ghost predicate Describes(m: Shape, kids: Kids) {
    && kids.Keys == m.Keys
    && (forall n :: n in kids ==> IsList(m, n, kids[n]))
    && (forall n :: n in m && m[n].parent != null ==> m[n].parent in m && n in kids[m[n].parent])
    && (forall n :: n in m && m[n].parent == null ==> m[n].next == null)
  }

  ghost predicate Linked(U: set<XmlNode>, kids: Kids)
    reads U
  {
    Describes(ShapeOf(U), kids)
  }

  function InsertAt<T>(s: seq<T>, i: nat, x: T): seq<T>
    requires i <= |s|
  {
    s[..i] + [x] + s[i..]
  }

  function RemoveAt<T>(s: seq<T>, i: nat): seq<T>
    requires i < |s|
  {
    s[..i] + s[i + 1..]
  }

  /** A detached node: the root of a tree that hangs under no node of U. */
  predicate Detached(n: XmlNode)
    reads n
  {
    n.parent == null && n.nextSibling == null
  }

  lemma SameList(m: Shape, m': Shape, n: XmlNode, s: seq<XmlNode>)
    requires IsList(m, n, s) && m'.Keys == m.Keys && m'[n].first == m[n].first
    requires forall c :: c in s ==> c in m && SameLinks(m, m', c)
    ensures IsList(m', n, s)
  {
    forall i | 0 <= i < |s| ensures Sibling(m', n, s, i) {
      assert Sibling(m, n, s, i) && s[i] in s;
    }
  }

  /** c has the same place among its siblings in both shapes. */
  ghost predicate SameLinks(m: Shape, m': Shape, c: XmlNode)
    requires c in m && c in m'
  {
    m'[c].parent == m[c].parent && m'[c].next == m[c].next && m'[c].prev == m[c].prev
  }

  lemma ListMembers(m: Shape, n: XmlNode, s: seq<XmlNode>)
    requires IsList(m, n, s)
    ensures forall c :: c in s ==> c in m && m[c].parent == n
    ensures s != [] ==> s[0] in m && m[s[0]].prev == s[|s| - 1] && s[|s| - 1] in m && m[s[|s| - 1]].next == null
    ensures m[n].first == (if s == [] then null else s[0])
  {
    forall c | c in s ensures c in m && m[c].parent == n {
      var i :| 0 <= i < |s| && s[i] == c;
      assert Sibling(m, n, s, i);
    }
    if s != [] {
      assert Sibling(m, n, s, 0) && Sibling(m, n, s, |s| - 1);
    }
  }

  lemma ListParents(m: Shape, kids: Kids, n: XmlNode)
    requires Describes(m, kids) && n in m
    ensures n in kids && IsList(m, n, kids[n])
    ensures forall c :: c in m ==> (m[c].parent == n <==> c in kids[n])
  {
    ListMembers(m, n, kids[n]);
  }

  /** m' differs from m only in having s' as the list of children of node. */
  ghost predicate Relinks(m: Shape, m': Shape, s: seq<XmlNode>, node: XmlNode, s': seq<XmlNode>) {
    && m'.Keys == m.Keys && node in m
    && IsList(m', node, s')
    && (forall n :: n in m && n != node ==> m'[n].first == m[n].first)
    && (forall n :: n in m && n !in s' && n !in s ==> SameLinks(m, m', n))
    && (forall n :: n in s' && n !in s ==> n in m && m[n].parent == null)
    && (forall n :: n in s && n !in s' ==> n in m && m'[n].parent == null && m'[n].next == null)
  }

  /** Relinking one list and leaving everything else alone keeps the whole forest described. */
  lemma Relinked(m: Shape, m': Shape, kids: Kids, node: XmlNode, s': seq<XmlNode>)
    requires Describes(m, kids) && node in kids && Relinks(m, m', kids[node], node, s')
    ensures Describes(m', kids[node := s'])
  {
    var kids' := kids[node := s'];
    hide Describes, IsList;
    KidsKeys(m, kids);
    ListParents(m, kids, node);
    ListMembers(m', node, s');
    forall n | n in kids' ensures IsList(m', n, kids'[n]) {
      if n != node {
        ListParents(m, kids, n);
        ListMembers(m, n, kids[n]);
        SameList(m, m', n, kids[n]);
      }
    }
    forall n | n in m' ensures m'[n].parent != null ==> m'[n].parent in m' && n in kids'[m'[n].parent]
      ensures m'[n].parent == null ==> m'[n].next == null
    {
      RootFacts(m, kids, n);
    }
    DescribesIntro(m', kids');
  }

  lemma KidsKeys(m: Shape, kids: Kids)
    requires Describes(m, kids)
    ensures kids.Keys == m.Keys
  {}

  lemma RootFacts(m: Shape, kids: Kids, n: XmlNode)
    requires Describes(m, kids) && n in m
    ensures m[n].parent == null ==> m[n].next == null
    ensures m[n].parent != null ==> m[n].parent in m && m[n].parent in kids && n in kids[m[n].parent]
  {}

  lemma DescribesIntro(m: Shape, kids: Kids)
    requires kids.Keys == m.Keys && forall n :: n in kids ==> IsList(m, n, kids[n])
    requires forall n :: n in m ==> m[n].parent != null ==> m[n].parent in m && n in kids[m[n].parent]
    requires forall n :: n in m ==> m[n].parent == null ==> m[n].next == null
    ensures Describes(m, kids)
  {}

  lemma ListOf(U: set<XmlNode>, kids: Kids, node: XmlNode)
    requires Linked(U, kids) && node in U
    ensures Describes(ShapeOf(U), kids) && kids.Keys == U
    ensures IsList(ShapeOf(U), node, kids[node])
    ensures forall n :: n in U ==> (n.parent == node <==> n in kids[node])
    ensures forall c :: c in kids[node] ==> c in U
    ensures kids[node] != [] ==> kids[node][0] in kids[node] && kids[node][|kids[node]| - 1] in kids[node]
  {
    ListParents(ShapeOf(U), kids, node);
    ListMembers(ShapeOf(U), node, kids[node]);
  }

  lemma ShapeLinked(U: set<XmlNode>, kids: Kids)
    requires Describes(ShapeOf(U), kids)
    ensures Linked(U, kids)
  {}

  /** The pointer writes of `append_node`. */
  method LinkLast(child: XmlNode, node: XmlNode, ghost U: set<XmlNode>, ghost s: seq<XmlNode>)
    requires child in U && node in U && child != node && child !in s
    requires if s == [] then node.firstChild == null
             else s[0] in U && s[|s| - 1] in U && node.firstChild == s[0] && s[0].prevSiblingC == s[|s| - 1]
    modifies U`parent, U`firstChild, U`prevSiblingC, U`nextSibling
    ensures ShapeOf(U) == Appended(old(ShapeOf(U)), s, node, child)
  {
    child.parent := node;
    var head := node.firstChild;
    if head != null {
      var tail := head.prevSiblingC;
      tail.nextSibling := child;
      child.prevSiblingC := tail;
      head.prevSiblingC := child;
    } else {
      node.firstChild := child;
      child.prevSiblingC := child;
    }
  }

  method AppendNode(child: XmlNode, node: XmlNode, ghost U: set<XmlNode>, ghost kids: Kids)
    requires Linked(U, kids) && child in U && node in U && child != node && Detached(child)
    modifies U`parent, U`firstChild, U`prevSiblingC, U`nextSibling
    ensures Linked(U, kids[node := kids[node] + [child]])
  {
    ListOf(U, kids, node);
    ghost var s, m := kids[node], ShapeOf(U);
    ListMembers(m, node, s);
    hide Linked, Describes, Relinks, IsList;
    LinkLast(child, node, U, s);
    AppendRelinks(m, s, node, child);
    Relinked(m, ShapeOf(U), kids, node, s + [child]);
    ShapeLinked(U, kids[node := s + [child]]);
  }

  /** The writes of an append. */
  ghost function Appended(m: Shape, s: seq<XmlNode>, node: XmlNode, child: XmlNode): Shape {
    map n | n in m ::
      var l := m[n];
      var l := if n == node && s == [] then l.(first := child) else l;
      var l := if s != [] && n == s[|s| - 1] then l.(next := child) else l;
      var l := if s != [] && n == s[0] then l.(prev := child) else l;
      if n == child then l.(parent := node, prev := if s == [] then child else s[|s| - 1]) else l
  }

  lemma AppendRelinks(m: Shape, s: seq<XmlNode>, node: XmlNode, child: XmlNode)
    requires IsList(m, node, s) && child in m && child != node && child !in s
    requires m[child].parent == null && m[child].next == null
    requires forall c :: c in s ==> c in m
    ensures Relinks(m, Appended(m, s, node, child), s, node, s + [child])
  {
    var s', m' := s + [child], Appended(m, s, node, child);
    forall i | 0 <= i < |s'| ensures Sibling(m', node, s', i) {
      if i < |s| {
        assert Sibling(m, node, s, i);
      }
    }
  }

  // ----- prepend

  ghost function Prepended(m: Shape, s: seq<XmlNode>, node: XmlNode, child: XmlNode): Shape {
    map n | n in m ::
      var l := m[n];
      var l := if n == node then l.(first := child) else l;
      var l := if s != [] && n == s[0] then l.(prev := child) else l;
      if n == child then l.(parent := node, prev := if s == [] then child else s[|s| - 1], next := if s == [] then null
          else s[0])
      else l
  }

  lemma PrependRelinks(m: Shape, s: seq<XmlNode>, node: XmlNode, child: XmlNode)
    requires IsList(m, node, s) && child in m && child != node && child !in s
    requires m[child].parent == null && m[child].next == null
    requires forall c :: c in s ==> c in m
    ensures Relinks(m, Prepended(m, s, node, child), s, node, [child] + s)
  {
    var s', m' := [child] + s, Prepended(m, s, node, child);
    forall i | 0 <= i < |s'| ensures Sibling(m', node, s', i) {
      if i > 0 {
        assert Sibling(m, node, s, i - 1);
      }
    }
  }

  method LinkFirst(child: XmlNode, node: XmlNode, ghost U: set<XmlNode>, ghost s: seq<XmlNode>)
    requires child in U && node in U && child != node && child !in s
    requires if s == [] then node.firstChild == null
             else s[0] in U && s[|s| - 1] in U && node.firstChild == s[0] && s[0].prevSiblingC == s[|s| - 1]
    modifies U`parent, U`firstChild, U`prevSiblingC, U`nextSibling
    ensures ShapeOf(U) == Prepended(old(ShapeOf(U)), s, node, child)
  {
    child.parent := node;
    var head := node.firstChild;
    if head != null {
      child.prevSiblingC := head.prevSiblingC;
      head.prevSiblingC := child;
    } else {
      child.prevSiblingC := child;
    }
    child.nextSibling := head;
    node.firstChild := child;
  }

  method PrependNode(child: XmlNode, node: XmlNode, ghost U: set<XmlNode>, ghost kids: Kids)
    requires Linked(U, kids) && child in U && node in U && child != node && Detached(child)
    modifies U`parent, U`firstChild, U`prevSiblingC, U`nextSibling
    ensures Linked(U, kids[node := [child] + kids[node]])
  {
    ListOf(U, kids, node);
    ghost var s, m := kids[node], ShapeOf(U);
    ListMembers(m, node, s);
    hide Linked, Describes, Relinks, IsList;
    LinkFirst(child, node, U, s);
    PrependRelinks(m, s, node, child);
    Relinked(m, ShapeOf(U), kids, node, [child] + s);
    ShapeLinked(U, kids[node := [child] + s]);
  }

  // ----- insert after and before a sibling

  ghost function InsertedAfter(m: Shape, s: seq<XmlNode>, i: int, parent: XmlNode, child: XmlNode): Shape
    requires 0 <= i < |s|
  {
    map n | n in m ::
      var l := m[n];
      var l := if n == (if i + 1 < |s| then s[i + 1] else s[0]) then l.(prev := child) else l;
      var l := if n == s[i] then l.(next := child) else l;
      if n == child then l.(parent := parent, prev := s[i], next := if i + 1 < |s| then s[i + 1] else null)
      else l
  }

  lemma InsertAfterRelinks(m: Shape, s: seq<XmlNode>, i: int, parent: XmlNode, child: XmlNode)
    requires IsList(m, parent, s) && child in m && child != parent && child !in s && 0 <= i < |s|
    requires m[child].parent == null
    ensures Relinks(m, InsertedAfter(m, s, i, parent, child), s, parent, InsertAt(s, i + 1, child))
  {
    var s', m' := InsertAt(s, i + 1, child), InsertedAfter(m, s, i, parent, child);
    assert Sibling(m, parent, s, i) && Sibling(m, parent, s, 0);
    InsertedAt(s, i + 1, child);
    hide InsertAt, InsertedAfter;
    forall k | 0 <= k < |s'| ensures Sibling(m', parent, s', k) {
      InsertAfterSibling(m, s, i, parent, child, k);
    }
    InsertAfterFrame(m, s, i, parent, child);
  }

  lemma InsertAfterSibling(m: Shape, s: seq<XmlNode>, i: int, parent: XmlNode, child: XmlNode, k: nat)
    requires IsList(m, parent, s) && child in m && child !in s && 0 <= i < |s| && k < |s| + 1
    ensures |InsertAt(s, i + 1, child)| == |s| + 1
    ensures Sibling(InsertedAfter(m, s, i, parent, child), parent, InsertAt(s, i + 1, child), k)
  {
    assert k <= i ==> Sibling(m, parent, s, k);
    assert k > i + 1 ==> Sibling(m, parent, s, k - 1);
    InsertedAt(s, i + 1, child);
    hide InsertAt, IsList;
  }

  lemma InsertAfterFrame(m: Shape, s: seq<XmlNode>, i: int, parent: XmlNode, child: XmlNode)
    requires IsList(m, parent, s) && child in m && 0 <= i < |s|
    ensures (var m' := InsertedAfter(m, s, i, parent, child);
             && m'.Keys == m.Keys && (forall n :: n in m ==> m'[n].first == m[n].first)
             && (forall n :: n in m && n != child && n !in s ==> SameLinks(m, m', n)))
  {
    assert s[i] in s && s[0] in s && (i + 1 < |s| ==> s[i + 1] in s);
    hide IsList;
  }

  /** The members of a list with one inserted. */
  lemma InsertedAt(s: seq<XmlNode>, i: nat, x: XmlNode)
    requires i <= |s| && x !in s
    ensures (var t := InsertAt(s, i, x);
             |t| == |s| + 1 && t[i] == x && (forall k :: 0 <= k < |t| && k != i ==>
               t[k] == s[if k < i then k else k - 1]))
    ensures (forall c :: c in InsertAt(s, i, x) ==> c in s || c == x) && (forall c :: c in s ==> c in InsertAt(s, i, x))
    ensures x in InsertAt(s, i, x) && (NoRepeats(s) ==> NoRepeats(InsertAt(s, i, x)))
  {
    var t := InsertAt(s, i, x);
    assert t[i] == x;
    forall c | c in s ensures c in t {
      var k :| 0 <= k < |s| && s[k] == c;
      assert t[if k < i then k else k + 1] == c;
    }
  }

  /** What the pointer writes of an insertion rely on. */
  ghost predicate CanLinkAfter(child: XmlNode, node: XmlNode, U: set<XmlNode>, s: seq<XmlNode>, i: int)
    requires node in U
    reads U
  {
    && 0 <= i < |s| && s[i] == node && child in U && child !in s && (forall c :: c in s ==> c in U)
    && node.parent != null && node.parent in U && child != node.parent && node.parent.firstChild == s[0]
    && node.nextSibling == if i + 1 < |s| then s[i + 1] else null
  }

  method LinkAfter(child: XmlNode, node: XmlNode, ghost U: set<XmlNode>, ghost s: seq<XmlNode>, ghost i: int)
    requires node in U && CanLinkAfter(child, node, U, s, i)
    modifies U`parent, U`firstChild, U`prevSiblingC, U`nextSibling
    ensures ShapeOf(U) == InsertedAfter(old(ShapeOf(U)), s, i, old(node.parent), child)
  {
    var parent := node.parent;
    assert s[0] in s && (i + 1 < |s| ==> s[i + 1] in s);
    child.parent := parent;
    if node.nextSibling != null {
      node.nextSibling.prevSiblingC := child;
    } else {
      parent.firstChild.prevSiblingC := child;
    }
    child.nextSibling := node.nextSibling;
    child.prevSiblingC := node;
    node.nextSibling := child;
  }

  /** Position of a node among its siblings. */
  ghost function PlaceOf(s: seq<XmlNode>, n: XmlNode): (i: nat)
    requires n in s
    ensures i < |s| && s[i] == n
  {
    var i :| 0 <= i < |s| && s[i] == n;
    i
  }

  lemma PlaceFacts(U: set<XmlNode>, kids: Kids, node: XmlNode) returns (s: seq<XmlNode>, i: nat)
    requires Linked(U, kids) && node in U && node.parent != null
    ensures node.parent in U && node.parent in kids && s == kids[node.parent] && node in s
    ensures i == PlaceOf(s, node) && i < |s| && s[i] == node
    ensures Describes(ShapeOf(U), kids) && IsList(ShapeOf(U), node.parent, s)
    ensures forall c :: c in s ==> c in U && c.parent == node.parent
    ensures node.parent.firstChild == s[0] && s[0].prevSiblingC == s[|s| - 1]
    ensures node.nextSibling == if i + 1 < |s| then s[i + 1] else null
    ensures node.prevSiblingC == if i > 0 then s[i - 1] else s[|s| - 1]
    ensures s[|s| - 1].nextSibling == null && (i > 0 ==> s[i - 1].nextSibling == node)
  {
    var m := ShapeOf(U);
    RootFacts(m, kids, node);
    ListParents(m, kids, node.parent);
    s := kids[node.parent];
    i := PlaceOf(s, node);
    ListMembers(m, node.parent, s);
    assert Sibling(m, node.parent, s, i);
    if i > 0 { assert Sibling(m, node.parent, s, i - 1); }
  }

  method InsertNodeAfter(child: XmlNode, node: XmlNode, ghost U: set<XmlNode>, ghost kids: Kids)
    requires Linked(U, kids) && child in U && node in U && Detached(child)
    requires node.parent != null && child != node.parent
    modifies U`parent, U`firstChild, U`prevSiblingC, U`nextSibling
    ensures old(node.parent) in kids && node in kids[old(node.parent)]
    ensures Linked(U, kids[old(node.parent) :=
      InsertAt(kids[old(node.parent)], PlaceOf(kids[old(node.parent)], node) + 1, child)])
  {
    hide *;
    ghost var s, i, kids' := PrepareAfter(child, node, U, kids);
    LinkAfter(child, node, U, s, i);
    ShapeLinked(U, kids');
  }

  lemma PrepareAfter(child: XmlNode, node: XmlNode, U: set<XmlNode>, kids: Kids) returns (s: seq<XmlNode>, i: nat,
        kids': Kids)
    requires Linked(U, kids) && child in U && node in U && Detached(child) && node.parent != null &&
      child != node.parent
    ensures CanLinkAfter(child, node, U, s, i) && i < |s| && node.parent in kids && node in kids[node.parent]
    ensures kids' == kids[node.parent := InsertAt(kids[node.parent], PlaceOf(kids[node.parent], node) + 1, child)]
    ensures Describes(InsertedAfter(ShapeOf(U), s, i, node.parent, child), kids')
  {
    hide Linked, Describes, IsList, InsertAt, InsertedAfter;
    s, i := PlaceFacts(U, kids, node);
    kids' := kids[node.parent := InsertAt(s, i + 1, child)];
    InsertAfterDescribed(ShapeOf(U), kids, s, i, node.parent, child);
  }

  lemma InsertAfterDescribed(m: Shape, kids: Kids, s: seq<XmlNode>, i: nat, p: XmlNode, child: XmlNode)
    requires Describes(m, kids) && p in kids && s == kids[p] && i < |s| && child in m && child != p &&
      m[child].parent == null
    ensures Describes(InsertedAfter(m, s, i, p, child), kids[p := InsertAt(s, i + 1, child)]) && child !in s
  {
    KidsKeys(m, kids);
    ListParents(m, kids, p);
    ListMembers(m, p, s);
    hide Describes, Relinks, IsList, InsertAt, InsertedAfter;
    InsertAfterRelinks(m, s, i, p, child);
    Relinked(m, InsertedAfter(m, s, i, p, child), kids, p, InsertAt(s, i + 1, child));
  }

  ghost function InsertedBefore(m: Shape, s: seq<XmlNode>, i: int, parent: XmlNode, child: XmlNode): Shape
    requires 0 <= i < |s|
  {
    map n | n in m ::
      var l := m[n];
      var l := if i == 0 && n == parent then l.(first := child) else l;
      var l := if i > 0 && n == s[i - 1] then l.(next := child) else l;
      var l := if n == s[i] then l.(prev := child) else l;
      if n == child then l.(parent := parent, prev := if i > 0 then s[i - 1] else s[|s| - 1], next := s[i])
      else l
  }

  lemma InsertBeforeRelinks(m: Shape, s: seq<XmlNode>, i: int, parent: XmlNode, child: XmlNode)
    requires IsList(m, parent, s) && child in m && child != parent && child !in s && 0 <= i < |s|
    requires m[child].parent == null
    ensures Relinks(m, InsertedBefore(m, s, i, parent, child), s, parent, InsertAt(s, i, child))
  {
    hide InsertAt, InsertedBefore, Sibling;
    var s', m' := InsertAt(s, i, child), InsertedBefore(m, s, i, parent, child);
    InsertedAt(s, i, child);
    forall k | 0 <= k < |s'| ensures Sibling(m', parent, s', k) {
      InsertBeforeSibling(m, s, i, parent, child, k);
    }
    InsertBeforeFrame(m, s, i, parent, child);
  }

  lemma InsertBeforeSibling(m: Shape, s: seq<XmlNode>, i: int, parent: XmlNode, child: XmlNode, k: nat)
    requires IsList(m, parent, s) && child in m && child !in s && 0 <= i < |s| && k < |s| + 1
    ensures |InsertAt(s, i, child)| == |s| + 1
    ensures Sibling(InsertedBefore(m, s, i, parent, child), parent, InsertAt(s, i, child), k)
  {
    hide InsertAt;
    assert Sibling(m, parent, s, i);
    assert k < i ==> Sibling(m, parent, s, k);
    assert k > i ==> Sibling(m, parent, s, k - 1);
    InsertedAt(s, i, child);
  }

  lemma InsertBeforeFrame(m: Shape, s: seq<XmlNode>, i: int, parent: XmlNode, child: XmlNode)
    requires IsList(m, parent, s) && child in m && child != parent && child !in s && 0 <= i < |s|
    ensures (var m' := InsertedBefore(m, s, i, parent, child);
             && m'.Keys == m.Keys && parent in m && m'[parent].first == (if i == 0 then child else s[0])
             && (forall n :: n in m && n != parent ==> m'[n].first == m[n].first)
             && (forall n :: n in m && n != child && n !in s ==> SameLinks(m, m', n)))
  {
    hide NoRepeats;
    assert s[i] in s && s[0] in s && (i > 0 ==> s[i - 1] in s);
  }

  method LinkBefore(child: XmlNode, node: XmlNode, ghost U: set<XmlNode>, ghost s: seq<XmlNode>, ghost i: int)
    requires 0 <= i < |s| && s[i] == node && child in U && child !in s && forall c :: c in s ==> c in U
    requires node.parent != null && node.parent in U && child != node.parent
    requires node.prevSiblingC == if i > 0 then s[i - 1] else s[|s| - 1]
    requires s[|s| - 1] in U && s[|s| - 1].nextSibling == null &&
      (i > 0 ==> s[i - 1] in U && s[i - 1].nextSibling == node)
    modifies U`parent, U`firstChild, U`prevSiblingC, U`nextSibling
    ensures ShapeOf(U) == InsertedBefore(old(ShapeOf(U)), s, i, old(node.parent), child)
  {
    var parent := node.parent;
    child.parent := parent;
    if node.prevSiblingC.nextSibling != null {
      node.prevSiblingC.nextSibling := child;
    } else {
      parent.firstChild := child;
    }
    child.prevSiblingC := node.prevSiblingC;
    child.nextSibling := node;
    node.prevSiblingC := child;
  }

  method InsertNodeBefore(child: XmlNode, node: XmlNode, ghost U: set<XmlNode>, ghost kids: Kids)
    requires Linked(U, kids) && child in U && node in U && Detached(child)
    requires node.parent != null && child != node.parent
    modifies U`parent, U`firstChild, U`prevSiblingC, U`nextSibling
    ensures old(node.parent) in kids && node in kids[old(node.parent)]
    ensures Linked(U, kids[old(node.parent) :=
      InsertAt(kids[old(node.parent)], PlaceOf(kids[old(node.parent)], node), child)])
  {
    ghost var p, m := node.parent, ShapeOf(U);
    ghost var s, i := PlaceFacts(U, kids, node);
    assert s[|s| - 1] in s && (i > 0 ==> s[i - 1] in s);
    hide Linked, Describes, Relinks, IsList;
    LinkBefore(child, node, U, s, i);
    InsertBeforeRelinks(m, s, i, p, child);
    Relinked(m, ShapeOf(U), kids, p, InsertAt(s, i, child));
    ShapeLinked(U, kids[p := InsertAt(s, i, child)]);
  }

  // ----- removal

  /** The neighbours of member i no longer link to it. */
  ghost function Bypassed(m: Shape, s: seq<XmlNode>, i: int, parent: XmlNode): Shape
    requires 0 <= i < |s|
  {
    map n | n in m ::
      var l := m[n];
      var before, after := if i > 0 then s[i - 1] else s[|s| - 1], if i + 1 < |s| then s[i + 1] else null;
      var l := if n == (if i + 1 < |s| then s[i + 1] else s[0]) then l.(prev := before) else l;
      var l := if i > 0 && n == s[i - 1] then l.(next := after) else l;
      if i == 0 && n == parent then l.(first := after) else l
  }

  ghost function Removed(m: Shape, s: seq<XmlNode>, i: int, parent: XmlNode): Shape
    requires 0 <= i < |s|
  {
    var m := Bypassed(m, s, i, parent);
    map n | n in m :: if n == s[i] then m[n].(parent := null, prev := null, next := null) else m[n]
  }

  lemma RemoveRelinks(m: Shape, s: seq<XmlNode>, i: int, parent: XmlNode)
    requires IsList(m, parent, s) && 0 <= i < |s| && parent != s[i]
    ensures Relinks(m, Removed(m, s, i, parent), s, parent, RemoveAt(s, i))
  {
    hide RemoveAt, Removed, Sibling;
    var s', m' := RemoveAt(s, i), Removed(m, s, i, parent);
    RemovedAt(s, i);
    forall k | 0 <= k < |s'| ensures Sibling(m', parent, s', k) {
      RemoveSibling(m, s, i, parent, k);
    }
    RemoveFrame(m, s, i, parent);
    ListMembers(m, parent, s);
  }

  lemma RemovedAt(s: seq<XmlNode>, i: nat)
    requires i < |s| && NoRepeats(s)
    ensures (var t := RemoveAt(s, i);
             |t| == |s| - 1 && NoRepeats(t) && (forall k :: 0 <= k < |t| ==> t[k] == s[if k < i then k else k + 1]))
    ensures forall c :: c in RemoveAt(s, i) <==> c in s && c != s[i]
  {
    var t := RemoveAt(s, i);
    forall c | c in s && c != s[i] ensures c in t {
      var k :| 0 <= k < |s| && s[k] == c;
      assert t[if k < i then k else k - 1] == c;
    }
  }

  lemma RemoveSibling(m: Shape, s: seq<XmlNode>, i: int, parent: XmlNode, k: nat)
    requires IsList(m, parent, s) && 0 <= i < |s| && k < |s| - 1
    ensures |RemoveAt(s, i)| == |s| - 1 && Sibling(Removed(m, s, i, parent), parent, RemoveAt(s, i), k)
  {
    hide RemoveAt;
    assert Sibling(m, parent, s, i) && Sibling(m, parent, s, 0);
    assert k < i ==> Sibling(m, parent, s, k);
    assert k >= i ==> Sibling(m, parent, s, k + 1);
    RemovedAt(s, i);
  }

  lemma RemoveFrame(m: Shape, s: seq<XmlNode>, i: int, parent: XmlNode)
    requires IsList(m, parent, s) && 0 <= i < |s| && parent != s[i]
    ensures (var m' := Removed(m, s, i, parent);
             && m'.Keys == m.Keys && parent in m && s[i] in m && m'[s[i]].parent == null && m'[s[i]].next == null
             && m'[parent].first == (if i > 0 then s[0] else if |s| > 1 then s[1] else null)
             && (forall n :: n in m && n != parent ==> m'[n].first == m[n].first)
             && (forall n :: n in m && n !in s ==> SameLinks(m, m', n)))
  {
    hide NoRepeats;
    assert Sibling(m, parent, s, i);
    assert s[i] in s && s[0] in s && s[|s| - 1] in s && (i > 0 ==> s[i - 1] in s) && (i + 1 < |s| ==> s[i + 1] in s);
  }

  /** The first half of `remove_node`: the neighbours are linked past the node. */
  method Bypass(node: XmlNode, ghost U: set<XmlNode>, ghost s: seq<XmlNode>, ghost i: int)
    requires 0 <= i < |s| && s[i] == node && forall c :: c in s ==> c in U
    requires node.parent != null && node.parent in U && node.parent != node && node.parent.firstChild == s[0]
    requires node.nextSibling == if i + 1 < |s| then s[i + 1] else null
    requires node.prevSiblingC == if i > 0 then s[i - 1] else s[|s| - 1]
    requires s[|s| - 1].nextSibling == null && (i > 0 ==> s[i - 1].nextSibling == node)
    requires NoRepeats(s)
    modifies U`firstChild, U`prevSiblingC, U`nextSibling
    ensures ShapeOf(U) == Bypassed(old(ShapeOf(U)), s, i, old(node.parent))
  {
    assert s[0] in s && s[|s| - 1] in s && (i > 0 ==> s[i - 1] in s) && (i + 1 < |s| ==> s[i + 1] in s);
    var parent := node.parent;
    if node.nextSibling != null {
      node.nextSibling.prevSiblingC := node.prevSiblingC;
    } else {
      parent.firstChild.prevSiblingC := node.prevSiblingC;
    }
    if node.prevSiblingC.nextSibling != null {
      node.prevSiblingC.nextSibling := node.nextSibling;
    } else {
      parent.firstChild := node.nextSibling;
    }
  }

  method Unlink(node: XmlNode, ghost U: set<XmlNode>, ghost s: seq<XmlNode>, ghost i: int)
    requires 0 <= i < |s| && s[i] == node && forall c :: c in s ==> c in U
    requires node.parent != null && node.parent in U && node.parent != node && node.parent.firstChild == s[0]
    requires node.nextSibling == if i + 1 < |s| then s[i + 1] else null
    requires node.prevSiblingC == if i > 0 then s[i - 1] else s[|s| - 1]
    requires s[|s| - 1].nextSibling == null && (i > 0 ==> s[i - 1].nextSibling == node)
    requires NoRepeats(s)
    modifies U`parent, U`firstChild, U`prevSiblingC, U`nextSibling
    ensures ShapeOf(U) == Removed(old(ShapeOf(U)), s, i, old(node.parent))
  {
    hide NoRepeats, Bypassed;
    assert node in s;
    Bypass(node, U, s, i);
    node.parent := null;
    node.prevSiblingC := null;
    node.nextSibling := null;
  }

  method RemoveNode(node: XmlNode, ghost U: set<XmlNode>, ghost kids: Kids)
    requires Linked(U, kids) && node in U && node.parent != null && node.parent != node
    modifies U`parent, U`firstChild, U`prevSiblingC, U`nextSibling
    ensures old(node.parent) in kids && node in kids[old(node.parent)] && Detached(node)
    ensures Linked(U, kids[old(node.parent) := RemoveAt(kids[old(node.parent)], PlaceOf(kids[old(node.parent)], node))])
  {
    ghost var p, m := node.parent, ShapeOf(U);
    ghost var s, i := PlaceFacts(U, kids, node);
    ListNoRepeats(m, p, s);
    hide Linked, Describes, Relinks, IsList;
    Unlink(node, U, s, i);
    assert ShapeOf(U)[node] == LinksOf(node);
    RemoveRelinks(m, s, i, p);
    Relinked(m, ShapeOf(U), kids, p, RemoveAt(s, i));
    ShapeLinked(U, kids[p := RemoveAt(s, i)]);
  }

  lemma ListNoRepeats(m: Shape, n: XmlNode, s: seq<XmlNode>)
    requires IsList(m, n, s)
    ensures NoRepeats(s)
  {}
}
