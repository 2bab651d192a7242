/** Axes and node tests (section 2 of XPath 1.0), and the pointer walks of `step_fill` that enumerate them. */
module Axes {
  import opened Basics
  import opened Bytes
  import opened Document
  import opened Selection

  datatype Axis =
    | Ancestor | AncestorOrSelf | Attributes | Child | Descendant | DescendantOrSelf | Following
    | FollowingSibling | Namespace | Parent | Preceding | PrecedingSibling | Self

  datatype NodeTest =
    | ByName(name: bytes) | AnyNode | IsComment | IsPi | IsText | PiTarget(target: bytes)
    | AnyPrincipal | InNamespace(prefix: bytes)

  predicate IsReverse(axis: Axis) {
    axis in {Ancestor, AncestorOrSelf, Preceding, PrecedingSibling}
  }

  /** "xmlns" */
  const XMLNS: bytes := [120, 109, 108, 110, 115]

  /** Namespace declarations are not attribute nodes. */
  predicate IsXPathAttribute(name: bytes) {
    !(StartsWith(name, XMLNS) && (At(name, 5) == 0 || At(name, 5) == 58))
  }

  predicate PassesAttr(test: NodeTest, a: Attr) {
    IsXPathAttribute(a.name) &&
    match test
    case ByName(name) => a.name == name
    case AnyNode => true
    case AnyPrincipal => true
    case InNamespace(prefix) => StartsWith(a.name, prefix)
    case _ => false
  }

  predicate PassesNode(test: NodeTest, r: NodeRec) {
    match test
    case ByName(name) => r.kind == KElement && r.name == Some(name)
    case AnyNode => true
    case IsComment => r.kind == KComment
    case IsText => r.kind == KPcdata || r.kind == KCdata
    case IsPi => r.kind == KPi
    case PiTarget(target) => r.kind == KPi && r.name == Some(target)
    case AnyPrincipal => r.kind == KElement
    case InNamespace(prefix) => r.kind == KElement && r.name.Some? && StartsWith(r.name.value, prefix)
  }

  /** Tree node j lies on the given axis of tree node i. */
  predicate OnAxis(d: Doc, axis: Axis, i: int, j: int)
    requires d.Has(i) && d.Has(j)
  {
    match axis
    case Ancestor => j < i < d.End(j)
    case AncestorOrSelf => j <= i < d.End(j)
    case Child => j > 0 && d.Parent(j) == i
    case Descendant => i < j < d.End(i)
    case DescendantOrSelf => i <= j < d.End(i)
    case Following => d.End(i) <= j
    case FollowingSibling => 0 < i < j && d.Parent(j) == d.Parent(i)
    case Parent => i > 0 && j == d.Parent(i)
    case Preceding => d.End(j) <= i
    case PrecedingSibling => 0 < j < i && d.Parent(j) == d.Parent(i)
    case Self => j == i
    case Attributes => false
    case Namespace => false
  }

  /** The tree nodes after (before) the attributes of a node are its descendants and what follows (precedes) it. */
  predicate OnAttributeAxis(d: Doc, axis: Axis, owner: int, j: int)
    requires d.Has(owner) && d.Has(j)
  {
    match axis
    case Ancestor => j <= owner < d.End(j)
    case AncestorOrSelf => j <= owner < d.End(j)
    case Following => owner < j
    case Preceding => d.End(j) <= owner
    case Parent => j == owner
    case _ => false
  }

  function Chosen(d: Doc, axis: Axis, test: NodeTest, i: int): int -> bool
    requires d.Has(i)
  {
    j => d.Has(j) && OnAxis(d, axis, i, j) && PassesNode(test, d.nodes[j])
  }

  function ChosenFromAttribute(d: Doc, axis: Axis, test: NodeTest, owner: int): int -> bool
    requires d.Has(owner)
  {
    j => d.Has(j) && OnAttributeAxis(d, axis, owner, j) && PassesNode(test, d.nodes[j])
  }

  function ChosenAttrs(d: Doc, test: NodeTest, i: int): int -> bool
    requires d.Has(i)
  {
    k => 0 <= k < |d.Attrs(i)| && PassesAttr(test, d.Attrs(i)[k])
  }

  function Nodes(ids: seq<int>): (s: seq<XNode>)
    ensures |s| == |ids|
  {
    seq(|ids|, i requires 0 <= i < |ids| => Node(ids[i]))
  }

  function AttrNodes(owner: int, ks: seq<int>): (s: seq<XNode>)
    ensures |s| == |ks|
  {
    seq(|ks|, i requires 0 <= i < |ks| => Attribute(owner, ks[i]))
  }

  function InAxisOrder(d: Doc, axis: Axis, p: int -> bool): seq<int> {
    if IsReverse(axis) then Down(p, 0, d.Size()) else Up(p, 0, d.Size())
  }

  /** An attribute is on its own self-like axes only for the test node(), as its principal type is not element. */
  predicate KeepsAttribute(d: Doc, axis: Axis, test: NodeTest, x: XNode)
    requires x.Attribute? && ValidNode(d, x)
  {
    axis in {Self, DescendantOrSelf, AncestorOrSelf} && test == AnyNode &&
    IsXPathAttribute(d.Attrs(x.owner)[x.k].name)
  }

  /** All nodes selected by axis::test from x, in axis order. */
  function AxisSeq(d: Doc, axis: Axis, test: NodeTest, x: XNode): seq<XNode>
    requires x == Null || ValidNode(d, x)
  {
    match x
    case Null => []
    case Node(i) =>
      if axis == Attributes then AttrNodes(i, Up(ChosenAttrs(d, test, i), 0, |d.Attrs(i)|))
      else Nodes(InAxisOrder(d, axis, Chosen(d, axis, test, i)))
    case Attribute(o, k) =>
      (if KeepsAttribute(d, axis, test, x) then [x] else []) +
      Nodes(InAxisOrder(d, axis, ChosenFromAttribute(d, axis, test, o)))
  }

  /** What is kept of a selection when its first member suffices. */
  function Early<T>(once: bool, s: seq<T>): seq<T> {
    if once && |s| > 0 then s[..1] else s
  }

  /** y is selected by axis::test from x. */
  predicate Selected(d: Doc, axis: Axis, test: NodeTest, x: XNode, y: XNode)
    requires x == Null || ValidNode(d, x)
  {
    ValidNode(d, y) &&
    match x
    case Null => false
    case Node(i) =>
      if y.Attribute? then axis == Attributes && y.owner == i && PassesAttr(test, d.Attrs(i)[y.k])
      else OnAxis(d, axis, i, y.i) && PassesNode(test, d.nodes[y.i])
    case Attribute(o, _) =>
      if y.Attribute? then y == x && KeepsAttribute(d, axis, test, x)
      else OnAttributeAxis(d, axis, o, y.i) && PassesNode(test, d.nodes[y.i])
  }

  /** AxisSeq lists exactly the selected nodes, in document order on forward axes, reversed on reverse axes. */
  lemma AxisSeqMeaning(d: Doc, axis: Axis, test: NodeTest, x: XNode)
    requires d.WellFormed() && (x == Null || ValidNode(d, x))
    ensures forall y :: y in AxisSeq(d, axis, test, x) <==> Selected(d, axis, test, x, y)
    ensures Ordered(IsReverse(axis), AxisSeq(d, axis, test, x))
  {
    match x
    case Null =>
    case Node(i) => NodeAxisMeaning(d, axis, test, i);
    case Attribute(o, k) => AttributeAxisMeaning(d, axis, test, x);
  }

  predicate Ordered(reverse: bool, s: seq<XNode>) {
    forall i, j :: 0 <= i < j < |s| ==> if reverse then Before(s[j], s[i]) else Before(s[i], s[j])
  }

  lemma NodeAxisMeaning(d: Doc, axis: Axis, test: NodeTest, i: int)
    requires d.WellFormed() && d.Has(i)
    ensures forall y :: y in AxisSeq(d, axis, test, Node(i)) <==> Selected(d, axis, test, Node(i), y)
    ensures Ordered(IsReverse(axis), AxisSeq(d, axis, test, Node(i)))
  {
    hide Doc.WellFormed;
    if axis == Attributes {
      AttrNodesMeaning(d, test, i);
    } else {
      OrderMeaning(d, axis, Chosen(d, axis, test, i));
    }
  }

  lemma AttributeAxisMeaning(d: Doc, axis: Axis, test: NodeTest, x: XNode)
    requires d.WellFormed() && x.Attribute? && ValidNode(d, x)
    ensures forall y :: y in AxisSeq(d, axis, test, x) <==> Selected(d, axis, test, x, y)
    ensures Ordered(IsReverse(axis), AxisSeq(d, axis, test, x))
  {
    hide Doc.WellFormed;
    var p := ChosenFromAttribute(d, axis, test, x.owner);
    var head := if KeepsAttribute(d, axis, test, x) then [x] else [];
    var tail := Nodes(InAxisOrder(d, axis, p));
    OrderMeaning(d, axis, p);
    forall y | y in tail && KeepsAttribute(d, axis, test, x)
      ensures if IsReverse(axis) then Before(y, x) else Before(x, y)
    {
      assert OnAttributeAxis(d, axis, x.owner, y.i);
    }
    assert forall j :: 0 <= j < |tail| ==> tail[j] in tail;
  }

  lemma AttrNodesMeaning(d: Doc, test: NodeTest, i: int)
    requires d.Has(i)
    ensures var s := AttrNodes(i, Up(ChosenAttrs(d, test, i), 0, |d.Attrs(i)|));
      && (forall y :: y in s <==> y.Attribute? && y.owner == i && ChosenAttrs(d, test, i)(y.k))
      && Ordered(false, s)
  {
    var p := ChosenAttrs(d, test, i);
    var ks := Up(p, 0, |d.Attrs(i)|);
    UpMembers(p, 0, |d.Attrs(i)|);
    var s := AttrNodes(i, ks);
    forall y ensures y in s <==> y.Attribute? && y.owner == i && p(y.k) {
      if y in s {
        var a :| 0 <= a < |s| && s[a] == y;
        assert ks[a] in ks;
      }
      if y.Attribute? && y.owner == i && p(y.k) {
        assert y.k in ks;
        var a :| 0 <= a < |ks| && ks[a] == y.k;
        assert s[a] == y;
      }
    }
  }

  lemma OrderMeaning(d: Doc, axis: Axis, p: int -> bool)
    ensures var s := Nodes(InAxisOrder(d, axis, p));
      && (forall y :: y in s <==> y.Node? && d.Has(y.i) && p(y.i))
      && Ordered(IsReverse(axis), s)
  {
    UpMembers(p, 0, d.Size());
    DownMembers(p, 0, d.Size());
    var ids := InAxisOrder(d, axis, p);
    var s := Nodes(ids);
    forall y ensures y in s <==> y.Node? && d.Has(y.i) && p(y.i) {
      if y in s {
        var a :| 0 <= a < |s| && s[a] == y;
        assert ids[a] in ids;
      }
      if y.Node? && d.Has(y.i) && p(y.i) {
        assert y.i in ids;
        var a :| 0 <= a < |ids| && ids[a] == y.i;
        assert s[a] == y;
      }
    }
  }

  /** The interval reading of "ancestor" is reachability through parent pointers. */
  ghost predicate Climbs(d: Doc, i: int, a: int)
    requires d.WellFormed() && d.Has(i)
    decreases i
  {
    i > 0 && (d.Parent(i) == a || Climbs(d, d.Parent(i), a))
  }

  lemma {:induction false} AncestorMeaning(d: Doc, i: int, a: int)
    requires d.WellFormed() && d.Has(i) && d.Has(a)
    ensures Climbs(d, i, a) <==> OnAxis(d, Ancestor, i, a)
    decreases i
  {
    if i == 0 {
    } else {
      AncestorMeaning(d, d.Parent(i), a);
      var p := d.Parent(i);
      assert p < a < i ==> d.End(a) <= i;
      assert a < p ==> d.End(a) <= p || d.End(p) <= d.End(a);
    }
  }

  // ----- the walks of step_fill; each loop yields the same list as the axis definition, or its first member

  lemma {:induction false} UpSkip(p: int -> bool, a: int, b: int)
    requires 0 <= a <= b && forall k :: a <= k < b ==> !p(k)
    ensures Up(p, 0, b) == Up(p, 0, a)
  {
    UpSplit(p, 0, a, b);
    UpNone(p, a, b);
  }

  lemma DownSkip(p: int -> bool, a: int, b: int, size: int)
    requires a <= b <= size && forall k :: a <= k < b ==> !p(k)
    ensures Down(p, a, size) == Down(p, b, size)
  {
    DownSplit(p, a, b, size);
    DownNone(p, a, b);
  }

  lemma UpHit(p: int -> bool, k: int, size: int)
    requires 0 <= k < size && p(k) && Up(p, 0, k) == []
    ensures Early(true, Up(p, 0, size)) == [k]
  {
    UpSplit(p, 0, k + 1, size);
    assert Up(p, 0, k + 1) == [k];
  }

  lemma DownHit(p: int -> bool, k: int, size: int)
    requires 0 <= k < size && p(k) && Down(p, k + 1, size) == []
    ensures Early(true, Down(p, 0, size)) == [k]
  {
    DownSplit(p, 0, k, size);
    assert Down(p, k, size) == [k];
  }

  method FillAttributes(d: Doc, test: NodeTest, n: int, once: bool) returns (ks: seq<int>)
    requires d.WellFormed() && d.Has(n)
    ensures ks == Early(once, Up(ChosenAttrs(d, test, n), 0, |d.Attrs(n)|))
  {
    ghost var p := ChosenAttrs(d, test, n);
    UpNone(p, 0, 0);
    hide Up;
    ks := [];
    for a := 0 to |d.Attrs(n)|
      invariant ks == Up(p, 0, a)
      invariant once ==> ks == []
    {
      UpNext(p, 0, a);
      if PassesAttr(test, d.Attrs(n)[a]) {
        ks := ks + [a];
        if once {
          UpHit(p, a, |d.Attrs(n)|);
          return;
        }
      }
    }
  }

  /** Children of `parent` that pass the test, from `first` on. */
  function SiblingsFrom(d: Doc, test: NodeTest, parent: int, first: int): int -> bool {
    j => d.Has(j) && first <= j && j > 0 && d.Parent(j) == parent && PassesNode(test, d.nodes[j])
  }

  lemma NextIsNext(d: Doc, c: int, j: int)
    requires d.WellFormed() && 0 < c < j < d.Size()
    requires j < d.NextSibling(c) || d.NextSibling(c) < 0
    ensures d.Parent(j) != d.Parent(c)
  {
    var q := d.Parent(j);
    assert d.End(j) <= d.End(q) && j < d.End(j);
    if j < d.End(c) {
      assert q >= c;
    } else {
      assert q != d.Parent(c);
    }
  }

  lemma NextAfter(d: Doc, c: int)
    requires d.WellFormed() && d.Has(c)
    ensures d.NextSibling(c) == -1 || c < d.NextSibling(c) < d.Size()
  {}

  /** The loop over `next_sibling` shared by the child and following-sibling axes. */
  method FillSiblings(d: Doc, test: NodeTest, parent: int, first: int, once: bool) returns (ids: seq<int>)
    requires d.WellFormed() && (first == -1 || (0 < first < d.Size() && d.Parent(first) == parent))
    ensures first == -1 ==> ids == []
    ensures first >= 0 ==> ids == Early(once, Up(SiblingsFrom(d, test, parent, first), 0, d.Size()))
  {
    hide Doc.WellFormed, Up;
    ghost var p := SiblingsFrom(d, test, parent, first);
    ids := [];
    var c := first;
    if first >= 0 { UpNone(p, 0, first); }
    while c >= 0
      invariant c >= 0 ==> 0 < c < d.Size() && d.Parent(c) == parent && first <= c
      invariant first >= 0 ==> ids == Up(p, 0, if c >= 0 then c else d.Size())
      invariant first < 0 ==> c < 0 && ids == []
      invariant once ==> ids == []
      decreases if c >= 0 then d.Size() - c else 0
    {
      UpNext(p, 0, c);
      assert p(c) == PassesNode(test, d.nodes[c]);
      if PassesNode(test, d.nodes[c]) {
        ids := ids + [c];
        if once {
          UpHit(p, c, d.Size());
          return;
        }
      }
      SiblingEnds(d, c);
      NextAfter(d, c);
      ghost var next := if d.NextSibling(c) >= 0 then d.NextSibling(c) else d.Size();
      forall j | c + 1 <= j < next ensures !p(j) {
        NextIsNext(d, c, j);
      }
      UpSkip(p, c + 1, next);
      c := d.NextSibling(c);
    }
  }

  method FillChildren(d: Doc, test: NodeTest, n: int, once: bool) returns (ids: seq<int>)
    requires d.WellFormed() && d.Has(n)
    ensures ids == Early(once, Up(Chosen(d, Child, test, n), 0, d.Size()))
  {
    var first := d.FirstChild(n);
    ids := FillSiblings(d, test, n, first, once);
    if first >= 0 {
      UpAgree(Chosen(d, Child, test, n), SiblingsFrom(d, test, n, first), 0, d.Size());
    } else {
      UpNone(Chosen(d, Child, test, n), 0, d.Size());
    }
  }

  /** Nodes numbered in [lo, hi) that pass the test. */
  function InRange(d: Doc, test: NodeTest, lo: int, hi: int): int -> bool {
    j => d.Has(j) && lo <= j < hi && PassesNode(test, d.nodes[j])
  }

  /** End of the stretch of preorder that a walk below `stop` covers; -1 means the whole document. */
  function Bound(d: Doc, stop: int): int
    requires stop == -1 || d.Has(stop)
  {
    if stop == -1 then d.Size() else d.End(stop)
  }

  lemma ClimbStep(d: Doc, cur: int, stop: int)
    requires d.WellFormed() && d.Has(cur) && (stop == -1 || (d.Has(stop) && stop < cur < d.End(stop)))
    ensures cur < d.End(cur) <= Bound(d, stop) <= d.Size()
    ensures cur > 0 ==> 0 <= d.Parent(cur) < cur && stop <= d.Parent(cur)
    ensures cur == 0 ==> d.Parent(cur) == -1 && d.NextSibling(cur) == -1 && d.End(cur) == Bound(d, stop)
    ensures cur > 0 && d.NextSibling(cur) == -1 ==> d.End(d.Parent(cur)) == d.End(cur)
    ensures d.NextSibling(cur) >= 0 && (stop == -1 || d.End(cur) < d.End(stop)) ==>
      d.NextSibling(cur) == d.End(cur) < Bound(d, stop)
    ensures d.NextSibling(cur) >= 0 ==> d.NextSibling(cur) == d.End(cur) < Bound(d, stop)
  {
    if cur > 0 {
      assert d.Parent(cur) >= stop;
      if d.NextSibling(cur) >= 0 && stop >= 0 && d.Parent(cur) > stop {
        assert d.End(d.Parent(cur)) <= d.End(stop);
      }
    }
  }

  /** One move of the preorder walk: down, else right, else up until `stop` or the top. */
  method Advance(d: Doc, here: int, stop: int) returns (next: int)
    requires d.WellFormed() && d.Has(here) && (stop == -1 || (d.Has(stop) && stop < here < d.End(stop)))
    ensures next == if here + 1 < Bound(d, stop) then here + 1 else -1
  {
    hide Doc.WellFormed;
    ClimbStep(d, here, stop);
    if d.FirstChild(here) >= 0 {
      return d.FirstChild(here);
    }
    var cur := here;
    while d.NextSibling(cur) < 0
      invariant d.Has(cur) && d.End(cur) == here + 1
      invariant stop >= 0 ==> stop < cur < d.End(stop)
      decreases cur
    {
      ClimbStep(d, cur, stop);
      cur := d.Parent(cur);
      if cur == stop {
        return -1;
      }
    }
    ClimbStep(d, cur, stop);
    next := d.NextSibling(cur);
  }

  /** The preorder walk shared by the descendant and following axes. */
  method WalkPreorder(d: Doc, test: NodeTest, start: int, stop: int, once: bool) returns (ids: seq<int>)
    requires d.WellFormed() && (start == -1 || d.Has(start))
    requires stop == -1 || d.Has(stop)
    requires start >= 0 && stop >= 0 ==> stop < start < d.End(stop)
    ensures start == -1 ==> ids == []
    ensures start >= 0 ==> ids == Early(once, Up(InRange(d, test, start, Bound(d, stop)), 0, d.Size()))
  {
    hide Doc.WellFormed, Up;
    ids := [];
    if start == -1 {
      return;
    }
    ghost var bound, p := Bound(d, stop), InRange(d, test, start, Bound(d, stop));
    var cur := start;
    UpNone(p, 0, start);
    ClimbStep(d, start, stop);
    while cur >= 0
      invariant cur == -1 || start <= cur < bound
      invariant ids == Up(p, 0, if cur >= 0 then cur else bound)
      invariant once ==> ids == []
      decreases if cur >= 0 then bound - cur else 0
    {
      UpNext(p, 0, cur);
      if PassesNode(test, d.nodes[cur]) {
        ids := ids + [cur];
        if once {
          UpHit(p, cur, d.Size());
          return;
        }
      }
      cur := Advance(d, cur, stop);
    }
    UpSkip(p, bound, d.Size());
  }

  method FillDescendants(d: Doc, test: NodeTest, n: int, once: bool) returns (ids: seq<int>)
    requires d.WellFormed() && d.Has(n)
    ensures ids == Early(once, Up(Chosen(d, Descendant, test, n), 0, d.Size()))
  {
    hide Doc.WellFormed;
    ghost var p := Chosen(d, Descendant, test, n);
    RangeFacts(d, n);
    var start := d.FirstChild(n);
    ids := WalkPreorder(d, test, start, n, once);
    if start == -1 {
      UpNone(p, 0, d.Size());
    } else {
      UpAgree(p, InRange(d, test, start, d.End(n)), 0, d.Size());
    }
  }

  method FillDescendantsOrSelf(d: Doc, test: NodeTest, n: int, once: bool) returns (ids: seq<int>)
    requires d.WellFormed() && d.Has(n)
    ensures ids == Early(once, Up(Chosen(d, DescendantOrSelf, test, n), 0, d.Size()))
  {
    hide Doc.WellFormed, Up;
    ghost var p, q := Chosen(d, DescendantOrSelf, test, n), Chosen(d, Descendant, test, n);
    RangeFacts(d, n);
    UpNone(p, 0, n);
    UpNext(p, 0, n);
    UpNone(q, 0, n + 1);
    UpSplit(p, 0, n + 1, d.Size());
    UpSplit(q, 0, n + 1, d.Size());
    UpAgree(p, q, n + 1, d.Size());
    ids := [];
    if PassesNode(test, d.nodes[n]) {
      ids := [n];
      if once {
        return;
      }
    }
    var below := FillDescendants(d, test, n, once);
    ids := ids + below;
  }

  lemma RangeFacts(d: Doc, n: int)
    requires d.WellFormed() && d.Has(n)
    ensures n < d.End(n) <= d.Size()
    ensures n == 0 ==> d.End(n) == d.Size() && d.Parent(n) == -1
    ensures n > 0 ==> 0 <= d.Parent(n) < n && d.End(n) <= d.End(d.Parent(n)) <= d.Size()
  {}

  method FillFollowing(d: Doc, test: NodeTest, n: int, once: bool) returns (ids: seq<int>)
    requires d.WellFormed() && d.Has(n)
    ensures ids == Early(once, Up(Chosen(d, Following, test, n), 0, d.Size()))
  {
    hide Doc.WellFormed;
    ghost var p := Chosen(d, Following, test, n);
    ids := [];
    var cur := n;
    while d.NextSibling(cur) < 0
      invariant d.Has(cur) && d.End(cur) == d.End(n)
      decreases cur
    {
      ClimbStep(d, cur, -1);
      if d.Parent(cur) < 0 {
        UpNone(p, 0, d.Size());
      }
      cur := d.Parent(cur);
      if cur < 0 {
        return;
      }
    }
    ClimbStep(d, cur, -1);
    cur := d.NextSibling(cur);
    ids := WalkPreorder(d, test, cur, -1, once);
    UpAgree(p, InRange(d, test, cur, d.Size()), 0, d.Size());
  }

  /** The following axis of an attribute starts with the descendants of its owner. */
  method FillFollowingAttribute(d: Doc, test: NodeTest, owner: int, once: bool) returns (ids: seq<int>)
    requires d.WellFormed() && d.Has(owner)
    ensures ids == Early(once, Up(ChosenFromAttribute(d, Following, test, owner), 0, d.Size()))
  {
    hide Doc.WellFormed, Up;
    ghost var p := ChosenFromAttribute(d, Following, test, owner);
    UpNone(p, 0, owner + 1);
    ids := [];
    var cur := owner;
    while cur >= 0
      invariant cur == -1 || owner <= cur < d.Size()
      invariant ids == Up(p, 0, if cur >= 0 then cur + 1 else d.Size())
      invariant once ==> ids == []
      decreases if cur >= 0 then d.Size() - cur else 0
    {
      cur := Advance(d, cur, -1);
      if cur < 0 {
        return;
      }
      UpNext(p, 0, cur);
      if PassesNode(test, d.nodes[cur]) {
        ids := ids + [cur];
        if once {
          UpHit(p, cur, d.Size());
          return;
        }
      }
    }
  }

  lemma BackStep(d: Doc, c: int)
    requires d.WellFormed() && d.Has(c)
    ensures d.Has(d.PrevSiblingC(c)) && c < d.End(c) <= d.Size()
    ensures c == 0 ==> d.PrevSiblingC(c) == 0 && d.NextSibling(c) == -1 && d.Parent(c) == -1
    ensures c > 0 && d.NextSibling(d.PrevSiblingC(c)) < 0 ==> d.Parent(c) == c - 1
    ensures d.NextSibling(d.PrevSiblingC(c)) >= 0 ==>
      0 < d.PrevSiblingC(c) < c && d.End(d.PrevSiblingC(c)) == c && d.Parent(d.PrevSiblingC(c)) == d.Parent(c)
  {
    if c > 0 {
      SiblingEnds(d, c);
      if c == d.Parent(c) + 1 {
        SiblingEnds(d, d.PrevSiblingC(c));
      }
    }
  }

  lemma OutsideSubtree(d: Doc, c: int, k: int)
    requires d.WellFormed() && d.Has(c) && c < k < d.End(c)
    ensures d.Has(k) && d.Parent(k) >= c
  {}

  method FillPrecedingSiblings(d: Doc, test: NodeTest, n: int, once: bool) returns (ids: seq<int>)
    requires d.WellFormed() && d.Has(n)
    ensures ids == Early(once, Down(Chosen(d, PrecedingSibling, test, n), 0, d.Size()))
  {
    hide Doc.WellFormed, Down;
    ghost var p := Chosen(d, PrecedingSibling, test, n);
    ids := [];
    ghost var done := n;
    DownNone(p, n, d.Size());
    var c := d.PrevSiblingC(n);
    BackStep(d, n);
    while d.NextSibling(c) >= 0
      invariant d.Has(c) && 0 <= done <= n && ids == Down(p, done, d.Size())
      invariant c == d.PrevSiblingC(done) && (done > 0 ==> n > 0 && d.Parent(done) == d.Parent(n))
      invariant once ==> ids == []
      decreases done
    {
      BackStep(d, done);
      forall k | c + 1 <= k < done ensures !p(k) {
        OutsideSubtree(d, c, k);
        RangeFacts(d, c);
      }
      DownSkip(p, c + 1, done, d.Size());
      DownNext(p, c, d.Size());
      assert p(c) == PassesNode(test, d.nodes[c]);
      if PassesNode(test, d.nodes[c]) {
        ids := ids + [c];
        if once {
          DownHit(p, c, d.Size());
          return;
        }
      }
      done := c;
      c := d.PrevSiblingC(c);
    }
    BackStep(d, done);
    forall k | 0 <= k < done ensures !p(k) {
      if k > 0 { RangeFacts(d, k); }
    }
    DownSkip(p, 0, done, d.Size());
  }

  /** Ancestor-or-self test by climbing. */
  method NodeIsAncestor(d: Doc, parent: int, node: int) returns (r: bool)
    requires d.WellFormed() && d.Has(parent) && d.Has(node)
    ensures r == (parent <= node < d.End(parent))
  {
    hide Doc.WellFormed;
    var cur := node;
    while cur >= 0 && cur != parent
      invariant cur == -1 || (d.Has(cur) && cur <= node &&
        ((parent <= node < d.End(parent)) == (parent <= cur < d.End(parent))))
      invariant cur == -1 ==> !(parent <= node < d.End(parent))
      decreases cur
    {
      AncestorStep(d, parent, cur);
      cur := d.Parent(cur);
    }
    RangeFacts(d, parent);
    r := cur == parent;
  }

  lemma AncestorStep(d: Doc, a: int, i: int)
    requires d.WellFormed() && d.Has(a) && d.Has(i) && a != i
    ensures i == 0 ==> !(a <= i < d.End(a)) && d.Parent(i) == -1
    ensures i > 0 ==> 0 <= d.Parent(i) < i && ((a <= i < d.End(a)) == (a <= d.Parent(i) < d.End(a)))
  {
    if i > 0 {
      var p := d.Parent(i);
      assert a < p ==> d.End(a) <= p || d.End(p) <= d.End(a);
    }
  }

  /** Ancestors, nearest first; `n` itself too when orSelf. */
  method FillAncestors(d: Doc, test: NodeTest, n: int, orSelf: bool, once: bool) returns (ids: seq<int>)
    requires d.WellFormed() && d.Has(n)
    ensures ids == Early(once, Down(Chosen(d, if orSelf then AncestorOrSelf else Ancestor, test, n), 0, d.Size()))
  {
    hide Doc.WellFormed, Down;
    ghost var p := Chosen(d, if orSelf then AncestorOrSelf else Ancestor, test, n);
    RangeFacts(d, n);
    DownNone(p, n + 1, d.Size());
    DownNext(p, n, d.Size());
    ids := [];
    if orSelf {
      if PassesNode(test, d.nodes[n]) {
        ids := [n];
        if once {
          DownHit(p, n, d.Size());
          return;
        }
      }
    }
    assert ids == Down(p, n, d.Size());
    ghost var done := n;
    var cur := d.Parent(n);
    while cur >= 0
      invariant 0 <= done <= n < d.End(done) && d.Has(done) && cur == d.Parent(done)
      invariant ids == Down(p, done, d.Size())
      invariant once ==> ids == []
      decreases done
    {
      RangeFacts(d, done);
      forall k | cur + 1 <= k < done ensures !p(k) {
        TightParent(d, done, k);
      }
      DownSkip(p, cur + 1, done, d.Size());
      DownNext(p, cur, d.Size());
      assert p(cur) == PassesNode(test, d.nodes[cur]);
      if PassesNode(test, d.nodes[cur]) {
        ids := ids + [cur];
        if once {
          DownHit(p, cur, d.Size());
          return;
        }
      }
      done := cur;
      cur := d.Parent(cur);
    }
    RangeFacts(d, done);
  }

  lemma TightParent(d: Doc, i: int, k: int)
    requires d.WellFormed() && 0 < i && d.Has(i) && d.Parent(i) < k < i
    ensures d.End(k) <= i
  {}

  /** Climbs from a first child until some previous sibling exists, taking non-ancestors of n on the way. */
  method ClimbBack(d: Doc, test: NodeTest, n: int, from: int, once: bool) returns (ids: seq<int>, cur: int)
    requires d.WellFormed() && d.Has(n) && 0 <= from <= n
    ensures cur == -1 || 0 <= cur <= from
    ensures ids == if cur == -1 then Early(once, Down(Chosen(d, Preceding, test, n), 0, from))
                   else Down(Chosen(d, Preceding, test, n), cur, from)
    ensures cur >= 0 ==> cur <= from && d.NextSibling(d.PrevSiblingC(cur)) >= 0
    ensures once && cur >= 0 ==> ids == []
  {
    hide Doc.WellFormed;
    ghost var p := Chosen(d, Preceding, test, n);
    ids := [];
    cur := from;
    while d.NextSibling(d.PrevSiblingC(cur)) < 0
      invariant d.Has(cur) && cur <= from
      invariant ids == Down(p, cur, from)
      invariant once ==> ids == []
      decreases cur
    {
      BackStep(d, cur);
      cur := d.Parent(cur);
      if cur < 0 {
        return;
      }
      DownSplit(p, cur, cur + 1, from);
      var isAncestor := NodeIsAncestor(d, cur, n);
      RangeFacts(d, cur);
      assert p(cur) == (!isAncestor && PassesNode(test, d.nodes[cur]));
      if !isAncestor {
        if PassesNode(test, d.nodes[cur]) {
          ids := ids + [cur];
          if once {
            DownHit(p, cur, from);
            cur := -1;
            return;
          }
        }
      }
    }
  }

  lemma DownEarly(p: int -> bool, mid: int, size: int)
    requires 0 <= mid <= size
    ensures Down(p, mid, size) == [] ==> Early(true, Down(p, 0, size)) == Early(true, Down(p, 0, mid))
    ensures Down(p, 0, size) == Down(p, mid, size) + Down(p, 0, mid)
  {
    DownSplit(p, 0, mid, size);
  }

  method FillPreceding(d: Doc, test: NodeTest, n: int, once: bool) returns (ids: seq<int>)
    requires d.WellFormed() && d.Has(n)
    ensures ids == Early(once, Down(Chosen(d, Preceding, test, n), 0, d.Size()))
  {
    hide Doc.WellFormed;
    ghost var p := Chosen(d, Preceding, test, n);
    ids := [];
    var cur := n;
    RangeFacts(d, n);
    forall k | n <= k < d.Size() ensures !p(k) { RangeFacts(d, k); }
    DownNone(p, n, d.Size());
    while d.NextSibling(d.PrevSiblingC(cur)) < 0
      invariant d.Has(cur) && cur <= n < d.End(cur) && Down(p, cur, d.Size()) == []
      decreases cur
    {
      BackStep(d, cur);
      RangeFacts(d, cur);
      cur := d.Parent(cur);
      if cur < 0 {
        return;
      }
    }
    BackStep(d, cur);
    cur := d.PrevSiblingC(cur);
    while true
      invariant d.Has(cur) && d.End(cur) <= n
      invariant ids == Down(p, d.End(cur), d.Size())
      invariant once ==> ids == []
      decreases d.End(cur), d.End(cur) - cur
    {
      RangeFacts(d, cur);
      if d.FirstChild(cur) >= 0 {
        LastChild(d, cur);
        cur := d.PrevSiblingC(d.FirstChild(cur));
      } else {
        ids, cur := FillPrecedingLeaf(d, test, n, cur, ids, once);
        if cur < 0 {
          return;
        }
      }
    }
  }

  /** The leaf branch of the preceding walk. */
  method FillPrecedingLeaf(d: Doc, test: NodeTest, n: int, leaf: int, before: seq<int>, once: bool)
    returns (ids: seq<int>, cur: int)
    requires d.WellFormed() && d.Has(n) && d.Has(leaf) && d.End(leaf) == leaf + 1 <= n
    requires before == Down(Chosen(d, Preceding, test, n), leaf + 1, d.Size()) && (once ==> before == [])
    ensures cur == -1 ==> ids == Early(once, Down(Chosen(d, Preceding, test, n), 0, d.Size()))
    ensures cur >= 0 ==>
      d.Has(cur) && d.End(cur) <= leaf && ids == Down(Chosen(d, Preceding, test, n), d.End(cur), d.Size())
    ensures cur == -1 || cur >= 0
    ensures once && cur >= 0 ==> ids == []
  {
    hide Doc.WellFormed;
    ghost var p := Chosen(d, Preceding, test, n);
    ids, cur := before, leaf;
    if PassesNode(test, d.nodes[leaf]) {
      ids := ids + [leaf];
      if once {
        DownHit(p, leaf, d.Size());
        cur := -1;
        return;
      }
    }
    assert ids == Down(p, leaf, d.Size()) by { DownSplit(p, leaf, leaf + 1, d.Size()); }
    var more: seq<int>;
    more, cur := ClimbBack(d, test, n, leaf, once);
    ids := ids + more;
    if cur < 0 {
      DownEarly(p, leaf, d.Size());
    } else {
      DownSplit(p, cur, leaf, d.Size());
      BackStep(d, cur);
      cur := d.PrevSiblingC(cur);
    }
  }

  lemma LastChild(d: Doc, i: int)
    requires d.WellFormed() && d.Has(i) && d.FirstChild(i) >= 0
    ensures d.Has(d.FirstChild(i))
    ensures var c := d.PrevSiblingC(d.FirstChild(i)); d.Has(c) && i < c && d.End(c) == d.End(i)
  {
    assert d.Parent(i + 1) == i;
  }

  /** Following siblings share the sibling loop with children. */
  method FillFollowingSiblings(d: Doc, test: NodeTest, n: int, once: bool) returns (ids: seq<int>)
    requires d.WellFormed() && d.Has(n)
    ensures ids == Early(once, Up(Chosen(d, FollowingSibling, test, n), 0, d.Size()))
  {
    hide Doc.WellFormed;
    ghost var p := Chosen(d, FollowingSibling, test, n);
    var first := d.NextSibling(n);
    ClimbStep(d, n, -1);
    if first < 0 {
      ids := [];
      forall k | 0 <= k < d.Size() ensures !p(k) {
        if n < k && n > 0 { NextIsNext(d, n, k); }
      }
      UpNone(p, 0, d.Size());
    } else {
      SiblingEndsHere(d, n);
      ids := FillSiblings(d, test, d.Parent(n), first, once);
      forall k | 0 <= k < d.Size() ensures p(k) == SiblingsFrom(d, test, d.Parent(n), first)(k) {
        if n < k < first { NextIsNext(d, n, k); }
      }
      UpAgree(p, SiblingsFrom(d, test, d.Parent(n), first), 0, d.Size());
    }
  }

  lemma SiblingEndsHere(d: Doc, n: int)
    requires d.WellFormed() && d.Has(n) && d.NextSibling(n) >= 0
    ensures n > 0 && n < d.NextSibling(n) < d.Size() && d.Parent(d.NextSibling(n)) == d.Parent(n)
  {
    SiblingEnds(d, n);
  }

  method StepFillFromNode(d: Doc, axis: Axis, test: NodeTest, n: int, once: bool) returns (ids: seq<int>)
    requires d.WellFormed() && d.Has(n) && axis != Attributes
    ensures ids == Early(once, InAxisOrder(d, axis, Chosen(d, axis, test, n)))
  {
    hide Doc.WellFormed;
    ghost var p := Chosen(d, axis, test, n);
    RangeFacts(d, n);
    ids := [];
    match axis {
      case Child => ids := FillChildren(d, test, n, once);
      case Descendant => ids := FillDescendants(d, test, n, once);
      case DescendantOrSelf => ids := FillDescendantsOrSelf(d, test, n, once);
      case FollowingSibling => ids := FillFollowingSiblings(d, test, n, once);
      case PrecedingSibling => ids := FillPrecedingSiblings(d, test, n, once);
      case Following => ids := FillFollowing(d, test, n, once);
      case Preceding => ids := FillPreceding(d, test, n, once);
      case Ancestor => ids := FillAncestors(d, test, n, false, once);
      case AncestorOrSelf => ids := FillAncestors(d, test, n, true, once);
      case Self =>
        if PassesNode(test, d.nodes[n]) {
          ids := [n];
        }
        OnlyMember(p, n, d.Size());
      case Parent =>
        if d.Parent(n) >= 0 {
          if PassesNode(test, d.nodes[d.Parent(n)]) {
            ids := [d.Parent(n)];
          }
          OnlyMember(p, d.Parent(n), d.Size());
        } else {
          UpNone(p, 0, d.Size());
        }
      case Namespace => UpNone(p, 0, d.Size());
    }
  }

  lemma OnlyMember(p: int -> bool, k: int, size: int)
    requires 0 <= k < size && forall j :: 0 <= j < size && j != k ==> !p(j)
    ensures Up(p, 0, size) == if p(k) then [k] else []
  {
    UpSkip(p, 0, k);
    UpSplit(p, 0, k + 1, size);
    UpNone(p, k + 1, size);
  }

  method StepFillFromAttribute(d: Doc, axis: Axis, test: NodeTest, x: XNode, once: bool) returns (added: seq<XNode>)
    requires d.WellFormed() && x.Attribute? && ValidNode(d, x)
    ensures added == Early(once, AxisSeq(d, axis, test, x))
  {
    hide Doc.WellFormed, Up, Down, Chosen, ChosenFromAttribute, AxisSeq, PassesNode;
    FromAttribute(d, axis, test, x);
    var ids: seq<int> := [];
    added := [];
    match axis {
      case Ancestor =>
        ids := FillAncestors(d, test, x.owner, true, once);
      case AncestorOrSelf =>
        if test == AnyNode && IsXPathAttribute(d.Attrs(x.owner)[x.k].name) {
          added := [x];
          if once {
            return;
          }
        }
        ids := FillAncestors(d, test, x.owner, true, once);
      case DescendantOrSelf =>
        if test == AnyNode && IsXPathAttribute(d.Attrs(x.owner)[x.k].name) {
          added := [x];
        }
      case Self =>
        if test == AnyNode && IsXPathAttribute(d.Attrs(x.owner)[x.k].name) {
          added := [x];
        }
      case Following =>
        ids := FillFollowingAttribute(d, test, x.owner, once);
      case Parent =>
        if PassesNode(test, d.nodes[x.owner]) {
          ids := [x.owner];
        }
      case Preceding =>
        ids := FillPreceding(d, test, x.owner, once);
      case _ =>
    }
    added := added + Nodes(ids);
  }

  /** The axes of an attribute in terms of those of its element. */
  lemma FromAttribute(d: Doc, axis: Axis, test: NodeTest, x: XNode)
    requires d.WellFormed() && x.Attribute? && ValidNode(d, x)
    ensures AxisSeq(d, axis, test, x) ==
      (if KeepsAttribute(d, axis, test, x) then [x] else []) +
      match axis
      case Ancestor => Nodes(Down(Chosen(d, AncestorOrSelf, test, x.owner), 0, d.Size()))
      case AncestorOrSelf => Nodes(Down(Chosen(d, AncestorOrSelf, test, x.owner), 0, d.Size()))
      case Preceding => Nodes(Down(Chosen(d, Preceding, test, x.owner), 0, d.Size()))
      case Following => Nodes(Up(ChosenFromAttribute(d, Following, test, x.owner), 0, d.Size()))
      case Parent => Nodes(if PassesNode(test, d.nodes[x.owner]) then [x.owner] else [])
      case _ => []
  {
    hide Doc.WellFormed;
    var p := ChosenFromAttribute(d, axis, test, x.owner);
    RangeFacts(d, x.owner);
    match axis {
      case Ancestor => DownAgree(p, Chosen(d, AncestorOrSelf, test, x.owner), 0, d.Size());
      case AncestorOrSelf => DownAgree(p, Chosen(d, AncestorOrSelf, test, x.owner), 0, d.Size());
      case Preceding => DownAgree(p, Chosen(d, Preceding, test, x.owner), 0, d.Size());
      case Following =>
      case Parent => OnlyMember(p, x.owner, d.Size());
      case _ =>
        UpNone(p, 0, d.Size());
        DownNone(p, 0, d.Size());
    }
  }

  /** `step_fill`: the nodes selected from x, or only the first of them when one is enough. */
  method StepFill(d: Doc, axis: Axis, test: NodeTest, x: XNode, once: bool) returns (added: seq<XNode>)
    requires d.WellFormed() && (x == Null || ValidNode(d, x))
    ensures added == Early(once, AxisSeq(d, axis, test, x))
  {
    match x {
      case Null => added := [];
      case Node(i) =>
        if axis == Attributes {
          var ks := FillAttributes(d, test, i, once);
          added := AttrNodes(i, ks);
        } else {
          var ids := StepFillFromNode(d, axis, test, i, once);
          added := Nodes(ids);
        }
      case Attribute(_, _) => added := StepFillFromAttribute(d, axis, test, x, once);
    }
  }

  /** Stopping `@name` at the first match loses nothing exactly when no second attribute has that name. */
  lemma NamedAttributeStop(d: Doc, name: bytes, i: int)
    requires d.WellFormed() && d.Has(i) && IsXPathAttribute(name)
    ensures Early(true, AxisSeq(d, Attributes, ByName(name), Node(i))) == AxisSeq(d, Attributes, ByName(name), Node(i))
      <==> forall j, k :: 0 <= j < k < |d.Attrs(i)| && d.Attrs(i)[j].name == name ==> d.Attrs(i)[k].name != name
  {
    var s := AxisSeq(d, Attributes, ByName(name), Node(i));
    AttrNodesMeaning(d, ByName(name), i);
    if Early(true, s) == s {
      assert |s| <= 1;
      forall j, k | 0 <= j < k < |d.Attrs(i)| && d.Attrs(i)[j].name == name ensures d.Attrs(i)[k].name != name {
        assert Attribute(i, j) in s;
        assert s == [Attribute(i, j)];
        assert Attribute(i, k) !in s;
      }
    } else {
      assert s[0] in s && s[1] in s && Before(s[0], s[1]);
    }
  }

  /** The parser accepts an element with a repeated attribute, and there the shortcut does lose a node. */
  lemma RepeatedAttributeLost()
    ensures RepeatedDoc().WellFormed() && IsXPathAttribute([97])
    ensures var s := AxisSeq(RepeatedDoc(), Attributes, ByName([97]), Node(1)); Early(true, s) != s
  {
    var d := RepeatedDoc();
    NamedAttributeStop(d, [97], 1);
    assert d.Attrs(1)[0].name == [97] && d.Attrs(1)[1].name == [97];
  }

  /** No element has two attributes of that name, unless they are no attribute nodes anyway. */
  ghost predicate NameApart(d: Doc, name: bytes) {
    IsXPathAttribute(name) ==>
      forall i, j, k :: d.Has(i) && 0 <= j < k < |d.Attrs(i)| && d.Attrs(i)[j].name == name ==>
        d.Attrs(i)[k].name != name
  }

  /** There the shortcut is exact everywhere. */
  lemma NamedAttributeExact(d: Doc, name: bytes, x: XNode)
    requires d.WellFormed() && NameApart(d, name) && (x == Null || ValidNode(d, x))
    ensures |AxisSeq(d, Attributes, ByName(name), x)| <= 1
  {
    var s := AxisSeq(d, Attributes, ByName(name), x);
    var second := if |s| > 1 then s[1] else x;
    AxisSeqMeaning(d, Attributes, ByName(name), x);
    assert forall i :: 0 <= i < |s| ==> s[i] in s;
    assert |s| > 0 ==> s[0] in s;
  }
}
