/**
  What the axes and node tests of section 2 of XPath 1.0 mean on a tree. A node of a tree is known by its path: the
  positions of the kids that lead to it from the root.
*/
module TreeAxes {
  import opened Basics
  import opened Bytes
  import opened Document
  import opened Axes

  type Path = seq<nat>

  predicate HasPath(t: Tree, p: Path)
    decreases |p|
  {
    p == [] || (p[0] < |t.kids| && HasPath(t.kids[p[0]], p[1..]))
  }

  /** The subtree at a path. */
  function Sub(t: Tree, p: Path): Tree
    requires HasPath(t, p)
    decreases |p|
  {
    if p == [] then t else Sub(t.kids[p[0]], p[1..])
  }

  /** The document of a tree. */
  function DocOf(t: Tree): Doc {
    Doc(Flatten(t, 0, -1))
  }

  /** The number of the node at a path: how many nodes come before it in preorder. */
  function Number(t: Tree, p: Path): (n: nat)
    requires HasPath(t, p)
    decreases |p|
  {
    if p == [] then 0 else 1 + WeightAll(t.kids[..p[0]]) + Number(t.kids[p[0]], p[1..])
  }

  /** p branches off to the left of q. */
  predicate LeftOf(p: Path, q: Path) {
    exists k :: 0 <= k < |p| && k < |q| && p[..k] == q[..k] && p[k] < q[k]
  }

  // ----- numbers of nodes

  lemma {:induction false} WeightsAdd(ts: seq<Tree>, i: nat, j: nat)
    requires i < j <= |ts|
    ensures WeightAll(ts[..i]) + Weight(ts[i]) <= WeightAll(ts[..j]) <= WeightAll(ts)
    decreases |ts|
  {
    if i == 0 {
      assert ts[..j][1..] == ts[1..][..j - 1] && ts[..j][0] == ts[0];
      if j == 1 {
        assert ts[1..][..0] == [] && ts[..0] == [];
      } else {
        WeightsAdd(ts[1..], 0, j - 1);
      }
    } else {
      assert ts[..i][1..] == ts[1..][..i - 1] && ts[..j][1..] == ts[1..][..j - 1];
      WeightsAdd(ts[1..], i - 1, j - 1);
    }
  }

  lemma {:induction false} NumberInside(t: Tree, p: Path)
    requires HasPath(t, p)
    ensures Number(t, p) + Weight(Sub(t, p)) <= Weight(t)
    decreases |p|
  {
    if p == [] {
    } else {
      NumberInside(t.kids[p[0]], p[1..]);
      WeightsAdd(t.kids, p[0], p[0] + 1);
    }
  }

  lemma FirstKid(ts: seq<Tree>, at: nat, up: int)
    requires ts != []
    ensures WeightAll(ts) == Weight(ts[0]) + WeightAll(ts[1..])
    ensures FlattenAll(ts, at, up) == Flatten(ts[0], at, up) + FlattenAll(ts[1..], at + Weight(ts[0]), up)
  {}

  lemma BehindFirst(a: seq<NodeRec>, b: seq<NodeRec>, n: nat)
    requires n < |b|
    ensures (a + b)[|a| + n] == b[n]
  {}

  /** The records of one kid among those of all kids. */
  lemma {:induction false} KidRecords(ts: seq<Tree>, at: nat, up: int, k: nat, j: nat)
    requires k < |ts| && j < Weight(ts[k])
    ensures WeightAll(ts[..k]) + j < WeightAll(ts)
    ensures FlattenAll(ts, at, up)[WeightAll(ts[..k]) + j] == Flatten(ts[k], at + WeightAll(ts[..k]), up)[j]
    decreases k
  {
    hide Flatten, FlattenAll, Weight, WeightAll;
    FirstKid(ts, at, up);
    if k == 0 {
      NoKids(ts[..0]);
    } else {
      assert ts[..k][1..] == ts[1..][..k - 1] && ts[..k][0] == ts[0];
      FirstKid(ts[..k], at, up);
      KidRecords(ts[1..], at + Weight(ts[0]), up, k - 1, j);
      BehindFirst(Flatten(ts[0], at, up), FlattenAll(ts[1..], at + Weight(ts[0]), up), WeightAll(ts[1..][..k - 1]) + j);
    }
  }

  lemma NoKids(ts: seq<Tree>)
    requires ts == []
    ensures WeightAll(ts) == 0
  {}

  /** The number of the parent, or of what is above the root. */
  function ParentNumber(t: Tree, p: Path, at: nat, up: int): int
    requires HasPath(t, p)
    decreases |p|
  {
    if p == [] then up
    else ParentNumber(t.kids[p[0]], p[1..], at + 1 + WeightAll(t.kids[..p[0]]), at)
  }

  lemma RootRecord(t: Tree, at: nat, up: int)
    ensures Flatten(t, at, up)[0] == NodeRec(t.kind, t.name, t.attrs, up, at + Weight(t))
  {}

  lemma {:induction false} RecordAt(t: Tree, at: nat, up: int, p: Path)
    requires HasPath(t, p)
    ensures Number(t, p) < Weight(t)
    ensures (var r, s := Flatten(t, at, up)[Number(t, p)], Sub(t, p);
             r == NodeRec(s.kind, s.name, s.attrs, ParentNumber(t, p, at, up), at + Number(t, p) + Weight(s)))
    decreases |p|
  {
    hide Flatten, FlattenAll;
    NumberInside(t, p);
    FlattenParts(t, at, up);
    RootRecord(t, at, up);
    if p == [] {
    } else {
      var k, rest := p[0], p[1..];
      var before := WeightAll(t.kids[..k]);
      RecordAt(t.kids[k], at + 1 + before, at, rest);
      KidRecords(t.kids, at + 1, at, k, Number(t.kids[k], rest));
    }
  }

  lemma {:induction false} ParentIs(t: Tree, at: nat, up: int, p: Path)
    requires HasPath(t, p) && p != []
    ensures HasPath(t, p[..|p| - 1]) && ParentNumber(t, p, at, up) == at + Number(t, p[..|p| - 1])
    decreases |p|
  {
    var k, rest := p[0], p[1..];
    if rest == [] {
      assert p[..0] == [];
    } else {
      ParentIs(t.kids[k], at + 1 + WeightAll(t.kids[..k]), at, rest);
      var q := p[..|p| - 1];
      assert q[0] == k && q[1..] == rest[..|rest| - 1];
    }
  }

  /** A node, the nodes below it, and the nodes to the right of it, in this order. */
  lemma {:induction false} NumberBelow(t: Tree, p: Path, q: Path)
    requires HasPath(t, p) && HasPath(t, q) && p <= q
    ensures Number(t, p) <= Number(t, q) < Number(t, p) + Weight(Sub(t, p))
    ensures p != q ==> Number(t, p) < Number(t, q)
    decreases |p|
  {
    NumberInside(t, q);
    if p == [] {
    } else {
      NumberBelow(t.kids[p[0]], p[1..], q[1..]);
    }
  }

  lemma {:induction false} NumberLeft(t: Tree, p: Path, q: Path)
    requires HasPath(t, p) && HasPath(t, q) && LeftOf(p, q)
    ensures Number(t, p) + Weight(Sub(t, p)) <= Number(t, q)
    decreases |p|
  {
    var k :| 0 <= k < |p| && k < |q| && p[..k] == q[..k] && p[k] < q[k];
    if k == 0 {
      NumberInside(t.kids[p[0]], p[1..]);
      WeightsAdd(t.kids, p[0], q[0]);
    } else {
      assert p[0] == p[..k][0] == q[..k][0] == q[0];
      assert p[1..][..k - 1] == p[..k][1..] && q[1..][..k - 1] == q[..k][1..];
      assert LeftOf(p[1..], q[1..]);
      NumberLeft(t.kids[p[0]], p[1..], q[1..]);
    }
  }

  /** Of two nodes one is above the other or they branch. */
  lemma {:induction false} FourCases(p: Path, q: Path)
    ensures p <= q || q <= p || LeftOf(p, q) || LeftOf(q, p)
    decreases |p|
  {
    if p == [] || q == [] {
    } else if p[0] != q[0] {
      assert p[..0] == q[..0];
    } else {
      FourCases(p[1..], q[1..]);
      assert p == [p[0]] + p[1..] && q == [q[0]] + q[1..];
      if LeftOf(p[1..], q[1..]) { LeftBehind(p, q); }
      if LeftOf(q[1..], p[1..]) { LeftBehind(q, p); }
    }
  }

  lemma LeftBehind(p: Path, q: Path)
    requires p != [] && q != [] && p[0] == q[0] && LeftOf(p[1..], q[1..])
    ensures LeftOf(p, q)
  {
    var k :| 0 <= k < |p[1..]| && k < |q[1..]| && p[1..][..k] == q[1..][..k] && p[1..][k] < q[1..][k];
    assert p[..k + 1] == [p[0]] + p[1..][..k] && q[..k + 1] == [q[0]] + q[1..][..k];
  }

  /** The nodes of the document are the nodes of the tree. */
  lemma {:induction false} PathOf(t: Tree, i: nat) returns (p: Path)
    requires i < Weight(t)
    ensures HasPath(t, p) && Number(t, p) == i
    decreases t
  {
    if i == 0 {
      p := [];
    } else {
      var k, j := KidOf(t.kids, i - 1);
      var rest := PathOf(t.kids[k], j);
      p := [k] + rest;
      assert p[1..] == rest;
    }
  }

  lemma {:induction false} KidOf(ts: seq<Tree>, i: nat) returns (k: nat, j: nat)
    requires i < WeightAll(ts)
    ensures k < |ts| && j < Weight(ts[k]) && i == WeightAll(ts[..k]) + j
    decreases |ts|
  {
    if i < Weight(ts[0]) {
      k, j := 0, i;
      assert ts[..0] == [];
    } else {
      k, j := KidOf(ts[1..], i - Weight(ts[0]));
      k := k + 1;
      assert ts[..k][1..] == ts[1..][..k - 1] && ts[..k][0] == ts[0];
    }
  }

  // ----- axes

  /** The relation of a context node at p and a node at q on each axis. */
  predicate OnPathAxis(axis: Axis, p: Path, q: Path) {
    match axis
    case Self => q == p
    case Child => p <= q && |q| == |p| + 1
    case Parent => q <= p && |p| == |q| + 1
    case Descendant => p < q
    case DescendantOrSelf => p <= q
    case Ancestor => q < p
    case AncestorOrSelf => q <= p
    case Following => LeftOf(p, q)
    case Preceding => LeftOf(q, p)
    case FollowingSibling => Siblings(p, q)
    case PrecedingSibling => Siblings(q, p)
    case Attributes => false
    case Namespace => false
  }

  /** q is a later kid of the same node. */
  predicate Siblings(p: Path, q: Path) {
    |p| == |q| > 0 && p[..|p| - 1] == q[..|q| - 1] && p[|p| - 1] < q[|q| - 1]
  }

  lemma SameNode(t: Tree, p: Path, q: Path)
    requires HasPath(t, p) && HasPath(t, q) && Number(t, p) == Number(t, q)
    ensures p == q
  {
    FourCases(p, q);
    Placed(t, p, q);
    Placed(t, q, p);
  }

  /** The interval of the subtree at p, and where q lies. */
  lemma Placed(t: Tree, p: Path, q: Path)
    requires HasPath(t, p) && HasPath(t, q)
    ensures p <= q ==> Number(t, p) <= Number(t, q) < Number(t, p) + Weight(Sub(t, p))
    ensures p < q ==> Number(t, p) < Number(t, q)
    ensures LeftOf(p, q) ==> Number(t, p) + Weight(Sub(t, p)) <= Number(t, q)
  {
    if p <= q { NumberBelow(t, p, q); }
    if LeftOf(p, q) { NumberLeft(t, p, q); }
  }

  /** What the document knows of a node. */
  lemma NodeFacts(t: Tree, p: Path)
    requires HasPath(t, p)
    ensures DocOf(t).Has(Number(t, p)) && DocOf(t).End(Number(t, p)) == Number(t, p) + Weight(Sub(t, p))
    ensures DocOf(t).nodes[Number(t, p)].kind == Sub(t, p).kind && DocOf(t).nodes[Number(t, p)].name == Sub(t, p).name
    ensures DocOf(t).Attrs(Number(t, p)) == Sub(t, p).attrs
    ensures p == [] ==> Number(t, p) == 0
    ensures p != [] ==> HasPath(t, p[..|p| - 1]) && DocOf(t).Parent(Number(t, p)) == Number(t, p[..|p| - 1])
    ensures p != [] ==> Number(t, p) > 0
  {
    hide Flatten, Number, Sub;
    RecordAt(t, 0, -1, p);
    RootIsFirst(t);
    if p != [] {
      ParentIs(t, 0, -1, p);
      NumberBelow(t, [], p);
    }
  }

  lemma RootIsFirst(t: Tree)
    ensures HasPath(t, []) && Number(t, []) == 0 && Sub(t, []) == t
  {}

  /** The axes of the document are the axes of the tree. */
  lemma AxisOnTree(t: Tree, axis: Axis, p: Path, q: Path)
    requires HasPath(t, p) && HasPath(t, q)
    ensures DocOf(t).Has(Number(t, p)) && DocOf(t).Has(Number(t, q))
    ensures OnAxis(DocOf(t), axis, Number(t, p), Number(t, q)) <==> OnPathAxis(axis, p, q)
  {
    hide DocOf, Number, Sub, Weight, LeftOf, HasPath;
    NodeFacts(t, p);
    NodeFacts(t, q);
    FourCases(p, q);
    Placed(t, p, q);
    Placed(t, q, p);
    ParentsOnTree(t, p, q);
    ParentsOnTree(t, q, p);
    SiblingsOnTree(t, p, q);
    SiblingsOnTree(t, q, p);
  }

  lemma ParentsOnTree(t: Tree, p: Path, q: Path)
    requires HasPath(t, p) && HasPath(t, q) && DocOf(t).Has(Number(t, q))
    ensures Number(t, q) > 0 && DocOf(t).Parent(Number(t, q)) == Number(t, p) <==> p <= q && |q| == |p| + 1
  {
    hide DocOf, Number, Sub, Weight;
    NodeFacts(t, q);
    if q != [] {
      var up := q[..|q| - 1];
      assert p <= q && |q| == |p| + 1 <==> p == up;
      if Number(t, up) == Number(t, p) { SameNode(t, up, p); }
    }
  }

  lemma SiblingsOnTree(t: Tree, p: Path, q: Path)
    requires HasPath(t, p) && HasPath(t, q) && DocOf(t).Has(Number(t, p)) && DocOf(t).Has(Number(t, q))
    ensures Siblings(p, q) <==>
      0 < Number(t, p) < Number(t, q) && DocOf(t).Parent(Number(t, p)) == DocOf(t).Parent(Number(t, q))
  {
    hide DocOf, Number, Sub, Weight;
    NodeFacts(t, p);
    NodeFacts(t, q);
    if p != [] && q != [] {
      var up, uq, n := p[..|p| - 1], q[..|q| - 1], |p| - 1;
      if Number(t, up) == Number(t, uq) { SameNode(t, up, uq); }
      if up == uq {
        assert p == up + [p[n]] && q == up + [q[n]];
        if p[n] < q[n] {
          assert p[..n] == q[..n];
          assert LeftOf(p, q);
          Placed(t, p, q);
        } else if q[n] < p[n] {
          assert q[..n] == p[..n];
          assert LeftOf(q, p);
          Placed(t, q, p);
        }
      }
    }
  }

  // ----- steps from a tree node

  /** The handle of the node at a path. */
  function Handle(t: Tree, p: Path): XNode
    requires HasPath(t, p)
  {
    Node(Number(t, p))
  }

  lemma WellPlaced(t: Tree, p: Path)
    requires HasPath(t, p)
    ensures DocOf(t).WellFormed() && ValidNode(DocOf(t), Handle(t, p))
  {
    FlattenWellFormed(t);
    NodeFacts(t, p);
  }

  /** What a step selects from the node at p, for each node test; the principal type of these axes is element. */
  lemma StepOnTree(t: Tree, axis: Axis, p: Path, q: Path)
    requires HasPath(t, p) && HasPath(t, q)
    ensures ValidNode(DocOf(t), Handle(t, p))
    ensures Handle(t, q) in AxisSeq(DocOf(t), axis, AnyNode, Handle(t, p)) <==> OnPathAxis(axis, p, q)
    ensures forall name :: Handle(t, q) in AxisSeq(DocOf(t), axis, ByName(name), Handle(t, p)) <==>
      OnPathAxis(axis, p, q) && Sub(t, q).kind == KElement && Sub(t, q).name == Some(name)
    ensures Handle(t, q) in AxisSeq(DocOf(t), axis, AnyPrincipal, Handle(t, p)) <==>
      OnPathAxis(axis, p, q) && Sub(t, q).kind == KElement
    ensures forall prefix :: Handle(t, q) in AxisSeq(DocOf(t), axis, InNamespace(prefix), Handle(t, p)) <==>
      OnPathAxis(axis, p, q) && Sub(t, q).kind == KElement && Sub(t, q).name.Some? && prefix <= Sub(t, q).name.value
    ensures Handle(t, q) in AxisSeq(DocOf(t), axis, IsText, Handle(t, p)) <==>
      OnPathAxis(axis, p, q) && (Sub(t, q).kind == KPcdata || Sub(t, q).kind == KCdata)
    ensures Handle(t, q) in AxisSeq(DocOf(t), axis, IsComment, Handle(t, p)) <==>
      OnPathAxis(axis, p, q) && Sub(t, q).kind == KComment
    ensures Handle(t, q) in AxisSeq(DocOf(t), axis, IsPi, Handle(t, p)) <==>
      OnPathAxis(axis, p, q) && Sub(t, q).kind == KPi
    ensures forall target :: Handle(t, q) in AxisSeq(DocOf(t), axis, PiTarget(target), Handle(t, p)) <==>
      OnPathAxis(axis, p, q) && Sub(t, q).kind == KPi && Sub(t, q).name == Some(target)
  {
    hide DocOf, Number, Sub, OnPathAxis, AxisSeq, HasPath, Handle;
    WellPlaced(t, p);
    NodeFacts(t, q);
    forall test ensures Handle(t, q) in AxisSeq(DocOf(t), axis, test, Handle(t, p)) <==>
      OnPathAxis(axis, p, q) && PassesNode(test, DocOf(t).nodes[Number(t, q)])
    {
      InStep(t, axis, test, p, q);
    }
  }

  lemma InStep(t: Tree, axis: Axis, test: NodeTest, p: Path, q: Path)
    requires HasPath(t, p) && HasPath(t, q)
    ensures ValidNode(DocOf(t), Handle(t, p)) && DocOf(t).Has(Number(t, q))
    ensures Handle(t, q) in AxisSeq(DocOf(t), axis, test, Handle(t, p)) <==>
      OnPathAxis(axis, p, q) && PassesNode(test, DocOf(t).nodes[Number(t, q)])
  {
    hide DocOf, Number, Sub, OnPathAxis, OnAxis, AxisSeq, HasPath, PassesNode;
    WellPlaced(t, p);
    NodeFacts(t, p);
    NodeFacts(t, q);
    AxisOnTree(t, axis, p, q);
    AxisSeqMeaning(DocOf(t), axis, test, Handle(t, p));
  }

  /** A step from a tree node on one of these axes selects nothing else. */
  lemma OnlyTreeNodes(t: Tree, axis: Axis, test: NodeTest, p: Path, y: XNode) returns (q: Path)
    requires HasPath(t, p) && axis != Attributes && ValidNode(DocOf(t), Handle(t, p))
    requires y in AxisSeq(DocOf(t), axis, test, Handle(t, p))
    ensures HasPath(t, q) && y == Handle(t, q)
  {
    WellPlaced(t, p);
    AxisSeqMeaning(DocOf(t), axis, test, Handle(t, p));
    q := PathOf(t, y.i);
  }

  /** p comes before q in document order: above it or to the left. */
  predicate Earlier(p: Path, q: Path) {
    p < q || LeftOf(p, q)
  }

  lemma EarlierNumber(t: Tree, p: Path, q: Path)
    requires HasPath(t, p) && HasPath(t, q)
    ensures Earlier(p, q) <==> Number(t, p) < Number(t, q)
  {
    hide Number, Sub, Weight, LeftOf;
    FourCases(p, q);
    Placed(t, p, q);
    Placed(t, q, p);
    NumberInside(t, p);
    NumberInside(t, q);
  }

  /** The four axes that lead back list their nodes in reverse document order, the others in document order. */
  lemma StepOrder(t: Tree, axis: Axis, test: NodeTest, p: Path, i: nat, j: nat, q: Path, r: Path)
    requires HasPath(t, p) && HasPath(t, q) && HasPath(t, r) && ValidNode(DocOf(t), Handle(t, p))
    requires i < j < |AxisSeq(DocOf(t), axis, test, Handle(t, p))|
    requires AxisSeq(DocOf(t), axis, test, Handle(t, p))[i] == Handle(t, q)
    requires AxisSeq(DocOf(t), axis, test, Handle(t, p))[j] == Handle(t, r)
    ensures if axis == Ancestor || axis == AncestorOrSelf || axis == Preceding || axis == PrecedingSibling
      then Earlier(r, q) else Earlier(q, r)
  {
    hide AxisSeq, DocOf, Number;
    WellPlaced(t, p);
    AxisSeqMeaning(DocOf(t), axis, test, Handle(t, p));
    EarlierNumber(t, q, r);
    EarlierNumber(t, r, q);
  }

  // ----- attributes

  /** The name declares a namespace: it is xmlns, or begins with xmlns and a colon. */
  predicate Declares(name: bytes) {
    name == [120, 109, 108, 110, 115] || [120, 109, 108, 110, 115, 58] <= name
  }

  lemma DeclarationIs(name: bytes)
    requires 0 !in name
    ensures IsXPathAttribute(name) <==> !Declares(name)
  {
    if StartsWith(name, XMLNS) {
      assert name[..5] == XMLNS;
      if |name| > 5 {
        assert name[5] in name;
        assert name[..6] == name[..5] + [name[5]];
      }
    }
  }

  /** What an attribute step selects from the node at p; the principal type of this axis is attribute. */
  lemma AttributeStepOnTree(t: Tree, p: Path, k: nat)
    requires HasPath(t, p) && k < |Sub(t, p).attrs| && 0 !in Sub(t, p).attrs[k].name
    ensures ValidNode(DocOf(t), Handle(t, p))
    ensures (var a := Sub(t, p).attrs[k]; var y := Attribute(Number(t, p), k); var d := DocOf(t); var x := Handle(t, p);
             && (y in AxisSeq(d, Attributes, AnyNode, x) <==> !Declares(a.name))
             && (y in AxisSeq(d, Attributes, AnyPrincipal, x) <==> !Declares(a.name))
             && (forall name :: y in AxisSeq(d, Attributes, ByName(name), x) <==> a.name == name && !Declares(a.name))
             && (forall prefix :: y in AxisSeq(d, Attributes, InNamespace(prefix), x) <==>
                   prefix <= a.name && !Declares(a.name))
             && y !in AxisSeq(d, Attributes, IsText, x) && y !in AxisSeq(d, Attributes, IsComment, x)
             && y !in AxisSeq(d, Attributes, IsPi, x)
             && (forall target :: y !in AxisSeq(d, Attributes, PiTarget(target), x)))
  {
    hide DocOf, Number, Sub, AxisSeq, IsXPathAttribute, Declares, HasPath;
    WellPlaced(t, p);
    NodeFacts(t, p);
    DeclarationIs(Sub(t, p).attrs[k].name);
    var y := Attribute(Number(t, p), k);
    forall test ensures y in AxisSeq(DocOf(t), Attributes, test, Handle(t, p)) <==>
      Selected(DocOf(t), Attributes, test, Handle(t, p), y)
    {
      AxisSeqMeaning(DocOf(t), Attributes, test, Handle(t, p));
    }
  }

  /** Attribute steps select attributes of that node only, in their order. */
  lemma OnlyAttributes(t: Tree, p: Path, test: NodeTest, i: nat)
    requires HasPath(t, p) && ValidNode(DocOf(t), Handle(t, p))
    requires i < |AxisSeq(DocOf(t), Attributes, test, Handle(t, p))|
    ensures (var s := AxisSeq(DocOf(t), Attributes, test, Handle(t, p));
             && s[i].Attribute? && s[i].owner == Number(t, p) && 0 <= s[i].k < |Sub(t, p).attrs|
             && forall j :: i < j < |s| ==> s[j].Attribute? && s[i].k < s[j].k)
  {
    hide DocOf, Number, Sub, AxisSeq, HasPath;
    WellPlaced(t, p);
    NodeFacts(t, p);
    AxisSeqMeaning(DocOf(t), Attributes, test, Handle(t, p));
    var s := AxisSeq(DocOf(t), Attributes, test, Handle(t, p));
    assert s[i] in s;
    assert forall j :: i < j < |s| ==> s[j] in s;
  }

  /** The axes of an attribute of the node at p. */
  predicate FromAttribute(axis: Axis, p: Path, q: Path) {
    match axis
    case Parent => q == p
    case Ancestor => q <= p
    case AncestorOrSelf => q <= p
    case Following => p < q || LeftOf(p, q)
    case Preceding => LeftOf(q, p)
    case _ => false
  }

  lemma StepFromAttribute(t: Tree, axis: Axis, p: Path, k: nat, q: Path)
    requires HasPath(t, p) && HasPath(t, q) && k < |Sub(t, p).attrs|
    ensures ValidNode(DocOf(t), Attribute(Number(t, p), k))
    ensures Handle(t, q) in AxisSeq(DocOf(t), axis, AnyNode, Attribute(Number(t, p), k)) <==> FromAttribute(axis, p, q)
    ensures forall name :: Handle(t, q) in AxisSeq(DocOf(t), axis, ByName(name), Attribute(Number(t, p), k)) <==>
      FromAttribute(axis, p, q) && Sub(t, q).kind == KElement && Sub(t, q).name == Some(name)
  {
    hide Number, Sub, AxisSeq, HasPath, LeftOf, Weight, DocOf;
    WellPlaced(t, p);
    NodeFacts(t, p);
    NodeFacts(t, q);
    FourCases(p, q);
    Placed(t, p, q);
    Placed(t, q, p);
    NumberInside(t, p);
    NumberInside(t, q);
    var x := Attribute(Number(t, p), k);
    forall test
      ensures Handle(t, q) in AxisSeq(DocOf(t), axis, test, x) <==> Selected(DocOf(t), axis, test, x, Handle(t, q))
    {
      AxisSeqMeaning(DocOf(t), axis, test, x);
    }
  }

  /** An attribute itself is selected by node() on the axes that hold it, unless it declares a namespace. */
  lemma AttributeItself(t: Tree, axis: Axis, test: NodeTest, p: Path, k: nat, y: XNode)
    requires HasPath(t, p) && k < |Sub(t, p).attrs| && 0 !in Sub(t, p).attrs[k].name && y.Attribute?
    ensures ValidNode(DocOf(t), Attribute(Number(t, p), k))
    ensures y in AxisSeq(DocOf(t), axis, test, Attribute(Number(t, p), k)) <==>
      && y == Attribute(Number(t, p), k) && (axis == Self || axis == DescendantOrSelf || axis == AncestorOrSelf)
      && test == AnyNode && !Declares(Sub(t, p).attrs[k].name)
  {
    hide Number, Sub, AxisSeq, HasPath, DocOf, IsXPathAttribute, Declares;
    WellPlaced(t, p);
    NodeFacts(t, p);
    DeclarationIs(Sub(t, p).attrs[k].name);
    AxisSeqMeaning(DocOf(t), axis, test, Attribute(Number(t, p), k));
  }

  /** Document order (section 5): attributes come after their element, in their order, and before its kids. */
  lemma DocumentOrderOnTree(t: Tree, p: Path, q: Path, k: nat, l: nat)
    requires HasPath(t, p) && HasPath(t, q)
    ensures Before(Handle(t, p), Handle(t, q)) <==> Earlier(p, q)
    ensures Before(Attribute(Number(t, p), k), Handle(t, q)) <==> Earlier(p, q)
    ensures Before(Handle(t, p), Attribute(Number(t, q), k)) <==> p == q || Earlier(p, q)
    ensures Before(Attribute(Number(t, p), k), Attribute(Number(t, q), l)) <==> Earlier(p, q) || (p == q && k < l)
  {
    hide Number, HasPath, Earlier;
    EarlierNumber(t, p, q);
    if Number(t, p) == Number(t, q) { SameNode(t, p, q); }
    NotEarlier(p);
  }

  lemma NotEarlier(p: Path)
    ensures !Earlier(p, p)
  {}
}
