/**
  A parsed document as a value. Node i is the i-th node in document order (preorder), and its subtree is the
  interval [i, end(i)). The pointers of `xml_node_struct` are functions of that encoding, so the pointer walks of the
  XPath engine can be modelled step by step. -1 stands for a null pointer.
*/
module Document {
  import opened Basics
  import opened Bytes

  datatype Kind = KDocument | KElement | KPcdata | KCdata | KComment | KPi | KDeclaration | KDoctype

  datatype Attr = Attr(name: bytes, value: bytes)

  datatype NodeRec = NodeRec(kind: Kind, name: Option<bytes>, attrs: seq<Attr>, parent: int, end: int)

  datatype Doc = Doc(nodes: seq<NodeRec>) {
    function Size(): nat { |nodes| }

    predicate Has(i: int) { 0 <= i < |nodes| }

    function Parent(i: int): int requires Has(i) { nodes[i].parent }

    function End(i: int): int requires Has(i) { nodes[i].end }

    function Attrs(i: int): seq<Attr> requires Has(i) { nodes[i].attrs }

    /** Intervals are nested, and the parent of a node owns the smallest interval around it. */
    ghost predicate WellFormed() {
      && |nodes| > 0
      && Parent(0) == -1
      && End(0) == |nodes|
      && (forall i :: 0 < i < |nodes| ==> 0 <= Parent(i) < i < End(i) <= End(Parent(i)))
      && (forall i, j :: 0 <= i < j < |nodes| ==> End(i) <= j || End(j) <= End(i))
      && (forall i, k :: 0 < i < |nodes| && Parent(i) < k < i ==> End(k) <= i)
    }

    function FirstChild(i: int): int requires Has(i) {
      if i + 1 < End(i) then i + 1 else -1
    }

    function NextSibling(i: int): (r: int)
      requires WellFormed() && Has(i)
      ensures r == -1 || Has(r)
    {
      if i > 0 && End(i) < End(Parent(i)) then End(i) else -1
    }

    /** The child of p whose subtree holds k. */
    function ChildHolding(p: int, k: int): (r: int)
      requires WellFormed() && Has(p) && p < k < End(p)
      ensures Has(r) && Parent(r) == p && p < r <= k < End(r)
      decreases k
    {
      if Parent(k) == p then k
      else
        assert Parent(k) > p;
        ChildHolding(p, Parent(k))
    }

    /** Previous sibling; the last sibling for a first child; itself for the document node. */
    function PrevSiblingC(i: int): (r: int)
      requires WellFormed() && Has(i)
      ensures Has(r)
    {
      if i == 0 then 0
      else if i == Parent(i) + 1 then ChildHolding(Parent(i), End(Parent(i)) - 1)
      else ChildHolding(Parent(i), i - 1)
    }

    /** No element carries two attributes of the same name (section 3.1 of XML 1.0). */
    ghost predicate UniqueAttrs() {
      forall i, j, k :: Has(i) && 0 <= j < k < |Attrs(i)| ==> Attrs(i)[j].name != Attrs(i)[k].name
    }
  }

  /** An element with a repeated attribute: <x a="1" a="2"/>. */
  function RepeatedDoc(): Doc {
    var a: bytes := [97];
    Doc([NodeRec(KDocument, None, [], -1, 2),
         NodeRec(KElement, Some(a), [Attr(a, [49]), Attr(a, [50])], 0, 2)])
  }

  /** A node handle of the XPath engine: nothing, a tree node, or an attribute of a tree node. */
  datatype XNode = Null | Node(i: int) | Attribute(owner: int, k: int)

  function Major(x: XNode): int {
    match x case Null => -1 case Node(i) => i case Attribute(o, _) => o
  }

  function Minor(x: XNode): int {
    match x case Null => 0 case Node(_) => 0 case Attribute(_, k) => k + 1
  }

  predicate ValidNode(d: Doc, x: XNode) {
    match x
    case Null => false
    case Node(i) => d.Has(i)
    case Attribute(o, k) => d.Has(o) && 0 <= k < |d.Attrs(o)|
  }

  /** Document order: attributes come after their element and before its children (section 5 of XPath 1.0). */
  predicate Before(x: XNode, y: XNode) {
    || Major(x) < Major(y)
    || (Major(x) == Major(y) && Minor(x) < Minor(y))
    || (Major(x) == Major(y) && Minor(x) == Minor(y) && Rank(x) < Rank(y))
  }

  /** Separates handles that name no node, so that the order is total on all handles. */
  function Rank(x: XNode): int {
    match x case Null => 0 case Node(_) => 1 case Attribute(_, _) => 2
  }

  lemma SiblingEnds(d: Doc, i: int)
    requires d.WellFormed() && 0 < i < d.Size()
    ensures d.NextSibling(i) >= 0 ==> d.Has(d.NextSibling(i)) && d.Parent(d.NextSibling(i)) == d.Parent(i)
    ensures d.NextSibling(i) < 0 ==> d.End(i) == d.End(d.Parent(i))
    ensures i > d.Parent(i) + 1 ==> d.End(d.PrevSiblingC(i)) == i && d.NextSibling(d.PrevSiblingC(i)) == i
    ensures i == d.Parent(i) + 1 ==> d.NextSibling(d.PrevSiblingC(i)) == -1
  {
    var p := d.Parent(i);
    if d.End(i) < d.End(p) {
      var n := d.End(i);
      var q := d.Parent(n);
      assert d.End(q) >= d.End(n) > n && d.End(p) > n;
      assert q == p;
    }
    if i > p + 1 {
      var c := d.ChildHolding(p, i - 1);
      assert d.End(c) <= i;
    }
  }

  /** Trees from which the encoding comes. */
  datatype Tree = Tree(kind: Kind, name: Option<bytes>, attrs: seq<Attr>, kids: seq<Tree>)

  function Weight(t: Tree): (n: nat)
    ensures n >= 1
    decreases t
  {
    1 + WeightAll(t.kids)
  }

  function WeightAll(ts: seq<Tree>): nat
    decreases ts
  {
    if ts == [] then 0 else Weight(ts[0]) + WeightAll(ts[1..])
  }

  /** Preorder listing of a tree whose root gets number `at` and parent `up`. */
  function Flatten(t: Tree, at: nat, up: int): (s: seq<NodeRec>)
    ensures |s| == Weight(t)
    decreases t
  {
    [NodeRec(t.kind, t.name, t.attrs, up, at + Weight(t))] + FlattenAll(t.kids, at + 1, at)
  }

  function FlattenAll(ts: seq<Tree>, at: nat, up: int): (s: seq<NodeRec>)
    ensures |s| == WeightAll(ts)
    decreases ts
  {
    if ts == [] then [] else Flatten(ts[0], at, up) + FlattenAll(ts[1..], at + Weight(ts[0]), up)
  }

  /** The records s, numbered from `at` and lying under `up`, are well nested. */
  ghost predicate Nested(s: seq<NodeRec>, at: nat, up: int) {
    Inside(s, at, up) && Intervals(s, at) && Gaps(s, at)
  }

  /** Each record ends inside the list, and inside its parent. */
  ghost predicate Inside(s: seq<NodeRec>, at: nat, up: int) {
    && (forall i :: 0 <= i < |s| ==> at + i < s[i].end <= at + |s|)
    && (forall i :: 0 <= i < |s| ==> s[i].parent == up || at <= s[i].parent < at + i)
    && (forall i :: 0 <= i < |s| && s[i].parent != up ==> s[i].end <= s[s[i].parent - at].end)
  }

  ghost predicate Intervals(s: seq<NodeRec>, at: nat) {
    forall i, j :: 0 <= i < j < |s| ==> s[i].end <= at + j || s[j].end <= s[i].end
  }

  /** What stands between a record and its parent ends before the record. */
  ghost predicate Gaps(s: seq<NodeRec>, at: nat) {
    forall i, k :: 0 <= k < i < |s| && s[i].parent < at + k ==> s[k].end <= at + i
  }

  lemma {:induction false} NestedTree(t: Tree, at: nat, up: int)
    requires up < at
    ensures Nested(Flatten(t, at, up), at, up)
    ensures forall i :: 0 < i < |Flatten(t, at, up)| ==> Flatten(t, at, up)[i].parent >= at
    decreases t
  {
    hide Flatten, FlattenAll, Nested;
    var f, s := FlattenAll(t.kids, at + 1, at), Flatten(t, at, up);
    FlattenParts(t, at, up);
    NestedForest(t.kids, at + 1, at);
    NestedUnder(f, s, at, up);
  }

  lemma FlattenParts(t: Tree, at: nat, up: int)
    ensures (var f, s := FlattenAll(t.kids, at + 1, at), Flatten(t, at, up);
             && |s| == |f| + 1 && s[0].parent == up && s[0].end == at + |s| &&
               forall i :: 0 < i < |s| ==> s[i] == f[i - 1])
  {}

  /** Putting a root in front of a forest. */
  lemma NestedUnder(f: seq<NodeRec>, s: seq<NodeRec>, at: nat, up: int)
    requires up < at && Nested(f, at + 1, at)
    requires |s| == |f| + 1 && s[0].parent == up && s[0].end == at + |s| && forall i :: 0 < i < |s| ==> s[i] == f[i - 1]
    ensures Nested(s, at, up) && forall i :: 0 < i < |s| ==> s[i].parent >= at
  {
    forall i, j | 0 <= i < j < |s| ensures s[i].end <= at + j || s[j].end <= s[i].end {
      if i > 0 { assert f[i - 1].end <= at + 1 + (j - 1) || f[j - 1].end <= f[i - 1].end; }
    }
    forall i, k | 0 <= k < i < |s| && s[i].parent < at + k ensures s[k].end <= at + i {
      if k > 0 { assert f[i - 1].parent < at + 1 + (k - 1) ==> f[k - 1].end <= at + 1 + (i - 1); }
    }
  }

  lemma NestedConcat(a: seq<NodeRec>, b: seq<NodeRec>, at: nat, up: int)
    requires up < at
    requires Nested(a, at, up) && Nested(b, at + |a|, up)
    ensures Nested(a + b, at, up)
  {
    hide Inside, Intervals, Gaps;
    InsideConcat(a, b, at, up);
    IntervalsConcat(a, b, at, up);
    GapsConcat(a, b, at, up);
  }

  lemma InsideConcat(a: seq<NodeRec>, b: seq<NodeRec>, at: nat, up: int)
    requires up < at && Inside(a, at, up) && Inside(b, at + |a|, up)
    ensures Inside(a + b, at, up)
  {
    var s, mid := a + b, at + |a|;
    forall i | 0 <= i < |s|
      ensures at + i < s[i].end <= at + |s|
      ensures s[i].parent == up || at <= s[i].parent < at + i
      ensures s[i].parent != up ==> s[i].end <= s[s[i].parent - at].end
    {
      if i >= |a| {
        assert s[i] == b[i - |a|];
        if s[i].parent != up { assert s[s[i].parent - at] == b[s[i].parent - mid]; }
      }
    }
  }

  lemma IntervalsConcat(a: seq<NodeRec>, b: seq<NodeRec>, at: nat, up: int)
    requires up < at && Nested(a, at, up) && Nested(b, at + |a|, up)
    ensures Intervals(a + b, at)
  {
    var s := a + b;
    forall i, j | 0 <= i < j < |s| ensures s[i].end <= at + j || s[j].end <= s[i].end {
      if j < |a| {
        assert s[i] == a[i] && s[j] == a[j];
      } else if i >= |a| {
        assert s[i] == b[i - |a|] && s[j] == b[j - |a|];
      } else {
        assert s[i] == a[i];
      }
    }
  }

  lemma GapsConcat(a: seq<NodeRec>, b: seq<NodeRec>, at: nat, up: int)
    requires up < at && Nested(a, at, up) && Nested(b, at + |a|, up)
    ensures Gaps(a + b, at)
  {
    var s := a + b;
    forall i, k | 0 <= k < i < |s| && s[i].parent < at + k ensures s[k].end <= at + i {
      if i < |a| {
        assert s[i] == a[i] && s[k] == a[k];
      } else if k >= |a| {
        assert s[i] == b[i - |a|] && s[k] == b[k - |a|];
      } else {
        assert s[k] == a[k];
      }
    }
  }


  lemma {:induction false} NestedForest(ts: seq<Tree>, at: nat, up: int)
    requires up < at
    ensures Nested(FlattenAll(ts, at, up), at, up)
    decreases ts
  {
    if ts == [] {
    } else {
      NestedTree(ts[0], at, up);
      NestedForest(ts[1..], at + Weight(ts[0]), up);
      NestedConcat(Flatten(ts[0], at, up), FlattenAll(ts[1..], at + Weight(ts[0]), up), at, up);
    }
  }

  lemma FlattenRoot(t: Tree, at: nat, up: int)
    ensures (var s := Flatten(t, at, up); s[0].parent == up && s[0].end == at + |s|)
  {}

  /** Every tree flattens to a well-formed document. */
  lemma FlattenWellFormed(t: Tree)
    ensures Doc(Flatten(t, 0, -1)).WellFormed()
  {
    hide Flatten;
    FlattenRoot(t, 0, -1);
    NestedTree(t, 0, -1);
    var s := Flatten(t, 0, -1);
    var d := Doc(s);
    assert s[0].parent == -1 && s[0].end == |s|;
    assert forall i :: 0 < i < |s| ==> s[i].parent != -1;
  }
}
