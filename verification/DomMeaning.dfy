/** Lists, moves and copies of nodes as a reader of the tree sees them. */
module DomMeaning {
  import opened Basics
  import opened Document
  import opened Dom
  import opened DomMoves
  import opened CopyTree

  /** What the fields of the nodes say about the list of children of n. */
  lemma FieldsOfList(U: set<XmlNode>, kids: Kids, n: XmlNode)
    requires Linked(U, kids) && n in U
    ensures n in kids && n.firstChild == if kids[n] == [] then null else kids[n][0]
    ensures forall i :: 0 <= i < |kids[n]| ==> kids[n][i].parent == n
    ensures forall i :: 0 <= i < |kids[n]| - 1 ==> kids[n][i].nextSibling == kids[n][i + 1]
    ensures forall i :: 1 <= i < |kids[n]| ==> kids[n][i].prevSiblingC == kids[n][i - 1]
    ensures kids[n] != [] ==>
      kids[n][|kids[n]| - 1].nextSibling == null && kids[n][0].prevSiblingC == kids[n][|kids[n]| - 1]
    ensures forall c :: c in U ==> (c.parent == n <==> c in kids[n])
  {
    ListOf(U, kids, n);
    hide Describes;
    forall i | 0 <= i < |kids[n]| ensures Sibling(ShapeOf(U), n, kids[n], i) && kids[n][i] in U {
      assert Sibling(ShapeOf(U), n, kids[n], i);
    }
  }

  // ----- places in a list

  /** Taking x out of a list, and putting x beside a member. */
  lemma Beside(a: seq<XmlNode>, n: XmlNode, b: seq<XmlNode>, x: XmlNode)
    requires NoRepeats(a + [n] + b)
    ensures (var s := a + [n] + b;
             n in s && RemoveAt(s, PlaceOf(s, n)) == a + b && InsertAt(s, PlaceOf(s, n), x) == a + [x, n] + b
             && InsertAt(s, PlaceOf(s, n) + 1, x) == a + [n, x] + b)
  {
    var s := a + [n] + b;
    assert s[|a|] == n;
    assert PlaceOf(s, n) == |a|;
  }

  /** Where a permitted move puts a node: its old list closes up, and every other list stays. */
  lemma MovedTo(m: Shape, kids: Kids, kids': Kids, p: XmlNode, q: XmlNode, x: XmlNode, place: Place,
      c: seq<XmlNode>, d: seq<XmlNode>, s: seq<XmlNode>)
    requires Describes(m, kids) && MoveDone(kids, kids', p, q, x, place, x) && kids[p] == c + [x] + d
    requires s == if q == p then c + d else kids[q]
    ensures forall n :: n in kids && n != p && n != q ==> n in kids' && kids'[n] == kids[n]
    ensures q in kids' && p in kids' && (p != q ==> kids'[p] == c + d)
    ensures place == Last ==> kids'[q] == s + [x]
    ensures place == First ==> kids'[q] == [x] + s
    ensures forall a, n, b :: place == After(n) && s == a + [n] + b ==> kids'[q] == a + [n, x] + b
    ensures forall a, n, b :: place == Before(n) && s == a + [n] + b ==> kids'[q] == a + [x, n] + b
  {
    hide Describes, InsertAt, RemoveAt;
    ListsApart(m, kids, p);
    ListsApart(m, kids, q);
    Beside(c, x, d, x);
    assert KidsRemoved(kids, p, x)[q] == s;
    ClosedUp(c, x, d);
    assert NoRepeats(s);
    forall a, n, b | place == After(n) && s == a + [n] + b ensures kids'[q] == a + [n, x] + b {
      Beside(a, n, b, x);
    }
    forall a, n, b | place == Before(n) && s == a + [n] + b ensures kids'[q] == a + [x, n] + b {
      Beside(a, n, b, x);
    }
  }

  lemma ClosedUp(c: seq<XmlNode>, x: XmlNode, d: seq<XmlNode>)
    requires NoRepeats(c + [x] + d)
    ensures NoRepeats(c + d)
  {
    var s, t := c + [x] + d, c + d;
    forall i, j | 0 <= i < j < |t| ensures t[i] != t[j] {
      assert t[i] == s[if i < |c| then i else i + 1] && t[j] == s[if j < |c| then j else j + 1];
    }
  }

  lemma ListsApart(m: Shape, kids: Kids, n: XmlNode)
    requires Describes(m, kids) && n in kids
    ensures NoRepeats(kids[n])
  {}

  /** The kinds that may hang under one another: section 5 of XPath 1.0, and what heads a document. */
  lemma KindsUnder(parent: Kind, child: Kind)
    ensures AllowInsertChild(parent, child) <==>
      (parent == KElement && child in {KElement, KPcdata, KCdata, KComment, KPi}) ||
      (parent == KDocument && child in {KElement, KPcdata, KCdata, KComment, KPi, KDeclaration, KDoctype})
  {}

  // ----- what lies below a node

  /** Every node of s but the first is a child of the one in front of it. */
  ghost predicate Descent(kids: Kids, s: seq<XmlNode>) {
    s != [] && forall i :: 0 <= i < |s| - 1 ==> s[i] in kids && s[i + 1] in kids[s[i]]
  }

  /** Below x is exactly what can be reached from it by going from parents to children. */
  lemma {:induction false} DescentBelow(kids: Kids, rank: map<XmlNode, nat>, x: XmlNode, s: seq<XmlNode>)
    requires Ranked(kids, rank) && x in kids && Descent(kids, s) && s[0] == x
    ensures s[|s| - 1] in Below(kids, rank, x)
    decreases |s|
  {
    BelowClosed(kids, rank, x);
    if |s| > 1 {
      DescentBelow(kids, rank, x, s[..|s| - 1]);
    }
  }

  lemma {:induction false} BelowDescent(kids: Kids, rank: map<XmlNode, nat>, x: XmlNode, y: XmlNode)
      returns (s: seq<XmlNode>)
    requires Ranked(kids, rank) && x in kids && y in Below(kids, rank, x)
    ensures Descent(kids, s) && s[0] == x && s[|s| - 1] == y
    decreases rank[x]
  {
    if y == x {
      s := [x];
    } else {
      var c :| c in kids[x] && y in Below(kids, rank, c);
      var t := BelowDescent(kids, rank, c, y);
      s := [x] + t;
    }
  }

  // ----- subtrees as values

  lemma TreeRow(kids: Kids, rank: map<XmlNode, nat>, info: map<XmlNode, Data>, n: XmlNode, skip: XmlNode?,
      s: seq<XmlNode>)
    requires Ranked(kids, rank) && n in kids && info.Keys == kids.Keys && s == Without(kids[n], skip)
    ensures (var t := TreeOf(kids, rank, info, n, skip); t.kind == n.kind && t.data == info[n] && |t.kids| == |s|)
    ensures forall i :: 0 <= i < |s| ==>
      s[i] in kids && TreeOf(kids, rank, info, n, skip).kids[i] == TreeOf(kids, rank, info, s[i], skip)
  {
    assert forall i :: 0 <= i < |s| ==> s[i] in s;
  }

  /** A subtree is its root with the subtrees of its children in order. */
  lemma WholeTree(kids: Kids, rank: map<XmlNode, nat>, info: map<XmlNode, Data>, n: XmlNode, skip: XmlNode?)
    requires Ranked(kids, rank) && n in kids && info.Keys == kids.Keys && skip !in kids[n]
    ensures (var t := TreeOf(kids, rank, info, n, skip);
             t.kind == n.kind && t.data == info[n] && |t.kids| == |kids[n]|
             && forall i :: 0 <= i < |kids[n]| ==>
               kids[n][i] in kids && t.kids[i] == TreeOf(kids, rank, info, kids[n][i], skip))
  {
    hide Ranked, TreeOf;
    WithoutAbsent(kids[n], skip);
    TreeRow(kids, rank, info, n, skip, kids[n]);
  }

  /** A node left out is left out with all that is below it, and nothing else changes. */
  lemma TreeLeftOut(kids: Kids, rank: map<XmlNode, nat>, info: map<XmlNode, Data>, n: XmlNode, a: seq<XmlNode>,
      skip: XmlNode, b: seq<XmlNode>)
    requires Ranked(kids, rank) && n in kids && info.Keys == kids.Keys
    requires kids[n] == a + [skip] + b && skip !in a && skip !in b
    ensures (var t := TreeOf(kids, rank, info, n, skip);
             t.kind == n.kind && t.data == info[n] && |t.kids| == |a| + |b|
             && (forall i :: 0 <= i < |a| ==> a[i] in kids && t.kids[i] == TreeOf(kids, rank, info, a[i], skip))
             && forall i :: 0 <= i < |b| ==> b[i] in kids && t.kids[|a| + i] == TreeOf(kids, rank, info, b[i], skip))
  {
    hide Ranked, TreeOf;
    WithoutOne(a, skip, b);
    var s := a + b;
    TreeRow(kids, rank, info, n, skip, s);
    assert forall i :: 0 <= i < |a| ==> s[i] == a[i];
    assert forall i :: 0 <= i < |b| ==> s[|a| + i] == b[i];
  }

  lemma {:induction false} WithoutAbsent(s: seq<XmlNode>, x: XmlNode?)
    requires x !in s
    ensures Without(s, x) == s
  {
    if s == [] {
    } else {
      WithoutAbsent(s[..|s| - 1], x);
      assert s == s[..|s| - 1] + [s[|s| - 1]];
    }
  }

  lemma {:induction false} WithoutOne(a: seq<XmlNode>, x: XmlNode, b: seq<XmlNode>)
    requires x !in a && x !in b
    ensures Without(a + [x] + b, x) == a + b
    decreases |b|
  {
    var s := a + [x] + b;
    if b == [] {
      assert s[..|s| - 1] == a && s[|s| - 1] == x;
      WithoutAbsent(a, x);
    } else {
      assert s[..|s| - 1] == a + [x] + b[..|b| - 1] && s[|s| - 1] == b[|b| - 1];
      WithoutOne(a, x, b[..|b| - 1]);
      assert a + b == (a + b[..|b| - 1]) + [b[|b| - 1]];
    }
  }
}
