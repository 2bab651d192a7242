/** The comparison of two nodes by position in the document, done on the pointers alone. */
module DocumentOrder {
  import opened Document
  import opened Axes
  import opened NodeSets

  /** Number of steps from a node up to the document. */
  ghost function Depth(d: Doc, i: int): nat
    requires d.WellFormed() && d.Has(i)
    decreases i
  {
    if i == 0 then 0 else 1 + Depth(d, d.Parent(i))
  }

  /** The two-ended race along the sibling list: whichever cursor meets the other node decides. */
  method NodeIsBeforeSibling(d: Doc, ln: int, rn: int) returns (r: bool)
    requires d.WellFormed() && 0 < ln < d.Size() && 0 < rn < d.Size()
    requires ln != rn && d.Parent(ln) == d.Parent(rn)
    ensures r == (ln < rn)
  {
    hide Doc.WellFormed;
    var ls, rs := ln, rn;
    while ls >= 0 && rs >= 0
      invariant ls == -1 || (ln <= ls < d.Size() && d.Parent(ls) == d.Parent(ln))
      invariant rs == -1 || (rn <= rs < d.Size() && d.Parent(rs) == d.Parent(ln))
      invariant ln < rn ==> ls != -1 && ls <= rn
      invariant rn < ln ==> rs != -1 && rs <= ln
      decreases if ls >= 0 then d.Size() - ls else 0
    {
      if ls == rn { return true; }
      if rs == ln { return false; }
      if ls < rn { SiblingPath(d, ls, rn); } else { SiblingPath(d, rs, ln); }
      NextFacts(d, ls);
      NextFacts(d, rs);
      ls, rs := d.NextSibling(ls), d.NextSibling(rs);
    }
    r := rs == -1;
  }

  lemma NextFacts(d: Doc, c: int)
    requires d.WellFormed() && 0 < c < d.Size()
    ensures d.NextSibling(c) == -1 || (c < d.NextSibling(c) < d.Size() && d.Parent(d.NextSibling(c)) == d.Parent(c))
  {
    SiblingEnds(d, c);
  }

  /** A later sibling is not skipped. */
  lemma SiblingPath(d: Doc, c: int, later: int)
    requires d.WellFormed() && 0 < c < later < d.Size() && d.Parent(c) == d.Parent(later)
    ensures d.NextSibling(c) != -1 && d.NextSibling(c) <= later
  {
    if d.NextSibling(c) == -1 || d.NextSibling(c) > later {
      NextIsNext(d, c, later);
    }
  }

  ghost function DepthOf(d: Doc, i: int): int
    requires d.WellFormed() && -1 <= i < d.Size()
  {
    if i < 0 then -1 else Depth(d, i)
  }

  lemma UpOne(d: Doc, i: int)
    requires d.WellFormed() && d.Has(i)
    ensures -1 <= d.Parent(i) < i && DepthOf(d, d.Parent(i)) == DepthOf(d, i) - 1 && DepthOf(d, i) >= 0
    ensures d.Parent(i) == -1 <==> i == 0
    ensures DepthOf(d, i) == 0 <==> i == 0
  {}

  /** a is x or an ancestor of x. */
  ghost predicate Covers(d: Doc, a: int, x: int)
    requires d.WellFormed()
  {
    d.Has(a) && d.Has(x) && a <= x < d.End(a)
  }

  lemma CoversUp(d: Doc, a: int, x: int)
    requires d.WellFormed() && Covers(d, a, x) && a > 0
    ensures Covers(d, d.Parent(a), x)
  {}

  lemma CoversSelf(d: Doc, x: int)
    requires d.WellFormed() && d.Has(x)
    ensures Covers(d, x, x)
  {
    if x > 0 { RangeFacts(d, x); }
  }

  lemma SiblingsDecide(d: Doc, a: int, b: int, x: int, y: int)
    requires d.WellFormed() && 0 < a && 0 < b && a != b && Covers(d, a, x) && Covers(d, b, y)
    requires d.Parent(a) == d.Parent(b)
    ensures (a < b) == (x < y)
  {
    if a < b && b < d.End(a) {
      OutsideSubtree(d, a, b);
    } else if b < a && a < d.End(b) {
      OutsideSubtree(d, b, a);
    }
  }

  /** Climbs `count` null-terminated steps in lock step with a second cursor; used to equalise heights. */
  method Raise(d: Doc, cursor: int, node: int) returns (raised: int)
    requires d.WellFormed() && d.Has(node) && -1 <= cursor < d.Size() && DepthOf(d, cursor) < DepthOf(d, node)
    ensures Covers(d, raised, node)
    ensures DepthOf(d, raised) == DepthOf(d, node) - DepthOf(d, cursor) - 1
    ensures cursor == -1 ==> raised == node
    ensures cursor >= 0 ==> raised < node
  {
    hide Doc.WellFormed, DepthOf, Covers;
    var c := cursor;
    raised := node;
    CoversSelf(d, node);
    NullDepth(d);
    while c >= 0
      invariant -1 <= c < d.Size() && d.Has(raised) && Covers(d, raised, node) && raised <= node
      invariant DepthOf(d, raised) - DepthOf(d, c) == DepthOf(d, node) - DepthOf(d, cursor)
      invariant DepthOf(d, c) < DepthOf(d, raised)
      invariant c == cursor ==> raised == node
      invariant c < cursor ==> raised < node
      invariant c <= cursor
      decreases c
    {
      UpOne(d, c);
      UpOne(d, raised);
      CoversUp(d, raised, node);
      c := d.Parent(c);
      raised := d.Parent(raised);
    }
  }

  lemma NullDepth(d: Doc)
    requires d.WellFormed()
    ensures DepthOf(d, -1) == -1 && DepthOf(d, 0) == 0
  {}

  /** `node_is_before` on two distinct nodes of one document: true exactly when ln comes first in preorder. */
  method NodeIsBefore(d: Doc, ln: int, rn: int) returns (r: bool)
    requires d.WellFormed() && d.Has(ln) && d.Has(rn) && ln != rn
    ensures r == (ln < rn)
  {
    hide Doc.WellFormed, DepthOf, Covers;
    var lp, rp := ln, rn;
    CoversSelf(d, ln);
    CoversSelf(d, rn);
    UpOne(d, lp);
    UpOne(d, rp);
    NullDepth(d);
    while lp >= 0 && rp >= 0 && d.Parent(lp) != d.Parent(rp)
      invariant -1 <= lp < d.Size() && -1 <= rp < d.Size() && lp != rp
      invariant lp >= 0 ==> Covers(d, lp, ln)
      invariant rp >= 0 ==> Covers(d, rp, rn)
      invariant DepthOf(d, lp) - DepthOf(d, rp) == DepthOf(d, ln) - DepthOf(d, rn)
      invariant -1 <= DepthOf(d, lp) && -1 <= DepthOf(d, rp)
      invariant DepthOf(d, lp) <= DepthOf(d, ln) && DepthOf(d, rp) <= DepthOf(d, rn)
      invariant lp == -1 || rp == -1 ==> DepthOf(d, lp) < DepthOf(d, ln) && DepthOf(d, rp) < DepthOf(d, rn)
      decreases lp
    {
      UpOne(d, lp);
      UpOne(d, rp);
      if lp > 0 { CoversUp(d, lp, ln); }
      if rp > 0 { CoversUp(d, rp, rn); }
      lp, rp := d.Parent(lp), d.Parent(rp);
      if lp >= 0 { UpOne(d, lp); }
      if rp >= 0 { UpOne(d, rp); }
    }
    if lp >= 0 && rp >= 0 {
      UpOne(d, lp);
      UpOne(d, rp);
      SiblingsDecide(d, lp, rp, ln, rn);
      r := NodeIsBeforeSibling(d, lp, rp);
      return;
    }
    var leftHigher := lp < 0;
    var a := Raise(d, lp, ln);
    var b := Raise(d, rp, rn);
    if a == b {
      return leftHigher;
    }
    r := CompareAtSameDepth(d, a, b, ln, rn);
  }

  /** The second climb, from equal heights to a common parent. */
  method CompareAtSameDepth(d: Doc, a0: int, b0: int, ghost ln: int, ghost rn: int) returns (r: bool)
    requires d.WellFormed() && a0 != b0 && Covers(d, a0, ln) && Covers(d, b0, rn)
    requires DepthOf(d, a0) == DepthOf(d, b0)
    ensures r == (ln < rn)
  {
    hide Doc.WellFormed, DepthOf;
    var a, b := a0, b0;
    UpOne(d, a);
    UpOne(d, b);
    NullDepth(d);
    while d.Parent(a) != d.Parent(b)
      invariant Covers(d, a, ln) && Covers(d, b, rn) && a != b
      invariant DepthOf(d, a) == DepthOf(d, b)
      decreases a
    {
      UpOne(d, a);
      UpOne(d, b);
      CoversUp(d, a, ln);
      CoversUp(d, b, rn);
      a, b := d.Parent(a), d.Parent(b);
    }
    UpOne(d, a);
    UpOne(d, b);
    SiblingsDecide(d, a, b, ln, rn);
    r := NodeIsBeforeSibling(d, a, b);
  }

  /** The loop over `next_attribute` from one attribute of an element looking for another. */
  method AttributeIsBefore(d: Doc, owner: int, k: int, other: int) returns (r: bool)
    requires d.Has(owner) && 0 <= k < |d.Attrs(owner)| && 0 <= other < |d.Attrs(owner)|
    ensures r == (k <= other)
  {
    for a := k to |d.Attrs(owner)|
      invariant k <= other ==> a <= other
    {
      if a == other { return true; }
    }
    r := false;
  }

  /**
    `document_order_comparator` on two handles of one document: document order, by their places in the parsed buffer
    if both are known. Otherwise an attribute is reported before itself.
  */
  method Compare(d: Doc, place: Places, lhs: XNode, rhs: XNode) returns (r: bool)
    requires d.WellFormed() && ValidNode(d, lhs) && ValidNode(d, rhs) && InBufferOrder(place)
    ensures r == DocCompare(place)(lhs, rhs)
    ensures lhs != rhs ==> r == Before(lhs, rhs)
  {
    var lo, ro := place(lhs), place(rhs);
    if lo != 0 && ro != 0 {
      return lo < ro;
    }
    var ln, rn := if lhs.Node? then lhs.i else lhs.owner, if rhs.Node? then rhs.i else rhs.owner;
    if lhs.Attribute? && rhs.Attribute? {
      if lhs.owner == rhs.owner {
        r := AttributeIsBefore(d, lhs.owner, lhs.k, rhs.k);
        return;
      }
    } else if lhs.Attribute? {
      if ln == rn { return false; }
    } else if rhs.Attribute? {
      if rn == ln { return true; }
    }
    if ln == rn { return false; }
    r := NodeIsBefore(d, ln, rn);
  }
}
