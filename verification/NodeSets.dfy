/** Node sets of the evaluator: a sequence of nodes with a tag that says what is known about its order. */
module NodeSets {
  import opened Basics
  import opened Document
  import opened Axes
  import opened Sorting

  datatype Tag = InOrder | InReverse | Unsorted

  datatype NodeSet = NodeSet(tag: Tag, items: seq<XNode>)

  /** The tag never lies, and no node is listed twice. */
  ghost predicate Truthful(ns: NodeSet) {
    match ns.tag
    case InOrder => Ordered(false, ns.items)
    case InReverse => Ordered(true, ns.items)
    case Unsorted => NoRepeats(ns.items)
  }

  function DocLess(): (XNode, XNode) -> bool {
    (x, y) => Before(x, y)
  }

  /**
    `document_buffer_order`: where a node or attribute was parsed from, 0 if that is not known any more. Places that
    are still known follow document order; moving or sharing nodes makes a document forget them.
  */
  type Places = XNode -> nat

  ghost predicate InBufferOrder(place: Places) {
    forall x, y :: place(x) != 0 && place(y) != 0 ==> (place(x) < place(y) <==> Before(x, y))
  }

  /** The answers of `document_order_comparator`: without places an attribute is reported before itself. */
  function DocCompare(place: Places): (XNode, XNode) -> bool {
    (x, y) =>
      if place(x) != 0 && place(y) != 0 then place(x) < place(y)
      else Before(x, y) || (x == y && x.Attribute?)
  }

  lemma ComparesDifferent(place: Places, x: XNode, y: XNode)
    requires InBufferOrder(place) && x != y
    ensures DocCompare(place)(x, y) == Before(x, y)
  {}

  lemma DocLessTotal()
    ensures StrictTotalOrder(DocLess())
  {}

  lemma HasMember(s: seq<XNode>)
    ensures s == [] || exists x :: x in s
  {
    if s != [] { assert s[0] in s; }
  }

  ghost predicate IsFirst(x: XNode, s: set<XNode>) {
    x in s && forall y :: y in s && y != x ==> Before(x, y)
  }

  ghost function Members(s: seq<XNode>): set<XNode> {
    set x | x in s
  }

  lemma {:induction false} FirstExists(s: set<XNode>) returns (x: XNode)
    requires s != {}
    ensures IsFirst(x, s)
    decreases s
  {
    var y :| y in s;
    if s == {y} {
      x := y;
    } else {
      var z := FirstExists(s - {y});
      x := if Before(y, z) then y else z;
      forall w | w in s && w != x ensures Before(x, w) {
        if w != y { assert w in s - {y}; }
      }
    }
  }

  /** The first node of a set in document order. */
  ghost function First(s: set<XNode>): (x: XNode)
    requires s != {}
    ensures IsFirst(x, s)
  {
    FirstIsThere(s);
    var x :| IsFirst(x, s);
    x
  }

  lemma FirstIsThere(s: set<XNode>)
    requires s != {}
    ensures exists x :: IsFirst(x, s)
  {
    var x := FirstExists(s);
  }

  /** The nodes of a set listed in document order. */
  ghost function InDocumentOrder(s: set<XNode>): (r: seq<XNode>)
    ensures Ordered(false, r)
    ensures forall x :: x in r <==> x in s
    decreases s
  {
    if s == {} then []
    else
      var x := First(s);
      var rest := InDocumentOrder(s - {x});
      [x] + rest
  }

  lemma InDocumentOrderUnique(s: set<XNode>, r: seq<XNode>)
    requires Ordered(false, r) && forall x :: x in r <==> x in s
    ensures r == InDocumentOrder(s)
  {
    DocLessTotal();
    StrictlySortedUnique(r, InDocumentOrder(s), DocLess());
  }

  /** What the order of neighbours alone says about the whole list. */
  method GetOrder(items: seq<XNode>, place: Places) returns (tag: Tag)
    requires NoRepeats(items) && InBufferOrder(place)
    ensures Truthful(NodeSet(tag, items))
  {
    if |items| < 2 {
      return InOrder;
    }
    hide InBufferOrder, DocCompare;
    ComparesDifferent(place, items[0], items[1]);
    var first := DocCompare(place)(items[0], items[1]);
    var it := 1;
    while it + 1 < |items|
      invariant 1 <= it < |items|
      invariant Ordered(!first, items[..it + 1])
    {
      ComparesDifferent(place, items[it], items[it + 1]);
      if DocCompare(place)(items[it], items[it + 1]) != first {
        return Unsorted;
      }
      OrderedSnoc(!first, items, it + 1);
      it := it + 1;
    }
    assert items[..it + 1] == items;
    tag := if first then InOrder else InReverse;
  }

  lemma OrderedSnoc(reverse: bool, s: seq<XNode>, k: int)
    requires 0 < k < |s| && Ordered(reverse, s[..k]) && NoRepeats(s)
    requires Before(s[k - 1], s[k]) != reverse
    ensures Ordered(reverse, s[..k + 1])
  {
    var t := s[..k + 1];
    forall i, j | 0 <= i < j < |t| ensures if reverse then Before(t[j], t[i]) else Before(t[i], t[j]) {
      assert s[k - 1] != s[k];
      if j < k {
        assert t[i] == s[..k][i] && t[j] == s[..k][j];
      } else if i < k - 1 {
        assert s[..k][i] == t[i] && s[..k][k - 1] == t[k - 1];
      }
    }
  }

  /** `xpath_sort`: brings a set into document order or its reverse, sorting only when its order is unknown. */
  method SortSet(ns: NodeSet, rev: bool, place: Places) returns (r: NodeSet)
    requires Truthful(ns) && InBufferOrder(place)
    ensures r.tag == (if rev then InReverse else InOrder) && Ordered(rev, r.items)
    ensures forall x :: x in r.items <==> x in ns.items
  {
    var order := if rev then InReverse else InOrder;
    var tag, items := ns.tag, ns.items;
    if tag == Unsorted {
      tag := GetOrder(items, place);
      if tag == Unsorted {
        items := SortItems(items, place);
        tag := InOrder;
      }
    }
    if tag != order {
      items := ReverseItems(items, !rev);
    }
    r := NodeSet(order, items);
  }

  /** `sort_do`. */
  method SortDo(ns: NodeSet, place: Places) returns (r: NodeSet)
    requires Truthful(ns) && InBufferOrder(place)
    ensures r.tag == InOrder && Ordered(false, r.items)
    ensures forall x :: x in r.items <==> x in ns.items
  {
    r := SortSet(ns, false, place);
  }

  method SortItems(items: seq<XNode>, place: Places) returns (r: seq<XNode>)
    requires NoRepeats(items) && InBufferOrder(place)
    ensures Ordered(false, r)
    ensures forall x :: x in r <==> x in items
  {
    CompareDecides(place);
    hide InBufferOrder, DocCompare, DocLess;
    var a := new XNode[|items|](i requires 0 <= i < |items| => items[i]);
    assert a[..] == items && a[..][0..a.Length] == items;
    ghost var depth := Sort(a, 0, a.Length, DocCompare(place), DocLess());
    r := a[..];
    assert r[0..|r|] == r && items[0..|items|] == items;
    SortedDistinct(items, r);
  }

  lemma CompareDecides(place: Places)
    requires InBufferOrder(place)
    ensures Decides(DocCompare(place), DocLess())
  {
    DocLessTotal();
  }

  lemma SortedDistinct(s: seq<XNode>, t: seq<XNode>)
    requires NoRepeats(s) && multiset(s) == multiset(t) && Sorted(t, DocLess())
    ensures Ordered(false, t)
    ensures forall x :: x in t <==> x in s
  {
    forall x ensures x in t <==> x in s {
      assert x in t <==> x in multiset(t);
      assert x in s <==> x in multiset(s);
    }
    StillNoRepeats(s, t);
  }

  method ReverseItems(items: seq<XNode>, rev: bool) returns (r: seq<XNode>)
    requires Ordered(rev, items)
    ensures Ordered(!rev, r)
    ensures forall x :: x in r <==> x in items
  {
    var a := new XNode[|items|](i requires 0 <= i < |items| => items[i]);
    assert a[..] == items;
    Reverse(a);
    r := a[..];
    ReversedItems(items, rev);
  }

  lemma ReversedItems(items: seq<XNode>, rev: bool)
    requires Ordered(rev, items)
    ensures Ordered(!rev, Reversed(items)) && forall x :: x in Reversed(items) <==> x in items
  {
    var r := Reversed(items);
    forall x | x in items ensures x in r {
      var i :| 0 <= i < |items| && items[i] == x;
      assert r[|items| - 1 - i] == x;
    }
    forall i, j | 0 <= i < j < |r| ensures if rev then Before(r[i], r[j]) else Before(r[j], r[i]) {
      var x, y := items[|items| - 1 - i], items[|items| - 1 - j];
      assert if rev then Before(x, y) else Before(y, x);
    }
  }

  /** `xpath_first`: the first member in document order, found according to the tag. */
  method FirstOf(ns: NodeSet, place: Places) returns (x: XNode)
    requires Truthful(ns) && InBufferOrder(place)
    ensures ns.items == [] ==> x == Null
    ensures ns.items != [] ==> IsFirst(x, Members(ns.items))
  {
    if ns.items == [] {
      return Null;
    }
    match ns.tag {
      case InOrder => x := ns.items[0];
      case InReverse => x := ns.items[|ns.items| - 1];
      case Unsorted =>
        x := ns.items[0];
        for i := 1 to |ns.items|
          invariant x in ns.items[..i]
          invariant forall y :: y in ns.items[..i] && y != x ==> Before(x, y)
        {
          assert ns.items[..i + 1] == ns.items[..i] + [ns.items[i]];
          ComparesDifferent(place, ns.items[i], x);
          if DocCompare(place)(ns.items[i], x) {
            x := ns.items[i];
          }
        }
        assert ns.items[..|ns.items|] == ns.items;
    }
  }

  /** `remove_duplicates` on an unsorted set: sorted by the address order `less`, then compacted. */
  method RemoveDuplicateNodes(items: seq<XNode>, less: (XNode, XNode) -> bool) returns (r: seq<XNode>)
    requires StrictTotalOrder(less)
    ensures NoRepeats(r)
    ensures forall x :: x in r <==> x in items
  {
    r := RemoveDuplicates(items, less);
  }
}
