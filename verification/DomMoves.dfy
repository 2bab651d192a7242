/** Moving a subtree inside one document: the checks that allow it, and why the forest stays a forest. */
module DomMoves {
  import opened Document
  import opened Dom

  /** A rank that falls from every node to its children witnesses that there is no cycle. */
  ghost predicate Ranked(kids: Kids, older rank: map<XmlNode, nat>) {
    rank.Keys == kids.Keys &&
    forall n, c :: n in kids && c in kids[n] ==> c in kids && rank[c] < rank[n]
  }

  ghost predicate Acyclic(kids: Kids) {
    exists rank: map<XmlNode, nat> :: Ranked(kids, rank)
  }

  /** x and everything below it. */
  ghost function Below(kids: Kids, rank: map<XmlNode, nat>, x: XmlNode): set<XmlNode>
    requires Ranked(kids, rank) && x in kids
    decreases rank[x]
  {
    {x} + set c, y | c in kids[x] && y in Below(kids, rank, c) :: y
  }

  lemma {:induction false} BelowClosed(kids: Kids, rank: map<XmlNode, nat>, x: XmlNode)
    requires Ranked(kids, rank) && x in kids
    ensures x in Below(kids, rank, x)
    ensures forall y :: y in Below(kids, rank, x) ==> y in kids && rank[y] <= rank[x]
    ensures forall y, c :: y in Below(kids, rank, x) && y in kids && c in kids[y] ==> c in Below(kids, rank, x)
    decreases rank[x]
  {
    forall c | c in kids[x]
      ensures c in Below(kids, rank, c)
      ensures forall y :: y in Below(kids, rank, c) ==> y in kids && rank[y] <= rank[c]
      ensures forall y, d :: y in Below(kids, rank, c) && y in kids && d in kids[y] ==> d in Below(kids, rank, c)
    {
      BelowClosed(kids, rank, c);
    }
    forall y, d | y in Below(kids, rank, x) && y in kids && d in kids[y] ensures d in Below(kids, rank, x) {
      if y == x {
        assert d in Below(kids, rank, d);
      } else {
        var c :| c in kids[x] && y in Below(kids, rank, c);
        assert d in Below(kids, rank, c);
      }
    }
  }

  /** A node below x, other than x, hangs under a parent that is below x too. */
  lemma {:induction false} BelowParent(kids: Kids, rank: map<XmlNode, nat>, x: XmlNode, y: XmlNode)
    requires Ranked(kids, rank) && x in kids && y in Below(kids, rank, x) && y != x
    ensures exists p :: p in Below(kids, rank, x) && p in kids && y in kids[p]
    decreases rank[x]
  {
    var c :| c in kids[x] && y in Below(kids, rank, c);
    BelowClosed(kids, rank, x);
    if y != c {
      BelowParent(kids, rank, c, y);
      var p :| p in Below(kids, rank, c) && p in kids && y in kids[p];
      assert p in Below(kids, rank, x);
    }
  }

  predicate AllowInsertChild(parent: Kind, child: Kind) {
    && (parent == KDocument || parent == KElement)
    && child != KDocument
    && (parent == KDocument || (child != KDeclaration && child != KDoctype))
  }

  /** Trees of any number of documents: every node but a document hangs under a node of its own document. */
  ghost predicate Housed(kids: Kids) {
    && (forall c :: c in kids && c.kind != KDocument ==> exists p :: p in kids && c in kids[p])
    && (forall p, c :: p in kids && c in kids[p] ==> c.kind != KDocument && c.document == p.document)
  }

  ghost predicate Allowed(kids: Kids, rank: map<XmlNode, nat>, parent: XmlNode?, child: XmlNode?)
    requires Ranked(kids, rank) && (child != null ==> child in kids)
  {
    && parent != null && child != null
    && AllowInsertChild(parent.kind, child.kind)
    && parent.document == child.document
    && parent !in Below(kids, rank, child)
  }

  /** `allow_move`: kinds fit, the document is the same, and the new parent is not inside the moved subtree. */
  method AllowMove(parent: XmlNode?, child: XmlNode?, ghost U: set<XmlNode>, ghost kids: Kids,
        ghost rank: map<XmlNode, nat>)
    returns (r: bool)
    requires Linked(U, kids) && Ranked(kids, rank)
    requires parent != null ==> parent in U
    requires child != null ==> child in U
    ensures r <==> Allowed(kids, rank, parent, child)
  {
    if parent == null || child == null || !AllowInsertChild(parent.kind, child.kind) {
      return false;
    }
    if parent.document != child.document {
      return false;
    }
    BelowClosed(kids, rank, child);
    var cur: XmlNode? := parent;
    ghost var left := U;
    while cur != null
      invariant cur != null ==> cur in U && (parent in Below(kids, rank, child) <==> cur in Below(kids, rank, child))
      invariant cur == null ==> parent !in Below(kids, rank, child)
      invariant left <= U && forall n :: n in U && cur != null && rank[n] >= rank[cur] ==> n in left
      decreases left
    {
      if cur == child {
        return false;
      }
      ClimbOnce(U, kids, rank, child, cur);
      ghost var here := cur;
      cur := cur.parent;
      left := left - {here};
    }
    r := true;
  }

  lemma ClimbOnce(U: set<XmlNode>, kids: Kids, rank: map<XmlNode, nat>, x: XmlNode, cur: XmlNode)
    requires Linked(U, kids) && Ranked(kids, rank) && x in U && cur in U && cur != x
    ensures cur.parent == null ==> cur !in Below(kids, rank, x)
    ensures cur.parent != null ==> cur.parent in U && rank[cur] < rank[cur.parent]
    ensures cur.parent != null ==> (cur in Below(kids, rank, x) <==> cur.parent in Below(kids, rank, x))
  {
    ListOf(U, kids, cur);
    RootFacts(ShapeOf(U), kids, cur);
    BelowClosed(kids, rank, x);
    if cur in Below(kids, rank, x) {
      BelowParent(kids, rank, x, cur);
      var p :| p in Below(kids, rank, x) && p in kids && cur in kids[p];
      ListOf(U, kids, p);
    }
  }

  // ----- the forest after a move

  ghost function KidsRemoved(kids: Kids, p: XmlNode, x: XmlNode): Kids
    requires p in kids && x in kids[p]
  {
    kids[p := RemoveAt(kids[p], PlaceOf(kids[p], x))]
  }

  lemma RemovedEdges(m: Shape, kids: Kids, p: XmlNode, x: XmlNode)
    requires Describes(m, kids) && p in kids && x in kids[p]
    ensures KidsRemoved(kids, p, x).Keys == kids.Keys
    ensures forall n, c :: n in kids ==> (c in KidsRemoved(kids, p, x)[n] <==> c in kids[n] && c != x)
  {
    KidsKeys(m, kids);
    var s, i := kids[p], PlaceOf(kids[p], x);
    ListParents(m, kids, p);
    ListNoRepeats(m, p, s);
    assert s == s[..i] + [x] + s[i + 1..];
    forall c ensures c in RemoveAt(s, i) <==> c in s && c != x {
      if c in RemoveAt(s, i) {
        var k :| 0 <= k < |RemoveAt(s, i)| && RemoveAt(s, i)[k] == c;
        assert c == if k < i then s[k] else s[k + 1];
      }
    }
    forall n | n in kids && n != p ensures x !in kids[n] {
      ListParents(m, kids, n);
      ListMembers(m, n, kids[n]);
      ListMembers(m, p, kids[p]);
    }
  }

  /** kids' are kids after x has moved under q. */
  ghost predicate EdgesMoved(kids: Kids, q: XmlNode, x: XmlNode, kids': Kids) {
    && kids'.Keys == kids.Keys && q in kids' && x in kids'[q]
    && (forall n, c :: n in kids' && c in kids'[n] ==> MovedEdge(kids, q, x, n, c))
    && (forall n, c :: n in kids && c in kids[n] && c != x ==> c in kids'[n])
  }

  lemma MovedEdges(m: Shape, kids: Kids, p: XmlNode, q: XmlNode, x: XmlNode, s': seq<XmlNode>)
    requires Describes(m, kids) && p in kids && x in kids[p] && q in kids
    requires forall c :: c in s' <==> c == x || c in KidsRemoved(kids, p, x)[q]
    ensures EdgesMoved(kids, q, x, KidsRemoved(kids, p, x)[q := s'])
  {
    hide Describes;
    RemovedEdges(m, kids, p, x);
    var kids1, kids' := KidsRemoved(kids, p, x), KidsRemoved(kids, p, x)[q := s'];
    forall n, c | n in kids' && c in kids'[n] ensures MovedEdge(kids, q, x, n, c) {
      assert n != q ==> kids'[n] == kids1[n];
      assert n in kids1.Keys && n in kids;
      if n != q || c != x {
        assert c in KidsRemoved(kids, p, x)[n];
      }
    }
    forall n, c | n in kids && c in kids[n] && c != x ensures c in kids'[n] {
      assert n != q ==> kids'[n] == kids1[n];
    }
  }

  /** Putting x under q, which is not below x, creates no cycle: everything outside the moved subtree ranks higher. */
  lemma MovedAcyclic(m: Shape, kids: Kids, rank: map<XmlNode, nat>, q: XmlNode, x: XmlNode, kids': Kids)
    requires Describes(m, kids) && Ranked(kids, rank) && q in kids && x in kids
    requires EdgesMoved(kids, q, x, kids') && q !in Below(kids, rank, x)
    ensures Acyclic(kids')
  {
    hide Below, Describes, Ranked, Acyclic;
    EdgesAcyclic(m, kids, rank, q, x, kids');
  }

  /** Moving a node inside its document leaves every node housed. */
  lemma MovedHoused(kids: Kids, q: XmlNode, x: XmlNode, kids': Kids)
    requires Housed(kids) && q in kids && EdgesMoved(kids, q, x, kids') && x.document == q.document &&
      x.kind != KDocument
    ensures Housed(kids')
  {
    forall c | c in kids' && c.kind != KDocument ensures exists r :: r in kids' && c in kids'[r] {
      var owner: XmlNode :| owner in kids && c in kids[owner];
      var r := if c == x then q else owner;
      assert r in kids' && c in kids'[r];
    }
    forall p, c | p in kids' && c in kids'[p] ensures c.kind != KDocument && c.document == p.document {
      assert MovedEdge(kids, q, x, p, c);
    }
  }

  /** The edge from q to x, or an old one that does not lead to x. */
  ghost predicate MovedEdge(kids: Kids, q: XmlNode, x: XmlNode, n: XmlNode, c: XmlNode) {
    (n == q && c == x) || (n in kids && c in kids[n] && c != x)
  }

  lemma EdgesAcyclic(m: Shape, kids: Kids, rank: map<XmlNode, nat>, q: XmlNode, x: XmlNode, kids': Kids)
    requires Describes(m, kids) && Ranked(kids, rank) && x in kids && q in kids && q !in Below(kids, rank, x)
    requires kids'.Keys == kids.Keys && forall n, c :: n in kids' && c in kids'[n] ==> MovedEdge(kids, q, x, n, c)
    ensures Acyclic(kids')
  {
    hide Below, Describes, Raised, Ranked, Lower, Acyclic;
    forall n, c | n in kids' && c in kids'[n] ensures c in kids' && Lower(Raised(kids, rank, x), c, n) {
      assert MovedEdge(kids, q, x, n, c);
      EdgeLifted(m, kids, rank, q, x, n, c);
    }
    LowerRanked(kids, kids', rank, x);
  }

  ghost predicate Lower(rank: map<XmlNode, nat>, c: XmlNode, n: XmlNode) {
    c in rank && n in rank && rank[c] < rank[n]
  }

  lemma LowerRanked(kids: Kids, kids': Kids, rank: map<XmlNode, nat>, x: XmlNode)
    requires Ranked(kids, rank) && x in kids && kids'.Keys == kids.Keys
    requires forall n, c :: n in kids' && c in kids'[n] ==> c in kids' && Lower(Raised(kids, rank, x), c, n)
    ensures Acyclic(kids')
  {
    hide Below;
    assert Ranked(kids', Raised(kids, rank, x));
  }

  lemma EdgeLifted(m: Shape, kids: Kids, rank: map<XmlNode, nat>, q: XmlNode, x: XmlNode, n: XmlNode, c: XmlNode)
    requires Describes(m, kids) && Ranked(kids, rank) && x in kids && n in kids && q in kids
    requires q !in Below(kids, rank, x) && ((n == q && c == x) || (c in kids[n] && c != x))
    ensures c in kids && Lower(Raised(kids, rank, x), c, n)
  {
    EdgeFacts(kids, rank, x, n, c);
    if c != x && c in Below(kids, rank, x) {
      OwnerBelow(m, kids, rank, x, n, c);
    }
    RaisedAt(kids, rank, x, n);
    RaisedAt(kids, rank, x, c);
    hide Below, Describes, Ranked, Raised;
  }

  lemma EdgeFacts(kids: Kids, rank: map<XmlNode, nat>, x: XmlNode, n: XmlNode, c: XmlNode)
    requires Ranked(kids, rank) && x in kids && n in kids
    ensures x in Below(kids, rank, x)
    ensures c in kids[n] ==> c in kids && rank[c] < rank[n]
    ensures c in kids[n] && n in Below(kids, rank, x) ==> c in Below(kids, rank, x)
    ensures c in kids && c in Below(kids, rank, x) ==> rank[c] <= rank[x]
  {
    BelowClosed(kids, rank, x);
  }

  lemma RaisedAt(kids: Kids, rank: map<XmlNode, nat>, x: XmlNode, n: XmlNode)
    requires Ranked(kids, rank) && x in kids
    ensures Raised(kids, rank, x).Keys == kids.Keys
    ensures n in kids ==> Raised(kids, rank, x)[n] == if n in Below(kids, rank, x) then rank[n]
      else rank[n] + rank[x] + 1
  {}

  /** Ranks with everything outside the subtree of x lifted above x. */
  ghost function Raised(kids: Kids, rank: map<XmlNode, nat>, x: XmlNode): map<XmlNode, nat>
    requires Ranked(kids, rank) && x in kids
  {
    map n | n in kids :: if n in Below(kids, rank, x) then rank[n] else rank[n] + rank[x] + 1
  }

  lemma OwnerBelow(m: Shape, kids: Kids, rank: map<XmlNode, nat>, x: XmlNode, n: XmlNode, c: XmlNode)
    requires Describes(m, kids) && Ranked(kids, rank) && x in kids && n in kids && c in kids[n]
    requires c in Below(kids, rank, x) && c != x
    ensures n in Below(kids, rank, x)
  {
    BelowParent(kids, rank, x, c);
    var o :| o in Below(kids, rank, x) && o in kids && c in kids[o];
    KidsKeys(m, kids);
    ListParents(m, kids, o);
    ListParents(m, kids, n);
    ListMembers(m, o, kids[o]);
    ListMembers(m, n, kids[n]);
  }

  /** A permitted move leaves x out of its old list and puts it where `place` says in the list of q. */
  datatype Place = Last | First | After(n: XmlNode) | Before(n: XmlNode)

  ghost predicate PlaceFits(s: seq<XmlNode>, place: Place) {
    match place case Last => true case First => true case After(n) => n in s case Before(n) => n in s
  }

  ghost function Put(s: seq<XmlNode>, place: Place, x: XmlNode): seq<XmlNode>
    requires PlaceFits(s, place)
  {
    match place
    case Last => s + [x]
    case First => [x] + s
    case After(n) => InsertAt(s, PlaceOf(s, n) + 1, x)
    case Before(n) => InsertAt(s, PlaceOf(s, n), x)
  }

  /** The child lists after moving x from p to q. */
  ghost function Moved(kids: Kids, p: XmlNode, q: XmlNode, x: XmlNode, place: Place): Kids
    requires p in kids && x in kids[p] && q in kids && PlaceFits(KidsRemoved(kids, p, x)[q], place)
  {
    var k := KidsRemoved(kids, p, x);
    k[q := Put(k[q], place, x)]
  }

  lemma PutMembers(s: seq<XmlNode>, place: Place, x: XmlNode)
    requires PlaceFits(s, place)
    ensures forall c :: c in Put(s, place, x) <==> c == x || c in s
  {}

  /** What a permitted move does to the trees as a whole. */
  lemma MoveSound(m: Shape, kids: Kids, rank: map<XmlNode, nat>, p: XmlNode, q: XmlNode, x: XmlNode, place: Place)
    requires Describes(m, kids) && Ranked(kids, rank) && Housed(kids) && p in kids && x in kids[p] && q in kids &&
      x in kids
    requires PlaceFits(KidsRemoved(kids, p, x)[q], place) && Allowed(kids, rank, q, x)
    ensures (var k := Moved(kids, p, q, x, place); Acyclic(k) && Housed(k) && k.Keys == kids.Keys)
  {
    hide Describes, Put, KidsRemoved, EdgesMoved, Acyclic, Housed, Ranked, Below, PlaceFits;
    RemovedEdges(m, kids, p, x);
    var s := KidsRemoved(kids, p, x)[q];
    PutMembers(s, place, x);
    MovedEdges(m, kids, p, q, x, Put(s, place, x));
    MovedAcyclic(m, kids, rank, q, x, Moved(kids, p, q, x, place));
    MovedHoused(kids, q, x, Moved(kids, p, q, x, place));
    SameNodes(kids, q, x, Moved(kids, p, q, x, place));
  }

  lemma SameNodes(kids: Kids, q: XmlNode, x: XmlNode, kids': Kids)
    requires EdgesMoved(kids, q, x, kids')
    ensures kids'.Keys == kids.Keys
  {}

  /** The outcome of a move request. */
  ghost predicate MoveDone(kids: Kids, kids': Kids, from: XmlNode?, target: XmlNode?, moved: XmlNode?, place: Place,
        r: XmlNode?) {
    r != null && r == moved && from != null && target != null && from in kids && target in kids &&
      moved in kids[from] &&
    PlaceFits(KidsRemoved(kids, from, moved)[target], place) && kids' == Moved(kids, from, target, moved, place)
  }

  /**
    `append_move`: refused exactly when not allowed, and then nothing changes; otherwise moved becomes the last child.
  */
  method AppendMove(target: XmlNode?, moved: XmlNode?, ghost U: set<XmlNode>, ghost kids: Kids,
      ghost rank: map<XmlNode, nat>) returns (r: XmlNode?, ghost kids': Kids)
    requires Linked(U, kids) && Ranked(kids, rank) && Housed(kids) && kids.Keys == U
    requires (target != null ==> target in U) && (moved != null ==> moved in U)
    modifies U`parent, U`firstChild, U`prevSiblingC, U`nextSibling
    ensures r == null <==> !Allowed(kids, rank, target, moved)
    ensures r == null ==> ShapeOf(U) == old(ShapeOf(U)) && kids' == kids
    ensures r != null ==> MoveDone(kids, kids', old(moved.parent), target, moved, Last, r)
    ensures Linked(U, kids') && Acyclic(kids') && Housed(kids') && kids'.Keys == U
  {
    kids' := kids;
    var allowed := AllowMove(target, moved, U, kids, rank);
    if !allowed { return null, kids'; }
    r, kids' := Relocate(target, moved, Last, U, kids, rank);
  }

  method PrependMove(target: XmlNode?, moved: XmlNode?, ghost U: set<XmlNode>, ghost kids: Kids,
      ghost rank: map<XmlNode, nat>) returns (r: XmlNode?, ghost kids': Kids)
    requires Linked(U, kids) && Ranked(kids, rank) && Housed(kids) && kids.Keys == U
    requires (target != null ==> target in U) && (moved != null ==> moved in U)
    modifies U`parent, U`firstChild, U`prevSiblingC, U`nextSibling
    ensures r == null <==> !Allowed(kids, rank, target, moved)
    ensures r == null ==> ShapeOf(U) == old(ShapeOf(U)) && kids' == kids
    ensures r != null ==> MoveDone(kids, kids', old(moved.parent), target, moved, First, r)
    ensures Linked(U, kids') && Acyclic(kids') && Housed(kids') && kids'.Keys == U
  {
    kids' := kids;
    var allowed := AllowMove(target, moved, U, kids, rank);
    if !allowed { return null, kids'; }
    r, kids' := Relocate(target, moved, First, U, kids, rank);
  }

  /** `insert_move_after` and `insert_move_before`: the reference node must be another child of the target. */
  method InsertMove(target: XmlNode?, moved: XmlNode?, node: XmlNode?, after: bool, ghost U: set<XmlNode>,
      ghost kids: Kids, ghost rank: map<XmlNode, nat>) returns (r: XmlNode?, ghost kids': Kids)
    requires Linked(U, kids) && Ranked(kids, rank) && Housed(kids) && kids.Keys == U
    requires (target != null ==> target in U) && (moved != null ==> moved in U) && (node != null ==> node in U)
    modifies U`parent, U`firstChild, U`prevSiblingC, U`nextSibling
    ensures r == null <==>
      !(Allowed(kids, rank, target, moved) && node != null && old(node.parent) == target && node != moved)
    ensures r == null ==> ShapeOf(U) == old(ShapeOf(U)) && kids' == kids
    ensures r != null ==>
      MoveDone(kids, kids', old(moved.parent), target, moved, if after then After(node) else Before(node), r)
    ensures Linked(U, kids') && Acyclic(kids') && Housed(kids') && kids'.Keys == U
  {
    kids' := kids;
    var allowed := AllowMove(target, moved, U, kids, rank);
    if !allowed { return null, kids'; }
    if node == null || node.parent != target { return null, kids'; }
    if moved == node { return null, kids'; }
    r, kids' := Relocate(target, moved, if after then After(node) else Before(node), U, kids, rank);
  }

  /** Removal followed by insertion, once the checks have passed. */
  method Relocate(target: XmlNode, moved: XmlNode, place: Place, ghost U: set<XmlNode>, ghost kids: Kids,
      ghost rank: map<XmlNode, nat>) returns (r: XmlNode?, ghost kids': Kids)
    requires Linked(U, kids) && Ranked(kids, rank) && Housed(kids) && kids.Keys == U && target in U && moved in U
    requires Allowed(kids, rank, target, moved)
    requires place.After? || place.Before? ==> place.n in U && place.n.parent == target && place.n != moved
    modifies U`parent, U`firstChild, U`prevSiblingC, U`nextSibling
    ensures MoveDone(kids, kids', old(moved.parent), target, moved, place, r)
    ensures Linked(U, kids') && Acyclic(kids') && Housed(kids') && kids'.Keys == U
  {
    hide Describes, Housed, Acyclic, Ranked, Below, IsList, Put, PlaceFits, KidsRemoved, Allowed, Linked;
    ghost var m, p := ShapeOf(U), moved.parent;
    Movable(U, kids, rank, target, moved);
    PlaceStays(m, kids, p, target, moved, place);
    MoveSound(m, kids, rank, p, target, moved, place);
    ghost var k := KidsRemoved(kids, p, moved);
    Unhook(moved, U, kids);
    InsertAtPlace(moved, target, place, U, k);
    kids' := Moved(kids, p, target, moved, place);
    r := moved;
  }

  method Unhook(node: XmlNode, ghost U: set<XmlNode>, ghost kids: Kids)
    requires Linked(U, kids) && node in U && node.parent != null && node.parent != node
    requires node.parent in kids && node in kids[node.parent]
    modifies U`parent, U`firstChild, U`prevSiblingC, U`nextSibling
    ensures Detached(node) && Linked(U, KidsRemoved(kids, old(node.parent), node))
  {
    RemoveNode(node, U, kids);
  }

  method InsertAtPlace(moved: XmlNode, target: XmlNode, place: Place, ghost U: set<XmlNode>, ghost k: Kids)
    requires Linked(U, k) && moved in U && target in U && target in k && moved != target && Detached(moved)
    requires PlaceFits(k[target], place) && (place.After? || place.Before? ==> place.n in U)
    modifies U`parent, U`firstChild, U`prevSiblingC, U`nextSibling
    ensures Linked(U, k[target := Put(k[target], place, moved)])
  {
    hide Linked;
    match place {
      case Last => AppendNode(moved, target, U, k);
      case First => PrependNode(moved, target, U, k);
      case After(n) =>
        StillChild(U, k, target, n);
        InsertNodeAfter(moved, n, U, k);
      case Before(n) =>
        StillChild(U, k, target, n);
        InsertNodeBefore(moved, n, U, k);
    }
  }

  lemma PlaceStays(m: Shape, kids: Kids, p: XmlNode, target: XmlNode, moved: XmlNode, place: Place)
    requires Describes(m, kids) && p in kids && moved in kids[p] && target in kids
    requires place.After? || place.Before? ==> place.n in m && m[place.n].parent == target && place.n != moved
    ensures target in KidsRemoved(kids, p, moved) && PlaceFits(KidsRemoved(kids, p, moved)[target], place)
  {
    RemovedEdges(m, kids, p, moved);
    KidsKeys(m, kids);
    ListParents(m, kids, target);
  }

  lemma StillChild(U: set<XmlNode>, k: Kids, target: XmlNode, n: XmlNode)
    requires Linked(U, k) && n in U && target in k && n in k[target]
    ensures n.parent == target
  {
    KidsKeys(ShapeOf(U), k);
    ListParents(ShapeOf(U), k, target);
  }

  /** A node that may be moved hangs somewhere, and not under itself. */
  lemma Movable(U: set<XmlNode>, kids: Kids, rank: map<XmlNode, nat>, target: XmlNode, moved: XmlNode)
    requires Linked(U, kids) && Ranked(kids, rank) && Housed(kids) && target in U && moved in U
    requires moved in kids && Allowed(kids, rank, target, moved)
    ensures moved.parent != null && moved.parent != moved && target != moved && Describes(ShapeOf(U), kids)
    ensures moved.parent in kids && moved in kids[moved.parent] && target in kids && moved in kids
  {
    var p: XmlNode :| p in kids && moved in kids[p];
    ListParents(ShapeOf(U), kids, p);
    RootFacts(ShapeOf(U), kids, moved);
    KidsKeys(ShapeOf(U), kids);
    BelowClosed(kids, rank, moved);
  }
}
