/** The rewriting pass run on every parsed query, and the proof that it never changes what a query means. */
module XPathOptimizer {
  import opened Bytes
  import opened Document
  import opened Axes
  import opened NodeSets
  import opened XPathSemantics
  import Translate

  // ----- position invariance

  predicate IsPosInvariant(e: Expr) {
    match e
    case Position => false
    case Last => false
    case Str(_) => true
    case Num(_) => true
    case Var(_, _) => true
    case Step(_, _, _, _) => true
    case Root => true
    case Filter(_, _, _) => true
    case Or(l, r) => IsPosInvariant(l) && IsPosInvariant(r)
    case And(l, r) => IsPosInvariant(l) && IsPosInvariant(r)
    case Cmp(_, l, r) => IsPosInvariant(l) && IsPosInvariant(r)
    case Union(l, r) => IsPosInvariant(l) && IsPosInvariant(r)
    case Id(l) => IsPosInvariant(l)
    case Count(l) => IsPosInvariant(l)
    case Sum(l) => IsPosInvariant(l)
    case Call(_, args) => ArgsPosInvariant(args)
    case TranslateCall(l, from, to) => IsPosInvariant(l) && IsPosInvariant(from) && IsPosInvariant(to)
    case TranslateTable(l, _) => IsPosInvariant(l)
    case AttributeEquals(_, r) => IsPosInvariant(r)
  }

  predicate ArgsPosInvariant(args: Args) {
    match args case NoArgs => true case Arg(e, next) => IsPosInvariant(e) && ArgsPosInvariant(next)
  }

  /** `is_posinv_step`: every predicate has been classified as position invariant. */
  predicate StepPosInvariant(ps: Preds) {
    match ps case NoPreds => true case Pred(_, cls, next) => cls == PosInvariant && StepPosInvariant(next)
  }

  /** Accepted expressions, and node-sets in general, do not depend on the context position or size. */
  lemma {:induction false} PosInvariantValue(w: World, e: Expr, n: XNode, i: nat, size: nat, j: nat, size': nat)
    requires ValidWorld(w) && Typed(w, e) && (IsPosInvariant(e) || ExprType(e) == TNodeSet)
    ensures Val(w, e, Ctx(n, i, size)) == Val(w, e, Ctx(n, j, size'))
    decreases e, 1
  {
    hide Val, ValidWorld, Typed, IsPosInvariant, ExprType;
    match e
    case Or(_, _) => PosInvariantPair(w, e, n, i, size, j, size');
    case And(_, _) => PosInvariantPair(w, e, n, i, size, j, size');
    case Cmp(_, _, _) => PosInvariantPair(w, e, n, i, size, j, size');
    case Union(_, _) => PosInvariantPair(w, e, n, i, size, j, size');
    case Filter(_, _, _) => PosInvariantPath(w, e, n, i, size, j, size');
    case Step(_, _, _, _) => PosInvariantPath(w, e, n, i, size, j, size');
    case Call(_, _) => PosInvariantCall(w, e, n, i, size, j, size');
    case TranslateCall(_, _, _) => PosInvariantCall(w, e, n, i, size, j, size');
    case _ => PosInvariantSingle(w, e, n, i, size, j, size');
  }

  lemma {:induction false} PosInvariantPair(w: World, e: Expr, n: XNode, i: nat, size: nat, j: nat, size': nat)
    requires ValidWorld(w) && Typed(w, e) && (IsPosInvariant(e) || ExprType(e) == TNodeSet)
    requires e.Or? || e.And? || e.Cmp? || e.Union?
    ensures Val(w, e, Ctx(n, i, size)) == Val(w, e, Ctx(n, j, size'))
    decreases e, 0
  {
    hide ValidWorld, Compare, ToBool, SetOf, TranslatedValue, AttributeHolds, StepNodes, Kept, KeptByAll, SumOf;
    PosInvariantValue(w, e.l, n, i, size, j, size');
    PosInvariantValue(w, e.r, n, i, size, j, size');
  }

  lemma {:induction false} PosInvariantPath(w: World, e: Expr, n: XNode, i: nat, size: nat, j: nat, size': nat)
    requires ValidWorld(w) && Typed(w, e) && (e.Filter? || e.Step?)
    ensures Val(w, e, Ctx(n, i, size)) == Val(w, e, Ctx(n, j, size'))
    decreases e, 0
  {
    hide ValidWorld, Compare, ToBool, SetOf, TranslatedValue, AttributeHolds, StepNodes, Kept, KeptByAll, SumOf;
    if e.Filter? {
      PosInvariantValue(w, e.l, n, i, size, j, size');
    } else if e.left.From? {
      PosInvariantValue(w, e.left.e, n, i, size, j, size');
    }
  }

  lemma {:induction false} PosInvariantCall(w: World, e: Expr, n: XNode, i: nat, size: nat, j: nat, size': nat)
    requires ValidWorld(w) && Typed(w, e) && (IsPosInvariant(e) || ExprType(e) == TNodeSet) &&
      (e.Call? || e.TranslateCall?)
    ensures Val(w, e, Ctx(n, i, size)) == Val(w, e, Ctx(n, j, size'))
    decreases e, 0
  {
    hide ValidWorld, Compare, ToBool, SetOf, TranslatedValue, AttributeHolds, StepNodes, Kept, KeptByAll, SumOf;
    if e.Call? {
      PosInvariantArgs(w, e.args, e.fn.params, n, i, size, j, size');
    } else {
      PosInvariantValue(w, e.l, n, i, size, j, size');
      PosInvariantValue(w, e.from, n, i, size, j, size');
      PosInvariantValue(w, e.to, n, i, size, j, size');
    }
  }

  lemma {:induction false} PosInvariantSingle(w: World, e: Expr, n: XNode, i: nat, size: nat, j: nat, size': nat)
    requires ValidWorld(w) && Typed(w, e) && (IsPosInvariant(e) || ExprType(e) == TNodeSet)
    requires !e.Or? && !e.And? && !e.Cmp? && !e.Union? && !e.Filter? && !e.Step? && !e.Call? && !e.TranslateCall?
    ensures Val(w, e, Ctx(n, i, size)) == Val(w, e, Ctx(n, j, size'))
    decreases e, 0
  {
    hide ValidWorld, Compare, ToBool, SetOf, TranslatedValue, AttributeHolds, StepNodes, Kept, KeptByAll, SumOf;
    if e.Count? || e.Sum? || e.TranslateTable? {
      PosInvariantValue(w, e.l, n, i, size, j, size');
    } else if e.AttributeEquals? {
      PosInvariantValue(w, e.r, n, i, size, j, size');
    }
  }

  lemma {:induction false} PosInvariantArgs(w: World, args: Args, params: seq<Param>, n: XNode,
      i: nat, size: nat, j: nat, size': nat)
    requires ValidWorld(w) && TypedArgs(w, args, params) && ArgsPosInvariant(args)
    ensures ArgVals(w, args, params, Ctx(n, i, size)) == ArgVals(w, args, params, Ctx(n, j, size'))
    decreases args
  {
    match args
    case NoArgs =>
    case Arg(e, next) =>
      PosInvariantValue(w, e, n, i, size, j, size');
      PosInvariantArgs(w, next, params[1..], n, i, size, j, size');
  }

  // ----- the rewrites

  /** [position() = e] becomes [e]. */
  function StripPosition(p: Expr): Expr {
    if p.Cmp? && p.op == Eq && p.l.Position? && ExprType(p.r) == TNumber then p.r else p
  }

  function Classify(p: Expr): PredClass {
    if p == Num(Fin(1.0)) then ConstantOne
    else if ExprType(p) == TNumber && (p.Num? || p.Var? || p.Last?) then Constant
    else if ExprType(p) != TNumber && IsPosInvariant(p) then PosInvariant
    else Default
  }

  /** descendant-or-self::node()/axis::T[preds] becomes one step when the predicates allow it. */
  function MergeDescendant(left: Left, axis: Axis, test: NodeTest, preds: Preds): Expr {
    if axis in {Child, Self, Descendant, DescendantOrSelf} && left.From? && left.e.Step? &&
       left.e.axis == DescendantOrSelf && left.e.test == AnyNode && left.e.preds.NoPreds? && StepPosInvariant(preds)
    then Step(left.e.left, if axis in {Child, Descendant} then Descendant else DescendantOrSelf, test, preds)
    else Step(left, axis, test, preds)
  }

  function UseTable(l: Expr, from: Expr, to: Expr): Expr {
    if from.Str? && to.Str? && Translate.Ascii(from.s, to.s) then TranslateTable(l, Translate.TableFor(from.s, to.s))
    else TranslateCall(l, from, to)
  }

  /** @name = 'text' (or a string variable) becomes a direct attribute lookup. */
  function UseAttributeLookup(op: CmpOp, l: Expr, r: Expr): Expr {
    if op == Eq && l.Step? && l.axis == Attributes && l.test.ByName? && l.left.NoLeft? && l.preds.NoPreds? &&
       (r.Str? || (r.Var? && r.ty == TString))
    then AttributeEquals(l.test.name, r)
    else Cmp(op, l, r)
  }

  /** Operands first, then the node itself. */
  function Optimize(e: Expr): Expr
    decreases e
  {
    match e
    case Or(l, r) => Or(Optimize(l), Optimize(r))
    case And(l, r) => And(Optimize(l), Optimize(r))
    case Cmp(op, l, r) => UseAttributeLookup(op, Optimize(l), Optimize(r))
    case Union(l, r) => Union(Optimize(l), Optimize(r))
    case Filter(l, p, _) => var p' := StripPosition(Optimize(p)); Filter(Optimize(l), p', Classify(p'))
    case Step(left, axis, test, preds) =>
      MergeDescendant(if left.NoLeft? then NoLeft else From(Optimize(left.e)), axis, test, OptimizePreds(preds))
    case Id(l) => Id(Optimize(l))
    case Count(l) => Count(Optimize(l))
    case Sum(l) => Sum(Optimize(l))
    case Call(fn, args) => Call(fn, OptimizeArgs(args))
    case TranslateCall(l, from, to) => UseTable(Optimize(l), Optimize(from), Optimize(to))
    case TranslateTable(l, t) => TranslateTable(Optimize(l), t)
    case _ => e
  }

  function OptimizePreds(ps: Preds): Preds
    decreases ps
  {
    match ps
    case NoPreds => NoPreds
    case Pred(p, _, next) => var p' := StripPosition(Optimize(p)); Pred(p', Classify(p'), OptimizePreds(next))
  }

  function OptimizeArgs(args: Args): Args
    decreases args
  {
    match args case NoArgs => NoArgs case Arg(e, next) => Arg(Optimize(e), OptimizeArgs(next))
  }

  /** Every class recorded in an expression is one the evaluator may rely on. */
  ghost predicate ClassHolds(p: Expr, cls: PredClass) {
    match cls
    case Default => true
    case ConstantOne => p == Num(Fin(1.0))
    case Constant => ExprType(p) == TNumber && (p.Num? || p.Var? || p.Last?)
    case PosInvariant => ExprType(p) != TNumber && IsPosInvariant(p)
  }

  ghost predicate Classified(e: Expr)
    decreases e
  {
    match e
    case Or(l, r) => Classified(l) && Classified(r)
    case And(l, r) => Classified(l) && Classified(r)
    case Cmp(_, l, r) => Classified(l) && Classified(r)
    case Union(l, r) => Classified(l) && Classified(r)
    case Filter(l, p, cls) => Classified(l) && Classified(p) && ClassHolds(p, cls)
    case Step(left, _, _, preds) => (left.From? ==> Classified(left.e)) && ClassifiedPreds(preds)
    case Id(l) => Classified(l)
    case Count(l) => Classified(l)
    case Sum(l) => Classified(l)
    case Call(_, args) => ClassifiedArgs(args)
    case TranslateCall(l, from, to) => Classified(l) && Classified(from) && Classified(to)
    case TranslateTable(l, _) => Classified(l)
    case AttributeEquals(_, r) => Classified(r)
    case _ => true
  }

  ghost predicate ClassifiedPreds(ps: Preds)
    decreases ps
  {
    match ps case NoPreds => true case Pred(p, cls, next) =>
      Classified(p) && ClassHolds(p, cls) && ClassifiedPreds(next)
  }

  ghost predicate ClassifiedArgs(args: Args)
    decreases args
  {
    match args case NoArgs => true case Arg(e, next) => Classified(e) && ClassifiedArgs(next)
  }

  // ----- soundness of the single rewrites

  lemma StripPositionSound(w: World, p: Expr, c: Ctx)
    requires ValidWorld(w) && Typed(w, p)
    ensures Typed(w, StripPosition(p))
    ensures PredHolds(Val(w, StripPosition(p), c), c.position) == PredHolds(Val(w, p, c), c.position)
  {
    hide Val, ValidWorld, Compare;
    if StripPosition(p) != p {
      ValTyped(w, p.r, c);
      CmpValue(w, Eq, Position, p.r, c);
      PositionValue(w, c);
      NumbersEqual(w, Fin(c.position as real), Val(w, p.r, c).n);
    }
  }

  lemma PositionValue(w: World, c: Ctx)
    ensures Val(w, Position, c) == VNum(Fin(c.position as real))
  {}

  lemma NumbersEqual(w: World, a: Number, b: Number)
    ensures Compare(w, Eq, VNum(a), VNum(b)) == NumEq(a, b)
  {}

  lemma {:induction false} KeptAgree(w: World, p: Expr, q: Expr, s: seq<XNode>, k: nat)
    requires k <= |s|
    requires forall c :: PredHolds(Val(w, p, c), c.position) == PredHolds(Val(w, q, c), c.position)
    ensures Kept(w, p, s, k) == Kept(w, q, s, k)
    decreases k
  {
    hide Val, PredHolds;
    if k == 0 {
    } else {
      KeptAgree(w, p, q, s, k - 1);
      var c := Ctx(s[k - 1], k, |s|);
      KeptStep(w, p, s, k);
      KeptStep(w, q, s, k);
      assert PredHolds(Val(w, p, c), c.position) == PredHolds(Val(w, q, c), c.position);
    }
  }

  lemma UseTableSound(w: World, l: Expr, from: Expr, to: Expr, c: Ctx)
    ensures Val(w, UseTable(l, from, to), c) == Val(w, TranslateCall(l, from, to), c)
  {
    hide Val, ToStr, Translate.Translated, Translate.TableTranslated, Translate.TableFor;
    if from.Str? && to.Str? && Translate.Ascii(from.s, to.s) {
      TranslateValue(w, l, from, to, c);
      TableValue(w, l, Translate.TableFor(from.s, to.s), c);
      StrValue(w, from.s, c);
      StrValue(w, to.s, c);
      Translate.TableAgrees(ToStr(w, Val(w, l, c)), from.s, to.s);
    }
  }

  /** The readings of @name that the rewriting may rely on. */
  ghost predicate OneNamed(w: World, name: bytes) {
    w.firstNamed || NameApart(w.doc, name)
  }

  /** The members of the node-set of @name without predicates. */
  lemma NamedAttributes(w: World, name: bytes, c: Ctx)
    requires ValidWorld(w)
    ensures var v := Val(w, Step(NoLeft, Attributes, ByName(name), NoPreds), c);
      v.VSet? && forall y :: y in v.ns <==> y in StepNodes(w, Attributes, ByName(name), c.n)
  {
    hide Val;
    var l := Step(NoLeft, Attributes, ByName(name), NoPreds);
    StepMembers(w, NoLeft, Attributes, ByName(name), NoPreds, c);
    assert Start(w, NoLeft, c) == {c.n};
    forall y ensures y in Val(w, l, c).ns <==> y in StepNodes(w, Attributes, ByName(name), c.n) {
      NoPredsKept(w, StepNodes(w, Attributes, ByName(name), c.n));
      assert y in SetOf(Val(w, l, c)) <==>
        exists x :: x in Start(w, NoLeft, c) && y in KeptByAll(w, NoPreds, StepNodes(w, Attributes, ByName(name), x));
      assert c.n in Start(w, NoLeft, c);
    }
  }

  /** The first member of the attribute axis by a name is the first attribute of that name. */
  lemma FirstOfName(d: Doc, name: bytes, i: int)
    requires d.WellFormed() && d.Has(i)
    ensures var full, k := StepFrom(d, Attributes, ByName(name), Node(i)), FirstNamed(d.Attrs(i), name);
      && (full == [] <==> !(IsXPathAttribute(name) && k < |d.Attrs(i)|))
      && (full != [] ==> full[0] == Attribute(i, k))
  {
    hide Doc.WellFormed, ChosenAttrs, IsXPathAttribute;
    var full, k := StepFrom(d, Attributes, ByName(name), Node(i)), FirstNamed(d.Attrs(i), name);
    HasMember(full);
    NamedMembers(d, name, i);
    if full != [] {
      assert full[0] in full;
      var j :| 0 <= j < |full| && full[j] == Attribute(i, k);
      assert j > 0 ==> Before(full[0], full[j]);
    }
  }

  lemma NamedMembers(d: Doc, name: bytes, i: int)
    requires d.Has(i)
    ensures var full, k := StepFrom(d, Attributes, ByName(name), Node(i)), FirstNamed(d.Attrs(i), name);
      && Ordered(false, full) && (full != [] ==> Attribute(i, k) in full)
      && (IsXPathAttribute(name) && k < |d.Attrs(i)| ==> Attribute(i, k) in full)
      && (forall y :: y in full ==>
        y.Attribute? && y.owner == i && k <= y.k && IsXPathAttribute(name) && k < |d.Attrs(i)|)
  {
    AttrNodesMeaning(d, ByName(name), i);
    HasMember(StepFrom(d, Attributes, ByName(name), Node(i)));
  }

  /** If one attribute is enough, it is the first of the name. */
  lemma FirstNamedOnly(w: World, name: bytes, i: int)
    requires ValidWorld(w) && OneNamed(w, name) && w.doc.Has(i)
    ensures var found, k := StepNodes(w, Attributes, ByName(name), Node(i)), FirstNamed(w.doc.Attrs(i), name);
      found == if IsXPathAttribute(name) && k < |w.doc.Attrs(i)| then [Attribute(i, k)] else []
  {
    FirstOfName(w.doc, name, i);
    if !w.firstNamed { NamedAttributeExact(w.doc, name, Node(i)); }
    hide AxisSeq, ValidWorld;
  }

  lemma LookupSound(w: World, l: Expr, r: Expr, c: Ctx)
    requires ValidWorld(w) && Typed(w, r) && AttributeStep(l) && OneNamed(w, l.test.name)
    requires r.Str? || (r.Var? && r.ty == TString)
    ensures Val(w, AttributeEquals(l.test.name, r), c) == Val(w, Cmp(Eq, l, r), c)
  {
    hide Val, StepNodes;
    ValTyped(w, r, c);
    var name, nodes := l.test.name, StepNodes(w, Attributes, ByName(l.test.name), c.n);
    LookupAgrees(w, name, r, c);
    assert l == Step(NoLeft, Attributes, ByName(name), NoPreds);
    if c.n.Node? && w.doc.Has(c.n.i) {
      FirstNamedOnly(w, name, c.n.i);
      var k := FirstNamed(w.doc.Attrs(c.n.i), name);
      assert nodes != [] ==> nodes == [Attribute(c.n.i, k)] && nodes[0] in nodes && ValidNode(w.doc, nodes[0]);
    } else {
      NoNamedElsewhere(w, name, c.n);
    }
  }

  lemma NoNamedElsewhere(w: World, name: bytes, x: XNode)
    requires ValidWorld(w) && !(x.Node? && w.doc.Has(x.i))
    ensures StepNodes(w, Attributes, ByName(name), x) == []
  {
    StepFromMembers(w.doc, Attributes, ByName(name), x);
    HasMember(StepFrom(w.doc, Attributes, ByName(name), x));
  }

  /** The lookup tests the first attribute of the name, the comparison any selected one. */
  lemma LookupAgrees(w: World, name: bytes, r: Expr, c: Ctx)
    requires ValidWorld(w) && Val(w, r, c).VStr?
    ensures Val(w, AttributeEquals(name, r), c) == VBool(AttributeHolds(w.doc, c.n, name, Val(w, r, c).s))
    ensures Val(w, Cmp(Eq, Step(NoLeft, Attributes, ByName(name), NoPreds), r), c)
      == VBool(exists y :: y in StepNodes(w, Attributes, ByName(name), c.n) && ValidNode(w.doc, y) && y.Attribute?
                           && w.doc.Attrs(y.owner)[y.k].value == Val(w, r, c).s)
  {
    var l := Step(NoLeft, Attributes, ByName(name), NoPreds);
    hide Val;
    NamedAttributes(w, name, c);
    CmpValue(w, Eq, l, r, c);
    AttributeEqualsValue(w, name, r, c);
    StepFromMembers(w.doc, Attributes, ByName(name), c.n);
    forall y | y in StepNodes(w, Attributes, ByName(name), c.n)
      ensures y.Attribute? && ValidNode(w.doc, y) && w.stringValue(y) == w.doc.Attrs(y.owner)[y.k].value
    {
      assert y in StepFrom(w.doc, Attributes, ByName(name), c.n);
    }
  }

  /** All attributes of that name on one element have the same value. */
  predicate SameValues(d: Doc, i: int, name: bytes)
    requires d.Has(i)
  {
    forall j, k :: 0 <= j < k < |d.Attrs(i)| && d.Attrs(i)[j].name == name && d.Attrs(i)[k].name == name ==>
      d.Attrs(i)[j].value == d.Attrs(i)[k].value
  }

  function CompareText(name: bytes, text: bytes): Expr {
    Cmp(Eq, Step(NoLeft, Attributes, ByName(name), NoPreds), Str(text))
  }

  /** What the two forms test on an element, in the reading of the standard. */
  lemma BothTests(w: World, name: bytes, i: int, position: nat, size: nat, text: bytes)
    requires ValidWorld(w) && !w.firstNamed && w.doc.Has(i) && IsXPathAttribute(name)
    ensures var c, attrs := Ctx(Node(i), position, size), w.doc.Attrs(i);
      && Val(w, AttributeEquals(name, Str(text)), c)
         == VBool(FirstNamed(attrs, name) < |attrs| && attrs[FirstNamed(attrs, name)].value == text)
      && Val(w, CompareText(name, text), c)
         == VBool(exists k :: 0 <= k < |attrs| && attrs[k].name == name && attrs[k].value == text)
  {
    var c, attrs := Ctx(Node(i), position, size), w.doc.Attrs(i);
    StrValue(w, text, c);
    LookupAgrees(w, name, Str(text), c);
    StepFromMembers(w.doc, Attributes, ByName(name), c.n);
    hide Val, AxisSeq, ValidWorld;
    if k :| 0 <= k < |attrs| && attrs[k].name == name && attrs[k].value == text {
      assert Attribute(i, k) in StepNodes(w, Attributes, ByName(name), c.n);
    }
  }

  /** In the reading of the standard the lookup is right for all texts exactly when repeated attributes agree. */
  lemma LookupExact(w: World, name: bytes, i: int, position: nat, size: nat)
    requires ValidWorld(w) && !w.firstNamed && w.doc.Has(i) && IsXPathAttribute(name)
    ensures SameValues(w.doc, i, name) <==>
      forall text: bytes :: Val(w, AttributeEquals(name, Str(text)), Ctx(Node(i), position, size))
        == Val(w, CompareText(name, text), Ctx(Node(i), position, size))
  {
    hide Val, ValidWorld, CompareText;
    var c, attrs := Ctx(Node(i), position, size), w.doc.Attrs(i);
    var first := FirstNamed(attrs, name);
    if SameValues(w.doc, i, name) {
      forall text: bytes ensures Val(w, AttributeEquals(name, Str(text)), c) == Val(w, CompareText(name, text), c) {
        BothTests(w, name, i, position, size, text);
        if k :| 0 <= k < |attrs| && attrs[k].name == name && attrs[k].value == text {
          assert first <= k && (first < k ==> attrs[first].value == attrs[k].value);
        }
      }
    } else {
      var j, k :| 0 <= j < k < |attrs| && attrs[j].name == name && attrs[k].name == name &&
        attrs[j].value != attrs[k].value;
      var other := if attrs[first].value == attrs[j].value then k else j;
      assert attrs[other].value != attrs[first].value;
      BothTests(w, name, i, position, size, attrs[other].value);
    }
  }

  /** On node i the comparison of the attribute with the text is true, and what it is rewritten to is false. */
  ghost predicate LookupLoses(w: World, i: int, name: bytes, text: bytes) {
    && Val(w, CompareText(name, text), Ctx(Node(i), 1, 1)) == VBool(true)
    && Val(w, Optimize(CompareText(name, text)), Ctx(Node(i), 1, 1)) == VBool(false)
  }

  lemma LookupMade(name: bytes, text: bytes)
    ensures Optimize(CompareText(name, text)) == AttributeEquals(name, Str(text))
  {
    var step := Step(NoLeft, Attributes, ByName(name), NoPreds);
    assert OptimizePreds(NoPreds) == NoPreds;
    assert Optimize(step) == step && Optimize(Str(text)) == Str(text);
  }

  lemma SecondValueLost(w: World, i: int, name: bytes, text: bytes)
    requires ValidWorld(w) && !w.firstNamed && w.doc.Has(i) && IsXPathAttribute(name) && |w.doc.Attrs(i)| > 1
    requires w.doc.Attrs(i)[0].name == w.doc.Attrs(i)[1].name == name
    requires w.doc.Attrs(i)[0].value != text == w.doc.Attrs(i)[1].value
    ensures LookupLoses(w, i, name, text)
  {
    hide Val, ValidWorld, Optimize;
    LookupMade(name, text);
    BothTests(w, name, i, 1, 1, text);
  }

  /** On <x a="1" a="2"/> that is the case for [@a='2']. */
  lemma RepeatedLookupLost()
    ensures RepeatedDoc().WellFormed() && ValidWorld(PlainWorld(RepeatedDoc(), false))
    ensures LookupLoses(PlainWorld(RepeatedDoc(), false), 1, [97], [50])
  {
    hide LookupLoses, ValidWorld;
    var doc, name := RepeatedDoc(), [97];
    PlainWorldValid(doc, false);
    assert doc.Attrs(1)[0] == Attr(name, [49]) && doc.Attrs(1)[1] == Attr(name, [50]);
    SecondValueLost(PlainWorld(doc, false), 1, name, [50]);
  }

  predicate AttributeStep(l: Expr) {
    l.Step? && l.axis == Attributes && l.test.ByName? && l.left.NoLeft? && l.preds.NoPreds?
  }

  /** With position-invariant predicates, filtering is a property of each node alone. */
  ghost predicate PassesAll(w: World, ps: Preds, y: XNode)
    decreases ps
  {
    match ps case NoPreds => true case Pred(p, _, next) => ToBool(Val(w, p, Ctx(y, 1, 1))) && PassesAll(w, next, y)
  }

  lemma {:induction false} KeptPosInvariant(w: World, p: Expr, s: seq<XNode>, k: nat)
    requires ValidWorld(w) && Typed(w, p) && ClassHolds(p, PosInvariant) && k <= |s|
    ensures forall y :: y in Kept(w, p, s, k) <==> y in s[..k] && ToBool(Val(w, p, Ctx(y, 1, 1)))
    decreases k
  {
    hide Val, ToBool, ValidWorld, Typed, IsPosInvariant, Kept;
    if k == 0 {
      NothingKept(w, p, s);
    } else {
      KeptStep(w, p, s, k);
      KeptPosInvariant(w, p, s, k - 1);
      assert s[..k] == s[..k - 1] + [s[k - 1]];
      PosInvariantValue(w, p, s[k - 1], k, |s|, 1, 1);
      ValTyped(w, p, Ctx(s[k - 1], k, |s|));
    }
  }

  lemma {:induction false} KeptByAllPosInvariant(w: World, ps: Preds, s: seq<XNode>)
    requires ValidWorld(w) && TypedPreds(w, ps) && ClassifiedPreds(ps) && StepPosInvariant(ps)
    ensures forall y :: y in KeptByAll(w, ps, s) <==> y in s && PassesAll(w, ps, y)
    decreases ps
  {
    match ps
    case NoPreds =>
    case Pred(p, _, next) =>
      KeptPosInvariant(w, p, s, |s|);
      assert s[..|s|] == s;
      KeptByAllPosInvariant(w, next, Kept(w, p, s, |s|));
  }

  /** One step to any node below, then the given axis, reaches what the merged axis reaches. */
  lemma MergedAxis(d: Doc, axis: Axis, test: NodeTest, x: XNode, y: XNode)
    requires d.WellFormed() && axis in {Child, Self, Descendant, DescendantOrSelf}
    ensures (exists z :: z in StepFrom(d, DescendantOrSelf, AnyNode, x) && y in StepFrom(d, axis, test, z)) <==>
      y in StepFrom(d, if axis in {Child, Descendant} then Descendant else DescendantOrSelf, test, x)
  {
    hide Doc.WellFormed, Selected, AxisSeq;
    var merged := if axis in {Child, Descendant} then Descendant else DescendantOrSelf;
    StepFromMembers(d, DescendantOrSelf, AnyNode, x);
    StepFromMembers(d, merged, test, x);
    if y in StepFrom(d, merged, test, x) {
      var z := Between(d, axis, test, x, y);
      StepFromMembers(d, axis, test, z);
      assert z in StepFrom(d, DescendantOrSelf, AnyNode, x) && y in StepFrom(d, axis, test, z);
    }
    forall z | z in StepFrom(d, DescendantOrSelf, AnyNode, x) && y in StepFrom(d, axis, test, z)
      ensures y in StepFrom(d, merged, test, x)
    {
      StepFromMembers(d, axis, test, z);
      MergedForward(d, axis, test, x, z, y);
    }
  }

  lemma StepFromMembers(d: Doc, axis: Axis, test: NodeTest, x: XNode)
    requires d.WellFormed()
    ensures forall y :: y in StepFrom(d, axis, test, x) <==> ValidNode(d, x) && Selected(d, axis, test, x, y)
  {
    if x == Null || ValidNode(d, x) {
      AxisSeqMeaning(d, axis, test, x);
    }
  }

  lemma MergedForward(d: Doc, axis: Axis, test: NodeTest, x: XNode, z: XNode, y: XNode)
    requires d.WellFormed() && axis in {Child, Self, Descendant, DescendantOrSelf}
    requires ValidNode(d, x) && Selected(d, DescendantOrSelf, AnyNode, x, z) && Selected(d, axis, test, z, y)
    ensures Selected(d, if axis in {Child, Descendant} then Descendant else DescendantOrSelf, test, x, y)
  {
    hide PassesNode, PassesAttr, Doc.WellFormed;
    if x.Node? && z.Node? && z.i > x.i {
      InnerEnd(d, x.i, z.i);
    }
    if z.Node? && y.Node? && y.i > 0 {
      RangeFacts(d, y.i);
    }
  }

  lemma InnerEnd(d: Doc, a: int, b: int)
    requires d.WellFormed() && d.Has(a) && d.Has(b) && a < b < d.End(a)
    ensures d.End(b) <= d.End(a)
  {}

  lemma Between(d: Doc, axis: Axis, test: NodeTest, x: XNode, y: XNode) returns (z: XNode)
    requires d.WellFormed() && axis in {Child, Self, Descendant, DescendantOrSelf} && ValidNode(d, x)
    requires Selected(d, if axis in {Child, Descendant} then Descendant else DescendantOrSelf, test, x, y)
    ensures ValidNode(d, z) && Selected(d, DescendantOrSelf, AnyNode, x, z) && Selected(d, axis, test, z, y)
  {
    if x.Node? { RangeFacts(d, x.i); }
    if axis == Child {
      OutsideSubtree(d, x.i, y.i);
      ParentFacts(d, y.i);
      z := Node(d.Parent(y.i));
    } else if axis == Self {
      z := y;
    } else {
      z := x;
    }
  }

  lemma ParentFacts(d: Doc, j: int)
    requires d.WellFormed() && 0 < j < d.Size()
    ensures d.Has(d.Parent(j)) && d.Parent(j) < j < d.End(d.Parent(j))
  {}

  /** Merging the two steps selects the same nodes, whatever set of nodes the path starts from. */
  lemma MergeSound(w: World, left: Left, axis: Axis, test: NodeTest, preds: Preds, c: Ctx)
    requires ValidWorld(w) && Typed(w, Step(left, axis, test, preds)) && ClassifiedPreds(preds)
    ensures Val(w, MergeDescendant(left, axis, test, preds), c) == Val(w, Step(left, axis, test, preds), c)
  {
    hide Val;
    var e := MergeDescendant(left, axis, test, preds);
    if e != Step(left, axis, test, preds) {
      var inner := left.e;
      var start := Start(w, inner.left, c);
      var middle := Start(w, left, c);
      StepMembers(w, inner.left, DescendantOrSelf, AnyNode, NoPreds, c);
      StepMembers(w, left, axis, test, preds, c);
      StepMembers(w, e.left, e.axis, test, preds, c);
      forall z ensures z in middle <==> exists x :: x in start && z in StepNodes(w, DescendantOrSelf, AnyNode, x) {
        forall x ensures KeptByAll(w, NoPreds, StepNodes(w, DescendantOrSelf, AnyNode, x)) ==
          StepNodes(w, DescendantOrSelf, AnyNode, x)
        {
          NoPredsKept(w, StepNodes(w, DescendantOrSelf, AnyNode, x));
        }
      }
      forall y ensures y in SetOf(Val(w, e, c)) <==> y in SetOf(Val(w, Step(left, axis, test, preds), c)) {
        MergePointwise(w, axis, e.axis, test, preds, start, middle, y);
      }
      assert e == Step(e.left, e.axis, test, preds);
      assert SetOf(Val(w, e, c)) == SetOf(Val(w, Step(left, axis, test, preds), c));
    }
  }

  lemma MergePointwise(w: World, axis: Axis, merged: Axis, test: NodeTest, preds: Preds,
      start: set<XNode>, middle: set<XNode>, y: XNode)
    requires ValidWorld(w) && TypedPreds(w, preds) && ClassifiedPreds(preds) && StepPosInvariant(preds)
    requires axis in {Child, Self, Descendant, DescendantOrSelf}
    requires merged == if axis in {Child, Descendant} then Descendant else DescendantOrSelf
    requires forall z :: z in middle <==> exists x :: x in start && z in StepNodes(w, DescendantOrSelf, AnyNode, x)
    ensures (exists x :: x in start && y in KeptByAll(w, preds, StepNodes(w, merged, test, x))) <==>
      (exists z :: z in middle && y in KeptByAll(w, preds, StepNodes(w, axis, test, z)))
  {
    hide ValidWorld, KeptByAll, PassesAll, StepNodes, ClassifiedPreds, TypedPreds, StepPosInvariant;
    if x :| x in start && y in KeptByAll(w, preds, StepNodes(w, merged, test, x)) {
      KeptByAllPosInvariant(w, preds, StepNodes(w, merged, test, x));
      var z := MergedBack(w, axis, merged, test, x, y);
      KeptByAllPosInvariant(w, preds, StepNodes(w, axis, test, z));
      assert z in middle && y in KeptByAll(w, preds, StepNodes(w, axis, test, z));
    }
    if z :| z in middle && y in KeptByAll(w, preds, StepNodes(w, axis, test, z)) {
      KeptByAllPosInvariant(w, preds, StepNodes(w, axis, test, z));
      var x :| x in start && z in StepNodes(w, DescendantOrSelf, AnyNode, x);
      MergedOn(w, axis, merged, test, x, z, y);
      KeptByAllPosInvariant(w, preds, StepNodes(w, merged, test, x));
      assert y in KeptByAll(w, preds, StepNodes(w, merged, test, x));
    }
  }

  /** What one merged step selects, the two steps select by way of some node. */
  lemma MergedBack(w: World, axis: Axis, merged: Axis, test: NodeTest, x: XNode, y: XNode) returns (z: XNode)
    requires ValidWorld(w) && axis in {Child, Self, Descendant, DescendantOrSelf} && y in StepNodes(w, merged, test, x)
    requires merged == if axis in {Child, Descendant} then Descendant else DescendantOrSelf
    ensures z in StepNodes(w, DescendantOrSelf, AnyNode, x) && y in StepNodes(w, axis, test, z)
  {
    hide StepFrom;
    MergedAxis(w.doc, axis, test, x, y);
    z :| z in StepFrom(w.doc, DescendantOrSelf, AnyNode, x) && y in StepFrom(w.doc, axis, test, z);
  }

  lemma MergedOn(w: World, axis: Axis, merged: Axis, test: NodeTest, x: XNode, z: XNode, y: XNode)
    requires ValidWorld(w) && axis in {Child, Self, Descendant, DescendantOrSelf}
    requires z in StepNodes(w, DescendantOrSelf, AnyNode, x) && y in StepNodes(w, axis, test, z)
    requires merged == if axis in {Child, Descendant} then Descendant else DescendantOrSelf
    ensures y in StepNodes(w, merged, test, x)
  {
    hide StepFrom;
    MergedAxis(w.doc, axis, test, x, y);
  }

  // ----- the pass as a whole

  /** The pass keeps types and records only classes that hold. */
  lemma {:induction false} OptimizeShape(w: World, e: Expr)
    requires ValidWorld(w) && Typed(w, e)
    ensures ExprType(Optimize(e)) == ExprType(e) && Typed(w, Optimize(e)) && Classified(Optimize(e))
    decreases e, 2
  {
    hide ValidWorld, Typed, Classified, Optimize, ExprType;
    match e
    case Or(_, _) => PairShape(w, e);
    case And(_, _) => PairShape(w, e);
    case Cmp(_, _, _) => PairShape(w, e);
    case Union(_, _) => PairShape(w, e);
    case Filter(_, _, _) => PathShape(w, e);
    case Step(_, _, _, _) => PathShape(w, e);
    case Call(_, _) => CallShape(w, e);
    case TranslateCall(_, _, _) => CallShape(w, e);
    case _ => SingleShape(w, e);
  }

  lemma {:induction false} PairShape(w: World, e: Expr)
    requires ValidWorld(w) && Typed(w, e) && (e.Or? || e.And? || e.Cmp? || e.Union?)
    ensures ExprType(Optimize(e)) == ExprType(e) && Typed(w, Optimize(e)) && Classified(Optimize(e))
    decreases e, 1
  {
    hide ValidWorld, UseTable, UseAttributeLookup, MergeDescendant, StripPosition, Classify, ClassHolds;
    OptimizeShape(w, e.l);
    OptimizeShape(w, e.r);
    if e.Cmp? { LookupShape(w, e.op, Optimize(e.l), Optimize(e.r)); }
  }

  lemma {:induction false} PathShape(w: World, e: Expr)
    requires ValidWorld(w) && Typed(w, e) && (e.Filter? || e.Step?)
    ensures ExprType(Optimize(e)) == ExprType(e) && Typed(w, Optimize(e)) && Classified(Optimize(e))
    decreases e, 1
  {
    hide ValidWorld, UseTable, UseAttributeLookup, MergeDescendant, StripPosition, Classify, ClassHolds;
    if e.Filter? {
      OptimizeShape(w, e.l);
      OptimizeShape(w, e.p);
      FilterShape(w, Optimize(e.l), Optimize(e.p));
    } else {
      StepShape(w, e.left, e.axis, e.test, e.preds);
    }
  }

  lemma {:induction false} CallShape(w: World, e: Expr)
    requires ValidWorld(w) && Typed(w, e) && (e.Call? || e.TranslateCall?)
    ensures ExprType(Optimize(e)) == ExprType(e) && Typed(w, Optimize(e)) && Classified(Optimize(e))
    decreases e, 1
  {
    hide ValidWorld, UseTable, UseAttributeLookup, MergeDescendant, StripPosition, Classify, ClassHolds;
    if e.Call? {
      OptimizeArgsShape(w, e.args, e.fn.params);
    } else {
      OptimizeShape(w, e.l);
      OptimizeShape(w, e.from);
      OptimizeShape(w, e.to);
      TableShape(w, Optimize(e.l), Optimize(e.from), Optimize(e.to));
    }
  }

  lemma {:induction false} SingleShape(w: World, e: Expr)
    requires ValidWorld(w) && Typed(w, e)
    requires !e.Or? && !e.And? && !e.Cmp? && !e.Union? && !e.Filter? && !e.Step? && !e.Call? && !e.TranslateCall?
    ensures ExprType(Optimize(e)) == ExprType(e) && Typed(w, Optimize(e)) && Classified(Optimize(e))
    decreases e, 1
  {
    hide ValidWorld, UseTable, UseAttributeLookup, MergeDescendant, StripPosition, Classify, ClassHolds;
    if e.Id? || e.Count? || e.Sum? || e.TranslateTable? {
      OptimizeShape(w, e.l);
    } else if e.AttributeEquals? {
      LeafClassified(e.r);
    }
  }

  lemma {:induction false} StepShape(w: World, left: Left, axis: Axis, test: NodeTest, preds: Preds)
    requires ValidWorld(w) && Typed(w, Step(left, axis, test, preds))
    ensures var e := Optimize(Step(left, axis, test, preds)); Typed(w, e) && Classified(e) && ExprType(e) == TNodeSet
    decreases Step(left, axis, test, preds), 0
  {
    hide ValidWorld;
    if left.From? { OptimizeShape(w, left.e); }
    OptimizePredsShape(w, preds);
    MergeShape(w, if left.NoLeft? then NoLeft else From(Optimize(left.e)), axis, test, OptimizePreds(preds));
  }

  lemma FilterShape(w: World, l: Expr, p: Expr)
    requires Typed(w, l) && Typed(w, p) && Classified(l) && Classified(p) && ExprType(l) == TNodeSet
    ensures var p' := StripPosition(p); Typed(w, Filter(l, p', Classify(p'))) && Classified(Filter(l, p', Classify(p')))
  {
    ClassifyHolds(w, p);
  }

  lemma TableShape(w: World, l: Expr, from: Expr, to: Expr)
    requires Typed(w, l) && Typed(w, from) && Typed(w, to) && Classified(l) && Classified(from) && Classified(to)
    ensures var e := UseTable(l, from, to); Typed(w, e) && Classified(e) && ExprType(e) == TString
  {
    hide UseTable;
    var e := UseTable(l, from, to);
    UseTableCases(l, from, to);
    if e.TranslateTable? {
      assert Typed(w, e) && Classified(e);
    } else {
      assert e == TranslateCall(l, from, to);
    }
  }

  lemma UseTableCases(l: Expr, from: Expr, to: Expr)
    ensures var e := UseTable(l, from, to); (e.TranslateTable? && e.l == l) || e == TranslateCall(l, from, to)
  {}

  lemma LookupShape(w: World, op: CmpOp, l: Expr, r: Expr)
    requires Typed(w, l) && Typed(w, r) && Classified(l) && Classified(r)
    ensures var e := UseAttributeLookup(op, l, r); Typed(w, e) && Classified(e) && ExprType(e) == TBoolean
  {}

  lemma MergeShape(w: World, left: Left, axis: Axis, test: NodeTest, preds: Preds)
    requires Typed(w, Step(left, axis, test, preds)) && Classified(Step(left, axis, test, preds))
    ensures var e := MergeDescendant(left, axis, test, preds); Typed(w, e) && Classified(e) && ExprType(e) == TNodeSet
  {}

  lemma LeafClassified(r: Expr)
    requires r.Str? || r.Var?
    ensures Classified(r)
  {}

  lemma ClassifyHolds(w: World, p: Expr)
    requires Typed(w, p) && Classified(p)
    ensures Typed(w, StripPosition(p)) && Classified(StripPosition(p))
    ensures ClassHolds(StripPosition(p), Classify(StripPosition(p)))
  {}

  lemma {:induction false} OptimizePredsShape(w: World, ps: Preds)
    requires ValidWorld(w) && TypedPreds(w, ps)
    ensures TypedPreds(w, OptimizePreds(ps)) && ClassifiedPreds(OptimizePreds(ps))
    decreases ps, 0
  {
    hide ValidWorld;
    match ps
    case NoPreds =>
    case Pred(p, _, next) =>
      OptimizeShape(w, p);
      ClassifyHolds(w, Optimize(p));
      OptimizePredsShape(w, next);
  }

  lemma {:induction false} OptimizeArgsShape(w: World, args: Args, params: seq<Param>)
    requires ValidWorld(w) && TypedArgs(w, args, params)
    ensures TypedArgs(w, OptimizeArgs(args), params) && ClassifiedArgs(OptimizeArgs(args))
    decreases args, 0
  {
    hide ValidWorld;
    match args
    case NoArgs =>
    case Arg(e, next) =>
      OptimizeShape(w, e);
      OptimizeArgsShape(w, next, params[1..]);
  }

  /** The optimizer preserves the value of every well-typed query in every context. */
  lemma {:induction false} OptimizeSound(w: World, e: Expr, c: Ctx)
    requires ValidWorld(w) && Typed(w, e) && (w.firstNamed || NamesApart(w.doc, e))
    ensures Val(w, Optimize(e), c) == Val(w, e, c)
    decreases e, 2
  {
    hide ValidWorld, Typed, NamesApart, Val, Optimize;
    match e
    case Or(_, _) => PairSound(w, e, c);
    case And(_, _) => PairSound(w, e, c);
    case Union(_, _) => PairSound(w, e, c);
    case Cmp(op, l, r) => CmpSound(w, op, l, r, c);
    case Filter(l, p, cls) => FilterSound(w, l, p, cls, c);
    case Step(left, axis, test, preds) => StepSound(w, left, axis, test, preds, c);
    case Call(_, _) => CallSound(w, e, c);
    case TranslateCall(_, _, _) => CallSound(w, e, c);
    case _ => SingleSound(w, e, c);
  }

  lemma {:induction false} PairSound(w: World, e: Expr, c: Ctx)
    requires ValidWorld(w) && Typed(w, e) && (w.firstNamed || NamesApart(w.doc, e)) && (e.Or? || e.And? || e.Union?)
    ensures Val(w, Optimize(e), c) == Val(w, e, c)
    decreases e, 1
  {
    hide ValidWorld, Compare, ToBool, SetOf, TranslatedValue, AttributeHolds, StepNodes, Kept, KeptByAll, SumOf;
    OptimizeSound(w, e.l, c);
    OptimizeSound(w, e.r, c);
  }

  lemma {:induction false} CallSound(w: World, e: Expr, c: Ctx)
    requires ValidWorld(w) && Typed(w, e) && (w.firstNamed || NamesApart(w.doc, e)) && (e.Call? || e.TranslateCall?)
    ensures Val(w, Optimize(e), c) == Val(w, e, c)
    decreases e, 1
  {
    hide ValidWorld, Compare, ToBool, SetOf, TranslatedValue, AttributeHolds, StepNodes, Kept, KeptByAll, SumOf;
    hide UseTable;
    if e.Call? {
      ArgsSound(w, e.args, e.fn.params, c);
    } else {
      OptimizeSound(w, e.l, c);
      OptimizeSound(w, e.from, c);
      OptimizeSound(w, e.to, c);
      UseTableSound(w, Optimize(e.l), Optimize(e.from), Optimize(e.to), c);
      TranslateValue(w, e.l, e.from, e.to, c);
      TranslateValue(w, Optimize(e.l), Optimize(e.from), Optimize(e.to), c);
    }
  }

  lemma {:induction false} SingleSound(w: World, e: Expr, c: Ctx)
    requires ValidWorld(w) && Typed(w, e) && (w.firstNamed || NamesApart(w.doc, e))
    requires !e.Or? && !e.And? && !e.Cmp? && !e.Union? && !e.Filter? && !e.Step? && !e.Call? && !e.TranslateCall?
    ensures Val(w, Optimize(e), c) == Val(w, e, c)
    decreases e, 1
  {
    hide ValidWorld, Compare, ToBool, SetOf, TranslatedValue, AttributeHolds, StepNodes, Kept, KeptByAll, SumOf;
    if e.Count? || e.Sum? || e.TranslateTable? {
      OptimizeSound(w, e.l, c);
    }
  }

  lemma StillAttributeStep(l: Expr)
    requires AttributeStep(Optimize(l))
    ensures l.Step? && l.axis == Attributes && l.test == Optimize(l).test
  {}

  lemma {:induction false} CmpSound(w: World, op: CmpOp, l: Expr, r: Expr, c: Ctx)
    requires ValidWorld(w) && Typed(w, Cmp(op, l, r)) && (w.firstNamed || NamesApart(w.doc, Cmp(op, l, r)))
    ensures Val(w, Optimize(Cmp(op, l, r)), c) == Val(w, Cmp(op, l, r), c)
    decreases Cmp(op, l, r), 1
  {
    hide ValidWorld, Val, Compare, AttributeHolds;
    OptimizeSound(w, l, c);
    OptimizeSound(w, r, c);
    OptimizeShape(w, r);
    var l', r' := Optimize(l), Optimize(r);
    CmpValue(w, op, l, r, c);
    CmpValue(w, op, l', r', c);
    if UseAttributeLookup(op, l', r').AttributeEquals? {
      StillAttributeStep(l);
      LookupSound(w, l', r', c);
    }
  }

  lemma {:induction false} FilterSound(w: World, l: Expr, p: Expr, cls: PredClass, c: Ctx)
    requires ValidWorld(w) && Typed(w, Filter(l, p, cls)) && (w.firstNamed || NamesApart(w.doc, Filter(l, p, cls)))
    ensures Val(w, Optimize(Filter(l, p, cls)), c) == Val(w, Filter(l, p, cls), c)
    decreases Filter(l, p, cls), 1
  {
    OptimizeSound(w, l, c);
    PredSound(w, p);
    var s := InDocumentOrder(SetOf(Val(w, l, c)));
    KeptAgree(w, p, StripPosition(Optimize(p)), s, |s|);
  }

  lemma {:induction false} PredSound(w: World, p: Expr)
    requires ValidWorld(w) && Typed(w, p) && (w.firstNamed || NamesApart(w.doc, p))
    ensures forall c ::
      PredHolds(Val(w, StripPosition(Optimize(p)), c), c.position) == PredHolds(Val(w, p, c), c.position)
    decreases p, 3
  {
    OptimizeShape(w, p);
    forall c ensures PredHolds(Val(w, StripPosition(Optimize(p)), c), c.position) ==
      PredHolds(Val(w, p, c), c.position) {
      OptimizeSound(w, p, c);
      StripPositionSound(w, Optimize(p), c);
    }
  }

  lemma {:induction false} PredsSound(w: World, ps: Preds, s: seq<XNode>)
    requires ValidWorld(w) && TypedPreds(w, ps) && (w.firstNamed || NamesApartPreds(w.doc, ps))
    ensures KeptByAll(w, OptimizePreds(ps), s) == KeptByAll(w, ps, s)
    decreases ps, 1
  {
    match ps
    case NoPreds =>
    case Pred(p, _, next) =>
      PredSound(w, p);
      KeptAgree(w, p, StripPosition(Optimize(p)), s, |s|);
      PredsSound(w, next, Kept(w, p, s, |s|));
  }

  lemma {:induction false} StepSound(w: World, left: Left, axis: Axis, test: NodeTest, preds: Preds, c: Ctx)
    requires ValidWorld(w) && Typed(w, Step(left, axis, test, preds))
    requires w.firstNamed || NamesApart(w.doc, Step(left, axis, test, preds))
    ensures Val(w, Optimize(Step(left, axis, test, preds)), c) == Val(w, Step(left, axis, test, preds), c)
    decreases Step(left, axis, test, preds), 1
  {
    var left' := if left.NoLeft? then NoLeft else From(Optimize(left.e));
    var preds' := OptimizePreds(preds);
    if left.From? {
      OptimizeSound(w, left.e, c);
      OptimizeShape(w, left.e);
    }
    OptimizePredsShape(w, preds);
    MergeSound(w, left', axis, test, preds', c);
    forall x ensures KeptByAll(w, preds', StepNodes(w, axis, test, x)) ==
      KeptByAll(w, preds, StepNodes(w, axis, test, x)) {
      PredsSound(w, preds, StepNodes(w, axis, test, x));
    }
    SameSelections(w, left, left', axis, test, preds, preds', c);
  }

  lemma SameSelections(w: World, left: Left, left': Left, axis: Axis, test: NodeTest, preds: Preds, preds': Preds,
        c: Ctx)
    requires Start(w, left, c) == Start(w, left', c)
    requires forall x ::
      KeptByAll(w, preds', StepNodes(w, axis, test, x)) == KeptByAll(w, preds, StepNodes(w, axis, test, x))
    ensures Val(w, Step(left', axis, test, preds'), c) == Val(w, Step(left, axis, test, preds), c)
  {
    hide Val;
    StepMembers(w, left, axis, test, preds, c);
    StepMembers(w, left', axis, test, preds', c);
    assert SetOf(Val(w, Step(left', axis, test, preds'), c)) == SetOf(Val(w, Step(left, axis, test, preds), c));
  }

  lemma {:induction false} ArgsSound(w: World, args: Args, params: seq<Param>, c: Ctx)
    requires ValidWorld(w) && TypedArgs(w, args, params) && (w.firstNamed || NamesApartArgs(w.doc, args))
    ensures ArgVals(w, OptimizeArgs(args), params, c) == ArgVals(w, args, params, c)
    decreases args, 1
  {
    match args
    case NoArgs =>
    case Arg(e, next) =>
      OptimizeSound(w, e, c);
      ArgsSound(w, next, params[1..], c);
  }
}
