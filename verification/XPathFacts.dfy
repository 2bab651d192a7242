/**
  What expressions mean, in the words of sections 2.4, 3.3, 3.4, 4.1, 4.2 and 4.3 of XPath 1.0: proximity positions by
  counting, conversions and comparisons case by case.
*/
module XPathFacts {
  import opened Basics
  import opened Bytes
  import opened Document
  import opened Axes
  import opened NodeSets
  import opened XPathSemantics
  import XPathEval

  // ----- predicates

  /** The members of S in front of y in document order, or behind it in reverse. */
  ghost function InFront(S: set<XNode>, y: XNode, reverse: bool): set<XNode> {
    set z | z in S && if reverse then Before(y, z) else Before(z, y)
  }

  /** A number is compared with the proximity position, anything else is a truth value. */
  ghost predicate HoldsAt(v: Value, n: nat) {
    match v
    case VNum(x) => x.Fin? && x.r == n as real
    case VBool(b) => b
    case VStr(s) => |s| > 0
    case VSet(S) => |S| > 0
  }

  lemma {:induction false} MembersCount(s: seq<XNode>)
    requires NoRepeats(s)
    ensures |Members(s)| == |s|
    decreases |s|
  {
    if s == [] {
    } else {
      var n := |s| - 1;
      MembersCount(s[..n]);
      assert Members(s) == Members(s[..n]) + {s[n]};
    }
  }

  lemma InPrefix(s: seq<XNode>, i: nat, k: nat)
    requires NoRepeats(s) && i <= |s| && k < |s|
    ensures s[k] in s[..i] <==> k < i
  {
    if k < i { assert s[..i][k] == s[k]; }
  }

  /** The place of a node in an ordered list is the number of nodes in front of it. */
  lemma IndexIsCount(s: seq<XNode>, reverse: bool, i: nat)
    requires Ordered(reverse, s) && i < |s|
    ensures NoRepeats(s) && |InFront(Members(s), s[i], reverse)| == i
  {
    forall j, k | 0 <= j < k < |s| ensures s[j] != s[k] {
      assert if reverse then Before(s[k], s[j]) else Before(s[j], s[k]);
    }
    MembersCount(s[..i]);
    forall z | z in Members(s) ensures z in Members(s[..i]) <==> if reverse then Before(s[i], z) else Before(z, s[i]) {
      var k :| 0 <= k < |s| && s[k] == z;
      InPrefix(s, i, k);
    }
    assert InFront(Members(s), s[i], reverse) == Members(s[..i]);
  }

  lemma {:induction false} KeptAt(w: World, p: Expr, s: seq<XNode>, k: nat, i: nat)
    requires NoRepeats(s) && k <= |s| && i < |s|
    ensures s[i] in Kept(w, p, s, k) <==> i < k && HoldsAt(Val(w, p, Ctx(s[i], i + 1, |s|)), i + 1)
    decreases k
  {
    hide Val, Kept;
    if k == 0 {
      NothingKept(w, p, s);
    } else {
      KeptStep(w, p, s, k);
      KeptAt(w, p, s, k - 1, i);
      HoldsAtIs(Val(w, p, Ctx(s[k - 1], k, |s|)), k);
    }
  }

  lemma HoldsAtIs(v: Value, n: nat)
    ensures PredHolds(v, n) <==> HoldsAt(v, n)
  {
    if v.VSet? && v.ns != {} { assert |v.ns| > 0; }
  }

  /** What is kept of an ordered list, each node tested at its proximity position. */
  lemma KeptByPosition(w: World, p: Expr, s: seq<XNode>, reverse: bool, y: XNode)
    requires Ordered(reverse, s)
    ensures y in Kept(w, p, s, |s|) <==>
      (y in Members(s) && var n := |InFront(Members(s), y, reverse)| + 1; HoldsAt(Val(w, p, Ctx(y, n, |s|)), n))
    ensures |Members(s)| == |s|
  {
    hide Val, Kept, HoldsAt, InFront;
    OrderedDistinct(s, reverse);
    MembersCount(s);
    KeptSubset(w, p, s, |s|);
    assert s[..|s|] == s;
    if y in s {
      var i :| 0 <= i < |s| && s[i] == y;
      IndexIsCount(s, reverse, i);
      KeptAt(w, p, s, |s|, i);
    }
  }

  lemma OrderedDistinct(s: seq<XNode>, reverse: bool)
    requires Ordered(reverse, s)
    ensures NoRepeats(s)
  {
    if s != [] { IndexIsCount(s, reverse, 0); }
  }

  predicate LeadsBack(axis: Axis) {
    axis == Ancestor || axis == AncestorOrSelf || axis == Preceding || axis == PrecedingSibling
  }

  /**
    A predicate of a step keeps the nodes for which it holds, with the proximity position counted in document order, or
    in reverse document order on the axes that lead back, and the number of all selected nodes as the size.
  */
  lemma StepPredicate(w: World, axis: Axis, test: NodeTest, p: Expr, cls: PredClass, c: Ctx, y: XNode)
    requires w.doc.WellFormed() && ValidNode(w.doc, c.n) && !(w.firstNamed && axis == Attributes && test.ByName?)
    ensures (var S := Members(AxisSeq(w.doc, axis, test, c.n));
             y in SetOf(Val(w, Step(NoLeft, axis, test, Pred(p, cls, NoPreds)), c)) <==>
               (y in S && var n := |InFront(S, y, LeadsBack(axis))| + 1; HoldsAt(Val(w, p, Ctx(y, n, |S|)), n)))
  {
    hide Val, Kept, HoldsAt, InFront, AxisSeq, KeptByAll, Members;
    var s := AxisSeq(w.doc, axis, test, c.n);
    OneStep(w, axis, test, p, cls, c, y);
    AxisSeqMeaning(w.doc, axis, test, c.n);
    KeptByPosition(w, p, s, LeadsBack(axis), y);
  }

  lemma OneStep(w: World, axis: Axis, test: NodeTest, p: Expr, cls: PredClass, c: Ctx, y: XNode)
    requires ValidNode(w.doc, c.n) && !(w.firstNamed && axis == Attributes && test.ByName?)
    ensures (var s := AxisSeq(w.doc, axis, test, c.n);
             y in SetOf(Val(w, Step(NoLeft, axis, test, Pred(p, cls, NoPreds)), c)) <==> y in Kept(w, p, s, |s|))
  {
    hide Val, Kept, AxisSeq, KeptByAll;
    StepMembers(w, NoLeft, axis, test, Pred(p, cls, NoPreds), c);
    var s := AxisSeq(w.doc, axis, test, c.n);
    OnePredicate(w, p, cls, s);
    assert Start(w, NoLeft, c) == {c.n} && StepNodes(w, axis, test, c.n) == s;
  }

  lemma OnePredicate(w: World, p: Expr, cls: PredClass, s: seq<XNode>)
    ensures KeptByAll(w, Pred(p, cls, NoPreds), s) == Kept(w, p, s, |s|)
  {
    hide Kept;
    NoPredsKept(w, Kept(w, p, s, |s|));
  }

  /** The same predicates with one more behind them. */
  function Append(ps: Preds, q: Expr): Preds {
    match ps case NoPreds => Pred(q, Default, NoPreds) case Pred(p, cls, next) => Pred(p, cls, Append(next, q))
  }

  lemma {:induction false} KeptByOneMore(w: World, ps: Preds, q: Expr, s: seq<XNode>)
    ensures (var r := KeptByAll(w, ps, s); KeptByAll(w, Append(ps, q), s) == Kept(w, q, r, |r|))
    decreases ps
  {
    hide Kept;
    match ps
    case NoPreds => OnePredicate(w, q, Default, s);
    case Pred(p, _, next) => KeptByOneMore(w, next, q, Kept(w, p, s, |s|));
  }

  lemma StepKeeps(w: World, axis: Axis, test: NodeTest, preds: Preds, c: Ctx)
    requires ValidNode(w.doc, c.n) && !(w.firstNamed && axis == Attributes && test.ByName?)
    ensures SetOf(Val(w, Step(NoLeft, axis, test, preds), c)) ==
      Members(KeptByAll(w, preds, AxisSeq(w.doc, axis, test, c.n)))
  {
    hide Val, AxisSeq, KeptByAll;
    StepMembers(w, NoLeft, axis, test, preds, c);
    assert Start(w, NoLeft, c) == {c.n} && StepNodes(w, axis, test, c.n) == AxisSeq(w.doc, axis, test, c.n);
  }

  /** Any number of predicates: each next one counts among the nodes that those in front of it have left. */
  lemma NextPredicate(w: World, axis: Axis, test: NodeTest, preds: Preds, q: Expr, c: Ctx, y: XNode)
    requires w.doc.WellFormed() && ValidNode(w.doc, c.n) && !(w.firstNamed && axis == Attributes && test.ByName?)
    ensures (var S := SetOf(Val(w, Step(NoLeft, axis, test, preds), c));
             y in SetOf(Val(w, Step(NoLeft, axis, test, Append(preds, q)), c)) <==>
               (y in S && var n := |InFront(S, y, LeadsBack(axis))| + 1; HoldsAt(Val(w, q, Ctx(y, n, |S|)), n)))
  {
    hide Val, Kept, HoldsAt, InFront, AxisSeq, KeptByAll, Members;
    var s := AxisSeq(w.doc, axis, test, c.n);
    AxisSeqMeaning(w.doc, axis, test, c.n);
    XPathEval.KeptByAllOrdered(w, preds, s, LeadsBack(axis));
    KeptByOneMore(w, preds, q, s);
    StepKeeps(w, axis, test, preds, c);
    StepKeeps(w, axis, test, Append(preds, q), c);
    var r := KeptByAll(w, preds, s);
    KeptByPosition(w, q, r, LeadsBack(axis), y);
    MembersAre(Kept(w, q, r, |r|), y);
  }

  lemma MembersAre(s: seq<XNode>, y: XNode)
    ensures y in Members(s) <==> y in s
  {}

  /** A step behind another expression is made from each of its nodes by itself. */
  lemma StepFromEach(w: World, l: Expr, axis: Axis, test: NodeTest, preds: Preds, c: Ctx, y: XNode)
    ensures y in SetOf(Val(w, Step(From(l), axis, test, preds), c)) <==>
      exists x :: x in SetOf(Val(w, l, c)) && y in SetOf(Val(w, Step(NoLeft, axis, test, preds), Ctx(x, 1, 1)))
  {
    hide Val, KeptByAll, StepNodes;
    StepMembers(w, From(l), axis, test, preds, c);
    forall x
      ensures y in SetOf(Val(w, Step(NoLeft, axis, test, preds), Ctx(x, 1, 1))) <==>
        y in KeptByAll(w, preds, StepNodes(w, axis, test, x))
    {
      StepMembers(w, NoLeft, axis, test, preds, Ctx(x, 1, 1));
    }
  }

  /** A predicate of a filter expression counts in document order. */
  lemma FilterPredicate(w: World, l: Expr, p: Expr, cls: PredClass, c: Ctx, y: XNode)
    ensures (var S := SetOf(Val(w, l, c));
             y in SetOf(Val(w, Filter(l, p, cls), c)) <==>
               (y in S && var n := |InFront(S, y, false)| + 1; HoldsAt(Val(w, p, Ctx(y, n, |S|)), n)))
  {
    var S := SetOf(Val(w, l, c));
    var s := InDocumentOrder(S);
    FilterValue(w, l, p, cls, c, y);
    hide Val, Kept, HoldsAt, InFront, InDocumentOrder;
    assert Members(s) == S;
    KeptByPosition(w, p, s, false, y);
  }

  lemma FilterValue(w: World, l: Expr, p: Expr, cls: PredClass, c: Ctx, y: XNode)
    ensures (var s := InDocumentOrder(SetOf(Val(w, l, c)));
             y in SetOf(Val(w, Filter(l, p, cls), c)) <==> y in Kept(w, p, s, |s|))
  {}

  // ----- operators

  /** boolean() of each type of value. */
  ghost predicate Truth(v: Value) {
    match v
    case VBool(b) => b
    case VNum(n) => n == PosInf || n == NegInf || (n.Fin? && n.r != 0.0)
    case VStr(s) => |s| > 0
    case VSet(S) => exists x :: x in S
  }

  lemma TruthIs(v: Value)
    ensures ToBool(v) <==> Truth(v)
  {}

  lemma ConnectiveValues(w: World, l: Expr, r: Expr, c: Ctx)
    ensures Val(w, Or(l, r), c) == VBool(Truth(Val(w, l, c)) || Truth(Val(w, r, c)))
    ensures Val(w, And(l, r), c) == VBool(Truth(Val(w, l, c)) && Truth(Val(w, r, c)))
  {
    TruthIs(Val(w, l, c));
    TruthIs(Val(w, r, c));
  }

  lemma UnionValue(w: World, l: Expr, r: Expr, c: Ctx, y: XNode)
    ensures y in SetOf(Val(w, Union(l, r), c)) <==> y in SetOf(Val(w, l, c)) || y in SetOf(Val(w, r, c))
  {}

  lemma SetValues(w: World, l: Expr, c: Ctx, y: XNode)
    ensures Val(w, Count(l), c) == VNum(Fin(|SetOf(Val(w, l, c))| as real))
    ensures y in SetOf(Val(w, Root, c)) <==> c.n != Null && y == Node(0)
  {}

  lemma ContextValues(w: World, c: Ctx, s: bytes, n: Number)
    ensures Val(w, Position, c) == VNum(Fin(c.position as real)) && Val(w, Last, c) == VNum(Fin(c.size as real))
    ensures Val(w, Str(s), c) == VStr(s) && Val(w, Num(n), c) == VNum(n)
  {}

  /** string() of each type of value: for a node-set, the string-value of its first node in document order. */
  lemma Texts(w: World, n: Number, s: bytes, S: set<XNode>, x: XNode)
    ensures ToStr(w, VBool(true)) == [116, 114, 117, 101] && ToStr(w, VBool(false)) == [102, 97, 108, 115, 101]
    ensures ToStr(w, VNum(n)) == w.toText(n) && ToStr(w, VStr(s)) == s && ToStr(w, VSet({})) == []
    ensures x in S && (forall y :: y in S && y != x ==> Before(x, y)) ==> ToStr(w, VSet(S)) == w.stringValue(x)
  {
    if x in S && forall y :: y in S && y != x ==> Before(x, y) {
      DocLessTotal();
      assert First(S) in S && IsFirst(First(S), S);
      assert First(S) != x ==> Before(x, First(S)) && Before(First(S), x);
    }
  }

  /** number() of each type of value. */
  lemma Numbers(w: World, n: Number, s: bytes, S: set<XNode>)
    ensures ToNum(w, VBool(true)) == Fin(1.0) && ToNum(w, VBool(false)) == Fin(0.0) && ToNum(w, VNum(n)) == n
    ensures ToNum(w, VStr(s)) == w.toNumber(s) && ToNum(w, VSet(S)) == w.toNumber(ToStr(w, VSet(S)))
  {}

  // ----- sum()

  /** Addition of numbers: an undefined operand or infinities of both signs give an undefined result. */
  lemma Sums(x: real, y: real, n: Number)
    ensures Plus(Fin(x), Fin(y)) == Fin(x + y) && Plus(n, NaN) == NaN && Plus(NaN, n) == NaN
    ensures Plus(PosInf, Fin(x)) == Plus(Fin(x), PosInf) == Plus(PosInf, PosInf) == PosInf
    ensures Plus(NegInf, Fin(x)) == Plus(Fin(x), NegInf) == Plus(NegInf, NegInf) == NegInf
    ensures Plus(PosInf, NegInf) == Plus(NegInf, PosInf) == NaN
  {}

  /** sum() of no node is zero, and of one node the number of its string-value. */
  lemma SumOfFew(w: World, l: Expr, c: Ctx, x: XNode)
    ensures SetOf(Val(w, l, c)) == {} ==> Val(w, Sum(l), c) == VNum(Fin(0.0))
    ensures SetOf(Val(w, l, c)) == {x} ==> Val(w, Sum(l), c) == VNum(Plus(Fin(0.0), w.toNumber(w.stringValue(x))))
  {
    SumValue(w, l, c);
    hide Val, Plus, InDocumentOrder;
    var S := SetOf(Val(w, l, c));
    var s := InDocumentOrder(S);
    OrderedDistinct(s, false);
    MembersCount(s);
    assert Members(s) == S;
    if S == {x} {
      assert |s| == 1 && s[0] in S;
      assert s[..0] == [] && SumOf(w, []) == Fin(0.0);
    }
  }

  lemma SumValue(w: World, l: Expr, c: Ctx)
    ensures Val(w, Sum(l), c) == VNum(SumOf(w, InDocumentOrder(SetOf(Val(w, l, c)))))
  {}

  // ----- comparisons (section 3.4)

  /** x < y for numbers that are not undefined. */
  predicate Below(x: Number, y: Number) {
    || (x.Fin? && y.Fin? && x.r < y.r)
    || (x == NegInf && (y.Fin? || y == PosInf)) || (x.Fin? && y == PosInf)
  }

  /** Comparison of numbers by IEEE 754: an undefined number differs from everything and has no order. */
  predicate Numeric(op: CmpOp, x: Number, y: Number) {
    var equal := x != NaN && y != NaN && x == y;
    match op
    case Eq => equal
    case Ne => !equal
    case Lt => Below(x, y)
    case Gt => Below(y, x)
    case Le => Below(x, y) || equal
    case Ge => Below(y, x) || equal
  }

  lemma NumericIs(op: CmpOp, x: Number, y: Number)
    ensures CmpNum(op, x, y) <==> Numeric(op, x, y)
  {}

  /** Neither operand is a node-set: booleans before numbers before strings, and an order only of numbers. */
  lemma ScalarComparison(w: World, op: CmpOp, a: Value, b: Value)
    requires !a.VSet? && !b.VSet?
    ensures Compare(w, op, a, b) <==>
      if op != Eq && op != Ne then Numeric(op, ToNum(w, a), ToNum(w, b))
      else if a.VBool? || b.VBool? then (Truth(a) == Truth(b)) == (op == Eq)
      else if a.VNum? || b.VNum? then Numeric(op, ToNum(w, a), ToNum(w, b))
      else (ToStr(w, a) == ToStr(w, b)) == (op == Eq)
  {
    NumericIs(op, ToNum(w, a), ToNum(w, b));
    TruthIs(a);
    TruthIs(b);
    hide ToNum, ToStr, CmpNum, ToBool;
  }

  /** One node-set: some node compares, as a number or a string; but equality with a boolean takes the set as one. */
  lemma SetOnLeft(w: World, op: CmpOp, S: set<XNode>, b: Value)
    requires !b.VSet?
    ensures Compare(w, op, VSet(S), b) <==>
      if op != Eq && op != Ne then exists x :: x in S && Compare(w, op, VNum(w.toNumber(w.stringValue(x))), b)
      else if b.VBool? then ((exists x :: x in S) == b.b) == (op == Eq)
      else if b.VNum? then exists x :: x in S && Compare(w, op, VNum(w.toNumber(w.stringValue(x))), b)
      else exists x :: x in S && Compare(w, op, VStr(w.stringValue(x)), b)
  {
    TruthIs(VSet(S));
  }

  lemma SetOnRight(w: World, op: CmpOp, S: set<XNode>, b: Value)
    requires !b.VSet?
    ensures Compare(w, op, b, VSet(S)) <==>
      if op != Eq && op != Ne then exists x :: x in S && Compare(w, op, b, VNum(w.toNumber(w.stringValue(x))))
      else if b.VBool? then ((exists x :: x in S) == b.b) == (op == Eq)
      else if b.VNum? then exists x :: x in S && Compare(w, op, b, VNum(w.toNumber(w.stringValue(x))))
      else exists x :: x in S && Compare(w, op, b, VStr(w.stringValue(x)))
  {
    TruthIs(VSet(S));
  }

  /** Two node-sets: some pair compares, as strings for equality and as numbers for order. */
  lemma SetsComparison(w: World, op: CmpOp, S: set<XNode>, T: set<XNode>)
    ensures Compare(w, op, VSet(S), VSet(T)) <==>
      if op == Eq || op == Ne then
        exists x, y :: x in S && y in T && Compare(w, op, VStr(w.stringValue(x)), VStr(w.stringValue(y)))
      else
        exists x, y :: x in S && y in T &&
          Compare(w, op, VNum(w.toNumber(w.stringValue(x))), VNum(w.toNumber(w.stringValue(y))))
  {}

  lemma ComparisonValue(w: World, op: CmpOp, l: Expr, r: Expr, c: Ctx)
    ensures Val(w, Cmp(op, l, r), c) == VBool(Compare(w, op, Val(w, l, c), Val(w, r, c)))
  {
    CmpValue(w, op, l, r, c);
  }

  predicate IsFirstOf(attrs: seq<Attr>, name: bytes, k: int) {
    0 <= k < |attrs| && attrs[k].name == name && forall j :: 0 <= j < k ==> attrs[j].name != name
  }

  /** The function library is called with the context node and with the arguments converted to its parameter types. */
  lemma CallValues(w: World, id: nat, p: Param, q: Param, ret: Type, e: Expr, f: Expr, c: Ctx)
    ensures Val(w, Call(Fn(id, [], ret), NoArgs), c) == w.call(Fn(id, [], ret), c.n, [])
    ensures Val(w, Call(Fn(id, [p], ret), Arg(e, NoArgs)), c) ==
      w.call(Fn(id, [p], ret), c.n, [Passed(w, p, Val(w, e, c))])
    ensures Val(w, Call(Fn(id, [p, q], ret), Arg(e, Arg(f, NoArgs))), c) ==
      w.call(Fn(id, [p, q], ret), c.n, [Passed(w, p, Val(w, e, c)), Passed(w, q, Val(w, f, c))])
  {
    TwoPassed(w, p, q, e, f, c);
    hide ArgVals, Passed;
    assert Val(w, Call(Fn(id, [], ret), NoArgs), c) == w.call(Fn(id, [], ret), c.n, ArgVals(w, NoArgs, [], c));
  }

  /** A value as an argument. The name functions take the first node. */
  ghost function Passed(w: World, p: Param, v: Value): Value {
    match p
    case PBoolean => VBool(Truth(v))
    case PNumber => VNum(ToNum(w, v))
    case PString => VStr(ToStr(w, v))
    case PFirst => VSet(set x | x in SetOf(v) && forall y :: y in SetOf(v) && y != x ==> Before(x, y))
  }

  lemma PassedIs(w: World, p: Param, v: Value)
    ensures Converted(w, p, v) == Passed(w, p, v)
  {
    TruthIs(v);
    if p.PFirst? && SetOf(v) != {} {
      DocLessTotal();
      assert IsFirst(First(SetOf(v)), SetOf(v));
      assert Passed(w, p, v).ns == {First(SetOf(v))};
    }
  }

  lemma TwoPassed(w: World, p: Param, q: Param, e: Expr, f: Expr, c: Ctx)
    ensures ArgVals(w, NoArgs, [], c) == []
    ensures ArgVals(w, Arg(e, NoArgs), [p], c) == [Passed(w, p, Val(w, e, c))]
    ensures ArgVals(w, Arg(e, Arg(f, NoArgs)), [p, q], c) ==
      [Passed(w, p, Val(w, e, c)), Passed(w, q, Val(w, f, c))]
  {
    hide Val, Passed, Converted;
    PassedIs(w, p, Val(w, e, c));
    PassedIs(w, q, Val(w, f, c));
    assert [p, q][1..] == [q];
    assert ArgVals(w, NoArgs, [p][1..], c) == [] && ArgVals(w, NoArgs, [q][1..], c) == [];
    assert ArgVals(w, Arg(f, NoArgs), [q], c) == [Passed(w, q, Val(w, f, c))];
  }

  /** [@name = text]: some attribute of that name has the value; by direct lookup, the first one. */
  lemma LookupValue(w: World, name: bytes, text: bytes, i: int, position: nat, size: nat)
    requires w.doc.Has(i)
    ensures (var attrs := w.doc.Attrs(i);
             Val(w, AttributeEquals(name, Str(text)), Ctx(Node(i), position, size)) ==
               VBool(IsXPathAttribute(name) && exists k :: IsFirstOf(attrs, name, k) && attrs[k].value == text))
  {
    StrValue(w, text, Ctx(Node(i), position, size));
    AttributeEqualsValue(w, name, Str(text), Ctx(Node(i), position, size));
    hide Val;
    var k := FirstNamed(w.doc.Attrs(i), name);
    assert k < |w.doc.Attrs(i)| ==> IsFirstOf(w.doc.Attrs(i), name, k);
  }
}
