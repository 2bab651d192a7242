/** What the rewriting pass leaves: queries in which nothing is left to rewrite. */
module SimplestForm {
  import opened Axes
  import opened XPathSemantics
  import opened XPathOptimizer

  /** position() or last() is asked outside the paths in e and their predicates. */
  predicate AsksPlace(e: Expr) {
    match e
    case Position => true
    case Last => true
    case Or(l, r) => AsksPlace(l) || AsksPlace(r)
    case And(l, r) => AsksPlace(l) || AsksPlace(r)
    case Cmp(_, l, r) => AsksPlace(l) || AsksPlace(r)
    case Union(l, r) => AsksPlace(l) || AsksPlace(r)
    case Id(l) => AsksPlace(l)
    case Count(l) => AsksPlace(l)
    case Sum(l) => AsksPlace(l)
    case Call(_, args) => AnyAsksPlace(args)
    case TranslateCall(l, from, to) => AsksPlace(l) || AsksPlace(from) || AsksPlace(to)
    case TranslateTable(l, _) => AsksPlace(l)
    case AttributeEquals(_, r) => AsksPlace(r)
    case _ => false
  }

  predicate AnyAsksPlace(args: Args) {
    match args case NoArgs => false case Arg(e, next) => AsksPlace(e) || AnyAsksPlace(next)
  }

  /** A test of the node alone: no number, and nothing about its place. */
  predicate OfNodeAlone(p: Expr) {
    ExprType(p) != TNumber && !AsksPlace(p)
  }

  predicate AllOfNodeAlone(ps: Preds) {
    match ps case NoPreds => true case Pred(p, _, next) => OfNodeAlone(p) && AllOfNodeAlone(next)
  }

  /** The most that can be said of how a predicate is evaluated. */
  function Strongest(p: Expr): PredClass {
    if p == Num(Fin(1.0)) then ConstantOne
    else if p.Num? || p.Last? || (p.Var? && p.ty == TNumber) then Constant
    else if OfNodeAlone(p) then PosInvariant
    else Default
  }

  /** `//` in front of a step that could do its work. */
  predicate DoubleSlash(left: Left) {
    left.From? && left.e.Step? && left.e.axis == DescendantOrSelf && left.e.test == AnyNode && left.e.preds == NoPreds
  }

  /** `@name` from the context node. */
  predicate NamedAttribute(e: Expr) {
    e.Step? && e.left == NoLeft && e.axis == Attributes && e.test.ByName? && e.preds == NoPreds
  }

  /** Both maps are ASCII, as far as the first one reaches. */
  predicate SevenBit(from: seq<int>, to: seq<int>) {
    (forall i :: 0 <= i < |from| ==> from[i] < 128) && forall i :: 0 <= i < |from| && i < |to| ==> to[i] < 128
  }

  /** No rule applies anywhere in e. */
  predicate Simplest(e: Expr)
    decreases e, 0
  {
    match e
    case Or(l, r) => Simplest(l) && Simplest(r)
    case And(l, r) => Simplest(l) && Simplest(r)
    case Union(l, r) => Simplest(l) && Simplest(r)
    case Cmp(op, l, r) =>
      Simplest(l) && Simplest(r) && !(op == Eq && NamedAttribute(l) && (r.Str? || (r.Var? && r.ty == TString)))
    case Filter(l, p, cls) => Simplest(l) && SimplestPred(p, cls)
    case Step(left, axis, _, preds) =>
      && (left.From? ==> Simplest(left.e)) && SimplestPreds(preds)
      && (DoubleSlash(left) && AllOfNodeAlone(preds) ==> axis !in {Child, Self, Descendant, DescendantOrSelf})
    case Id(l) => Simplest(l)
    case Count(l) => Simplest(l)
    case Sum(l) => Simplest(l)
    case Call(_, args) => SimplestArgs(args)
    case TranslateCall(l, from, to) =>
      Simplest(l) && Simplest(from) && Simplest(to) && !(from.Str? && to.Str? && SevenBit(from.s, to.s))
    case TranslateTable(l, _) => Simplest(l)
    case _ => true
  }

  predicate SimplestPred(p: Expr, cls: PredClass)
    decreases p, 1
  {
    Simplest(p) && cls == Strongest(p) && !(p.Cmp? && p.op == Eq && p.l == Position && ExprType(p.r) == TNumber)
  }

  predicate SimplestPreds(ps: Preds)
    decreases ps
  {
    match ps case NoPreds => true case Pred(p, cls, next) => SimplestPred(p, cls) && SimplestPreds(next)
  }

  predicate SimplestArgs(args: Args)
    decreases args
  {
    match args case NoArgs => true case Arg(e, next) => Simplest(e) && SimplestArgs(next)
  }

  // ----- the pass and the form

  lemma {:induction false} PlaceOrInvariant(e: Expr)
    ensures IsPosInvariant(e) <==> !AsksPlace(e)
    decreases e
  {
    match e
    case Or(l, r) => PlaceOrInvariant(l); PlaceOrInvariant(r);
    case And(l, r) => PlaceOrInvariant(l); PlaceOrInvariant(r);
    case Cmp(_, l, r) => PlaceOrInvariant(l); PlaceOrInvariant(r);
    case Union(l, r) => PlaceOrInvariant(l); PlaceOrInvariant(r);
    case Id(l) => PlaceOrInvariant(l);
    case Count(l) => PlaceOrInvariant(l);
    case Sum(l) => PlaceOrInvariant(l);
    case Call(_, args) => PlaceOrInvariantArgs(args);
    case TranslateCall(l, from, to) => PlaceOrInvariant(l); PlaceOrInvariant(from); PlaceOrInvariant(to);
    case TranslateTable(l, _) => PlaceOrInvariant(l);
    case AttributeEquals(_, r) => PlaceOrInvariant(r);
    case _ =>
  }

  lemma {:induction false} PlaceOrInvariantArgs(args: Args)
    ensures ArgsPosInvariant(args) <==> !AnyAsksPlace(args)
    decreases args
  {
    match args
    case NoArgs =>
    case Arg(e, next) =>
      PlaceOrInvariant(e);
      PlaceOrInvariantArgs(next);
  }

  lemma ClassStrongest(p: Expr)
    ensures Classify(p) == Strongest(p)
  {
    PlaceOrInvariant(p);
  }

  lemma {:induction false} StepOfNodeAlone(ps: Preds)
    requires SimplestPreds(ps)
    ensures StepPosInvariant(ps) <==> AllOfNodeAlone(ps)
    decreases ps
  {
    hide Simplest;
    match ps
    case NoPreds =>
    case Pred(p, _, next) => StepOfNodeAlone(next);
  }

  lemma PredSimplest(p: Expr)
    requires Simplest(p)
    ensures SimplestPred(StripPosition(p), Classify(StripPosition(p)))
  {
    ClassStrongest(StripPosition(p));
  }

  lemma MergeSimplest(left: Left, axis: Axis, test: NodeTest, preds: Preds)
    requires (left.From? ==> Simplest(left.e)) && SimplestPreds(preds)
    ensures Simplest(MergeDescendant(left, axis, test, preds))
  {
    StepOfNodeAlone(preds);
    hide AllOfNodeAlone, StepPosInvariant, SimplestPreds, SimplestPred;
  }

  lemma TableSimplest(l: Expr, from: Expr, to: Expr)
    requires Simplest(l) && Simplest(from) && Simplest(to)
    ensures Simplest(UseTable(l, from, to))
  {
    UseTableCases(l, from, to);
    TableWhen(l, from, to);
    hide UseTable, SevenBit;
    var e := UseTable(l, from, to);
    if e.TranslateTable? {
      assert Simplest(e);
    } else {
      assert Simplest(e);
    }
  }

  lemma TableWhen(l: Expr, from: Expr, to: Expr)
    ensures UseTable(l, from, to).TranslateTable? <==> from.Str? && to.Str? && SevenBit(from.s, to.s)
  {}

  lemma LookupSimplest(op: CmpOp, l: Expr, r: Expr)
    requires Simplest(l) && Simplest(r)
    ensures Simplest(UseAttributeLookup(op, l, r))
  {}

  /** After one pass no rule applies anywhere. */
  lemma {:induction false} OptimizeSimplest(e: Expr)
    ensures Simplest(Optimize(e))
    decreases e, 1
  {
    hide Simplest, Optimize;
    match e
    case Or(_, _) => PairSimplest(e);
    case And(_, _) => PairSimplest(e);
    case Cmp(_, _, _) => PairSimplest(e);
    case Union(_, _) => PairSimplest(e);
    case Filter(_, _, _) => PathSimplest(e);
    case Step(_, _, _, _) => PathSimplest(e);
    case _ => CallSimplest(e);
  }

  lemma {:induction false} PairSimplest(e: Expr)
    requires e.Or? || e.And? || e.Cmp? || e.Union?
    ensures Simplest(Optimize(e))
    decreases e, 0
  {
    hide MergeDescendant, UseTable, UseAttributeLookup, StripPosition, Classify, Strongest;
    OptimizeSimplest(e.l);
    OptimizeSimplest(e.r);
    if e.Cmp? { LookupSimplest(e.op, Optimize(e.l), Optimize(e.r)); }
  }

  lemma {:induction false} PathSimplest(e: Expr)
    requires e.Filter? || e.Step?
    ensures Simplest(Optimize(e))
    decreases e, 0
  {
    hide MergeDescendant, UseTable, UseAttributeLookup, StripPosition, Classify, Strongest;
    if e.Filter? {
      OptimizeSimplest(e.l);
      OptimizeSimplest(e.p);
      PredSimplest(Optimize(e.p));
    } else {
      if e.left.From? { OptimizeSimplest(e.left.e); }
      OptimizePredsSimplest(e.preds);
      var left := if e.left.NoLeft? then NoLeft else From(Optimize(e.left.e));
      MergeSimplest(left, e.axis, e.test, OptimizePreds(e.preds));
    }
  }

  lemma {:induction false} CallSimplest(e: Expr)
    requires !e.Or? && !e.And? && !e.Cmp? && !e.Union? && !e.Filter? && !e.Step?
    ensures Simplest(Optimize(e))
    decreases e, 0
  {
    hide MergeDescendant, UseTable, UseAttributeLookup, StripPosition, Classify, Strongest;
    match e
    case Id(l) => OptimizeSimplest(l);
    case Count(l) => OptimizeSimplest(l);
    case Sum(l) => OptimizeSimplest(l);
    case Call(_, args) => OptimizeArgsSimplest(args);
    case TranslateCall(l, from, to) =>
      OptimizeSimplest(l);
      OptimizeSimplest(from);
      OptimizeSimplest(to);
      TableSimplest(Optimize(l), Optimize(from), Optimize(to));
    case TranslateTable(l, _) => OptimizeSimplest(l);
    case _ =>
  }

  lemma {:induction false} OptimizePredsSimplest(ps: Preds)
    ensures SimplestPreds(OptimizePreds(ps))
    decreases ps
  {
    hide Simplest, SimplestPred, StripPosition, Classify;
    match ps
    case NoPreds =>
    case Pred(p, _, next) =>
      OptimizeSimplest(p);
      PredSimplest(Optimize(p));
      OptimizePredsSimplest(next);
  }

  lemma {:induction false} OptimizeArgsSimplest(args: Args)
    ensures SimplestArgs(OptimizeArgs(args))
    decreases args
  {
    match args
    case NoArgs =>
    case Arg(e, next) =>
      OptimizeSimplest(e);
      OptimizeArgsSimplest(next);
  }

  /** What is already simplest stays as it is: queries in that form are exactly the ones the pass leaves alone. */
  lemma {:induction false} SimplestStays(e: Expr)
    ensures Simplest(e) <==> Optimize(e) == e
    decreases e, 1
  {
    OptimizeSimplest(e);
    if Simplest(e) { Untouched(e); }
  }

  lemma {:induction false} Untouched(e: Expr)
    requires Simplest(e)
    ensures Optimize(e) == e
    decreases e, 0
  {
    hide IsPosInvariant, AsksPlace, ExprType;
    match e
    case Or(l, r) => Untouched(l); Untouched(r);
    case And(l, r) => Untouched(l); Untouched(r);
    case Cmp(op, l, r) => Untouched(l); Untouched(r);
    case Union(l, r) => Untouched(l); Untouched(r);
    case Filter(l, p, _) => Untouched(l); Untouched(p); ClassStrongest(p);
    case Step(left, axis, test, preds) =>
      if left.From? { Untouched(left.e); }
      UntouchedPreds(preds);
      StepOfNodeAlone(preds);
    case Id(l) => Untouched(l);
    case Count(l) => Untouched(l);
    case Sum(l) => Untouched(l);
    case Call(_, args) => UntouchedArgs(args);
    case TranslateCall(l, from, to) => Untouched(l); Untouched(from); Untouched(to);
    case TranslateTable(l, _) => Untouched(l);
    case _ =>
  }

  lemma {:induction false} UntouchedPreds(ps: Preds)
    requires SimplestPreds(ps)
    ensures OptimizePreds(ps) == ps
    decreases ps, 0
  {
    hide IsPosInvariant, AsksPlace, Simplest, Optimize;
    match ps
    case NoPreds =>
    case Pred(p, _, next) =>
      Untouched(p);
      ClassStrongest(p);
      UntouchedPreds(next);
  }

  lemma {:induction false} UntouchedArgs(args: Args)
    requires SimplestArgs(args)
    ensures OptimizeArgs(args) == args
    decreases args, 0
  {
    match args
    case NoArgs =>
    case Arg(e, next) =>
      Untouched(e);
      UntouchedArgs(next);
  }
}
