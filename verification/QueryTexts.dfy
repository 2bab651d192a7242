/** Short queries and the nodes the parser builds for them, and longer ones out of shorter ones. */
module QueryTexts {
  import opened Basics
  import opened Bytes
  import opened ExprSyntax
  import ExprParser
  import QueryNames
  import Axes
  import X = XPathSemantics

  /** The parser takes the text and builds the node. */
  ghost predicate Builds(vs: vars, ts: tokens, e: X.Expr) {
    exists t :: ExprParser.ParseQuery(vs, ts) == ExprParser.Done(t, []) && Ast(vs, t) == e
  }

  lemma Built(vs: vars, t: Tree, ts: tokens, e: X.Expr)
    requires InGrammar(vs, t) && Yield(t) == ts && Ast(vs, t) == e
    ensures Builds(vs, ts, e)
  {
    ExprParser.ParsesTheGrammar(vs, ts, t);
  }

  lemma TreeFor(vs: vars, ts: tokens, e: X.Expr) returns (t: Tree)
    requires Builds(vs, ts, e)
    ensures InGrammar(vs, t) && Yield(t) == ts && Ast(vs, t) == e
  {
    t :| ExprParser.ParseQuery(vs, ts) == ExprParser.Done(t, []) && Ast(vs, t) == e;
    ExprParser.ParsesTheGrammar(vs, ts, t);
  }

  // ----- one step (sections 2.1 to 2.5 of XPath 1.0)

  function OneStep(axis: Axes.Axis, test: Axes.NodeTest): X.Expr {
    X.Step(X.NoLeft, axis, test, X.NoPreds)
  }

  lemma StepBuilt(vs: vars, body: Body)
    requires BodyInGrammar(vs, body)
    ensures Builds(vs, YieldBody(body), AstBody(vs, X.NoLeft, body))
  {
    hide YieldBody, AstBody, BodyInGrammar;
    var t := Path(Here, Step(false, body, NoSteps));
    assert YieldSteps(NoSteps) == [];
    assert Yield(t) == YieldBody(body) + [];
    assert YieldBody(body) + [] == YieldBody(body);
    Built(vs, t, YieldBody(body), AstBody(vs, X.NoLeft, body));
  }

  lemma AbbreviatedSteps(vs: vars)
    ensures Builds(vs, [Dot], OneStep(Axes.Self, Axes.AnyNode))
    ensures Builds(vs, [DoubleDot], OneStep(Axes.Parent, Axes.AnyNode))
    ensures Builds(vs, [Star], OneStep(Axes.Child, Axes.AnyPrincipal))
    ensures Builds(vs, [AtSign, Star], OneStep(Axes.Attributes, Axes.AnyPrincipal))
  {
    hide Builds;
    StepBuilt(vs, Self);
    StepBuilt(vs, Parent);
    StepBuilt(vs, Full(Implied, Any, NoPreds));
    StepBuilt(vs, Full(Attribute, Any, NoPreds));
    assert YieldBody(Full(Implied, Any, NoPreds)) == [Star];
    assert YieldBody(Full(Attribute, Any, NoPreds)) == [AtSign, Star];
  }

  /** The slash alone is the root. */
  lemma RootAlone(vs: vars)
    ensures Builds(vs, [Slash], X.Root)
  {
    Built(vs, Path(AtRoot, NoSteps), [Slash], X.Root);
  }

  /** `name`, `@name` and `axis::name`. */
  lemma NamedSteps(vs: vars, axis: bytes, name: bytes)
    requires |name| > 2 ==> name[|name| - 2..] != [58, 42]
    ensures Builds(vs, [Name(name)], OneStep(Axes.Child, Axes.ByName(name)))
    ensures Builds(vs, [AtSign, Name(name)], OneStep(Axes.Attributes, Axes.ByName(name)))
    ensures AxisNamed(axis).Some? ==>
      Builds(vs, [Name(axis), DoubleColon, Name(name)], OneStep(AxisNamed(axis).value, Axes.ByName(name)))
  {
    hide Builds, AxisNamed;
    ColonStar();
    StepBuilt(vs, Full(Implied, ByName(name), NoPreds));
    StepBuilt(vs, Full(Attribute, ByName(name), NoPreds));
    assert YieldBody(Full(Implied, ByName(name), NoPreds)) == [Name(name)];
    assert YieldBody(Full(Attribute, ByName(name), NoPreds)) == [AtSign, Name(name)];
    if AxisNamed(axis).Some? {
      StepBuilt(vs, Full(Named(axis), ByName(name), NoPreds));
      assert YieldBody(Full(Named(axis), ByName(name), NoPreds)) == [Name(axis), DoubleColon, Name(name)];
    }
  }

  lemma ColonStar()
    ensures Ascii(":*") == [58, 42]
  {}

  /** `prefix:*` takes all names with the prefix and the colon in front. */
  lemma PrefixStep(vs: vars, prefix: bytes)
    requires prefix != []
    ensures Builds(vs, [Name(prefix + [58, 42])], OneStep(Axes.Child, Axes.InNamespace(prefix + [58])))
  {
    hide Builds;
    ColonStar();
    var name := prefix + [58, 42];
    assert name[|name| - 2..] == [58, 42] && name[..|name| - 1] == prefix + [58];
    StepBuilt(vs, Full(Implied, ByName(name), NoPreds));
    assert YieldBody(Full(Implied, ByName(name), NoPreds)) == [Name(name)];
  }

  /** `node()` and the like, and a processing instruction with its target. */
  lemma TypeSteps(vs: vars, name: bytes, target: cstring)
    ensures NodeType(name).Some? ==>
      Builds(vs, [Name(name), Open, Close], OneStep(Axes.Child, NodeType(name).value))
    ensures Builds(vs, [Name(Ascii("processing-instruction")), Open, Literal(target), Close],
                   OneStep(Axes.Child, Axes.PiTarget(target)))
  {
    hide Builds, NodeType, Ascii;
    StepBuilt(vs, Full(Implied, Target(target), NoPreds));
    assert YieldBody(Full(Implied, Target(target), NoPreds)) == [Name(PI), Open, Literal(target), Close];
    if NodeType(name).Some? {
      StepBuilt(vs, Full(Implied, ByType(name), NoPreds));
      assert YieldBody(Full(Implied, ByType(name), NoPreds)) == [Name(name), Open, Close];
    }
  }

  // ----- primary expressions (section 3.1)

  lemma PrimaryBuilt(vs: vars, p: Primary)
    requires PrimaryInGrammar(vs, p)
    ensures Builds(vs, YieldPrimary(p), AstPrimary(vs, p))
  {
    hide YieldPrimary, AstPrimary, PrimaryInGrammar;
    var t := Path(At(p, NoPreds), NoSteps);
    assert YieldPreds(NoPreds) + YieldSteps(NoSteps) == [];
    assert Yield(t) == YieldPrimary(p);
    Built(vs, t, YieldPrimary(p), AstPrimary(vs, p));
  }

  lemma Primaries(vs: vars, name: bytes, s: cstring, n: X.Number)
    ensures name in vs ==> Builds(vs, [Variable(name)], X.Var(name, vs[name]))
    ensures Builds(vs, [Literal(s)], X.Str(s)) && Builds(vs, [Numeral(n)], X.Num(n))
  {
    hide Builds;
    if name in vs { PrimaryBuilt(vs, Var(name)); }
    PrimaryBuilt(vs, Str(s));
    PrimaryBuilt(vs, Num(n));
  }

  /** Parentheses change nothing. */
  lemma InParentheses(vs: vars, ts: tokens, e: X.Expr)
    requires Builds(vs, ts, e)
    ensures Builds(vs, [Open] + ts + [Close], e)
  {
    hide Builds;
    var t := TreeFor(vs, ts, e);
    PrimaryBuilt(vs, Paren(t));
    assert YieldPrimary(Paren(t)) == [Open] + ts + [Close];
  }

  /** A call of one or two arguments. */
  lemma CallBuilt(vs: vars, name: bytes, ts: tokens, e: X.Expr, us: tokens, f: X.Expr)
    requires Builds(vs, ts, e) && Builds(vs, us, f) && NodeType(name).None?
    ensures MakeCall(name, [e]).Some? ==> Builds(vs, [Name(name), Open] + ts + [Close], MakeCall(name, [e]).value)
    ensures MakeCall(name, [e, f]).Some? ==>
      Builds(vs, [Name(name), Open] + ts + [Comma] + us + [Close], MakeCall(name, [e, f]).value)
  {
    hide Builds, MakeCall, NodeType, Yield, Ast, InGrammar;
    var t := TreeFor(vs, ts, e);
    var u := TreeFor(vs, us, f);
    OneArgument(vs, t);
    TwoArguments(vs, t, u);
    CallWith(vs, name, Arg(t, NoArgs), ts + [Close], [e]);
    CallWith(vs, name, Arg(t, Arg(u, NoArgs)), ts + ([Comma] + (us + [Close])), [e, f]);
    assert [Name(name), Open] + (ts + [Close]) == [Name(name), Open] + ts + [Close];
    assert [Name(name), Open] + (ts + ([Comma] + (us + [Close]))) == [Name(name), Open] + ts + [Comma] + us + [Close];
  }

  lemma CallWith(vs: vars, name: bytes, args: Args, ts: tokens, es: seq<X.Expr>)
    requires NodeType(name).None? && ArgsInGrammar(vs, args) && YieldArgs(true, args) == ts && AstArgs(vs, args) == es
    ensures MakeCall(name, es).Some? ==> Builds(vs, [Name(name), Open] + ts, MakeCall(name, es).value)
  {
    hide Builds, MakeCall, NodeType, YieldArgs, ArgsInGrammar, AstArgs;
    if MakeCall(name, es).Some? {
      PrimaryBuilt(vs, Call(name, args));
    }
  }

  lemma OneArgument(vs: vars, t: Tree)
    requires InGrammar(vs, t)
    ensures (var args := Arg(t, NoArgs);
             ArgsInGrammar(vs, args) && YieldArgs(true, args) == Yield(t) + [Close] &&
             AstArgs(vs, args) == [Ast(vs, t)])
  {
    hide Yield, Ast, InGrammar;
    assert YieldArgs(false, NoArgs) == [Close] && AstArgs(vs, NoArgs) == [];
  }

  lemma TwoArguments(vs: vars, t: Tree, u: Tree)
    requires InGrammar(vs, t) && InGrammar(vs, u)
    ensures (var args := Arg(t, Arg(u, NoArgs));
             ArgsInGrammar(vs, args) && YieldArgs(true, args) == Yield(t) + ([Comma] + (Yield(u) + [Close])) &&
             AstArgs(vs, args) == [Ast(vs, t), Ast(vs, u)])
  {
    hide Yield, Ast, InGrammar;
    assert YieldArgs(false, NoArgs) == [Close] && AstArgs(vs, NoArgs) == [] && ArgsInGrammar(vs, NoArgs);
    assert YieldArgs(false, Arg(u, NoArgs)) == [Comma] + (Yield(u) + [Close]);
    assert AstArgs(vs, Arg(u, NoArgs)) == [Ast(vs, u)] && ArgsInGrammar(vs, Arg(u, NoArgs));
  }

  // ----- predicates, paths and operators

  lemma OnePredicate(vs: vars, t: Tree, base: X.Expr)
    requires InGrammar(vs, t)
    ensures (var preds := Pred(t, NoPreds);
             && PredsInGrammar(vs, preds) && YieldPreds(preds) == [OpenSquare] + (Yield(t) + [CloseSquare])
             && AstPreds(vs, preds) == X.Pred(Ast(vs, t), X.Default, X.NoPreds)
             && AstFilter(vs, base, preds) == X.Filter(base, Ast(vs, t), X.Default))
  {
    hide Yield, Ast, InGrammar;
    assert YieldPreds(NoPreds) == [] && AstPreds(vs, NoPreds) == X.NoPreds && PredsInGrammar(vs, NoPreds);
    assert [CloseSquare] + [] == [CloseSquare];
  }

  /** A predicate of a step, to be classified later. */
  lemma PredicateOfStep(vs: vars, ts: tokens, e: X.Expr)
    requires Builds(vs, ts, e)
    ensures Builds(vs, [Star, OpenSquare] + ts + [CloseSquare],
                   X.Step(X.NoLeft, Axes.Child, Axes.AnyPrincipal, X.Pred(e, X.Default, X.NoPreds)))
  {
    hide Builds, Yield, Ast, InGrammar, YieldPreds, AstPreds, PredsInGrammar;
    var t := TreeFor(vs, ts, e);
    var body := Full(Implied, Any, Pred(t, NoPreds));
    OnePredicate(vs, t, X.Root);
    StepBuilt(vs, body);
    assert YieldBody(body) == [Star] + ([OpenSquare] + (ts + [CloseSquare]));
    assert [Star] + ([OpenSquare] + (ts + [CloseSquare])) == [Star, OpenSquare] + ts + [CloseSquare];
  }

  /** A text in parentheses, with predicates and steps behind it. */
  lemma ParenthesisBuilt(vs: vars, t: Tree, preds: Preds, steps: Steps)
    requires InGrammar(vs, t) && PredsInGrammar(vs, preds) && StepsInGrammar(vs, steps)
    requires X.ExprType(Ast(vs, t)) == X.TNodeSet
    ensures Builds(vs, [Open] + Yield(t) + [Close] + YieldPreds(preds) + YieldSteps(steps),
                   AstSteps(vs, AstFilter(vs, Ast(vs, t), preds), steps))
  {
    var path := Path(At(Paren(t), preds), steps);
    var ts := [Open] + Yield(t) + [Close] + YieldPreds(preds) + YieldSteps(steps);
    ParenthesisText(t, preds, steps);
    ParenthesisNode(vs, t, preds, steps);
    hide Builds, Yield, Ast, InGrammar;
    Built(vs, path, ts, AstSteps(vs, AstFilter(vs, Ast(vs, t), preds), steps));
  }

  lemma ParenthesisText(t: Tree, preds: Preds, steps: Steps)
    ensures Yield(Path(At(Paren(t), preds), steps)) ==
      [Open] + Yield(t) + [Close] + YieldPreds(preds) + YieldSteps(steps)
  {
    assert YieldPrimary(Paren(t)) == [Open] + (Yield(t) + [Close]);
  }

  lemma ParenthesisNode(vs: vars, t: Tree, preds: Preds, steps: Steps)
    requires InGrammar(vs, t) && PredsInGrammar(vs, preds) && StepsInGrammar(vs, steps)
    requires X.ExprType(Ast(vs, t)) == X.TNodeSet
    ensures Ast(vs, Path(At(Paren(t), preds), steps)) == AstSteps(vs, AstFilter(vs, Ast(vs, t), preds), steps)
    ensures InGrammar(vs, Path(At(Paren(t), preds), steps))
  {
    assert AstPrimary(vs, Paren(t)) == Ast(vs, t) && PrimaryInGrammar(vs, Paren(t)) == InGrammar(vs, t);
  }

  /** A predicate of another expression, which must be a node-set. */
  lemma PredicateOfFilter(vs: vars, ts: tokens, e: X.Expr, us: tokens, p: X.Expr)
    requires Builds(vs, ts, e) && Builds(vs, us, p) && X.ExprType(e) == X.TNodeSet
    ensures Builds(vs, [Open] + ts + [Close, OpenSquare] + us + [CloseSquare], X.Filter(e, p, X.Default))
  {
    hide Builds, Yield, Ast, InGrammar, YieldPreds, AstFilter, PredsInGrammar;
    var t := TreeFor(vs, ts, e);
    var u := TreeFor(vs, us, p);
    OnePredicate(vs, u, e);
    ParenthesisBuilt(vs, t, Pred(u, NoPreds), NoSteps);
    assert [Open] + ts + [Close] + ([OpenSquare] + (us + [CloseSquare])) + [] ==
      [Open] + ts + [Close, OpenSquare] + us + [CloseSquare];
  }

  /** A slash applies the step behind it to every node in front; two take all nodes below these first. */
  lemma StepBehind(vs: vars, ts: tokens, e: X.Expr, name: bytes)
    requires Builds(vs, ts, e) && X.ExprType(e) == X.TNodeSet && (|name| > 2 ==> name[|name| - 2..] != [58, 42])
    ensures Builds(vs, [Open] + ts + [Close, Slash, Name(name)],
                   X.Step(X.From(e), Axes.Child, Axes.ByName(name), X.NoPreds))
    ensures (var all := X.Step(X.From(e), Axes.DescendantOrSelf, Axes.AnyNode, X.NoPreds);
             Builds(vs, [Open] + ts + [Close, DoubleSlash, Name(name)],
                    X.Step(X.From(all), Axes.Child, Axes.ByName(name), X.NoPreds)))
  {
    hide Builds, Yield, Ast, InGrammar, StepsInGrammar, YieldSteps, AstSteps;
    var t := TreeFor(vs, ts, e);
    OneStepBehind(vs, e, name, false);
    OneStepBehind(vs, e, name, true);
    ParenthesisBuilt(vs, t, NoPreds, Step(false, Full(Implied, ByName(name), NoPreds), NoSteps));
    ParenthesisBuilt(vs, t, NoPreds, Step(true, Full(Implied, ByName(name), NoPreds), NoSteps));
    assert [Open] + ts + [Close] + [] + [Slash, Name(name)] == [Open] + ts + [Close, Slash, Name(name)];
    assert [Open] + ts + [Close] + [] + [DoubleSlash, Name(name)] == [Open] + ts + [Close, DoubleSlash, Name(name)];
  }

  lemma OneStepBehind(vs: vars, e: X.Expr, name: bytes, double: bool)
    requires |name| > 2 ==> name[|name| - 2..] != [58, 42]
    ensures (var steps := Step(double, Full(Implied, ByName(name), NoPreds), NoSteps);
             && StepsInGrammar(vs, steps) && YieldSteps(steps) == [if double then DoubleSlash else Slash, Name(name)]
             && AstSteps(vs, e, steps) ==
                X.Step(X.From(if double then X.Step(X.From(e), Axes.DescendantOrSelf, Axes.AnyNode, X.NoPreds) else e),
                       Axes.Child, Axes.ByName(name), X.NoPreds))
  {
    ColonStar();
    var body := Full(Implied, ByName(name), NoPreds);
    assert YieldBody(body) == [Name(name)] && YieldSteps(NoSteps) == [];
    var left := X.From(if double then Descend(e) else e);
    assert AstBody(vs, left, body) == X.Step(left, Axes.Child, Axes.ByName(name), X.NoPreds);
    assert AstSteps(vs, AstBody(vs, left, body), NoSteps) == AstBody(vs, left, body);
  }

  /** An operator between two texts: its node, with the operands in their order; a union only of node-sets. */
  lemma OperatorBetween(vs: vars, op: Op, ts: tokens, e: X.Expr, us: tokens, f: X.Expr)
    requires Builds(vs, ts, e) && Builds(vs, us, f)
    requires op == Union ==> X.ExprType(e) == X.TNodeSet && X.ExprType(f) == X.TNodeSet
    ensures Builds(vs, [Open] + ts + [Close, OpToken(op), Open] + us + [Close], MakeBinary(op, e, f))
  {
    hide Builds, MakeBinary, OpToken;
    var t := TreeFor(vs, ts, e);
    var u := TreeFor(vs, us, f);
    var l, r := Path(At(Paren(t), NoPreds), NoSteps), Path(At(Paren(u), NoPreds), NoSteps);
    ParenthesisOnly(vs, t);
    ParenthesisOnly(vs, u);
    BinaryOf(vs, op, l, r);
    hide Yield, Ast, InGrammar;
    var text := [Open] + ts + [Close, OpToken(op), Open] + us + [Close];
    assert ([Open] + ts + [Close]) + ([OpToken(op)] + ([Open] + us + [Close])) == text;
    Built(vs, Bin(op, l, r), text, MakeBinary(op, e, f));
  }

  lemma BinaryOf(vs: vars, op: Op, l: Tree, r: Tree)
    requires InGrammar(vs, l) && InGrammar(vs, r) && l.Path? && l.start.At? && r.Path?
    requires op == Union ==> X.ExprType(Ast(vs, l)) == X.TNodeSet && X.ExprType(Ast(vs, r)) == X.TNodeSet
    ensures (var t := Bin(op, l, r);
             InGrammar(vs, t) && Yield(t) == Yield(l) + ([OpToken(op)] + Yield(r)) &&
             Ast(vs, t) == MakeBinary(op, Ast(vs, l), Ast(vs, r)))
  {
    hide OpToken, MakeBinary, Precedence;
  }

  /** A minus sign makes the number negative. */
  lemma MinusSign(vs: vars, ts: tokens, e: X.Expr)
    requires Builds(vs, ts, e)
    ensures Builds(vs, [Minus, Open] + ts + [Close], MakeNegation(e))
  {
    hide Builds, MakeNegation;
    var t := TreeFor(vs, ts, e);
    var inner := Path(At(Paren(t), NoPreds), NoSteps);
    ParenthesisOnly(vs, t);
    hide Yield, Ast, InGrammar;
    NegationOf(vs, inner);
    assert [Minus] + ([Open] + ts + [Close]) == [Minus, Open] + ts + [Close];
    Built(vs, Neg(inner), [Minus, Open] + ts + [Close], MakeNegation(e));
  }

  /** That is a function of one number, and no other operator is that function. */
  lemma NegationNode(e: X.Expr, l: X.Expr, r: X.Expr, op: Op)
    requires op in {Add, Subtract, Multiply, Divide, Mod}
    ensures MakeNegation(e).Call? && MakeNegation(e).args == X.Arg(e, X.NoArgs)
    ensures MakeNegation(e).fn.params == [X.PNumber] && MakeNegation(e).fn.ret == X.TNumber
    ensures MakeBinary(op, l, r).Call? && MakeNegation(e).fn != MakeBinary(op, l, r).fn
  {
    hide ArgList, MakeBinary;
    QueryNames.OneArg(e);
    QueryNames.ArithmeticNodes(op, op, l, r);
    assert MakeNegation(e) == X.Call(X.Fn(106, [X.PNumber], X.TNumber), ArgList([e]));
  }

  lemma NegationOf(vs: vars, t: Tree)
    requires InGrammar(vs, t) && t.Path?
    ensures InGrammar(vs, Neg(t)) && Yield(Neg(t)) == [Minus] + Yield(t) && Ast(vs, Neg(t)) == MakeNegation(Ast(vs, t))
  {}

  lemma ParenthesisOnly(vs: vars, t: Tree)
    requires InGrammar(vs, t)
    ensures (var path := Path(At(Paren(t), NoPreds), NoSteps);
             InGrammar(vs, path) && Yield(path) == [Open] + Yield(t) + [Close] && Ast(vs, path) == Ast(vs, t))
  {
    assert AstPrimary(vs, Paren(t)) == Ast(vs, t) && PrimaryInGrammar(vs, Paren(t)) == InGrammar(vs, t);
    assert YieldPreds(NoPreds) + YieldSteps(NoSteps) == [] && YieldPrimary(Paren(t)) == [Open] + (Yield(t) + [Close]);
  }
}
