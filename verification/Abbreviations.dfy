/** Section 2.5 of XPath 1.0: what the abbreviations in location paths stand for. */
module Abbreviations {
  import opened Basics
  import opened Bytes
  import opened ExprSyntax
  import Axes
  import opened QueryNames
  import X = XPathSemantics

  function AnyNodeOn(axis: bytes): Body {
    Full(Named(axis), ByType(Ascii("node")), NoPreds)
  }

  /** The same query with axes and node tests spelled out and single slashes only. */
  function Expand(t: Tree): Tree
    decreases t
  {
    match t
    case Bin(op, l, r) => Bin(op, Expand(l), Expand(r))
    case Neg(n) => Neg(Expand(n))
    case Path(start, steps) =>
      match start
      case At(base, preds) => Path(At(ExpandPrimary(base), ExpandPreds(preds)), ExpandSteps(steps))
      case _ => Path(start, ExpandSteps(steps))
  }

  function ExpandPrimary(p: Primary): Primary
    decreases p
  {
    match p
    case Paren(n) => Paren(Expand(n))
    case Call(name, args) => Call(name, ExpandArgs(args))
    case _ => p
  }

  function ExpandArgs(args: Args): Args
    decreases args
  {
    match args case NoArgs => NoArgs case Arg(e, next) => Arg(Expand(e), ExpandArgs(next))
  }

  function ExpandSteps(steps: Steps): Steps
    decreases steps
  {
    match steps
    case NoSteps => NoSteps
    case Step(double, body, next) =>
      var step := Step(false, ExpandBody(body), ExpandSteps(next));
      if double then Step(false, AnyNodeOn(Ascii("descendant-or-self")), step) else step
  }

  function ExpandBody(body: Body): Body
    decreases body
  {
    match body
    case Self => AnyNodeOn(Ascii("self"))
    case Parent => AnyNodeOn(Ascii("parent"))
    case Full(axis, test, preds) => Full(ExpandAxis(axis), test, ExpandPreds(preds))
  }

  function ExpandAxis(axis: AxisSpec): AxisSpec {
    match axis
    case Implied => Named(Ascii("child"))
    case Attribute => Named(Ascii("attribute"))
    case Named(_) => axis
  }

  function ExpandPreds(preds: Preds): Preds
    decreases preds
  {
    match preds case NoPreds => NoPreds case Pred(e, next) => Pred(Expand(e), ExpandPreds(next))
  }

  // ----- the expansion means the same

  /** The expansion is in the grammar, where t is, and has the nodes of t. */
  lemma {:induction false} ExpandSame(vs: vars, t: Tree)
    requires InGrammar(vs, t)
    ensures Ast(vs, Expand(t)) == Ast(vs, t) && InGrammar(vs, Expand(t))
    ensures Level(Expand(t)) == Level(t) && EndsBare(Expand(t)) == EndsBare(t)
    decreases t, 1
  {
    match t {
      case Bin(op, l, r) =>
        ExpandSame(vs, l);
        ExpandSame(vs, r);
      case Neg(n) => ExpandSame(vs, n);
      case Path(start, steps) => PathSame(vs, start, steps);
    }
  }

  lemma {:induction false} PathSame(vs: vars, start: Start, steps: Steps)
    requires InGrammar(vs, Path(start, steps))
    ensures (var t := Path(start, steps);
             Ast(vs, Expand(t)) == Ast(vs, t) && InGrammar(vs, Expand(t)) && EndsBare(Expand(t)) == EndsBare(t))
    decreases Path(start, steps), 0
  {
    hide ExpandBody, ExpandPreds, ExpandPrimary, AstBody, AstFilter, AstPrimary, PrimaryInGrammar, PredsInGrammar,
      BodyInGrammar;
    match start {
      case Here =>
        BodySame(vs, X.NoLeft, steps.body);
        StepsSame(vs, AstBody(vs, X.NoLeft, steps.body), steps.next);
      case AtRoot => StepsSame(vs, X.Root, steps);
      case At(base, preds) =>
        PrimarySame(vs, base);
        FilterSame(vs, AstPrimary(vs, base), preds);
        StepsSame(vs, AstFilter(vs, AstPrimary(vs, base), preds), steps);
    }
  }

  lemma {:induction false} PrimarySame(vs: vars, p: Primary)
    requires PrimaryInGrammar(vs, p)
    ensures AstPrimary(vs, ExpandPrimary(p)) == AstPrimary(vs, p) && PrimaryInGrammar(vs, ExpandPrimary(p))
    decreases p, 0
  {
    hide MakeCall, NodeType;
    match p {
      case Paren(n) => ExpandSame(vs, n);
      case Call(_, args) => ArgsSame(vs, args);
      case _ =>
    }
  }

  lemma {:induction false} ArgsSame(vs: vars, args: Args)
    requires ArgsInGrammar(vs, args)
    ensures AstArgs(vs, ExpandArgs(args)) == AstArgs(vs, args) && ArgsInGrammar(vs, ExpandArgs(args))
    decreases args, 0
  {
    match args {
      case NoArgs =>
      case Arg(e, next) =>
        ExpandSame(vs, e);
        ArgsSame(vs, next);
    }
  }

  lemma {:induction false} FilterSame(vs: vars, n: X.Expr, preds: Preds)
    requires PredsInGrammar(vs, preds)
    ensures AstFilter(vs, n, ExpandPreds(preds)) == AstFilter(vs, n, preds) && PredsInGrammar(vs, ExpandPreds(preds))
    ensures ExpandPreds(preds).NoPreds? <==> preds.NoPreds?
    decreases preds, 0
  {
    match preds {
      case NoPreds =>
      case Pred(e, next) =>
        ExpandSame(vs, e);
        FilterSame(vs, X.Filter(n, Ast(vs, e), X.Default), next);
    }
  }

  lemma {:induction false} StepsSame(vs: vars, n: X.Expr, steps: Steps)
    requires StepsInGrammar(vs, steps)
    ensures AstSteps(vs, n, ExpandSteps(steps)) == AstSteps(vs, n, steps) && StepsInGrammar(vs, ExpandSteps(steps))
    ensures ExpandSteps(steps).NoSteps? <==> steps.NoSteps?
    decreases steps, 0
  {
    hide ExpandBody, BodyInGrammar, AstBody;
    match steps {
      case NoSteps =>
      case Step(double, body, next) =>
        var from := if double then Descend(n) else n;
        DescendSame(vs, n);
        BodySame(vs, X.From(from), body);
        StepsSame(vs, AstBody(vs, X.From(from), body), next);
        var step := Step(false, ExpandBody(body), ExpandSteps(next));
        assert AstSteps(vs, from, step) == AstSteps(vs, from, Step(false, body, next));
    }
  }

  lemma DescendSame(vs: vars, n: X.Expr)
    ensures AstBody(vs, X.From(n), AnyNodeOn(Ascii("descendant-or-self"))) == Descend(n)
    ensures BodyInGrammar(vs, AnyNodeOn(Ascii("descendant-or-self")))
  {
    hide Ascii, AxisNamed, NodeType;
    AxisNames();
    NodeTypes();
  }

  lemma {:induction false} BodySame(vs: vars, from: X.Left, body: Body)
    requires BodyInGrammar(vs, body)
    ensures AstBody(vs, from, ExpandBody(body)) == AstBody(vs, from, body) && BodyInGrammar(vs, ExpandBody(body))
    decreases body, 0
  {
    hide Ascii, AxisNamed, NodeType;
    AxisNames();
    NodeTypes();
    if body.Full? {
      PredsSame(vs, body.preds);
    }
  }

  lemma {:induction false} PredsSame(vs: vars, preds: Preds)
    requires PredsInGrammar(vs, preds)
    ensures AstPreds(vs, ExpandPreds(preds)) == AstPreds(vs, preds) && PredsInGrammar(vs, ExpandPreds(preds))
    decreases preds, 0
  {
    match preds {
      case NoPreds =>
      case Pred(e, next) =>
        ExpandSame(vs, e);
        PredsSame(vs, next);
    }
  }
}
