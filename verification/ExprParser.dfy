/**
  The parser for XPath queries, against the layered grammar: it accepts exactly the texts of the grammar's trees and
  allocates exactly the nodes of those trees.
*/
module ExprParser {
  import opened Bytes
  import opened ExprSyntax
  import Axes
  import X = XPathSemantics

  datatype Parse<T> = Done(tree: T, rest: tokens) | Error

  /** The current token. */
  predicate Sees(ts: tokens, tok: Token) {
    ts != [] && ts[0] == tok
  }

  /** The precedence of the operator that comes next, 0 for none. */
  function Next(ts: tokens): nat {
    if ts != [] && OpOf(ts[0]).Some? then Precedence(OpOf(ts[0]).value) else 0
  }

  predicate SeesSlash(ts: tokens) {
    Sees(ts, Slash) || Sees(ts, DoubleSlash)
  }

  /** A filter expression comes next, which a name begins only as the name of a function. */
  predicate SeesFilter(ts: tokens) {
    && ts != []
    && match ts[0]
       case Variable(_) => true
       case Open => true
       case Literal(_) => true
       case Numeral(_) => true
       case Name(s) => Sees(ts[1..], Open) && NodeType(s).None?
       case _ => false
  }

  // ----- what the parser accepts, as trees

  function ParseExpr(vs: vars, ts: tokens, limit: nat): (r: Parse<Tree>)
    ensures r.Done? ==> |r.rest| < |ts|
    decreases |ts|, 6
  {
    match ParseUnary(vs, ts)
    case Done(n, rest) => ParseRec(vs, n, rest, limit)
    case Error => Error
  }

  function ParseRec(vs: vars, lhs: Tree, ts: tokens, limit: nat): (r: Parse<Tree>)
    ensures r.Done? ==> |r.rest| <= |ts| && (Next(ts) != 0 && Next(ts) >= limit ==> |r.rest| < |ts|)
    decreases |ts|, 1
  {
    if Next(ts) == 0 || Next(ts) < limit then Done(lhs, ts)
    else
      match ParseRight(vs, ts)
      case Done(rhs, rest) =>
        var op := OpOf(ts[0]).value;
        if UnionMisapplied(vs, op, lhs, rhs) then Error else ParseRec(vs, Bin(op, lhs, rhs), rest, limit)
      case Error => Error
  }

  /** The right operand after the operator at the head of ts. */
  function ParseRight(vs: vars, ts: tokens): (r: Parse<Tree>)
    requires Next(ts) != 0
    ensures r.Done? ==> |r.rest| < |ts|
    decreases |ts|, 0
  {
    match ParseUnary(vs, ts[1..])
    case Done(rhs, rest) => ParseTighter(vs, rhs, rest, Next(ts))
    case Error => Error
  }

  /** The inner loop: operators that bind tighter than p go to the right operand. */
  function ParseTighter(vs: vars, rhs: Tree, ts: tokens, p: nat): (r: Parse<Tree>)
    ensures r.Done? ==> |r.rest| <= |ts|
    decreases |ts|, 2
  {
    if Next(ts) == 0 || Next(ts) <= p then Done(rhs, ts)
    else
      match ParseRec(vs, rhs, ts, Next(ts))
      case Done(n, rest) => ParseTighter(vs, n, rest, p)
      case Error => Error
  }

  function ParseUnary(vs: vars, ts: tokens): (r: Parse<Tree>)
    ensures r.Done? ==> |r.rest| < |ts|
    decreases |ts|, 5
  {
    if SeesFilter(ts) then ParseFilter(vs, ts)
    else if Sees(ts, Minus) then (
      match ParseExpr(vs, ts[1..], 7)
      case Done(n, rest) => Done(Neg(n), rest)
      case Error => Error)
    else ParseLocation(vs, ts)
  }

  /** A filter expression and the steps behind it. */
  function ParseFilter(vs: vars, ts: tokens): (r: Parse<Tree>)
    requires SeesFilter(ts)
    ensures r.Done? ==> |r.rest| < |ts|
    decreases |ts|, 4
  {
    match ParsePrimary(vs, ts)
    case Done(base, rest) => (
      match ParsePreds(vs, rest)
      case Done(preds, rest) => (
        match ParseSteps(vs, rest)
        case Done(steps, rest) =>
          if (preds == NoPreds && steps == NoSteps) || X.ExprType(AstPrimary(vs, base)) == X.TNodeSet then
            Done(Path(At(base, preds), steps), rest)
          else Error
        case Error => Error)
      case Error => Error)
    case Error => Error
  }

  function ParsePrimary(vs: vars, ts: tokens): (r: Parse<Primary>)
    requires SeesFilter(ts)
    ensures r.Done? ==> |r.rest| < |ts|
    decreases |ts|, 3
  {
    match ts[0]
    case Variable(name) => if name in vs then Done(Var(name), ts[1..]) else Error
    case Open => (
      match ParseExpr(vs, ts[1..], 0)
      case Done(n, rest) => if Sees(rest, Close) then Done(Paren(n), rest[1..]) else Error
      case Error => Error)
    case Literal(text) => Done(Str(text), ts[1..])
    case Numeral(value) => Done(Num(value), ts[1..])
    case Name(name) => (
      match ParseArgs(vs, true, ts[2..])
      case Done(args, rest) => if MakeCall(name, AstArgs(vs, args)).Some? then Done(Call(name, args), rest) else Error
      case Error => Error)
    case _ => Error
  }

  function ParseArgs(vs: vars, first: bool, ts: tokens): (r: Parse<Args>)
    ensures r.Done? ==> |r.rest| < |ts|
    decreases |ts|, 7
  {
    if Sees(ts, Close) then Done(NoArgs, ts[1..])
    else if !first && !Sees(ts, Comma) then Error
    else
      match ParseExpr(vs, if first then ts else ts[1..], 0)
      case Done(e, rest) => (
        match ParseArgs(vs, false, rest)
        case Done(next, rest) => Done(Arg(e, next), rest)
        case Error => Error)
      case Error => Error
  }

  function ParsePreds(vs: vars, ts: tokens): (r: Parse<Preds>)
    ensures r.Done? ==> |r.rest| <= |ts|
    decreases |ts|, 0
  {
    if !Sees(ts, OpenSquare) then Done(NoPreds, ts)
    else
      match ParseExpr(vs, ts[1..], 0)
      case Done(e, rest) =>
        if Sees(rest, CloseSquare) then (
          match ParsePreds(vs, rest[1..])
          case Done(next, rest) => Done(Pred(e, next), rest)
          case Error => Error)
        else Error
      case Error => Error
  }

  /** A root path is a path of its own unless a step follows. */
  function ParseLocation(vs: vars, ts: tokens): (r: Parse<Tree>)
    ensures r.Done? ==> |r.rest| < |ts|
    decreases |ts|, 4
  {
    if SeesSlash(ts) then
      if ts[0] == Slash && (ts[1..] == [] || !CouldStep(ts[1])) then Done(Path(AtRoot, NoSteps), ts[1..])
      else
        match ParseSteps(vs, ts)
        case Done(steps, rest) => Done(Path(AtRoot, steps), rest)
        case Error => Error
    else
      match ParseRelative(vs, false, ts)
      case Done(steps, rest) => Done(Path(Here, steps), rest)
      case Error => Error
  }

  /** A step and the steps behind it. */
  function ParseRelative(vs: vars, double: bool, ts: tokens): (r: Parse<Steps>)
    ensures r.Done? ==> |r.rest| < |ts| && r.tree.Step? && r.tree.double == double
    decreases |ts|, 2
  {
    match ParseBody(vs, ts)
    case Done(body, rest) => (
      match ParseSteps(vs, rest)
      case Done(next, rest) => Done(Step(double, body, next), rest)
      case Error => Error)
    case Error => Error
  }

  function ParseSteps(vs: vars, ts: tokens): (r: Parse<Steps>)
    ensures r.Done? ==> |r.rest| <= |ts| && (SeesSlash(ts) ==> |r.rest| < |ts|)
    decreases |ts|, 0
  {
    if SeesSlash(ts) then ParseRelative(vs, ts[0] == DoubleSlash, ts[1..]) else Done(NoSteps, ts)
  }

  function ParseBody(vs: vars, ts: tokens): (r: Parse<Body>)
    ensures r.Done? ==> |r.rest| < |ts|
    decreases |ts|, 1
  {
    if Sees(ts, Dot) || Sees(ts, DoubleDot) then
      if Sees(ts[1..], OpenSquare) then Error else Done(if ts[0] == Dot then Self else Parent, ts[1..])
    else
      match ReadTest(ts)
      case Done(head, rest) => (
        match ParsePreds(vs, rest)
        case Done(preds, rest) => Done(Full(head.0, head.1, preds), rest)
        case Error => Error)
      case Error => Error
  }

  /** The axis and the node test of a step. */
  function ReadTest(ts: tokens): (r: Parse<(AxisSpec, Test)>)
    ensures r.Done? ==> |r.rest| < |ts|
  {
    var here := if Sees(ts, AtSign) then ts[1..] else ts;
    if here != [] && here[0].Name? && Sees(here[1..], DoubleColon) then
      if Sees(ts, AtSign) || AxisNamed(here[0].name).None? then Error
      else WithAxis(Named(here[0].name), ReadNodeTest(here[2..]))
    else WithAxis(if Sees(ts, AtSign) then Attribute else Implied, ReadNodeTest(here))
  }

  function WithAxis(axis: AxisSpec, test: Parse<Test>): (r: Parse<(AxisSpec, Test)>)
    ensures r.Done? <==> test.Done?
    ensures r.Done? ==> r.rest == test.rest
  {
    match test case Done(test, rest) => Done((axis, test), rest) case Error => Error
  }

  function ReadNodeTest(ts: tokens): (r: Parse<Test>)
    ensures r.Done? ==> |r.rest| < |ts|
  {
    if Sees(ts, Star) then Done(Any, ts[1..])
    else if ts == [] || !ts[0].Name? then Error
    else if !Sees(ts[1..], Open) then Done(ByName(ts[0].name), ts[1..])
    else if Sees(ts[2..], Close) then
      if NodeType(ts[0].name).Some? then Done(ByType(ts[0].name), ts[3..]) else Error
    else if ts[0].name == PI && |ts| > 3 && ts[2].Literal? && ts[3] == Close then Done(Target(ts[2].text), ts[4..])
    else Error
  }

  /** `parse`: the whole query. */
  function ParseQuery(vs: vars, ts: tokens): Parse<Tree> {
    match ParseExpr(vs, ts, 0)
    case Done(n, rest) => if rest == [] then Done(n, []) else Error
    case Error => Error
  }

  // ----- the parser itself, which allocates nodes

  /** What the parser answers where the grammar has p. */
  function Nodes(vs: vars, p: Parse<Tree>): Parse<X.Expr> {
    match p case Done(t, rest) => Done(Ast(vs, t), rest) case Error => Error
  }

  function PrimaryNodes(vs: vars, p: Parse<Primary>): Parse<X.Expr> {
    match p case Done(base, rest) => Done(AstPrimary(vs, base), rest) case Error => Error
  }

  /** The predicates at the head of ts, applied to n. */
  function FilterNodes(vs: vars, n: X.Expr, ts: tokens): Parse<X.Expr> {
    match ParsePreds(vs, ts)
    case Done(preds, rest) =>
      if preds.Pred? && X.ExprType(n) != X.TNodeSet then Error else Done(AstFilter(vs, n, preds), rest)
    case Error => Error
  }

  /** The steps at the head of ts, applied to n. */
  function StepsNodes(vs: vars, n: X.Expr, ts: tokens): Parse<X.Expr> {
    match ParseSteps(vs, ts) case Done(steps, rest) => Done(AstSteps(vs, n, steps), rest) case Error => Error
  }

  function StepNodes(vs: vars, from: X.Left, ts: tokens): Parse<X.Expr> {
    match ParseBody(vs, ts) case Done(body, rest) => Done(AstBody(vs, from, body), rest) case Error => Error
  }

  function RelativeNodes(vs: vars, from: X.Left, ts: tokens): Parse<X.Expr> {
    match StepNodes(vs, from, ts) case Done(n, rest) => StepsNodes(vs, n, rest) case Error => Error
  }

  /** The predicates at the head of ts, linked to the end of a list. */
  function PredsNodes(vs: vars, list: X.Preds, ts: tokens): Parse<X.Preds> {
    match ParsePreds(vs, ts) case Done(preds, rest) => Done(Link(list, AstPreds(vs, preds)), rest) case Error => Error
  }

  function Link(list: X.Preds, more: X.Preds): X.Preds {
    match list case NoPreds => more case Pred(e, cls, next) => X.Pred(e, cls, Link(next, more))
  }

  lemma {:induction false} LinkOne(list: X.Preds, e: X.Expr, more: X.Preds)
    ensures Link(Link(list, X.Pred(e, X.Default, X.NoPreds)), more) == Link(list, X.Pred(e, X.Default, more))
    decreases list
  {
    match list case NoPreds => case Pred(_, _, next) => LinkOne(next, e, more);
  }

  lemma {:induction false} LinkNone(list: X.Preds)
    ensures Link(list, X.NoPreds) == list
    decreases list
  {
    match list case NoPreds => case Pred(_, _, next) => LinkNone(next);
  }

  /** The arguments at the head of ts, behind some others. */
  function ArgsNodes(vs: vars, args: seq<X.Expr>, ts: tokens): Parse<seq<X.Expr>> {
    match ParseArgs(vs, args == [], ts)
    case Done(more, rest) => Done(args + AstArgs(vs, more), rest)
    case Error => Error
  }

  /** `parse_expression`. */
  method Expression(vs: vars, ts: tokens, limit: nat) returns (r: Parse<X.Expr>)
    ensures r == Nodes(vs, ParseExpr(vs, ts, limit))
    decreases |ts|, 6
  {
    hide Ast, ParseUnary, ParseRec;
    var n := PathOrUnary(vs, ts);
    if n.Error? { return Error; }
    r := ExpressionRec(vs, n.tree, n.rest, limit, ParseUnary(vs, ts).tree);
  }

  /** `parse_expression_rec`. */
  method ExpressionRec(vs: vars, lhs0: X.Expr, ts0: tokens, limit: nat, ghost l0: Tree) returns (r: Parse<X.Expr>)
    requires lhs0 == Ast(vs, l0)
    ensures r == Nodes(vs, ParseRec(vs, l0, ts0, limit))
    decreases |ts0|, 1
  {
    hide ParseUnary, Ast, MakeBinary, UnionMisapplied, OpOf;
    var lhs, ts := lhs0, ts0;
    ghost var l := l0;
    while Next(ts) != 0 && Next(ts) >= limit
      invariant |ts| <= |ts0| && lhs == Ast(vs, l)
      invariant ParseRec(vs, l0, ts0, limit) == ParseRec(vs, l, ts, limit)
      decreases |ts|
    {
      var op := OpOf(ts[0]).value;
      var unary := PathOrUnary(vs, ts[1..]);
      if unary.Error? { return Error; }
      var rhs, rest := unary.tree, unary.rest;
      ghost var r' := ParseUnary(vs, ts[1..]).tree;
      while Next(rest) != 0 && Next(rest) > Precedence(op)
        invariant |rest| < |ts| && rhs == Ast(vs, r')
        invariant ParseRight(vs, ts) == ParseTighter(vs, r', rest, Precedence(op))
        decreases |rest|
      {
        var inner := ExpressionRec(vs, rhs, rest, Next(rest), r');
        if inner.Error? { return Error; }
        r' := ParseRec(vs, r', rest, Next(rest)).tree;
        rhs, rest := inner.tree, inner.rest;
      }
      BinaryNodes(vs, op, l, r');
      if op == Union && (X.ExprType(lhs) != X.TNodeSet || X.ExprType(rhs) != X.TNodeSet) { return Error; }
      lhs, ts := MakeBinary(op, lhs, rhs), rest;
      l := Bin(op, l, r');
    }
    return Done(lhs, ts);
  }

  lemma BinaryNodes(vs: vars, op: Op, l: Tree, r: Tree)
    ensures Ast(vs, Bin(op, l, r)) == MakeBinary(op, Ast(vs, l), Ast(vs, r))
    ensures UnionMisapplied(vs, op, l, r) <==>
      op == Union && (X.ExprType(Ast(vs, l)) != X.TNodeSet || X.ExprType(Ast(vs, r)) != X.TNodeSet)
  {}

  /** `parse_path_or_unary_expression`. */
  method PathOrUnary(vs: vars, ts: tokens) returns (r: Parse<X.Expr>)
    ensures r == Nodes(vs, ParseUnary(vs, ts))
    decreases |ts|, 5
  {
    hide ParseExpr, ParsePrimary, ParsePreds, ParseSteps, ParseBody, AstPrimary, AstFilter, AstSteps, AstBody;
    if SeesFilter(ts) {
      FilterAndSteps(vs, ts);
      var n := FilterExpression(vs, ts);
      if n.Error? { return Error; }
      if SeesSlash(n.rest) {
        StepsAreRelative(vs, n.tree, n.rest);
        var from := n.tree;
        if n.rest[0] == DoubleSlash {
          if X.ExprType(from) != X.TNodeSet { return Error; }
          from := Descend(from);
        }
        r := RelativePath(vs, X.From(from), n.rest[1..]);
      } else {
        AllSteps(vs, n.tree, n.rest);
        r := n;
      }
    } else if Sees(ts, Minus) {
      var n := Expression(vs, ts[1..], 7);
      if n.Error? { return Error; }
      return Done(MakeNegation(n.tree), n.rest);
    } else {
      r := LocationPath(vs, ts);
    }
  }

  /** What the filter expression at the head of ts is without the steps behind it. */
  function FilterResult(vs: vars, ts: tokens): Parse<X.Expr>
    requires SeesFilter(ts)
  {
    match ParsePrimary(vs, ts) case Done(base, rest) => FilterNodes(vs, AstPrimary(vs, base), rest) case Error => Error
  }

  predicate NoNodeSet(from: X.Left) {
    from.From? && X.ExprType(from.e) != X.TNodeSet
  }

  lemma {:induction false} FilterType(vs: vars, n: X.Expr, preds: Preds)
    ensures X.ExprType(AstFilter(vs, n, preds)) == if preds.Pred? then X.TNodeSet else X.ExprType(n)
    decreases preds
  {
    match preds case NoPreds => case Pred(e, next) => FilterType(vs, X.Filter(n, Ast(vs, e), X.Default), next);
  }

  /** A slash puts a step behind what stands in front of it. */
  lemma StepsAreRelative(vs: vars, n: X.Expr, ts: tokens)
    requires SeesSlash(ts)
    ensures StepsNodes(vs, n, ts) == RelativeNodes(vs, X.From(if ts[0] == DoubleSlash then Descend(n) else n), ts[1..])
  {
    hide ParseBody, AstBody;
    var body := ParseBody(vs, ts[1..]);
    var double := ts[0] == DoubleSlash;
    if body.Done? {
      var more := ParseSteps(vs, body.rest);
      if more.Done? {
        var steps := Step(double, body.tree, more.tree);
        assert ParseRelative(vs, double, ts[1..]) == Done(steps, more.rest);
        assert AstSteps(vs, n, steps)
            == AstSteps(vs, AstBody(vs, X.From(if double then Descend(n) else n), body.tree), more.tree);
      } else {
        assert ParseRelative(vs, double, ts[1..]).Error?;
      }
    } else {
      assert ParseRelative(vs, double, ts[1..]).Error?;
    }
  }

  /** The parse of a filter expression with steps, in the order in which the parser goes. */
  lemma FilterAndSteps(vs: vars, ts: tokens)
    requires SeesFilter(ts)
    ensures Nodes(vs, ParseFilter(vs, ts)) ==
      match FilterResult(vs, ts)
      case Error => Error
      case Done(n, rest) => if SeesSlash(rest) && X.ExprType(n) != X.TNodeSet then Error else StepsNodes(vs, n, rest)
  {
    hide ParsePrimary, ParsePreds, AstPrimary, AstFilter, AstBody, ParseBody;
    var base := ParsePrimary(vs, ts);
    if base.Done? && ParsePreds(vs, base.rest).Done? {
      var preds := ParsePreds(vs, base.rest);
      FilterType(vs, AstPrimary(vs, base.tree), preds.tree);
    }
  }

  /** `parse_filter_expression`. */
  method FilterExpression(vs: vars, ts: tokens) returns (r: Parse<X.Expr>)
    requires SeesFilter(ts)
    ensures r == FilterResult(vs, ts)
    ensures r.Done? ==> |r.rest| < |ts|
    decreases |ts|, 4
  {
    hide ParsePrimary, ParseExpr, Ast, AstPrimary;
    r := PrimaryExpression(vs, ts);
    if r.Error? { return; }
    var n, rest := r.tree, r.rest;
    while Sees(rest, OpenSquare)
      invariant |rest| < |ts| && FilterNodes(vs, n, rest) == FilterResult(vs, ts)
      decreases |rest|
    {
      if X.ExprType(n) != X.TNodeSet { return Error; }
      var e := Expression(vs, rest[1..], 0);
      if e.Error? || !Sees(e.rest, CloseSquare) { return Error; }
      n, rest := X.Filter(n, e.tree, X.Default), e.rest[1..];
    }
    return Done(n, rest);
  }

  /** `parse_primary_expression`. */
  method PrimaryExpression(vs: vars, ts: tokens) returns (r: Parse<X.Expr>)
    requires SeesFilter(ts)
    ensures r == PrimaryNodes(vs, ParsePrimary(vs, ts))
    decreases |ts|, 3
  {
    hide ParseExpr, Ast, MakeCall, NodeType;
    match ts[0] {
      case Variable(name) =>
        if name !in vs { return Error; }
        return Done(X.Var(name, vs[name]), ts[1..]);
      case Open =>
        var n := Expression(vs, ts[1..], 0);
        if n.Error? || !Sees(n.rest, Close) { return Error; }
        return Done(n.tree, n.rest[1..]);
      case Literal(text) =>
        return Done(X.Str(text), ts[1..]);
      case Numeral(value) =>
        return Done(X.Num(value), ts[1..]);
      case Name(name) =>
        var args := Arguments(vs, ts[2..]);
        assert args.Done? ==> [] + AstArgs(vs, ParseArgs(vs, true, ts[2..]).tree) == args.tree;
        assert args.Done? ==> AstArgs(vs, ParseArgs(vs, true, ts[2..]).tree) == args.tree;
        if args.Error? { return Error; }
        var call := MakeCall(name, args.tree);
        return if call.Some? then Done(call.value, args.rest) else Error;
      case _ =>
    }
  }

  /** The arguments of a function call. */
  method Arguments(vs: vars, ts: tokens) returns (r: Parse<seq<X.Expr>>)
    ensures r == ArgsNodes(vs, [], ts)
    decreases |ts|, 7
  {
    hide ParseExpr, Ast;
    var args: seq<X.Expr>, rest := [], ts;
    while !Sees(rest, Close)
      invariant |rest| <= |ts| && ArgsNodes(vs, args, rest) == ArgsNodes(vs, [], ts)
      decreases |rest|
    {
      ghost var before := rest;
      if args != [] {
        if !Sees(rest, Comma) { return Error; }
        rest := rest[1..];
      }
      var e := Expression(vs, rest, 0);
      if e.Error? { return Error; }
      OneArgument(vs, args, before, e.tree, e.rest);
      args, rest := args + [e.tree], e.rest;
    }
    assert args + AstArgs(vs, NoArgs) == args;
    return Done(args, rest[1..]);
  }

  lemma OneArgument(vs: vars, args: seq<X.Expr>, ts: tokens, e: X.Expr, rest: tokens)
    requires !Sees(ts, Close) && (args != [] ==> Sees(ts, Comma))
    requires Nodes(vs, ParseExpr(vs, if args == [] then ts else ts[1..], 0)) == Done(e, rest)
    ensures ArgsNodes(vs, args, ts) == ArgsNodes(vs, args + [e], rest)
  {
    hide ParseExpr, Ast;
    var more := ParseArgs(vs, false, rest);
    if more.Done? {
      assert args + ([e] + AstArgs(vs, more.tree)) == args + [e] + AstArgs(vs, more.tree);
    }
  }

  /** `parse_step`. */
  method StepFrom(vs: vars, from: X.Left, ts: tokens) returns (r: Parse<X.Expr>)
    ensures r == if NoNodeSet(from) then Error else StepNodes(vs, from, ts)
    decreases |ts|, 1
  {
    hide ReadTest, ParsePreds;
    if from.From? && X.ExprType(from.e) != X.TNodeSet { return Error; }
    if Sees(ts, Dot) || Sees(ts, DoubleDot) {
      if Sees(ts[1..], OpenSquare) { return Error; }
      return Done(X.Step(from, if ts[0] == Dot then Axes.Self else Axes.Parent, Axes.AnyNode, X.NoPreds), ts[1..]);
    }
    var head := ReadTest(ts);
    if head.Error? { return Error; }
    var preds := Predicates(vs, head.rest);
    if preds.Error? { return Error; }
    return Done(X.Step(from, AxisOf(head.tree.0), TestOf(head.tree.1), preds.tree), preds.rest);
  }

  /** The predicates of a step, linked one behind the other. */
  method Predicates(vs: vars, ts: tokens) returns (r: Parse<X.Preds>)
    ensures r == PredsNodes(vs, X.NoPreds, ts)
    decreases |ts|, 0
  {
    hide ParseExpr, Ast, Link;
    var list: X.Preds, rest := X.NoPreds, ts;
    while Sees(rest, OpenSquare)
      invariant |rest| <= |ts| && PredsNodes(vs, list, rest) == PredsNodes(vs, X.NoPreds, ts)
      decreases |rest|
    {
      var e := Expression(vs, rest[1..], 0);
      if e.Error? || !Sees(e.rest, CloseSquare) { return Error; }
      OnePredicate(vs, list, rest, e.tree, e.rest);
      list, rest := Link(list, X.Pred(e.tree, X.Default, X.NoPreds)), e.rest[1..];
    }
    LinkNone(list);
    return Done(list, rest);
  }

  lemma OnePredicate(vs: vars, list: X.Preds, ts: tokens, e: X.Expr, rest: tokens)
    requires Sees(ts, OpenSquare) && Nodes(vs, ParseExpr(vs, ts[1..], 0)) == Done(e, rest) && Sees(rest, CloseSquare)
    ensures PredsNodes(vs, list, ts) == PredsNodes(vs, Link(list, X.Pred(e, X.Default, X.NoPreds)), rest[1..])
  {
    hide ParseExpr, Ast, Link;
    var more := ParsePreds(vs, rest[1..]);
    if more.Done? { LinkOne(list, e, AstPreds(vs, more.tree)); }
  }

  /** `parse_relative_location_path`. */
  method RelativePath(vs: vars, from: X.Left, ts: tokens) returns (r: Parse<X.Expr>)
    ensures r == if NoNodeSet(from) then Error else RelativeNodes(vs, from, ts)
    decreases |ts|, 2
  {
    hide ParseSteps, ParseBody, AstBody, AstSteps;
    r := StepFrom(vs, from, ts);
    if r.Error? { return; }
    var n, rest := r.tree, r.rest;
    StepsType(vs, from, ts);
    while SeesSlash(rest)
      invariant |rest| < |ts| && X.ExprType(n) == X.TNodeSet
      invariant StepsNodes(vs, n, rest) == RelativeNodes(vs, from, ts)
      decreases |rest|
    {
      StepsAreRelative(vs, n, rest);
      if rest[0] == DoubleSlash {
        n := Descend(n);
      }
      StepsType(vs, X.From(n), rest[1..]);
      var step := StepFrom(vs, X.From(n), rest[1..]);
      if step.Error? { return Error; }
      n, rest := step.tree, step.rest;
    }
    AllSteps(vs, n, rest);
    return Done(n, rest);
  }

  lemma StepsType(vs: vars, from: X.Left, ts: tokens)
    ensures (var r := StepNodes(vs, from, ts); r.Done? ==> X.ExprType(r.tree) == X.TNodeSet && |r.rest| < |ts|)
  {}

  lemma AllSteps(vs: vars, n: X.Expr, ts: tokens)
    requires !SeesSlash(ts)
    ensures StepsNodes(vs, n, ts) == Done(n, ts)
  {}

  /** `parse_location_path`. */
  method LocationPath(vs: vars, ts: tokens) returns (r: Parse<X.Expr>)
    ensures r == Nodes(vs, ParseLocation(vs, ts))
    decreases |ts|, 4
  {
    hide ParseBody, AstBody;
    if SeesSlash(ts) {
      StepsAreRelative(vs, X.Root, ts);
      if ts[0] == Slash {
        if ts[1..] == [] || !CouldStep(ts[1]) { return Done(X.Root, ts[1..]); }
        r := RelativePath(vs, X.From(X.Root), ts[1..]);
      } else {
        r := RelativePath(vs, X.From(Descend(X.Root)), ts[1..]);
      }
    } else {
      r := RelativePath(vs, X.NoLeft, ts);
    }
  }

  /** `parse`. */
  method Query(vs: vars, ts: tokens) returns (r: Parse<X.Expr>)
    ensures r == Nodes(vs, ParseQuery(vs, ts))
  {
    hide ParseExpr, Ast;
    var n := Expression(vs, ts, 0);
    if n.Error? || n.rest != [] { return Error; }
    return Done(n.tree, []);
  }

  // ----- soundness

  /** The highest precedence with which an operator may follow t. */
  function Top(t: Tree): nat {
    match t
    case Path(_, _) => 7
    case Neg(_) => 6
    case Bin(op, _, _) => Precedence(op)
  }

  /** No step of a root path at the end of t follows. */
  predicate NoStep(t: Tree, rest: tokens) {
    EndsBare(t) && rest != [] ==> !CouldStep(rest[0])
  }

  lemma Cat(a: tokens, b: tokens, c: tokens)
    ensures a + (b + c) == (a + b) + c
  {}

  lemma Head(ts: tokens)
    requires ts != []
    ensures ts == [ts[0]] + ts[1..]
  {}

  lemma {:induction false} UnarySound(vs: vars, ts: tokens)
    requires ParseUnary(vs, ts).Done?
    ensures (var d := ParseUnary(vs, ts);
             && ts == Yield(d.tree) + d.rest && InGrammar(vs, d.tree) && !d.tree.Bin?
             && Next(d.rest) <= Top(d.tree) && NoStep(d.tree, d.rest))
    decreases |ts|, 5
  {
    hide ParseFilter, ParseLocation, ParseExpr;
    if SeesFilter(ts) {
      FilterSound(vs, ts);
    } else if Sees(ts, Minus) {
      ExprSound(vs, ts[1..], 7);
      var n := ParseExpr(vs, ts[1..], 7);
      Head(ts);
      Cat([Minus], Yield(n.tree), n.rest);
    } else {
      LocationSound(vs, ts);
    }
  }

  lemma {:induction false} ExprSound(vs: vars, ts: tokens, limit: nat)
    requires ParseExpr(vs, ts, limit).Done? && (limit == 0 || limit == 7)
    ensures (var d := ParseExpr(vs, ts, limit);
             && ts == Yield(d.tree) + d.rest && InGrammar(vs, d.tree) && Level(d.tree) >= limit
             && (Next(d.rest) == 0 || Next(d.rest) < limit) && NoStep(d.tree, d.rest))
    decreases |ts|, 6
  {
    hide Yield, InGrammar, ParseUnary, ParseRec;
    UnarySound(vs, ts);
    var n := ParseUnary(vs, ts);
    RecSound(vs, n.tree, n.rest, limit);
  }

  lemma {:induction false} RecSound(vs: vars, lhs: Tree, ts: tokens, limit: nat)
    requires ParseRec(vs, lhs, ts, limit).Done? && InGrammar(vs, lhs) && Next(ts) <= Top(lhs) && NoStep(lhs, ts)
    ensures (var d := ParseRec(vs, lhs, ts, limit);
             && Yield(lhs) + ts == Yield(d.tree) + d.rest && InGrammar(vs, d.tree)
             && (Next(d.rest) == 0 || Next(d.rest) < limit) && Next(d.rest) <= Top(d.tree) && NoStep(d.tree, d.rest)
             && (d.tree == lhs || (d.tree.Bin? && Precedence(d.tree.op) >= limit)))
    decreases |ts|, 1
  {
    hide ParseRight, Yield, InGrammar, EndsBare, UnionMisapplied;
    if Next(ts) != 0 && Next(ts) >= limit {
      RightSound(vs, ts);
      var op, r := OpOf(ts[0]).value, ParseRight(vs, ts);
      BinSound(vs, lhs, ts, r.tree, r.rest);
      RecSound(vs, Bin(op, lhs, r.tree), r.rest, limit);
    }
  }

  /** One operator and its right operand more. */
  lemma BinSound(vs: vars, lhs: Tree, ts: tokens, r: Tree, rest: tokens)
    requires InGrammar(vs, lhs) && InGrammar(vs, r) && Next(ts) != 0 && Next(ts) <= Top(lhs) && NoStep(lhs, ts)
    requires ts[1..] == Yield(r) + rest && NoStep(r, rest) && (!r.Bin? || Precedence(r.op) > Next(ts))
    requires Next(rest) <= Next(ts) && !UnionMisapplied(vs, OpOf(ts[0]).value, lhs, r)
    ensures (var t := Bin(OpOf(ts[0]).value, lhs, r);
             && InGrammar(vs, t) && Yield(lhs) + ts == Yield(t) + rest && Next(rest) <= Top(t) && NoStep(t, rest))
  {
    TokenOps(ts[0]);
    Head(ts);
    Associate(Yield(lhs), OpOf(ts[0]).value, Yield(r), rest);
  }

  lemma Associate(a: tokens, op: Op, b: tokens, c: tokens)
    ensures a + ([OpToken(op)] + (b + c)) == a + ([OpToken(op)] + b) + c
  {}

  lemma {:induction false} RightSound(vs: vars, ts: tokens)
    requires Next(ts) != 0 && ParseRight(vs, ts).Done?
    ensures (var d := ParseRight(vs, ts);
             && ts[1..] == Yield(d.tree) + d.rest && InGrammar(vs, d.tree) && Next(d.rest) <= Next(ts)
             && NoStep(d.tree, d.rest) && (!d.tree.Bin? || Precedence(d.tree.op) > Next(ts)))
    decreases |ts|, 0
  {
    hide Yield, InGrammar, ParseUnary, ParseTighter;
    UnarySound(vs, ts[1..]);
    var n := ParseUnary(vs, ts[1..]);
    TighterSound(vs, n.tree, n.rest, Next(ts));
  }

  lemma {:induction false} TighterSound(vs: vars, rhs: Tree, ts: tokens, p: nat)
    requires ParseTighter(vs, rhs, ts, p).Done? && InGrammar(vs, rhs) && Next(ts) <= Top(rhs) && NoStep(rhs, ts)
    requires !rhs.Bin? || Precedence(rhs.op) > p
    ensures (var d := ParseTighter(vs, rhs, ts, p);
             && Yield(rhs) + ts == Yield(d.tree) + d.rest && InGrammar(vs, d.tree) && Next(d.rest) <= p
             && NoStep(d.tree, d.rest) && (!d.tree.Bin? || Precedence(d.tree.op) > p))
    decreases |ts|, 2
  {
    if Next(ts) != 0 && Next(ts) > p {
      hide Yield, InGrammar, ParseRec;
      RecSound(vs, rhs, ts, Next(ts));
      var n := ParseRec(vs, rhs, ts, Next(ts));
      TighterSound(vs, n.tree, n.rest, p);
    }
  }

  lemma {:induction false} FilterSound(vs: vars, ts: tokens)
    requires SeesFilter(ts) && ParseFilter(vs, ts).Done?
    ensures (var d := ParseFilter(vs, ts);
             ts == Yield(d.tree) + d.rest && InGrammar(vs, d.tree) && d.tree.Path? && !EndsBare(d.tree))
    decreases |ts|, 4
  {
    hide ParsePrimary, ParsePreds, ParseSteps, YieldPrimary, YieldPreds, YieldSteps, AstPrimary, PrimaryInGrammar,
      PredsInGrammar, StepsInGrammar;
    PrimarySound(vs, ts);
    var base := ParsePrimary(vs, ts);
    PredsSound(vs, base.rest);
    var preds := ParsePreds(vs, base.rest);
    StepsSound(vs, preds.rest);
    var steps := ParseSteps(vs, preds.rest);
    Cat(YieldPreds(preds.tree), YieldSteps(steps.tree), steps.rest);
    Cat(YieldPrimary(base.tree), YieldPreds(preds.tree) + YieldSteps(steps.tree), steps.rest);
  }

  lemma {:induction false} PrimarySound(vs: vars, ts: tokens)
    requires SeesFilter(ts) && ParsePrimary(vs, ts).Done?
    ensures (var d := ParsePrimary(vs, ts); ts == YieldPrimary(d.tree) + d.rest && PrimaryInGrammar(vs, d.tree))
    decreases |ts|, 3
  {
    hide ParseExpr, ParseArgs, Yield, InGrammar, YieldArgs, ArgsInGrammar, MakeCall, AstArgs;
    Head(ts);
    if ts[0] == Open {
      ExprSound(vs, ts[1..], 0);
      var n := ParseExpr(vs, ts[1..], 0);
      Head(n.rest);
      Cat(Yield(n.tree), [Close], n.rest[1..]);
      Cat([Open], Yield(n.tree) + [Close], n.rest[1..]);
    } else if ts[0].Name? {
      ArgsSound(vs, true, ts[2..]);
      var args := ParseArgs(vs, true, ts[2..]);
      assert ts == [ts[0], Open] + ts[2..];
      Cat([ts[0], Open], YieldArgs(true, args.tree), args.rest);
    }
  }

  lemma {:induction false} ArgsSound(vs: vars, first: bool, ts: tokens)
    requires ParseArgs(vs, first, ts).Done?
    ensures (var d := ParseArgs(vs, first, ts);
             ts == YieldArgs(first, d.tree) + d.rest && ArgsInGrammar(vs, d.tree))
    decreases |ts|, 7
  {
    hide ParseExpr, Yield, InGrammar;
    Head(ts);
    if !Sees(ts, Close) {
      var from := if first then ts else ts[1..];
      ExprSound(vs, from, 0);
      var e := ParseExpr(vs, from, 0);
      ArgsSound(vs, false, e.rest);
      var next := ParseArgs(vs, false, e.rest);
      Cat(Yield(e.tree), YieldArgs(false, next.tree), next.rest);
      Cat(if first then [] else [Comma], Yield(e.tree) + YieldArgs(false, next.tree), next.rest);
    }
  }

  lemma {:induction false} PredsSound(vs: vars, ts: tokens)
    requires ParsePreds(vs, ts).Done?
    ensures (var d := ParsePreds(vs, ts); ts == YieldPreds(d.tree) + d.rest && PredsInGrammar(vs, d.tree))
    decreases |ts|, 0
  {
    hide ParseExpr, Yield, InGrammar;
    if Sees(ts, OpenSquare) {
      ExprSound(vs, ts[1..], 0);
      var e := ParseExpr(vs, ts[1..], 0);
      PredsSound(vs, e.rest[1..]);
      var next := ParsePreds(vs, e.rest[1..]);
      Head(ts);
      Head(e.rest);
      Cat([CloseSquare], YieldPreds(next.tree), next.rest);
      Cat(Yield(e.tree), [CloseSquare] + YieldPreds(next.tree), next.rest);
      Cat([OpenSquare], Yield(e.tree) + ([CloseSquare] + YieldPreds(next.tree)), next.rest);
    }
  }

  lemma {:induction false} LocationSound(vs: vars, ts: tokens)
    requires ParseLocation(vs, ts).Done?
    ensures (var d := ParseLocation(vs, ts);
             ts == Yield(d.tree) + d.rest && InGrammar(vs, d.tree) && d.tree.Path? && NoStep(d.tree, d.rest))
    decreases |ts|, 4
  {
    hide ParseRelative, ParseSteps, YieldSteps, YieldBody, StepsInGrammar;
    if SeesSlash(ts) {
      Head(ts);
      if ts[0] == Slash && (ts[1..] == [] || !CouldStep(ts[1])) {
        NoMoreSteps(vs);
      } else {
        StepsSound(vs, ts);
        var steps := ParseSteps(vs, ts);
        SomeStep(vs, ts);
      }
    } else {
      RelativeSound(vs, false, ts);
      var steps := ParseRelative(vs, false, ts);
      Cat(YieldBody(steps.tree.body), YieldSteps(steps.tree.next), steps.rest);
    }
  }

  lemma NoMoreSteps(vs: vars)
    ensures StepsInGrammar(vs, NoSteps)
  {}

  lemma SomeStep(vs: vars, ts: tokens)
    requires SeesSlash(ts)
    ensures ParseSteps(vs, ts).Done? ==> ParseSteps(vs, ts).tree.Step?
  {}

  lemma {:induction false} RelativeSound(vs: vars, double: bool, ts: tokens)
    requires ParseRelative(vs, double, ts).Done?
    ensures (var d := ParseRelative(vs, double, ts);
             && ts == YieldBody(d.tree.body) + (YieldSteps(d.tree.next) + d.rest)
             && StepsInGrammar(vs, d.tree))
    decreases |ts|, 2
  {
    hide ParseBody, ParseSteps, YieldBody, YieldSteps, BodyInGrammar;
    BodySound(vs, ts);
    StepsSound(vs, ParseBody(vs, ts).rest);
  }

  lemma {:induction false} StepsSound(vs: vars, ts: tokens)
    requires ParseSteps(vs, ts).Done?
    ensures (var d := ParseSteps(vs, ts); ts == YieldSteps(d.tree) + d.rest && StepsInGrammar(vs, d.tree))
    decreases |ts|, 0
  {
    hide ParseRelative, YieldBody, BodyInGrammar;
    if SeesSlash(ts) {
      RelativeSound(vs, ts[0] == DoubleSlash, ts[1..]);
      var d := ParseRelative(vs, ts[0] == DoubleSlash, ts[1..]);
      Head(ts);
      Cat(YieldBody(d.tree.body), YieldSteps(d.tree.next), d.rest);
      Cat([ts[0]], YieldBody(d.tree.body) + YieldSteps(d.tree.next), d.rest);
    }
  }

  lemma {:induction false} BodySound(vs: vars, ts: tokens)
    requires ParseBody(vs, ts).Done?
    ensures (var d := ParseBody(vs, ts); ts == YieldBody(d.tree) + d.rest && BodyInGrammar(vs, d.tree))
    decreases |ts|, 1
  {
    hide ParsePreds, ReadTest, YieldPreds, PredsInGrammar, YieldAxis, YieldTest;
    if Sees(ts, Dot) || Sees(ts, DoubleDot) {
      Head(ts);
    } else {
      TestSound(ts);
      var head := ReadTest(ts);
      PredsSound(vs, head.rest);
      var preds := ParsePreds(vs, head.rest);
      Cat(YieldAxis(head.tree.0) + YieldTest(head.tree.1), YieldPreds(preds.tree), preds.rest);
    }
  }

  lemma TestSound(ts: tokens)
    requires ReadTest(ts).Done?
    ensures (var d := ReadTest(ts);
             && ts == YieldAxis(d.tree.0) + YieldTest(d.tree.1) + d.rest
             && (d.tree.0.Named? ==> AxisNamed(d.tree.0.name).Some?)
             && (d.tree.1.ByType? ==> NodeType(d.tree.1.name).Some?))
  {
    hide ReadNodeTest, YieldTest, AxisNamed, NodeType;
    var d := ReadTest(ts);
    var n := |YieldAxis(d.tree.0)|;
    assert ts[..n] == YieldAxis(d.tree.0) && d == WithAxis(d.tree.0, ReadNodeTest(ts[n..]));
    NodeTestSound(ts[n..]);
    assert ts == ts[..n] + ts[n..];
    Cat(YieldAxis(d.tree.0), YieldTest(d.tree.1), d.rest);
  }

  lemma NodeTestSound(ts: tokens)
    requires ReadNodeTest(ts).Done?
    ensures (var d := ReadNodeTest(ts);
             ts == YieldTest(d.tree) + d.rest && (d.tree.ByType? ==> NodeType(d.tree.name).Some?))
  {
    hide NodeType;
    var d := ReadNodeTest(ts);
    var n := |YieldTest(d.tree)|;
    assert ts[..n] == YieldTest(d.tree) && d.rest == ts[n..];
  }

  // ----- completeness

  /** Stopping at a higher limit first and going on with a lower one makes no difference. */
  lemma {:induction false} RecTwice(vs: vars, lhs: Tree, ts: tokens, n: nat, m: nat)
    requires m <= n
    ensures (var d := ParseRec(vs, lhs, ts, n);
             ParseRec(vs, lhs, ts, m) == if d.Done? then ParseRec(vs, d.tree, d.rest, m) else Error)
    decreases |ts|
  {
    hide ParseRight, UnionMisapplied;
    if Next(ts) != 0 && Next(ts) >= n {
      var r := ParseRight(vs, ts);
      var op := OpOf(ts[0]).value;
      if r.Done? && !UnionMisapplied(vs, op, lhs, r.tree) {
        RecTwice(vs, Bin(op, lhs, r.tree), r.rest, n, m);
      }
    }
  }

  /** The inner loop, with its rising limits, is one climb with the limit just above p. */
  lemma {:induction false} TighterIsRec(vs: vars, rhs: Tree, ts: tokens, p: nat)
    ensures ParseTighter(vs, rhs, ts, p) == ParseRec(vs, rhs, ts, p + 1)
    decreases |ts|
  {
    if Next(ts) != 0 && Next(ts) > p {
      RecTwice(vs, rhs, ts, Next(ts), p + 1);
      var n := ParseRec(vs, rhs, ts, Next(ts));
      if n.Done? { TighterIsRec(vs, n.tree, n.rest, p); }
    }
  }

  /** The leftmost operand of a tree, where parsing its text begins. */
  function Base(t: Tree): Tree {
    if t.Bin? then Base(t.left) else t
  }

  /** What follows the leftmost operand in the text of t and then `rest`. */
  function After(t: Tree, rest: tokens): tokens {
    if t.Bin? then After(t.left, [OpToken(t.op)] + (Yield(t.right) + rest)) else rest
  }

  /** What can stand behind an expression. */
  predicate Follows(rest: tokens) {
    rest == [] || rest[0] == Close || rest[0] == CloseSquare || rest[0] == Comma || OpOf(rest[0]).Some?
  }

  /** rest cannot be taken as a continuation of t. */
  predicate Ends(t: Tree, rest: tokens) {
    Follows(rest) && Next(rest) <= Top(t) && NoStep(t, rest)
  }

  /** rest cannot be taken as a continuation of a step. */
  predicate EndsStep(rest: tokens) {
    !Sees(rest, Open) && !Sees(rest, DoubleColon) && !Sees(rest, OpenSquare)
  }

  lemma FollowsEnds(rest: tokens)
    requires Follows(rest)
    ensures EndsStep(rest) && !SeesSlash(rest)
  {}

  lemma StepsEnd(steps: Steps, rest: tokens)
    requires EndsStep(rest)
    ensures EndsStep(YieldSteps(steps) + rest)
  {}

  /**
    Reading the text of t begins with its leftmost operand; climbing from there, by any limit up to that of t, passes
    t.
  */
  lemma {:induction false} Complete(vs: vars, t: Tree, rest: tokens)
    requires InGrammar(vs, t) && Ends(t, rest)
    ensures ParseUnary(vs, Yield(t) + rest) == Done(Base(t), After(t, rest))
    ensures forall m: nat ::
      m <= Top(t) || !t.Bin? ==> ParseRec(vs, Base(t), After(t, rest), m) == ParseRec(vs, t, rest, m)
    decreases t, 1
  {
    match t {
      case Path(start, steps) =>
        PathComplete(vs, t, rest);
        PathIsBase(vs, t, rest);
      case Neg(n) =>
        NegComplete(vs, n, rest);
        PathIsBase(vs, t, rest);
      case Bin(op, l, r) => BinComplete(vs, t, rest);
    }
  }

  lemma PathIsBase(vs: vars, t: Tree, rest: tokens)
    requires !t.Bin?
    ensures Base(t) == t && After(t, rest) == rest
  {}

  /** A whole expression, up to a token that closes it. */
  lemma {:induction false} ExprComplete(vs: vars, t: Tree, rest: tokens)
    requires InGrammar(vs, t) && Follows(rest) && Next(rest) == 0
    ensures ParseExpr(vs, Yield(t) + rest, 0) == Done(t, rest)
    decreases t, 2
  {
    hide InGrammar, Yield, ParseUnary, Base, After, EndsBare, OpOf;
    ClosingToken(rest);
    Complete(vs, t, rest);
    assert ParseRec(vs, Base(t), After(t, rest), 0) == ParseRec(vs, t, rest, 0);
  }

  lemma ClosingToken(rest: tokens)
    requires Follows(rest) && Next(rest) == 0
    ensures rest != [] ==> !CouldStep(rest[0])
  {}

  lemma {:induction false} NegComplete(vs: vars, n: Tree, rest: tokens)
    requires InGrammar(vs, Neg(n)) && Ends(Neg(n), rest)
    ensures ParseUnary(vs, Yield(Neg(n)) + rest) == Done(Neg(n), rest)
    decreases n, 3
  {
    hide Yield, Base, After, ParseUnary;
    Complete(vs, n, rest);
    assert ParseRec(vs, Base(n), After(n, rest), 7) == ParseRec(vs, n, rest, 7);
    MinusRead(vs, n, rest);
  }

  lemma MinusRead(vs: vars, n: Tree, rest: tokens)
    requires ParseExpr(vs, Yield(n) + rest, 7) == Done(n, rest)
    ensures ParseUnary(vs, Yield(Neg(n)) + rest) == Done(Neg(n), rest)
  {
    hide ParseExpr, ParseFilter, ParseLocation;
    var ts := Yield(Neg(n)) + rest;
    assert ts[0] == Minus && ts[1..] == Yield(n) + rest;
  }

  lemma {:induction false} BinComplete(vs: vars, t: Tree, rest: tokens)
    requires t.Bin? && InGrammar(vs, t) && Ends(t, rest)
    ensures ParseUnary(vs, Yield(t) + rest) == Done(Base(t), After(t, rest))
    ensures forall m: nat ::
      m <= Precedence(t.op) ==> ParseRec(vs, Base(t), After(t, rest), m) == ParseRec(vs, t, rest, m)
    decreases t, 0
  {
    hide ParseUnary, UnionMisapplied;
    var op, l, r := t.op, t.left, t.right;
    var more := [OpToken(op)] + (Yield(r) + rest);
    OpTokens(op);
    Associate(Yield(l), op, Yield(r), rest);
    Complete(vs, l, more);
    RightComplete(vs, op, r, rest);
    forall m: nat | m <= Precedence(op)
      ensures ParseRec(vs, Base(t), After(t, rest), m) == ParseRec(vs, t, rest, m)
    {
      assert ParseRec(vs, l, more, m) == ParseRec(vs, t, rest, m);
    }
  }

  /** The right operand is read whole, and nothing more. */
  lemma {:induction false} RightComplete(vs: vars, op: Op, r: Tree, rest: tokens)
    requires InGrammar(vs, r) && Level(r) > OpLevel(op) && Next(rest) <= Precedence(op) && Follows(rest) &&
      NoStep(r, rest)
    ensures Next([OpToken(op)] + (Yield(r) + rest)) == Precedence(op)
    ensures ParseRight(vs, [OpToken(op)] + (Yield(r) + rest)) == Done(r, rest)
    decreases r, 2
  {
    hide ParseUnary, Yield, InGrammar, EndsBare;
    var ts := [OpToken(op)] + (Yield(r) + rest);
    OpTokens(op);
    assert ts[1..] == Yield(r) + rest;
    Complete(vs, r, rest);
    TighterIsRec(vs, Base(r), After(r, rest), Precedence(op));
  }

  // ----- completeness of paths

  lemma {:induction false} PathComplete(vs: vars, t: Tree, rest: tokens)
    requires t.Path? && InGrammar(vs, t) && Follows(rest) && NoStep(t, rest)
    ensures ParseUnary(vs, Yield(t) + rest) == Done(t, rest)
    decreases t, 0
  {
    hide ParsePrimary, ParsePreds, ParseSteps, ParseBody, YieldPrimary, YieldBody, YieldSteps, YieldPreds,
      PrimaryInGrammar, BodyInGrammar, PredsInGrammar, StepsInGrammar, AstPrimary, SeesFilter, SeesSlash, EndsStep,
      Follows, ParseExpr;
    FollowsEnds(rest);
    var steps := t.steps;
    StepsComplete(vs, steps, rest);
    match t.start {
      case Here => FromHere(vs, steps, rest);
      case AtRoot => FromRoot(vs, steps, rest);
      case At(base, preds) =>
        var after, behind := YieldPreds(preds) + (YieldSteps(steps) + rest), YieldSteps(steps) + rest;
        Cat(YieldPrimary(base), YieldPreds(preds) + YieldSteps(steps), rest);
        Cat(YieldPreds(preds), YieldSteps(steps), rest);
        PrimaryComplete(vs, base, after);
        StepsEnd(steps, rest);
        NoSquare(behind);
        PredsComplete(vs, preds, behind);
    }
  }

  lemma NoSquare(rest: tokens)
    requires EndsStep(rest)
    ensures !Sees(rest, OpenSquare)
  {}

  lemma {:induction false} FromHere(vs: vars, steps: Steps, rest: tokens)
    requires steps.Step? && !steps.double && StepsInGrammar(vs, steps) && EndsStep(rest) && !SeesSlash(rest)
    ensures ParseUnary(vs, Yield(Path(Here, steps)) + rest) == Done(Path(Here, steps), rest)
    decreases steps, 1
  {
    hide ParseSteps, ParseBody, YieldBody, YieldSteps, BodyInGrammar, SeesFilter, EndsStep, ParseFilter, ParseExpr;
    var after := YieldSteps(steps.next) + rest;
    Cat(YieldBody(steps.body), YieldSteps(steps.next), rest);
    StepsEnd(steps.next, rest);
    BodyFirst(vs, steps.body, after);
    BodyComplete(vs, steps.body, after);
    StepsComplete(vs, steps.next, rest);
    assert ParseRelative(vs, false, YieldBody(steps.body) + after) == Done(steps, rest);
  }

  /** A step is not taken for a function call. */
  lemma BodyFirst(vs: vars, body: Body, after: tokens)
    requires BodyInGrammar(vs, body) && EndsStep(after)
    ensures (var ts := YieldBody(body) + after; !SeesFilter(ts) && !SeesSlash(ts) && !Sees(ts, Minus))
  {
    hide PredsInGrammar, YieldPreds;
    var ts := YieldBody(body) + after;
    assert ts[0] == YieldBody(body)[0];
    if body.Full? {
      var behind := YieldPreds(body.preds) + after;
      PredsEnd(body.preds, after);
      Cat(YieldAxis(body.axis) + YieldTest(body.test), YieldPreds(body.preds), after);
      TestFirst(body.axis, body.test, behind);
    }
  }

  lemma TestFirst(axis: AxisSpec, test: Test, rest: tokens)
    requires (test.ByType? ==> NodeType(test.name).Some?) && !Sees(rest, Open)
    ensures (var ts := YieldAxis(axis) + YieldTest(test) + rest; !SeesFilter(ts))
  {
    var ts := YieldAxis(axis) + YieldTest(test) + rest;
    match axis {
      case Implied => ImpliedFirst(test, rest);
      case Attribute => assert ts[0] == AtSign;
      case Named(name) => assert ts[0] == Name(name) && ts[1] == DoubleColon && Sees(ts[1..], DoubleColon);
    }
  }

  lemma ImpliedFirst(test: Test, rest: tokens)
    requires (test.ByType? ==> NodeType(test.name).Some?) && !Sees(rest, Open)
    ensures [] + YieldTest(test) + rest == YieldTest(test) + rest && !SeesFilter(YieldTest(test) + rest)
  {
    var ts := YieldTest(test) + rest;
    match test {
      case Any => assert ts[0] == Star;
      case ByName(name) => assert ts[0] == Name(name) && ts[1..] == rest;
      case ByType(name) => assert ts[0] == Name(name);
      case Target(text) => assert ts[0] == Name(PI);
    }
  }

  lemma PredsFirst(preds: Preds)
    ensures YieldPreds(preds) != [] ==> YieldPreds(preds)[0] == OpenSquare
  {}

  lemma {:induction false} FromRoot(vs: vars, steps: Steps, rest: tokens)
    requires ParseSteps(vs, YieldSteps(steps) + rest) == Done(steps, rest)
    requires steps.NoSteps? && rest != [] ==> !CouldStep(rest[0])
    ensures ParseUnary(vs, Yield(Path(AtRoot, steps)) + rest) == Done(Path(AtRoot, steps), rest)
  {
    hide ParseSteps, YieldBody, ParseFilter, ParseExpr;
    var ts := Yield(Path(AtRoot, steps)) + rest;
    if steps.Step? {
      var first := if steps.double then DoubleSlash else Slash;
      var body := YieldBody(steps.body);
      assert ts[0] == first && ts[1] == body[0];
    } else {
      assert ts == [Slash] + rest;
    }
  }

  lemma {:induction false} StepsComplete(vs: vars, steps: Steps, rest: tokens)
    requires StepsInGrammar(vs, steps) && EndsStep(rest) && !SeesSlash(rest)
    ensures ParseSteps(vs, YieldSteps(steps) + rest) == Done(steps, rest)
    decreases steps, 0
  {
    hide ParseBody, YieldBody, BodyInGrammar, EndsStep;
    match steps {
      case NoSteps => assert YieldSteps(steps) + rest == rest;
      case Step(double, body, next) =>
        var first, after := if double then DoubleSlash else Slash, YieldSteps(next) + rest;
        Cat([first], YieldBody(body) + YieldSteps(next), rest);
        Cat(YieldBody(body), YieldSteps(next), rest);
        StepsEnd(next, rest);
        BodyComplete(vs, body, after);
        StepsComplete(vs, next, rest);
        assert ([first] + (YieldBody(body) + after))[1..] == YieldBody(body) + after;
    }
  }

  lemma {:induction false} BodyComplete(vs: vars, body: Body, rest: tokens)
    requires BodyInGrammar(vs, body) && EndsStep(rest)
    ensures ParseBody(vs, YieldBody(body) + rest) == Done(body, rest)
    decreases body, 0
  {
    hide ParsePreds, ReadTest, YieldPreds, PredsInGrammar, YieldAxis, YieldTest, AxisNamed, NodeType;
    match body {
      case Self => assert ([Dot] + rest)[1..] == rest;
      case Parent => assert ([DoubleDot] + rest)[1..] == rest;
      case Full(axis, test, preds) =>
        var after := YieldPreds(preds) + rest;
        Cat(YieldAxis(axis) + YieldTest(test), YieldPreds(preds), rest);
        PredsEnd(preds, rest);
        TestComplete(axis, test, after);
        PredsComplete(vs, preds, rest);
    }
  }

  lemma PredsEnd(preds: Preds, rest: tokens)
    requires EndsStep(rest)
    ensures !Sees(YieldPreds(preds) + rest, Open) && !Sees(YieldPreds(preds) + rest, DoubleColon)
  {
    PredsFirst(preds);
  }

  lemma TestComplete(axis: AxisSpec, test: Test, rest: tokens)
    requires axis.Named? ==> AxisNamed(axis.name).Some?
    requires test.ByType? ==> NodeType(test.name).Some?
    requires !Sees(rest, Open) && !Sees(rest, DoubleColon)
    ensures (var ts := YieldAxis(axis) + YieldTest(test) + rest;
             ReadTest(ts) == Done((axis, test), rest) && !Sees(ts, Dot) && !Sees(ts, DoubleDot))
  {
    hide ReadNodeTest, ReadTest, AxisNamed, NodeType, YieldTest, YieldAxis;
    var here := YieldTest(test) + rest;
    Cat(YieldAxis(axis), YieldTest(test), rest);
    NodeTestComplete(test, rest);
    NoAxisHere(test, rest);
    AxisComplete(axis, here);
  }

  lemma AxisComplete(axis: AxisSpec, here: tokens)
    requires axis.Named? ==> AxisNamed(axis.name).Some?
    requires here != [] && (here[0].Name? || here[0] == Star) && !Sees(here[1..], DoubleColon)
    ensures (var ts := YieldAxis(axis) + here;
             ReadTest(ts) == WithAxis(axis, ReadNodeTest(here)) && !Sees(ts, Dot) && !Sees(ts, DoubleDot))
  {
    hide ReadNodeTest, AxisNamed, WithAxis;
    var ts := YieldAxis(axis) + here;
    match axis {
      case Implied => assert ts == here;
      case Attribute => assert ts[1..] == here;
      case Named(name) => assert ts[1..] == [DoubleColon] + here && ts[2..] == here;
    }
  }

  /** A node test is not taken for an axis. */
  lemma NoAxisHere(test: Test, rest: tokens)
    requires !Sees(rest, DoubleColon)
    ensures (var here := YieldTest(test) + rest;
             && here != [] && (here[0].Name? || here[0] == Star) && !Sees(here[1..], DoubleColon))
  {
    var here := YieldTest(test) + rest;
    assert here[0] == YieldTest(test)[0];
    if |YieldTest(test)| > 1 {
      assert here[1] == YieldTest(test)[1];
    } else {
      assert here[1..] == rest;
    }
  }

  lemma NodeTestComplete(test: Test, rest: tokens)
    requires test.ByType? ==> NodeType(test.name).Some?
    requires !Sees(rest, Open)
    ensures ReadNodeTest(YieldTest(test) + rest) == Done(test, rest)
  {
    hide NodeType;
    var ts := YieldTest(test) + rest;
    match test {
      case Any => assert ts[0] == Star && ts[1..] == rest;
      case ByName(name) => assert ts[0] == Name(name) && ts[1..] == rest;
      case ByType(name) =>
        assert ts[0] == Name(name) && ts[1..] == [Open, Close] + rest;
        assert ts[2..] == [Close] + rest && ts[3..] == rest;
      case Target(text) =>
        assert ts[0] == Name(PI) && ts[1..] == [Open, Literal(text), Close] + rest;
        assert ts[2..] == [Literal(text), Close] + rest && ts[3] == Close && ts[4..] == rest;
    }
  }

  lemma {:induction false} PredsComplete(vs: vars, preds: Preds, rest: tokens)
    requires PredsInGrammar(vs, preds) && !Sees(rest, OpenSquare)
    ensures ParsePreds(vs, YieldPreds(preds) + rest) == Done(preds, rest)
    decreases preds, 0
  {
    hide ParseExpr, Yield, InGrammar;
    match preds {
      case NoPreds => assert YieldPreds(preds) + rest == rest;
      case Pred(e, next) =>
        var close := [CloseSquare] + (YieldPreds(next) + rest);
        Cat([CloseSquare], YieldPreds(next), rest);
        Cat(Yield(e), [CloseSquare] + YieldPreds(next), rest);
        Cat([OpenSquare], Yield(e) + ([CloseSquare] + YieldPreds(next)), rest);
        ExprComplete(vs, e, close);
        PredsComplete(vs, next, rest);
        assert ([OpenSquare] + (Yield(e) + close))[1..] == Yield(e) + close && close[1..] == YieldPreds(next) + rest;
    }
  }

  lemma {:induction false} PrimaryComplete(vs: vars, p: Primary, rest: tokens)
    requires PrimaryInGrammar(vs, p)
    ensures SeesFilter(YieldPrimary(p) + rest) && ParsePrimary(vs, YieldPrimary(p) + rest) == Done(p, rest)
    decreases p, 0
  {
    hide ParseExpr, ParseArgs, Yield, InGrammar, YieldArgs, ArgsInGrammar, MakeCall, AstArgs, NodeType;
    var ts := YieldPrimary(p) + rest;
    match p {
      case Paren(n) =>
        var close := [Close] + rest;
        Cat(Yield(n), [Close], rest);
        Cat([Open], Yield(n) + [Close], rest);
        ExprComplete(vs, n, close);
        assert ts[1..] == Yield(n) + close && close[1..] == rest;
      case Call(name, args) =>
        Cat([Name(name), Open], YieldArgs(true, args), rest);
        assert ts[0] == Name(name) && ts[1] == Open && ts[2..] == YieldArgs(true, args) + rest;
        ArgsComplete(vs, true, args, rest);
      case _ => assert ts[1..] == rest;
    }
  }

  lemma {:induction false} ArgsComplete(vs: vars, first: bool, args: Args, rest: tokens)
    requires ArgsInGrammar(vs, args)
    ensures ParseArgs(vs, first, YieldArgs(first, args) + rest) == Done(args, rest)
    decreases args, 0
  {
    hide ParseExpr, Yield, InGrammar;
    var ts := YieldArgs(first, args) + rest;
    match args {
      case NoArgs => assert ts == [Close] + rest;
      case Arg(e, next) =>
        var comma, after := if first then [] else [Comma], YieldArgs(false, next) + rest;
        Cat(Yield(e), YieldArgs(false, next), rest);
        Cat(comma, Yield(e) + YieldArgs(false, next), rest);
        assert ts == comma + (Yield(e) + after) && ts[|comma|..] == Yield(e) + after;
        ArgsFirst(next, rest);
        ExprComplete(vs, e, after);
        if Sees(ts, Close) { NotClosed(vs, ts, 0); }
        ArgsComplete(vs, false, next, rest);
    }
  }

  lemma ArgsFirst(args: Args, rest: tokens)
    ensures (var ts := YieldArgs(false, args) + rest; ts != [] && (ts[0] == Close || ts[0] == Comma))
  {}

  /** No expression begins with a closing parenthesis. */
  lemma NotClosed(vs: vars, ts: tokens, limit: nat)
    requires Sees(ts, Close)
    ensures ParseExpr(vs, ts, limit).Error?
  {
    assert ReadTest(ts).Error?;
    assert ParseBody(vs, ts).Error? && ParseRelative(vs, false, ts).Error?;
    assert ParseLocation(vs, ts).Error? && ParseUnary(vs, ts).Error?;
  }

  /** The parser accepts exactly the texts of grammar trees, and answers with the tree. So no text has two trees. */
  lemma ParsesTheGrammar(vs: vars, ts: tokens, t: Tree)
    ensures ParseQuery(vs, ts) == Done(t, []) <==> InGrammar(vs, t) && Yield(t) == ts
  {
    hide Yield, InGrammar, ParseExpr;
    assert Yield(t) + [] == Yield(t);
    if ParseQuery(vs, ts) == Done(t, []) {
      ExprSound(vs, ts, 0);
    }
    if InGrammar(vs, t) && Yield(t) == ts {
      ExprComplete(vs, t, []);
    }
  }
}
