/** What the parser accepts is well typed, so that the results on evaluation hold for every query it accepts. */
module ExprTyping {
  import opened Bytes
  import opened ExprSyntax
  import X = XPathSemantics

  /** The world has the variables that the parser was told of, with their types. */
  ghost predicate Declares(w: X.World, vs: vars) {
    forall name :: name in vs ==>
      if vs[name] == X.TNodeSet then name in w.nodeSets
      else name in w.scalars && X.TypeOf(w.scalars[name]) == vs[name]
  }

  ghost predicate AllTyped(w: X.World, args: seq<X.Expr>) {
    forall i :: 0 <= i < |args| ==> X.Typed(w, args[i])
  }

  /** The arguments meet the parameters. */
  ghost predicate Fits(args: seq<X.Expr>, params: seq<X.Param>) {
    && |params| == |args|
    && forall i :: 0 <= i < |args| && params[i] == X.PFirst ==> X.ExprType(args[i]) == X.TNodeSet
  }

  lemma {:induction false} ArgListTyped(w: X.World, args: seq<X.Expr>, params: seq<X.Param>)
    requires AllTyped(w, args) && Fits(args, params)
    ensures X.TypedArgs(w, ArgList(args), params)
    decreases |args|
  {
    hide X.Typed;
    if args == [] {
    } else {
      ArgListTyped(w, args[1..], params[1..]);
    }
  }

  lemma LibraryTyped(w: X.World, id: nat, params: seq<X.Param>, ret: X.Type, args: seq<X.Expr>)
    requires AllTyped(w, args) && Fits(args, params) && ret != X.TNodeSet
    ensures X.Typed(w, Library(id, params, ret, args))
  {
    ArgListTyped(w, args, params);
  }

  lemma AnyLibrary(w: X.World, args: seq<X.Expr>)
    requires AllTyped(w, args)
    ensures forall id: nat, params, ret :: Fits(args, params) && ret != X.TNodeSet ==>
      X.Typed(w, Library(id, params, ret, args))
  {
    hide X.Typed, Library;
    forall id: nat, params, ret | Fits(args, params) && ret != X.TNodeSet
      ensures X.Typed(w, Library(id, params, ret, args))
    {
      LibraryTyped(w, id, params, ret, args);
    }
  }

  lemma OneArgument(w: X.World, args: seq<X.Expr>)
    requires AllTyped(w, args)
    ensures |args| == 1 ==> X.Typed(w, X.Id(args[0]))
    ensures |args| == 1 && OnNodeSet(args) ==> X.Typed(w, X.Count(args[0])) && X.Typed(w, X.Sum(args[0]))
    ensures |args| == 3 ==> X.Typed(w, X.TranslateCall(args[0], args[1], args[2]))
    ensures X.Typed(w, X.Last) && X.Typed(w, X.Position)
  {}

  lemma CallTyped(w: X.World, name: bytes, args: seq<X.Expr>)
    requires AllTyped(w, args) && MakeCall(name, args).Some?
    ensures X.Typed(w, MakeCall(name, args).value)
  {
    hide X.Typed, Ascii, MakeCallFromL, Library, AllTyped;
    AnyLibrary(w, args);
    OneArgument(w, args);
    LaterCallTyped(w, name, args);
  }

  lemma LaterCallTyped(w: X.World, name: bytes, args: seq<X.Expr>)
    requires AllTyped(w, args)
    ensures MakeCallFromL(name, args).Some? ==> X.Typed(w, MakeCallFromL(name, args).value)
  {
    hide X.Typed, Ascii, MakeCallFromS, Library, AllTyped;
    AnyLibrary(w, args);
    OneArgument(w, args);
    LastCallTyped(w, name, args);
  }

  lemma LastCallTyped(w: X.World, name: bytes, args: seq<X.Expr>)
    requires AllTyped(w, args)
    ensures MakeCallFromS(name, args).Some? ==> X.Typed(w, MakeCallFromS(name, args).value)
  {
    hide X.Typed, Ascii, Library, AllTyped;
    AnyLibrary(w, args);
    OneArgument(w, args);
  }

  // ----- trees

  lemma {:induction false} TreeTyped(w: X.World, vs: vars, t: Tree)
    requires InGrammar(vs, t) && Declares(w, vs)
    ensures X.Typed(w, Ast(vs, t))
    decreases t, 1
  {
    match t {
      case Bin(op, l, r) =>
        TreeTyped(w, vs, l);
        TreeTyped(w, vs, r);
        BinaryTyped(w, op, Ast(vs, l), Ast(vs, r));
      case Neg(n) =>
        TreeTyped(w, vs, n);
        LibraryTyped(w, 106, [X.PNumber], X.TNumber, [Ast(vs, n)]);
      case Path(start, steps) => PathTyped(w, vs, start, steps);
    }
  }

  lemma BinaryTyped(w: X.World, op: Op, l: X.Expr, r: X.Expr)
    requires X.Typed(w, l) && X.Typed(w, r)
    requires op == Union ==> X.ExprType(l) == X.TNodeSet && X.ExprType(r) == X.TNodeSet
    ensures X.Typed(w, MakeBinary(op, l, r))
  {
    AnyLibrary(w, [l, r]);
    hide Library;
  }

  lemma {:induction false} PathTyped(w: X.World, vs: vars, start: Start, steps: Steps)
    requires InGrammar(vs, Path(start, steps)) && Declares(w, vs)
    ensures X.Typed(w, Ast(vs, Path(start, steps)))
    decreases Path(start, steps), 0
  {
    hide X.Typed;
    RootTyped(w);
    match start {
      case Here =>
        BodyTyped(w, vs, X.NoLeft, steps.body);
        StepsTyped(w, vs, AstBody(vs, X.NoLeft, steps.body), steps.next);
      case AtRoot => StepsTyped(w, vs, X.Root, steps);
      case At(base, preds) =>
        PrimaryTyped(w, vs, base);
        var n := AstPrimary(vs, base);
        FilterTyped(w, vs, n, preds);
        StepsTyped(w, vs, AstFilter(vs, n, preds), steps);
    }
  }

  lemma RootTyped(w: X.World)
    ensures X.Typed(w, X.Root) && X.ExprType(X.Root) == X.TNodeSet
  {}

  lemma {:induction false} PrimaryTyped(w: X.World, vs: vars, p: Primary)
    requires PrimaryInGrammar(vs, p) && Declares(w, vs)
    ensures X.Typed(w, AstPrimary(vs, p))
    decreases p, 0
  {
    match p {
      case Paren(n) => TreeTyped(w, vs, n);
      case Call(name, args) =>
        ArgsTyped(w, vs, args);
        CallTyped(w, name, AstArgs(vs, args));
      case _ =>
    }
  }

  lemma {:induction false} ArgsTyped(w: X.World, vs: vars, args: Args)
    requires ArgsInGrammar(vs, args) && Declares(w, vs)
    ensures AllTyped(w, AstArgs(vs, args))
    decreases args, 0
  {
    hide X.Typed, Ast, InGrammar;
    match args {
      case NoArgs =>
      case Arg(e, next) =>
        TreeTyped(w, vs, e);
        ArgsTyped(w, vs, next);
    }
  }

  lemma {:induction false} FilterTyped(w: X.World, vs: vars, n: X.Expr, preds: Preds)
    requires X.Typed(w, n) && PredsInGrammar(vs, preds) && Declares(w, vs)
    requires preds.Pred? ==> X.ExprType(n) == X.TNodeSet
    ensures X.Typed(w, AstFilter(vs, n, preds))
    ensures X.ExprType(AstFilter(vs, n, preds)) == if preds.Pred? then X.TNodeSet else X.ExprType(n)
    decreases preds, 0
  {
    match preds {
      case NoPreds =>
      case Pred(e, next) =>
        TreeTyped(w, vs, e);
        FilterTyped(w, vs, X.Filter(n, Ast(vs, e), X.Default), next);
    }
  }

  lemma {:induction false} StepsTyped(w: X.World, vs: vars, n: X.Expr, steps: Steps)
    requires X.Typed(w, n) && StepsInGrammar(vs, steps) && Declares(w, vs)
    requires steps.Step? ==> X.ExprType(n) == X.TNodeSet
    ensures X.Typed(w, AstSteps(vs, n, steps))
    decreases steps, 0
  {
    hide X.Typed, AstBody, BodyInGrammar;
    match steps {
      case NoSteps =>
      case Step(double, body, next) =>
        DescendTyped(w, n);
        var from := X.From(if double then Descend(n) else n);
        BodyTyped(w, vs, from, body);
        StepsTyped(w, vs, AstBody(vs, from, body), next);
    }
  }

  lemma DescendTyped(w: X.World, n: X.Expr)
    requires X.Typed(w, n) && X.ExprType(n) == X.TNodeSet
    ensures X.Typed(w, Descend(n)) && X.ExprType(Descend(n)) == X.TNodeSet
  {}

  lemma {:induction false} BodyTyped(w: X.World, vs: vars, from: X.Left, body: Body)
    requires BodyInGrammar(vs, body) && Declares(w, vs)
    requires from.From? ==> X.Typed(w, from.e) && X.ExprType(from.e) == X.TNodeSet
    ensures X.Typed(w, AstBody(vs, from, body)) && X.ExprType(AstBody(vs, from, body)) == X.TNodeSet
    decreases body, 0
  {
    if body.Full? {
      PredsTyped(w, vs, body.preds);
    }
  }

  lemma {:induction false} PredsTyped(w: X.World, vs: vars, preds: Preds)
    requires PredsInGrammar(vs, preds) && Declares(w, vs)
    ensures X.TypedPreds(w, AstPreds(vs, preds))
    decreases preds, 0
  {
    match preds {
      case NoPreds =>
      case Pred(e, next) =>
        TreeTyped(w, vs, e);
        PredsTyped(w, vs, next);
    }
  }
}
