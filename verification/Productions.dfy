/**
  The productions of section 3 of XPath 1.0, one predicate for each nonterminal, and the operators written out. The
  grammar by levels that the parser is proved against has exactly the trees that these productions derive.
*/
module Productions {
  import opened Basics
  import opened Bytes
  import opened ExprSyntax
  import ExprParser
  import X = XPathSemantics

  // ----- the productions

  /** OrExpr ::= AndExpr | OrExpr 'or' AndExpr */
  predicate OrExpr(vs: vars, t: Tree)
    decreases t, 10
  {
    AndExpr(vs, t) ||
    (t.Bin? && t.op == Or && OrExpr(vs, t.left) && AndExpr(vs, t.right) && !SlashLast(t.left))
  }

  /** AndExpr ::= EqualityExpr | AndExpr 'and' EqualityExpr */
  predicate AndExpr(vs: vars, t: Tree)
    decreases t, 9
  {
    EqualityExpr(vs, t) ||
    (t.Bin? && t.op == And && AndExpr(vs, t.left) && EqualityExpr(vs, t.right) && !SlashLast(t.left))
  }

  /** EqualityExpr ::= RelationalExpr | EqualityExpr '=' RelationalExpr | EqualityExpr '!=' RelationalExpr */
  predicate EqualityExpr(vs: vars, t: Tree)
    decreases t, 8
  {
    RelationalExpr(vs, t) ||
    (t.Bin? && t.op in {Eq, Ne} && EqualityExpr(vs, t.left) && RelationalExpr(vs, t.right))
  }

  /** RelationalExpr ::= AdditiveExpr | RelationalExpr ('<' | '>' | '<=' | '>=') AdditiveExpr */
  predicate RelationalExpr(vs: vars, t: Tree)
    decreases t, 7
  {
    AdditiveExpr(vs, t) ||
    (t.Bin? && t.op in {Lt, Gt, Le, Ge} && RelationalExpr(vs, t.left) && AdditiveExpr(vs, t.right))
  }

  /** AdditiveExpr ::= MultiplicativeExpr | AdditiveExpr ('+' | '-') MultiplicativeExpr */
  predicate AdditiveExpr(vs: vars, t: Tree)
    decreases t, 6
  {
    MultiplicativeExpr(vs, t) ||
    (t.Bin? && t.op in {Add, Subtract} && AdditiveExpr(vs, t.left) && MultiplicativeExpr(vs, t.right))
  }

  /** MultiplicativeExpr ::= UnaryExpr | MultiplicativeExpr ('*' | 'div' | 'mod') UnaryExpr */
  predicate MultiplicativeExpr(vs: vars, t: Tree)
    decreases t, 5
  {
    UnaryExpr(vs, t) ||
    (t.Bin? && t.op in {Multiply, Divide, Mod} && MultiplicativeExpr(vs, t.left) && UnaryExpr(vs, t.right) &&
     !SlashLast(t.left))
  }

  /** UnaryExpr ::= UnionExpr | '-' UnaryExpr */
  predicate UnaryExpr(vs: vars, t: Tree)
    decreases t, 4
  {
    UnionExpr(vs, t) || (t.Neg? && UnaryExpr(vs, t.arg))
  }

  /** UnionExpr ::= PathExpr | UnionExpr '|' PathExpr; the operands must be node-sets (section 3.3). */
  predicate UnionExpr(vs: vars, t: Tree)
    decreases t, 3
  {
    PathExpr(vs, t) ||
    (t.Bin? && t.op == Union && UnionExpr(vs, t.left) && PathExpr(vs, t.right) && IsNodeSet(vs, t.left) &&
     IsNodeSet(vs, t.right))
  }

  /**
    PathExpr ::= LocationPath | FilterExpr | FilterExpr '/' RelativeLocationPath | FilterExpr '//' RelativeLocationPath;
    what predicates and steps follow must be a node-set.
  */
  predicate PathExpr(vs: vars, t: Tree)
    decreases t, 2
  {
    t.Path? && StepList(vs, t.steps) &&
    match t.start
    case Here => t.steps.Step? && !t.steps.double
    case AtRoot => true
    case At(base, preds) =>
      && PrimaryExpr(vs, base) && PredicateList(vs, preds)
      && ((preds == NoPreds && t.steps == NoSteps) || X.ExprType(AstPrimary(vs, base)) == X.TNodeSet)
  }

  /** PrimaryExpr ::= VariableReference | '(' Expr ')' | Literal | Number | FunctionCall */
  predicate PrimaryExpr(vs: vars, p: Primary)
    decreases p, 0
  {
    match p
    case Paren(n) => OrExpr(vs, n)
    case Var(name) => name in vs
    case Str(_) => true
    case Num(_) => true
    case Call(name, args) => NodeType(name).None? && ArgumentList(vs, args) && MakeCall(name, AstArgs(vs, args)).Some?
  }

  predicate ArgumentList(vs: vars, args: Args)
    decreases args, 0
  {
    match args case NoArgs => true case Arg(e, next) => OrExpr(vs, e) && ArgumentList(vs, next)
  }

  predicate StepList(vs: vars, steps: Steps)
    decreases steps, 0
  {
    match steps case NoSteps => true case Step(_, body, next) => StepBody(vs, body) && StepList(vs, next)
  }

  /** Step ::= AxisSpecifier NodeTest Predicate* | AbbreviatedStep */
  predicate StepBody(vs: vars, body: Body)
    decreases body, 0
  {
    match body
    case Full(axis, test, preds) =>
      && (axis.Named? ==> AxisNamed(axis.name).Some?) && (test.ByType? ==> NodeType(test.name).Some?)
      && PredicateList(vs, preds)
    case _ => true
  }

  predicate PredicateList(vs: vars, preds: Preds)
    decreases preds, 0
  {
    match preds case NoPreds => true case Pred(e, next) => OrExpr(vs, e) && PredicateList(vs, next)
  }

  /** The text ends with a `/` that is a path of its own; a name or an asterisk behind it would be its step. */
  predicate SlashLast(t: Tree) {
    match t
    case Bin(_, _, r) => SlashLast(r)
    case Neg(n) => SlashLast(n)
    case Path(start, steps) => start == AtRoot && steps == NoSteps
  }

  // ----- the levels are the productions

  lemma {:induction false} SameSlash(t: Tree)
    ensures SlashLast(t) == EndsBare(t)
    decreases t
  {
    match t
    case Bin(_, _, r) => SameSlash(r);
    case Neg(n) => SameSlash(n);
    case Path(_, _) =>
  }

  /** The operators that are names or an asterisk. */
  lemma ReadAsStep(op: Op)
    ensures CouldStep(OpToken(op)) <==> op in {Or, And, Multiply, Divide, Mod}
  {}

  /** t is derived from exactly the nonterminals up to its level. */
  ghost predicate Agrees(vs: vars, t: Tree) {
    var ok, n := InGrammar(vs, t), Level(t);
    && (PathExpr(vs, t) <==> ok && n >= 9) && (UnionExpr(vs, t) <==> ok && n >= 8)
    && (UnaryExpr(vs, t) <==> ok && n >= 7) && (MultiplicativeExpr(vs, t) <==> ok && n >= 6)
    && (AdditiveExpr(vs, t) <==> ok && n >= 5) && (RelationalExpr(vs, t) <==> ok && n >= 4)
    && (EqualityExpr(vs, t) <==> ok && n >= 3) && (AndExpr(vs, t) <==> ok && n >= 2) && (OrExpr(vs, t) <==> ok)
  }

  lemma {:induction false} DerivedByLevel(vs: vars, t: Tree)
    ensures Agrees(vs, t)
    decreases t, 1
  {
    match t {
      case Bin(op, l, r) =>
        DerivedByLevel(vs, l);
        DerivedByLevel(vs, r);
        SameSlash(l);
        ReadAsStep(op);
        BinaryDerived(vs, t);
      case Neg(n) =>
        DerivedByLevel(vs, n);
        NegationDerived(vs, t);
      case Path(_, _) => PathDerived(vs, t);
    }
  }

  /** Which nonterminal an operator belongs to. */
  lemma BinaryDerived(vs: vars, t: Tree)
    requires t.Bin? && Agrees(vs, t.left) && Agrees(vs, t.right) && SlashLast(t.left) == EndsBare(t.left)
    requires CouldStep(OpToken(t.op)) <==> t.op in {Or, And, Multiply, Divide, Mod}
    ensures Agrees(vs, t)
  {
    hide SlashLast, EndsBare, CouldStep, OpToken, IsNodeSet;
    var ok, op := InGrammar(vs, t), t.op;
    assert !PathExpr(vs, t);
    assert UnionExpr(vs, t) <==> ok && op == Union;
    assert UnaryExpr(vs, t) <==> ok && op == Union;
    assert MultiplicativeExpr(vs, t) <==> ok && op in {Multiply, Divide, Mod, Union};
    assert AdditiveExpr(vs, t) <==> ok && op in {Add, Subtract, Multiply, Divide, Mod, Union};
    assert RelationalExpr(vs, t) <==> ok && op !in {Or, And, Eq, Ne};
    assert EqualityExpr(vs, t) <==> ok && op !in {Or, And};
    assert AndExpr(vs, t) <==> ok && op != Or;
    assert OrExpr(vs, t) <==> ok;
  }

  lemma NegationDerived(vs: vars, t: Tree)
    requires t.Neg? && Agrees(vs, t.arg)
    ensures Agrees(vs, t)
  {
    var ok := InGrammar(vs, t);
    assert !PathExpr(vs, t) && !UnionExpr(vs, t);
    assert UnaryExpr(vs, t) <==> ok;
    assert MultiplicativeExpr(vs, t) <==> ok;
    assert AdditiveExpr(vs, t) <==> ok;
    assert RelationalExpr(vs, t) <==> ok;
    assert EqualityExpr(vs, t) <==> ok;
    assert AndExpr(vs, t) <==> ok;
  }

  lemma {:induction false} PathDerived(vs: vars, t: Tree)
    requires t.Path?
    ensures Agrees(vs, t)
    decreases t, 0
  {
    hide StepList, StepsInGrammar, PredicateList, PredsInGrammar, PrimaryExpr, PrimaryInGrammar, AstPrimary;
    var ok := InGrammar(vs, t);
    StepsDerived(vs, t.steps);
    if t.start.At? {
      PrimaryDerived(vs, t.start.base);
      PredsDerived(vs, t.start.preds);
    }
    assert PathExpr(vs, t) <==> ok;
    assert UnionExpr(vs, t) <==> ok;
    assert UnaryExpr(vs, t) <==> ok;
    assert MultiplicativeExpr(vs, t) <==> ok;
    assert AdditiveExpr(vs, t) <==> ok;
    assert RelationalExpr(vs, t) <==> ok;
    assert EqualityExpr(vs, t) <==> ok;
    assert AndExpr(vs, t) <==> ok;
  }

  lemma {:induction false} PrimaryDerived(vs: vars, p: Primary)
    ensures PrimaryExpr(vs, p) <==> PrimaryInGrammar(vs, p)
    decreases p, 0
  {
    match p
    case Paren(n) => DerivedByLevel(vs, n);
    case Call(_, args) => ArgsDerived(vs, args);
    case _ =>
  }

  lemma {:induction false} ArgsDerived(vs: vars, args: Args)
    ensures ArgumentList(vs, args) <==> ArgsInGrammar(vs, args)
    decreases args, 0
  {
    match args
    case NoArgs =>
    case Arg(e, next) =>
      DerivedByLevel(vs, e);
      ArgsDerived(vs, next);
  }

  lemma {:induction false} StepsDerived(vs: vars, steps: Steps)
    ensures StepList(vs, steps) <==> StepsInGrammar(vs, steps)
    decreases steps, 0
  {
    match steps
    case NoSteps =>
    case Step(_, body, next) =>
      StepsDerived(vs, next);
      if body.Full? { PredsDerived(vs, body.preds); }
  }

  lemma {:induction false} PredsDerived(vs: vars, preds: Preds)
    ensures PredicateList(vs, preds) <==> PredsInGrammar(vs, preds)
    decreases preds, 0
  {
    match preds
    case NoPreds =>
    case Pred(e, next) =>
      DerivedByLevel(vs, e);
      PredsDerived(vs, next);
  }

  /** The grammar has exactly the trees that the productions derive from Expr, which is OrExpr. */
  lemma GrammarIsProductions(vs: vars, t: Tree)
    ensures InGrammar(vs, t) <==> OrExpr(vs, t)
  {
    DerivedByLevel(vs, t);
  }

  /** The parser accepts exactly the texts of the trees that the productions derive, and answers with the tree. */
  lemma ParsesProductions(vs: vars, ts: tokens, t: Tree)
    ensures ExprParser.ParseQuery(vs, ts) == ExprParser.Done(t, []) <==> OrExpr(vs, t) && Yield(t) == ts
  {
    hide ExprParser.ParseQuery, OrExpr, InGrammar, Yield;
    ExprParser.ParsesTheGrammar(vs, ts, t);
    GrammarIsProductions(vs, t);
  }
}
