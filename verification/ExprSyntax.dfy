/**
  XPath queries as tokens, as trees of the layered grammar of sections 2 and 3 of XPath 1.0, and as the nodes that the
  parser allocates for them.
*/
module ExprSyntax {
  import opened Basics
  import opened Bytes
  import Axes
  import X = XPathSemantics

  // ----- tokens

  /** `lexeme_t` with its contents; a numeral comes with its value. The end of the tokens is `lex_eof`. */
  datatype Token =
    | Equal | NotEqual | Less | Greater | LessOrEqual | GreaterOrEqual | Plus | Minus | Star | Bar
    | Variable(name: bytes) | Literal(text: cstring) | Numeral(value: X.Number) | Name(name: bytes)
    | Open | Close | OpenSquare | CloseSquare | Slash | DoubleSlash | Comma | AtSign | Dot | DoubleDot | DoubleColon
    | Unknown

  /** Bytes of a query, which end at its first NUL. */
  type cstring = s: bytes | 0 !in s

  type tokens = seq<Token>

  datatype Op = Or | And | Eq | Ne | Lt | Gt | Le | Ge | Add | Subtract | Multiply | Divide | Mod | Union

  /** The bytes of an ASCII text. */
  function Ascii(s: string): (r: bytes)
    ensures |r| == |s| && forall i :: 0 <= i < |s| && s[i] < 128 as char ==> r[i] == s[i] as int
  {
    seq(|s|, i requires 0 <= i < |s| => if s[i] < 128 as char then s[i] as int else 0)
  }

  /** `binary_op_t::parse`: the operator a token stands for where one is due. */
  function OpOf(tok: Token): Option<Op> {
    match tok
    case Name(s) =>
      if s == Ascii("or") then Some(Or)
      else if s == Ascii("and") then Some(And)
      else if s == Ascii("div") then Some(Divide)
      else if s == Ascii("mod") then Some(Mod)
      else None
    case Equal => Some(Eq) case NotEqual => Some(Ne)
    case Less => Some(Lt) case Greater => Some(Gt) case LessOrEqual => Some(Le) case GreaterOrEqual => Some(Ge)
    case Plus => Some(Add) case Minus => Some(Subtract)
    case Star => Some(Multiply)
    case Bar => Some(Union)
    case _ => None
  }

  function OpToken(op: Op): Token {
    match op
    case Or => Name(Ascii("or")) case And => Name(Ascii("and"))
    case Eq => Equal case Ne => NotEqual
    case Lt => Less case Gt => Greater case Le => LessOrEqual case Ge => GreaterOrEqual
    case Add => Plus case Subtract => Minus
    case Multiply => Star case Divide => Name(Ascii("div")) case Mod => Name(Ascii("mod"))
    case Union => Bar
  }

  lemma OpTokens(op: Op)
    ensures OpOf(OpToken(op)) == Some(op)
  {
    assert Ascii("or")[0] == 111 && Ascii("and")[0] == 97 && Ascii("div")[0] == 100 && Ascii("mod")[0] == 109;
  }

  lemma TokenOps(tok: Token)
    ensures OpOf(tok).Some? ==> OpToken(OpOf(tok).value) == tok
  {}

  function Precedence(op: Op): (p: nat)
    ensures 1 <= p <= 7
  {
    match op
    case Or => 1
    case And => 2
    case Eq => 3 case Ne => 3
    case Lt => 4 case Gt => 4 case Le => 4 case Ge => 4
    case Add => 5 case Subtract => 5
    case Multiply => 6 case Divide => 6 case Mod => 6
    case Union => 7
  }

  /** `parse_axis_name`. */
  function AxisNamed(s: bytes): Option<Axes.Axis> {
    if s == Ascii("ancestor") then Some(Axes.Ancestor)
    else if s == Ascii("ancestor-or-self") then Some(Axes.AncestorOrSelf)
    else if s == Ascii("attribute") then Some(Axes.Attributes)
    else if s == Ascii("child") then Some(Axes.Child)
    else if s == Ascii("descendant") then Some(Axes.Descendant)
    else if s == Ascii("descendant-or-self") then Some(Axes.DescendantOrSelf)
    else if s == Ascii("following") then Some(Axes.Following)
    else if s == Ascii("following-sibling") then Some(Axes.FollowingSibling)
    else if s == Ascii("namespace") then Some(Axes.Namespace)
    else if s == Ascii("parent") then Some(Axes.Parent)
    else if s == Ascii("preceding") then Some(Axes.Preceding)
    else if s == Ascii("preceding-sibling") then Some(Axes.PrecedingSibling)
    else if s == Ascii("self") then Some(Axes.Self)
    else None
  }

  /** `parse_node_test_type`. */
  function NodeType(s: bytes): Option<Axes.NodeTest> {
    if s == Ascii("comment") then Some(Axes.IsComment)
    else if s == Ascii("node") then Some(Axes.AnyNode)
    else if s == PI then Some(Axes.IsPi)
    else if s == Ascii("text") then Some(Axes.IsText)
    else None
  }

  const PI: bytes := Ascii("processing-instruction")

  // ----- trees

  /** A tree has one text: parentheses, abbreviations and both kinds of slashes are kept. */
  datatype Tree = Bin(op: Op, left: Tree, right: Tree) | Neg(arg: Tree) | Path(start: Start, steps: Steps)

  /** Where a path begins: at the context node, at the root, or at the nodes of a filter expression. */
  datatype Start = Here | AtRoot | At(base: Primary, preds: Preds)

  datatype Primary = Paren(inner: Tree) | Var(name: bytes) | Str(text: cstring) | Num(value: X.Number)
                   | Call(name: bytes, args: Args)

  datatype Steps = NoSteps | Step(double: bool, body: Body, next: Steps)

  datatype Body = Self | Parent | Full(axis: AxisSpec, test: Test, preds: Preds)

  datatype AxisSpec = Implied | Attribute | Named(name: bytes)

  datatype Test = Any | ByName(name: bytes) | ByType(name: bytes) | Target(text: cstring)

  datatype Preds = NoPreds | Pred(e: Tree, next: Preds)

  datatype Args = NoArgs | Arg(e: Tree, next: Args)

  /** The tokens of a tree in order. */
  function Yield(t: Tree): tokens
    decreases t
  {
    match t
    case Bin(op, l, r) => Yield(l) + ([OpToken(op)] + Yield(r))
    case Neg(n) => [Minus] + Yield(n)
    case Path(start, steps) =>
      match start
      case Here => if steps.Step? then YieldBody(steps.body) + YieldSteps(steps.next) else []
      case AtRoot => if steps.Step? then YieldSteps(steps) else [Slash]
      case At(base, preds) => YieldPrimary(base) + (YieldPreds(preds) + YieldSteps(steps))
  }

  function YieldPrimary(p: Primary): (ts: tokens)
    ensures ts != []
    decreases p
  {
    match p
    case Paren(n) => [Open] + (Yield(n) + [Close])
    case Var(name) => [Variable(name)]
    case Str(text) => [Literal(text)]
    case Num(value) => [Numeral(value)]
    case Call(name, args) => [Name(name), Open] + YieldArgs(true, args)
  }

  function YieldArgs(first: bool, args: Args): (ts: tokens)
    ensures ts != []
    decreases args
  {
    match args
    case NoArgs => [Close]
    case Arg(e, next) => (if first then [] else [Comma]) + (Yield(e) + YieldArgs(false, next))
  }

  function YieldSteps(steps: Steps): tokens
    decreases steps
  {
    match steps
    case NoSteps => []
    case Step(double, body, next) => [if double then DoubleSlash else Slash] + (YieldBody(body) + YieldSteps(next))
  }

  function YieldBody(body: Body): (ts: tokens)
    ensures ts != [] && CouldStep(ts[0])
    decreases body
  {
    match body
    case Self => [Dot]
    case Parent => [DoubleDot]
    case Full(axis, test, preds) => YieldAxis(axis) + YieldTest(test) + YieldPreds(preds)
  }

  function YieldAxis(axis: AxisSpec): tokens {
    match axis
    case Implied => []
    case Attribute => [AtSign]
    case Named(name) => [Name(name), DoubleColon]
  }

  function YieldTest(test: Test): (ts: tokens)
    ensures ts != [] && CouldStep(ts[0])
  {
    match test
    case Any => [Star]
    case ByName(name) => [Name(name)]
    case ByType(name) => [Name(name), Open, Close]
    case Target(text) => [Name(PI), Open, Literal(text), Close]
  }

  function YieldPreds(preds: Preds): tokens
    decreases preds
  {
    match preds
    case NoPreds => []
    case Pred(e, next) => [OpenSquare] + (Yield(e) + ([CloseSquare] + YieldPreds(next)))
  }

  /** Tokens that begin a location step; after a `/` they are read as one. */
  predicate CouldStep(tok: Token) {
    tok.Name? || tok == AtSign || tok == Dot || tok == DoubleDot || tok == Star
  }

  // ----- the nodes of a tree

  function ArgList(args: seq<X.Expr>): X.Args {
    if args == [] then X.NoArgs else X.Arg(args[0], ArgList(args[1..]))
  }

  function Library(id: nat, params: seq<X.Param>, ret: X.Type, args: seq<X.Expr>): X.Expr {
    X.Call(X.Fn(id, params, ret), ArgList(args))
  }

  predicate OnNodeSet(args: seq<X.Expr>) {
    args == [] || X.ExprType(args[0]) == X.TNodeSet
  }

  /** `parse_function`: none for an unknown name, a wrong number of arguments, or no node-set where one is due. */
  function MakeCall(name: bytes, args: seq<X.Expr>): Option<X.Expr> {
    var n := |args|;
    if name == Ascii("boolean") && n == 1 then Some(Library(1, [X.PBoolean], X.TBoolean, args))
    else if name == Ascii("count") && n == 1 then if OnNodeSet(args) then Some(X.Count(args[0])) else None
    else if name == Ascii("contains") && n == 2 then Some(Library(2, [X.PString, X.PString], X.TBoolean, args))
    else if name == Ascii("concat") && n >= 2 then Some(Library(3, seq(n, _ => X.PString), X.TString, args))
    else if name == Ascii("ceiling") && n == 1 then Some(Library(4, [X.PNumber], X.TNumber, args))
    else if name == Ascii("false") && n == 0 then Some(Library(5, [], X.TBoolean, args))
    else if name == Ascii("floor") && n == 1 then Some(Library(6, [X.PNumber], X.TNumber, args))
    else if name == Ascii("id") && n == 1 then Some(X.Id(args[0]))
    else if name == Ascii("last") && n == 0 then Some(X.Last)
    else if name == Ascii("lang") && n == 1 then Some(Library(7, [X.PString], X.TBoolean, args))
    else MakeCallFromL(name, args)
  }

  function MakeCallFromL(name: bytes, args: seq<X.Expr>): Option<X.Expr> {
    var n := |args|;
    if name == Ascii("local-name") && n <= 1 then OfFirst(8, args)
    else if name == Ascii("name") && n <= 1 then OfFirst(9, args)
    else if name == Ascii("namespace-uri") && n <= 1 then OfFirst(10, args)
    else if name == Ascii("normalize-space") && n <= 1 then
      Some(Library(11, seq(n, _ => X.PString), X.TString, args))
    else if name == Ascii("not") && n == 1 then Some(Library(12, [X.PBoolean], X.TBoolean, args))
    else if name == Ascii("number") && n <= 1 then Some(Library(13, seq(n, _ => X.PNumber), X.TNumber, args))
    else if name == Ascii("position") && n == 0 then Some(X.Position)
    else if name == Ascii("round") && n == 1 then Some(Library(14, [X.PNumber], X.TNumber, args))
    else MakeCallFromS(name, args)
  }

  function MakeCallFromS(name: bytes, args: seq<X.Expr>): Option<X.Expr> {
    var n := |args|;
    if name == Ascii("string") && n <= 1 then Some(Library(15, seq(n, _ => X.PString), X.TString, args))
    else if name == Ascii("string-length") && n <= 1 then
      Some(Library(16, seq(n, _ => X.PString), X.TNumber, args))
    else if name == Ascii("starts-with") && n == 2 then Some(Library(17, [X.PString, X.PString], X.TBoolean, args))
    else if name == Ascii("substring-before") && n == 2 then Some(Library(18, [X.PString, X.PString], X.TString, args))
    else if name == Ascii("substring-after") && n == 2 then Some(Library(19, [X.PString, X.PString], X.TString, args))
    else if name == Ascii("substring") && n == 2 then Some(Library(20, [X.PString, X.PNumber], X.TString, args))
    else if name == Ascii("substring") && n == 3 then
      Some(Library(20, [X.PString, X.PNumber, X.PNumber], X.TString, args))
    else if name == Ascii("sum") && n == 1 then if OnNodeSet(args) then Some(X.Sum(args[0])) else None
    else if name == Ascii("translate") && n == 3 then Some(X.TranslateCall(args[0], args[1], args[2]))
    else if name == Ascii("true") && n == 0 then Some(Library(21, [], X.TBoolean, args))
    else None
  }

  /** A name function of the context node or of the first node of its argument. */
  function OfFirst(id: nat, args: seq<X.Expr>): Option<X.Expr>
    requires |args| <= 1
  {
    if OnNodeSet(args) then Some(Library(id, seq(|args|, _ => X.PFirst), X.TString, args)) else None
  }

  function Arithmetic(id: nat, l: X.Expr, r: X.Expr): X.Expr {
    Library(id, [X.PNumber, X.PNumber], X.TNumber, [l, r])
  }

  function MakeBinary(op: Op, l: X.Expr, r: X.Expr): X.Expr {
    match op
    case Or => X.Or(l, r)
    case And => X.And(l, r)
    case Eq => X.Cmp(X.Eq, l, r) case Ne => X.Cmp(X.Ne, l, r)
    case Lt => X.Cmp(X.Lt, l, r) case Gt => X.Cmp(X.Gt, l, r)
    case Le => X.Cmp(X.Le, l, r) case Ge => X.Cmp(X.Ge, l, r)
    case Add => Arithmetic(101, l, r)
    case Subtract => Arithmetic(102, l, r)
    case Multiply => Arithmetic(103, l, r)
    case Divide => Arithmetic(104, l, r)
    case Mod => Arithmetic(105, l, r)
    case Union => X.Union(l, r)
  }

  function MakeNegation(n: X.Expr): X.Expr {
    Library(106, [X.PNumber], X.TNumber, [n])
  }

  /** The types of the variables a query may use. */
  type vars = map<bytes, X.Type>

  function Ast(vs: vars, t: Tree): X.Expr
    decreases t
  {
    match t
    case Bin(op, l, r) => MakeBinary(op, Ast(vs, l), Ast(vs, r))
    case Neg(n) => MakeNegation(Ast(vs, n))
    case Path(start, steps) =>
      match start
      case Here => if steps.Step? then AstSteps(vs, AstBody(vs, X.NoLeft, steps.body), steps.next) else X.Root
      case AtRoot => AstSteps(vs, X.Root, steps)
      case At(base, preds) => AstSteps(vs, AstFilter(vs, AstPrimary(vs, base), preds), steps)
  }

  function AstPrimary(vs: vars, p: Primary): X.Expr
    decreases p
  {
    match p
    case Paren(n) => Ast(vs, n)
    case Var(name) => X.Var(name, if name in vs then vs[name] else X.TString)
    case Str(text) => X.Str(text)
    case Num(value) => X.Num(value)
    case Call(name, args) => MakeCall(name, AstArgs(vs, args)).GetOr(X.Root)
  }

  function AstArgs(vs: vars, args: Args): seq<X.Expr>
    decreases args
  {
    match args case NoArgs => [] case Arg(e, next) => [Ast(vs, e)] + AstArgs(vs, next)
  }

  function AstFilter(vs: vars, base: X.Expr, preds: Preds): X.Expr
    decreases preds
  {
    match preds
    case NoPreds => base
    case Pred(e, next) => AstFilter(vs, X.Filter(base, Ast(vs, e), X.Default), next)
  }

  /** The steps applied to what stands before them; a double slash is a step of its own. */
  function AstSteps(vs: vars, from: X.Expr, steps: Steps): X.Expr
    decreases steps
  {
    match steps
    case NoSteps => from
    case Step(double, body, next) =>
      AstSteps(vs, AstBody(vs, X.From(if double then Descend(from) else from), body), next)
  }

  function Descend(from: X.Expr): X.Expr {
    X.Step(X.From(from), Axes.DescendantOrSelf, Axes.AnyNode, X.NoPreds)
  }

  function AstBody(vs: vars, from: X.Left, body: Body): X.Expr
    decreases body
  {
    match body
    case Self => X.Step(from, Axes.Self, Axes.AnyNode, X.NoPreds)
    case Parent => X.Step(from, Axes.Parent, Axes.AnyNode, X.NoPreds)
    case Full(axis, test, preds) => X.Step(from, AxisOf(axis), TestOf(test), AstPreds(vs, preds))
  }

  function AstPreds(vs: vars, preds: Preds): X.Preds
    decreases preds
  {
    match preds case NoPreds => X.NoPreds case Pred(e, next) => X.Pred(Ast(vs, e), X.Default, AstPreds(vs, next))
  }

  function AxisOf(axis: AxisSpec): Axes.Axis {
    match axis
    case Implied => Axes.Child
    case Attribute => Axes.Attributes
    case Named(name) => AxisNamed(name).GetOr(Axes.Child)
  }

  /** A name that ends in `:*` stands for all names that begin with what is in front of the asterisk. */
  function TestOf(test: Test): Axes.NodeTest {
    match test
    case Any => Axes.AnyPrincipal
    case ByName(s) =>
      if |s| > 2 && s[|s| - 2..] == Ascii(":*") then Axes.InNamespace(s[..|s| - 1]) else Axes.ByName(s)
    case ByType(s) => NodeType(s).GetOr(Axes.AnyNode)
    case Target(text) => Axes.PiTarget(text)
  }

  predicate IsNodeSet(vs: vars, t: Tree) {
    X.ExprType(Ast(vs, t)) == X.TNodeSet
  }

  predicate UnionMisapplied(vs: vars, op: Op, l: Tree, r: Tree) {
    op == Union && !(IsNodeSet(vs, l) && IsNodeSet(vs, r))
  }

  // ----- the grammar

  /**
    The level of a tree in the grammar: or 1, and 2, equality 3, relational 4, additive 5, multiplicative 6, unary 7,
    union 8, path 9.
  */
  function Level(t: Tree): nat {
    match t
    case Path(_, _) => 9
    case Neg(_) => 7
    case Bin(op, _, _) => OpLevel(op)
  }

  function OpLevel(op: Op): nat {
    if op == Union then 8 else Precedence(op)
  }

  /** The text of t ends with the root path `/`, so that a step behind it would belong to t. */
  predicate EndsBare(t: Tree) {
    match t
    case Bin(_, _, r) => EndsBare(r)
    case Neg(n) => EndsBare(n)
    case Path(start, steps) => start.AtRoot? && steps.NoSteps?
  }

  /**
    The trees of the layered grammar: a left operand of its operator's level or a higher one, a right operand of a
    higher level, a unary minus over unary or union expressions; unions of node-sets only; predicates on and steps from
    node-sets only; variables that exist and functions that can be called; and no operator that would be read as a
    step of the root path in front of it (section 3.7 of XPath 1.0).
  */
  predicate InGrammar(vs: vars, t: Tree) {
    match t
    case Bin(op, l, r) =>
      && InGrammar(vs, l) && InGrammar(vs, r) && Level(l) >= OpLevel(op) && Level(r) > OpLevel(op)
      && !UnionMisapplied(vs, op, l, r) && !(EndsBare(l) && CouldStep(OpToken(op)))
    case Neg(n) => InGrammar(vs, n) && Level(n) >= 7
    case Path(start, steps) =>
      StepsInGrammar(vs, steps) &&
      match start
      case Here => steps.Step? && !steps.double
      case AtRoot => true
      case At(base, preds) =>
        && PrimaryInGrammar(vs, base) && PredsInGrammar(vs, preds)
        && ((preds.NoPreds? && steps.NoSteps?) || X.ExprType(AstPrimary(vs, base)) == X.TNodeSet)
  }

  predicate PrimaryInGrammar(vs: vars, p: Primary) {
    match p
    case Paren(n) => InGrammar(vs, n)
    case Var(name) => name in vs
    case Str(_) => true
    case Num(_) => true
    case Call(name, args) => NodeType(name).None? && ArgsInGrammar(vs, args) && MakeCall(name, AstArgs(vs, args)).Some?
  }

  predicate ArgsInGrammar(vs: vars, args: Args) {
    match args case NoArgs => true case Arg(e, next) => InGrammar(vs, e) && ArgsInGrammar(vs, next)
  }

  predicate StepsInGrammar(vs: vars, steps: Steps) {
    match steps case NoSteps => true case Step(_, body, next) => BodyInGrammar(vs, body) && StepsInGrammar(vs, next)
  }

  predicate BodyInGrammar(vs: vars, body: Body) {
    body.Full? ==>
      && (body.axis.Named? ==> AxisNamed(body.axis.name).Some?)
      && (body.test.ByType? ==> NodeType(body.test.name).Some?)
      && PredsInGrammar(vs, body.preds)
  }

  predicate PredsInGrammar(vs: vars, preds: Preds) {
    match preds case NoPreds => true case Pred(e, next) => InGrammar(vs, e) && PredsInGrammar(vs, next)
  }
}
