/** The names and signs of queries as literal facts: operators, axes, node types and the function library. */
module QueryNames {
  import opened Basics
  import opened Bytes
  import opened ExprSyntax
  import Axes
  import X = XPathSemantics

  // ----- operators (section 3.7 of XPath 1.0)

  lemma OperatorTokens()
    ensures OpToken(Or) == Name(Ascii("or")) && OpToken(And) == Name(Ascii("and"))
    ensures OpToken(Divide) == Name(Ascii("div")) && OpToken(Mod) == Name(Ascii("mod"))
    ensures OpToken(Eq) == Equal && OpToken(Ne) == NotEqual && OpToken(Lt) == Less && OpToken(Gt) == Greater
    ensures OpToken(Le) == LessOrEqual && OpToken(Ge) == GreaterOrEqual
    ensures OpToken(Add) == Plus && OpToken(Subtract) == Minus && OpToken(Multiply) == Star && OpToken(Union) == Bar
  {
    hide Ascii;
  }

  /** Every token is an operator only as what stands for it, and names are case-sensitive ASCII texts. */
  lemma OperatorsRead(tok: Token, op: Op)
    ensures OpOf(tok) == Some(op) <==> tok == OpToken(op)
  {
    OpTokens(op);
    TokenOps(tok);
    hide Ascii;
  }

  /** Operators that are no arithmetic become nodes of their own, with the operands in their order. */
  lemma OperatorNodes(l: X.Expr, r: X.Expr)
    ensures MakeBinary(Or, l, r) == X.Or(l, r) && MakeBinary(And, l, r) == X.And(l, r)
    ensures MakeBinary(Eq, l, r) == X.Cmp(X.Eq, l, r) && MakeBinary(Ne, l, r) == X.Cmp(X.Ne, l, r)
    ensures MakeBinary(Lt, l, r) == X.Cmp(X.Lt, l, r) && MakeBinary(Gt, l, r) == X.Cmp(X.Gt, l, r)
    ensures MakeBinary(Le, l, r) == X.Cmp(X.Le, l, r) && MakeBinary(Ge, l, r) == X.Cmp(X.Ge, l, r)
    ensures MakeBinary(Union, l, r) == X.Union(l, r)
  {}

  /** The arithmetic operators are different functions of two numbers. */
  lemma ArithmeticNodes(op: Op, other: Op, l: X.Expr, r: X.Expr)
    requires op in {Add, Subtract, Multiply, Divide, Mod} && other in {Add, Subtract, Multiply, Divide, Mod}
    ensures MakeBinary(op, l, r).Call? && MakeBinary(op, l, r).args == X.Arg(l, X.Arg(r, X.NoArgs))
    ensures MakeBinary(op, l, r).fn.params == [X.PNumber, X.PNumber] && MakeBinary(op, l, r).fn.ret == X.TNumber
    ensures op != other ==> MakeBinary(op, l, r).fn != MakeBinary(other, l, r).fn
  {
    TwoArgs(l, r);
  }

  lemma NoArg()
    ensures ArgList([]) == X.NoArgs
  {}

  lemma OneArg(e: X.Expr)
    ensures ArgList([e]) == X.Arg(e, X.NoArgs)
  {
    assert [e][1..] == [];
  }

  lemma TwoArgs(e: X.Expr, f: X.Expr)
    ensures ArgList([e, f]) == X.Arg(e, X.Arg(f, X.NoArgs))
  {
    assert [e, f][1..] == [f];
    OneArg(f);
  }

  lemma ThreeArgs(e: X.Expr, f: X.Expr, g: X.Expr)
    ensures ArgList([e, f, g]) == X.Arg(e, X.Arg(f, X.Arg(g, X.NoArgs)))
  {
    assert [e, f, g][1..] == [f, g];
    TwoArgs(f, g);
  }

  // ----- axes and node types

  lemma AxisNames()
    ensures AxisNamed(Ascii("ancestor")) == Some(Axes.Ancestor)
    ensures AxisNamed(Ascii("ancestor-or-self")) == Some(Axes.AncestorOrSelf)
    ensures AxisNamed(Ascii("attribute")) == Some(Axes.Attributes) && AxisNamed(Ascii("child")) == Some(Axes.Child)
    ensures AxisNamed(Ascii("descendant")) == Some(Axes.Descendant)
    ensures AxisNamed(Ascii("descendant-or-self")) == Some(Axes.DescendantOrSelf)
    ensures AxisNamed(Ascii("following")) == Some(Axes.Following)
    ensures AxisNamed(Ascii("following-sibling")) == Some(Axes.FollowingSibling)
    ensures AxisNamed(Ascii("namespace")) == Some(Axes.Namespace)
    ensures AxisNamed(Ascii("parent")) == Some(Axes.Parent) && AxisNamed(Ascii("preceding")) == Some(Axes.Preceding)
    ensures AxisNamed(Ascii("preceding-sibling")) == Some(Axes.PrecedingSibling)
    ensures AxisNamed(Ascii("self")) == Some(Axes.Self)
  {
    hide Ascii;
    AxisSigns();
  }

  /** There are no other axes. */
  lemma OnlyAxes(s: bytes)
    ensures AxisNamed(s).Some? <==>
      s in {Ascii("ancestor"), Ascii("ancestor-or-self"), Ascii("attribute"), Ascii("child"), Ascii("descendant"),
            Ascii("descendant-or-self"), Ascii("following"), Ascii("following-sibling"), Ascii("namespace"),
            Ascii("parent"), Ascii("preceding"), Ascii("preceding-sibling"), Ascii("self")}
  {
    hide Ascii;
  }

  /** Length and first letter, which tell most names apart. */
  function Sign(s: bytes): (nat, int) {
    (|s|, if s == [] then 0 else s[0])
  }

  lemma AxisSigns()
    ensures Sign(Ascii("ancestor")) == (8, 97) && Sign(Ascii("ancestor-or-self")) == (16, 97)
    ensures Sign(Ascii("attribute")) == (9, 97) && Sign(Ascii("child")) == (5, 99)
    ensures Sign(Ascii("descendant")) == (10, 100) && Sign(Ascii("descendant-or-self")) == (18, 100)
    ensures Sign(Ascii("following")) == (9, 102) && Sign(Ascii("following-sibling")) == (17, 102)
    ensures Sign(Ascii("namespace")) == (9, 110) && Sign(Ascii("parent")) == (6, 112)
    ensures Sign(Ascii("preceding")) == (9, 112) && Sign(Ascii("preceding-sibling")) == (17, 112)
    ensures Sign(Ascii("self")) == (4, 115)
  {}

  lemma NodeTypes()
    ensures NodeType(Ascii("comment")) == Some(Axes.IsComment) && NodeType(Ascii("node")) == Some(Axes.AnyNode)
    ensures NodeType(Ascii("processing-instruction")) == Some(Axes.IsPi)
    ensures NodeType(Ascii("text")) == Some(Axes.IsText)
  {
    hide Ascii;
    TypeSigns();
  }

  lemma TypeSigns()
    ensures Sign(Ascii("comment")) == (7, 99) && Sign(Ascii("node")) == (4, 110)
    ensures Sign(Ascii("processing-instruction")) == (22, 112) && Sign(Ascii("text")) == (4, 116)
  {}

  lemma OnlyNodeTypes(s: bytes)
    ensures NodeType(s).Some? <==>
      s in {Ascii("comment"), Ascii("node"), Ascii("processing-instruction"), Ascii("text")}
  {
    hide Ascii;
  }

  // ----- the function library (section 4)

  lemma Signs()
    ensures Sign(Ascii("boolean")) == (7, 98) && Sign(Ascii("count")) == (5, 99)
    ensures Sign(Ascii("contains")) == (8, 99) && Sign(Ascii("concat")) == (6, 99)
    ensures Sign(Ascii("ceiling")) == (7, 99) && Sign(Ascii("false")) == (5, 102)
    ensures Sign(Ascii("floor")) == (5, 102) && Sign(Ascii("id")) == (2, 105)
    ensures Sign(Ascii("last")) == (4, 108) && Sign(Ascii("lang")) == (4, 108)
    ensures Sign(Ascii("local-name")) == (10, 108) && Sign(Ascii("name")) == (4, 110)
    ensures Sign(Ascii("namespace-uri")) == (13, 110) && Sign(Ascii("normalize-space")) == (15, 110)
    ensures Sign(Ascii("not")) == (3, 110) && Sign(Ascii("number")) == (6, 110)
    ensures Sign(Ascii("position")) == (8, 112) && Sign(Ascii("round")) == (5, 114)
    ensures Sign(Ascii("string")) == (6, 115) && Sign(Ascii("string-length")) == (13, 115)
    ensures Sign(Ascii("starts-with")) == (11, 115) && Sign(Ascii("substring-before")) == (16, 115)
    ensures Sign(Ascii("substring-after")) == (15, 115) && Sign(Ascii("substring")) == (9, 115)
    ensures Sign(Ascii("sum")) == (3, 115) && Sign(Ascii("translate")) == (9, 116)
    ensures Sign(Ascii("true")) == (4, 116)
  {}

  /** Calls that become nodes of their own. */
  lemma SpecialCalls(e: X.Expr, f: X.Expr, g: X.Expr)
    ensures MakeCall(Ascii("last"), []) == Some(X.Last) && MakeCall(Ascii("position"), []) == Some(X.Position)
    ensures MakeCall(Ascii("count"), [e]) == if X.ExprType(e) == X.TNodeSet then Some(X.Count(e)) else None
    ensures MakeCall(Ascii("sum"), [e]) == if X.ExprType(e) == X.TNodeSet then Some(X.Sum(e)) else None
    ensures MakeCall(Ascii("id"), [e]) == Some(X.Id(e))
    ensures MakeCall(Ascii("translate"), [e, f, g]) == Some(X.TranslateCall(e, f, g))
  {
    hide Ascii, Library, OfFirst;
    Signs();
  }

  /** The call of a library function: its number, how its arguments are converted, and what it returns. */
  ghost predicate Calls(name: string, args: seq<X.Expr>, id: nat, params: seq<X.Param>, ret: X.Type) {
    MakeCall(Ascii(name), args) == Some(X.Call(X.Fn(id, params, ret), ArgList(args)))
  }

  lemma OneArgumentCalls(e: X.Expr)
    ensures Calls("boolean", [e], 1, [X.PBoolean], X.TBoolean) && Calls("not", [e], 12, [X.PBoolean], X.TBoolean)
    ensures Calls("lang", [e], 7, [X.PString], X.TBoolean) && Calls("ceiling", [e], 4, [X.PNumber], X.TNumber)
    ensures Calls("floor", [e], 6, [X.PNumber], X.TNumber) && Calls("round", [e], 14, [X.PNumber], X.TNumber)
  {
    hide Ascii, ArgList, MakeCallFromS;
    Signs();
  }

  lemma OptionalArgumentCalls(e: X.Expr)
    ensures Calls("number", [e], 13, [X.PNumber], X.TNumber) && Calls("string", [e], 15, [X.PString], X.TString)
    ensures Calls("string-length", [e], 16, [X.PString], X.TNumber)
    ensures Calls("normalize-space", [e], 11, [X.PString], X.TString)
    ensures X.ExprType(e) == X.TNodeSet ==>
      && Calls("local-name", [e], 8, [X.PFirst], X.TString) && Calls("name", [e], 9, [X.PFirst], X.TString)
      && Calls("namespace-uri", [e], 10, [X.PFirst], X.TString)
  {
    hide Ascii, ArgList;
    Signs();
    assert seq(1, _ => X.PString) == [X.PString] && seq(1, _ => X.PNumber) == [X.PNumber];
    assert seq(1, _ => X.PFirst) == [X.PFirst];
  }

  lemma NoArgumentCalls()
    ensures Calls("false", [], 5, [], X.TBoolean) && Calls("true", [], 21, [], X.TBoolean)
    ensures Calls("number", [], 13, [], X.TNumber) && Calls("string", [], 15, [], X.TString)
    ensures Calls("string-length", [], 16, [], X.TNumber) && Calls("normalize-space", [], 11, [], X.TString)
    ensures Calls("local-name", [], 8, [], X.TString) && Calls("name", [], 9, [], X.TString)
    ensures Calls("namespace-uri", [], 10, [], X.TString)
  {
    hide Ascii, ArgList;
    Signs();
    assert seq(0, _ => X.PString) == [] && seq(0, _ => X.PNumber) == [] && seq(0, _ => X.PFirst) == [];
  }

  lemma MoreArgumentCalls(e: X.Expr, f: X.Expr, g: X.Expr)
    ensures Calls("contains", [e, f], 2, [X.PString, X.PString], X.TBoolean)
    ensures Calls("starts-with", [e, f], 17, [X.PString, X.PString], X.TBoolean)
    ensures Calls("substring-before", [e, f], 18, [X.PString, X.PString], X.TString)
    ensures Calls("substring-after", [e, f], 19, [X.PString, X.PString], X.TString)
    ensures Calls("substring", [e, f], 20, [X.PString, X.PNumber], X.TString)
    ensures Calls("substring", [e, f, g], 20, [X.PString, X.PNumber, X.PNumber], X.TString)
  {
    hide Ascii, ArgList;
    Signs();
  }

  lemma ConcatCalls(args: seq<X.Expr>)
    requires |args| >= 2
    ensures MakeCall(Ascii("concat"), args)
      == Some(X.Call(X.Fn(3, seq(|args|, _ => X.PString), X.TString), ArgList(args)))
  {
    hide Ascii, ArgList, MakeCallFromL, Sign;
    ConcatApart();
  }

  lemma ConcatApart()
    ensures Ascii("concat") != Ascii("contains")
  {
    hide Ascii;
    Signs();
  }

  /** How many arguments a function takes, none for a name that is no function. */
  predicate Takes(name: bytes, n: nat) {
    || (n == 0 && name in {Ascii("false"), Ascii("last"), Ascii("position"), Ascii("true")})
    || (n <= 1 && name in {Ascii("local-name"), Ascii("name"), Ascii("namespace-uri"), Ascii("normalize-space"),
                           Ascii("number"), Ascii("string"), Ascii("string-length")})
    || (n == 1 && name in {Ascii("boolean"), Ascii("count"), Ascii("ceiling"), Ascii("floor"), Ascii("id"),
                           Ascii("lang"), Ascii("not"), Ascii("round"), Ascii("sum")})
    || (n == 2 && name in {Ascii("contains"), Ascii("starts-with"), Ascii("substring-before"),
                           Ascii("substring-after")})
    || (n >= 2 && name == Ascii("concat")) || (2 <= n <= 3 && name == Ascii("substring"))
    || (n == 3 && name == Ascii("translate"))
  }

  /** Functions whose first argument, if there is one, must be a node-set. */
  predicate OfNodes(name: bytes) {
    name in {Ascii("count"), Ascii("local-name"), Ascii("name"), Ascii("namespace-uri"), Ascii("sum")}
  }

  /** What can be called: these functions with these numbers of arguments, node-sets where they are due. */
  lemma Callable(name: bytes, args: seq<X.Expr>)
    ensures MakeCall(name, args).Some? <==>
      Takes(name, |args|) && (OfNodes(name) && args != [] ==> X.ExprType(args[0]) == X.TNodeSet)
  {
    hide Ascii, Library;
    Signs();
  }
}
