/** A query from end to end: optimize once, evaluate as far as needed, and still get the plain meaning. */
module XPathQuery {
  import opened Basics
  import opened Bytes
  import opened Document
  import opened NodeSets
  import opened XPathSemantics
  import opened XPathOptimizer
  import opened XPathEval
  import E = ExprSyntax
  import ExprParser
  import ExprTyping

  lemma AsStandard(w: World, query: Expr, c: Ctx)
    requires ValidWorld(w)
    ensures NamesApart(w.doc, query) ==> Val(Standard(w), query, c) == Val(w, query, c)
  {
    hide Val;
    if NamesApart(w.doc, query) { ReadingsAgree(w, query, c); }
  }

  /** `evaluate_node_set`: every node the query means, each once. */
  method SelectNodes(w: World, query: Expr, c: Ctx) returns (ns: NodeSet)
    requires EngineWorld(w) && ValidCtx(w, c) && Typed(w, query) && ExprType(query) == TNodeSet
    ensures Truthful(ns) && Members(ns.items) == SetOf(Val(w, query, c))
    ensures NamesApart(w.doc, query) ==> Members(ns.items) == SetOf(Val(Standard(w), query, c))
  {
    hide Val, Typed, ValidWorld, Classified, Optimize, NamesApart;
    AsStandard(w, query, c);
    OptimizeShape(w, query);
    OptimizeSound(w, query, c);
    ns := EvalNodeSet(w, Optimize(query), c, All);
    assert Members(ns.items) == SetOf(Val(w, query, c));
  }

  /** `select_node`: the first node in document order, found without computing the whole set. */
  method SelectNode(w: World, query: Expr, c: Ctx) returns (x: XNode)
    requires EngineWorld(w) && ValidCtx(w, c) && Typed(w, query) && ExprType(query) == TNodeSet
    ensures if SetOf(Val(w, query, c)) == {} then x == Null else IsFirst(x, SetOf(Val(w, query, c)))
    ensures NamesApart(w.doc, query) ==>
      if SetOf(Val(Standard(w), query, c)) == {} then x == Null else IsFirst(x, SetOf(Val(Standard(w), query, c)))
  {
    hide Val, Typed, ValidWorld, Classified, Optimize, NamesApart;
    AsStandard(w, query, c);
    OptimizeShape(w, query);
    OptimizeSound(w, query, c);
    var ns := EvalNodeSet(w, Optimize(query), c, FirstOnly);
    FirstAnswers(SetOf(Val(w, query, c)), ns);
    WorldParts(w);
    x := FirstOf(ns, w.place);
  }

  method EvaluateBoolean(w: World, query: Expr, c: Ctx) returns (b: bool)
    requires EngineWorld(w) && ValidCtx(w, c) && Typed(w, query)
    ensures b == ToBool(Val(w, query, c))
    ensures NamesApart(w.doc, query) ==> b == ToBool(Val(Standard(w), query, c))
  {
    hide Val, Typed, ValidWorld, Classified, Optimize, NamesApart;
    AsStandard(w, query, c);
    OptimizeShape(w, query);
    OptimizeSound(w, query, c);
    b := EvalBoolean(w, Optimize(query), c);
  }

  method EvaluateNumber(w: World, query: Expr, c: Ctx) returns (n: Number)
    requires EngineWorld(w) && ValidCtx(w, c) && Typed(w, query)
    ensures n == ToNum(w, Val(w, query, c))
    ensures NamesApart(w.doc, query) ==> n == ToNum(w, Val(Standard(w), query, c))
  {
    hide Val, Typed, ValidWorld, Classified, Optimize, NamesApart;
    AsStandard(w, query, c);
    OptimizeShape(w, query);
    OptimizeSound(w, query, c);
    n := EvalNumber(w, Optimize(query), c);
  }

  method EvaluateString(w: World, query: Expr, c: Ctx) returns (s: bytes)
    requires EngineWorld(w) && ValidCtx(w, c) && Typed(w, query)
    ensures s == ToStr(w, Val(w, query, c))
    ensures NamesApart(w.doc, query) ==> s == ToStr(w, Val(Standard(w), query, c))
  {
    hide Val, Typed, ValidWorld, Classified, Optimize, NamesApart;
    AsStandard(w, query, c);
    OptimizeShape(w, query);
    OptimizeSound(w, query, c);
    s := EvalString(w, Optimize(query), c);
  }

  /** t is the tree of the text, and selects nodes. */
  ghost predicate Selects(vs: E.vars, ts: E.tokens, t: E.Tree) {
    E.InGrammar(vs, t) && E.Yield(t) == ts && E.IsNodeSet(vs, t)
  }

  /**
    `select_nodes` for the text of a query: refused exactly when it is no text of the grammar or no query for nodes,
    otherwise the nodes that its one tree means, each once.
  */
  method SelectByText(w: World, vs: E.vars, ts: E.tokens, c: Ctx) returns (r: Option<NodeSet>)
    requires EngineWorld(w) && ValidCtx(w, c) && ExprTyping.Declares(w, vs)
    ensures r.None? <==> forall t :: !Selects(vs, ts, t)
    ensures r.Some? ==> Truthful(r.value)
    ensures forall t :: Selects(vs, ts, t) ==>
      r.Some? && Members(r.value.items) == SetOf(Val(w, E.Ast(vs, t), c))
  {
    hide EngineWorld, Val, Typed, E.InGrammar, E.Yield, E.Ast, ExprParser.ParseQuery, Truthful, ExprTyping.Declares;
    var n := ExprParser.Query(vs, ts);
    ghost var p := ExprParser.ParseQuery(vs, ts);
    forall t ensures p == ExprParser.Done(t, []) <==> E.InGrammar(vs, t) && E.Yield(t) == ts {
      ExprParser.ParsesTheGrammar(vs, ts, t);
    }
    WholeText(vs, ts);
    if n.Error? || ExprType(n.tree) != TNodeSet { return None; }
    ExprTyping.TreeTyped(w, vs, p.tree);
    var ns := SelectNodes(w, n.tree, c);
    assert Selects(vs, ts, p.tree);
    return Some(ns);
  }

  lemma WholeText(vs: E.vars, ts: E.tokens)
    ensures ExprParser.ParseQuery(vs, ts).Done? ==> ExprParser.ParseQuery(vs, ts).rest == []
  {}

  /** Results of the three evaluation modes for one full set agree with each other. */
  lemma ModesAgree(S: set<XNode>, full: NodeSet, one: NodeSet, some: NodeSet)
    requires Answers(S, full, All) && Answers(S, one, FirstOnly) && Answers(S, some, Any)
    ensures some.items == [] <==> full.items == []
    ensures one.items == [] <==> full.items == []
    ensures forall x :: IsFirst(x, Members(one.items)) <==> IsFirst(x, Members(full.items))
  {
    AnyAnswers(S, some);
    FirstAnswers(S, one);
    AllAnswers(S, full);
    assert full.items == [] || full.items[0] in S;
    forall x ensures IsFirst(x, Members(one.items)) <==> IsFirst(x, S) {
      if S != {} {
        assert First(S) in Members(one.items);
        assert IsFirst(First(S), S);
      }
    }
  }

  // ----- where relational comparison departs from the standard

  /** Section 3.4 of XPath 1.0: against a boolean, a node-set is first converted to a boolean, for every operator. */
  ghost predicate StandardCompare(w: World, op: CmpOp, a: Value, b: Value) {
    if (a.VSet? && b.VBool?) || (a.VBool? && b.VSet?) then
      if IsEquality(op) then CmpBool(op, ToBool(a), ToBool(b))
      else CmpNum(op, ToNum(w, VBool(ToBool(a))), ToNum(w, VBool(ToBool(b))))
    else Compare(w, op, a, b)
  }

  /** Operand types for which the engine follows the standard. */
  predicate FollowsStandard(op: CmpOp, ta: Type, tb: Type) {
    IsEquality(op) || !((ta == TNodeSet && tb == TBoolean) || (ta == TBoolean && tb == TNodeSet))
  }

  /** The engine agrees with the standard on all values of two types exactly when no order comparison meets
      a boolean and a node-set. */
  lemma RelationalDeparture(op: CmpOp, ta: Type, tb: Type)
    ensures FollowsStandard(op, ta, tb) <==>
      forall w: World, a: Value, b: Value :: ValidWorld(w) && TypeOf(a) == ta && TypeOf(b) == tb ==>
        (Compare(w, op, a, b) <==> StandardCompare(w, op, a, b))
  {
    if !FollowsStandard(op, ta, tb) {
      var doc := Doc([NodeRec(KDocument, None, [], -1, 1)]);
      PlainWorldValid(doc, true);
      Departure(PlainWorld(doc, true), op, ta, tb);
    }
  }

  /** One node whose text is no number compares false with everything, yet the set itself converts to true. */
  lemma Departure(w: World, op: CmpOp, ta: Type, tb: Type)
    requires !FollowsStandard(op, ta, tb)
    requires forall s :: w.toNumber(s) == NaN
    ensures exists a: Value, b: Value :: (TypeOf(a) == ta && TypeOf(b) == tb &&
      !(Compare(w, op, a, b) <==> StandardCompare(w, op, a, b)))
  {
    if ta == TNodeSet {
      PickRight(w, op);
    } else {
      PickLeft(w, op);
    }
  }

  lemma PickRight(w: World, op: CmpOp)
    requires !IsEquality(op) && forall s :: w.toNumber(s) == NaN
    ensures exists a: Value, b: Value :: (TypeOf(a) == TNodeSet && TypeOf(b) == TBoolean &&
      !(Compare(w, op, a, b) <==> StandardCompare(w, op, a, b)))
  {
    var a, b := if op == Lt then VSet({}) else VSet({Node(0)}), VBool(op != Gt);
    assert TypeOf(a) == TNodeSet && TypeOf(b) == TBoolean;
    assert NodeNum(w, Node(0)) == NaN;
    assert !Compare(w, op, a, b);
    assert StandardCompare(w, op, a, b);
  }

  lemma PickLeft(w: World, op: CmpOp)
    requires !IsEquality(op) && forall s :: w.toNumber(s) == NaN
    ensures exists a: Value, b: Value :: (TypeOf(a) == TBoolean && TypeOf(b) == TNodeSet &&
      !(Compare(w, op, a, b) <==> StandardCompare(w, op, a, b)))
  {
    var a, b := VBool(op != Lt), if op == Gt then VSet({}) else VSet({Node(0)});
    assert TypeOf(a) == TBoolean && TypeOf(b) == TNodeSet;
    assert NodeNum(w, Node(0)) == NaN;
    assert !Compare(w, op, a, b);
    assert StandardCompare(w, op, a, b);
  }
}
