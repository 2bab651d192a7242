/**
  The evaluator: node-sets are built eagerly with order tags, evaluated only as far as the caller needs, and
  predicates are applied by compaction in place. Each method is proved against the plain meaning of expressions.
*/
module XPathEval {
  import opened Basics
  import opened Bytes
  import opened Document
  import opened Axes
  import opened NodeSets
  import opened XPathSemantics
  import opened XPathOptimizer
  import Sorting
  import Translate

  /** How much of a node-set the caller needs. */
  datatype Mode = All | Any | FirstOnly

  /** What a set evaluated in a mode says about the full set S. */
  ghost predicate Answers(S: set<XNode>, ns: NodeSet, mode: Mode) {
    && Truthful(ns)
    && (forall x :: x in ns.items ==> x in S)
    && match mode
       case All => (forall x :: x in S ==> x in ns.items)
       case Any => (S != {} ==> ns.items != [])
       case FirstOnly => (S != {} ==> First(S) in ns.items)
  }

  predicate EvalOnce(tag: Tag, mode: Mode) {
    if tag == InOrder then mode != All else mode == Any
  }

  function AxisTag(axis: Axis): Tag { if IsReverse(axis) then InReverse else InOrder }

  /** The filtered axis of one node. */
  ghost function Selection(w: World, axis: Axis, test: NodeTest, preds: Preds, x: XNode): seq<XNode> {
    KeptByAll(w, preds, StepNodes(w, axis, test, x))
  }

  // ----- facts about filtering

  lemma {:induction false} KeptOrdered(w: World, p: Expr, s: seq<XNode>, k: nat, reverse: bool)
    requires k <= |s| && Ordered(reverse, s)
    ensures Ordered(reverse, Kept(w, p, s, k))
    decreases k
  {
    hide Val;
    if k == 0 {
    } else {
      KeptOrdered(w, p, s, k - 1, reverse);
      KeptSubset(w, p, s, k - 1);
      KeptStep(w, p, s, k);
      var r := Kept(w, p, s, k - 1);
      forall i | 0 <= i < |r| ensures if reverse then Before(s[k - 1], r[i]) else Before(r[i], s[k - 1]) {
        assert r[i] in s[..k - 1];
      }
    }
  }

  lemma {:induction false} KeptByAllOrdered(w: World, ps: Preds, s: seq<XNode>, reverse: bool)
    requires Ordered(reverse, s)
    ensures Ordered(reverse, KeptByAll(w, ps, s))
    decreases ps
  {
    hide Val;
    match ps
    case NoPreds => NoPredsKept(w, s);
    case Pred(p, _, next) =>
      KeptOrdered(w, p, s, |s|, reverse);
      KeptByAllOrdered(w, next, Kept(w, p, s, |s|), reverse);
  }

  lemma SelectionOrdered(w: World, axis: Axis, test: NodeTest, preds: Preds, x: XNode)
    requires ValidWorld(w)
    ensures Ordered(IsReverse(axis), Selection(w, axis, test, preds, x))
  {
    hide Val;
    if x == Null || ValidNode(w.doc, x) {
      AxisSeqMeaning(w.doc, axis, test, x);
    }
    KeptByAllOrdered(w, preds, StepNodes(w, axis, test, x), IsReverse(axis));
  }

  lemma {:induction false} ConstantOneKept(w: World, s: seq<XNode>, k: nat)
    requires k <= |s|
    ensures Kept(w, Num(Fin(1.0)), s, k) == if k > 0 then s[..1] else []
    decreases k
  {
    if k == 0 {
    } else {
      ConstantOneKept(w, s, k - 1);
    }
  }

  /** A predicate whose value is one number for every candidate keeps at most the candidate at that position. */
  lemma {:induction false} ConstantKept(w: World, p: Expr, s: seq<XNode>, k: nat, n: Number)
    requires k <= |s|
    requires forall i :: 0 <= i < |s| ==> Val(w, p, Ctx(s[i], i + 1, |s|)) == VNum(n)
    ensures Kept(w, p, s, k) ==
      if n.Fin? && 1.0 <= n.r <= k as real && n.r == n.r.Floor as real then [s[n.r.Floor - 1]] else []
    decreases k
  {
    hide Val, Kept;
    if k > 0 {
      ConstantKept(w, p, s, k - 1, n);
      KeptStep(w, p, s, k);
      assert Val(w, p, Ctx(s[k - 1], k - 1 + 1, |s|)) == VNum(n);
      assert PredHolds(VNum(n), k) == (n == Fin(k as real));
      if n.Fin? { FloorStep(n.r, k); }
    } else {
      NothingKept(w, p, s);
    }
  }

  /** The whole numbers from 1 to k are those to k - 1, and k. */
  lemma FloorStep(r: real, k: nat)
    requires k > 0
    ensures (1.0 <= r <= k as real && r == r.Floor as real)
         == ((1.0 <= r <= (k - 1) as real && r == r.Floor as real) || r == k as real)
    ensures r == k as real ==> r.Floor == k && !(r <= (k - 1) as real)
  {
    if r == r.Floor as real && r > (k - 1) as real && r <= k as real {
      assert r.Floor == k;
    }
  }

  /** Constants, variables and last() have one value for all candidates of a step. */
  lemma ConstantValue(w: World, p: Expr, x: XNode, i: nat, y: XNode, j: nat, size: nat)
    requires ClassHolds(p, Constant) || ClassHolds(p, ConstantOne)
    ensures Val(w, p, Ctx(x, i, size)) == Val(w, p, Ctx(y, j, size))
  {}

  // ----- predicates

  /** Part of the way through a compaction: ns0[first..it] has been reduced to `kept`, the rest is untouched. */
  ghost predicate Compacting(ns0: seq<XNode>, ns: seq<XNode>, first: nat, last: nat, it: nat, kept: seq<XNode>) {
    && first <= last <= it <= |ns| == |ns0|
    && ns[..last] == ns0[..first] + kept
    && forall i :: it <= i < |ns| ==> ns[i] == ns0[i]
  }

  lemma CompactingKeep(ns0: seq<XNode>, ns: seq<XNode>, first: nat, last: nat, it: nat, kept: seq<XNode>)
    requires Compacting(ns0, ns, first, last, it, kept) && it < |ns|
    ensures Compacting(ns0, ns[last := ns[it]], first, last + 1, it + 1, kept + [ns0[it]])
  {
    var next := ns[last := ns[it]];
    assert next[..last + 1] == ns[..last] + [ns0[it]];
  }

  /** In-place filtering of ns[first..], for truth-valued and for positional predicates alike. */
  method ApplyPredicateEach(w: World, p: Expr, ns0: seq<XNode>, first: nat, once: bool) returns (ns: seq<XNode>)
    requires EngineWorld(w) && Typed(w, p) && Classified(p) && first <= |ns0|
    requires forall i :: first <= i < |ns0| ==> ValidNode(w.doc, ns0[i])
    ensures ns == ns0[..first] + Early(once, Kept(w, p, ns0[first..], |ns0| - first))
    decreases p, 5
  {
    hide Val, Typed, Classified, ValidWorld, Compacting, PredHolds, Kept, ValidNode;
    ghost var s := ns0[first..];
    ns := ns0;
    var size := |ns| - first;
    var last := first;
    var it := first;
    NothingKept(w, p, s);
    CompactingStart(ns0, first);
    while it < |ns|
      invariant first <= last <= it <= |ns| == |ns0|
      invariant Compacting(ns0, ns, first, last, it, Kept(w, p, s, it - first))
      invariant once ==> Kept(w, p, s, it - first) == []
    {
      CompactingNow(ns0, ns, first, last, it, Kept(w, p, s, it - first));
      var c := Ctx(ns[it], it - first + 1, size);
      assert ns[it] == s[it - first];
      KeptStep(w, p, s, it - first + 1);
      var holds := PredicateHolds(w, p, c);
      if holds {
        CompactingKeep(ns0, ns, first, last, it, Kept(w, p, s, it - first));
        ns := ns[last := ns[it]];
        last := last + 1;
        if once {
          EarlyPrefix(w, p, s, it - first + 1);
          CompactingNow(ns0, ns, first, last, it + 1, Kept(w, p, s, it - first + 1));
          ns := ns[..last];
          return;
        }
      } else {
        assert Kept(w, p, s, it - first) + [] == Kept(w, p, s, it - first);
      }
      it := it + 1;
    }
    CompactingNow(ns0, ns, first, last, it, Kept(w, p, s, it - first));
    ns := ns[..last];
  }

  lemma CompactingStart(ns0: seq<XNode>, first: nat)
    requires first <= |ns0|
    ensures Compacting(ns0, ns0, first, first, first, [])
  {}

  lemma CompactingNow(ns0: seq<XNode>, ns: seq<XNode>, first: nat, last: nat, it: nat, kept: seq<XNode>)
    requires Compacting(ns0, ns, first, last, it, kept)
    ensures first <= last <= it <= |ns| == |ns0| && ns[..last] == ns0[..first] + kept
    ensures it < |ns| ==> ns[it] == ns0[it] && Compacting(ns0, ns, first, last, it + 1, kept)
  {}

  lemma {:induction false} EarlyPrefix(w: World, p: Expr, s: seq<XNode>, k: nat)
    requires 0 < k <= |s| && |Kept(w, p, s, k)| == 1
    ensures Early(true, Kept(w, p, s, |s|)) == Kept(w, p, s, k)
    decreases |s| - k
  {
    hide Val;
    KeptPrefix(w, p, s, k, |s|);
  }

  lemma {:induction false} KeptPrefix(w: World, p: Expr, s: seq<XNode>, k: nat, m: nat)
    requires k <= m <= |s|
    ensures Kept(w, p, s, k) <= Kept(w, p, s, m)
    decreases m
  {
    hide Val;
    if k < m {
      KeptPrefix(w, p, s, k, m - 1);
      KeptStep(w, p, s, m);
    }
  }

  /** One candidate: its position is compared with a number, anything else is taken as a truth value. */
  method PredicateHolds(w: World, p: Expr, c: Ctx) returns (b: bool)
    requires EngineWorld(w) && Typed(w, p) && Classified(p) && ValidCtx(w, c)
    ensures b == PredHolds(Val(w, p, c), c.position)
    decreases p, 4
  {
    hide Val, Typed, Classified, ValidWorld;
    ValTyped(w, p, c);
    if ExprType(p) == TNumber {
      var n := EvalNumber(w, p, c);
      b := NumEq(n, Fin(c.position as real));
    } else {
      b := EvalBoolean(w, p, c);
    }
  }

  /** Constant numbers are evaluated once, without a context node, and select by index. */
  method ApplyPredicateConstant(w: World, p: Expr, ns0: seq<XNode>, first: nat) returns (ns: seq<XNode>)
    requires EngineWorld(w) && Typed(w, p) && Classified(p) && first < |ns0|
    requires ClassHolds(p, Constant) || ClassHolds(p, ConstantOne)
    ensures ns == ns0[..first] + Kept(w, p, ns0[first..], |ns0| - first)
    ensures |Kept(w, p, ns0[first..], |ns0| - first)| <= 1
    decreases p, 5
  {
    var size := |ns0| - first;
    var c := Ctx(Null, 1, size);
    ConstantTyped(w, p, c);
    hide *;
    var er := EvalNumber(w, p, c);
    ConstantKeeps(w, p, ns0[first..], er);
    PickSlice(ns0, first, er);
    ns := ns0[..first];
    if er.Fin? && er.r >= 1.0 && er.r <= size as real {
      var eri := er.r.Floor;
      if er.r == eri as real {
        ns := ns + [ns0[first + eri - 1]];
      }
    }
  }

  lemma ConstantTyped(w: World, p: Expr, c: Ctx)
    requires ValidWorld(w) && Typed(w, p) && c.n == Null && (ClassHolds(p, Constant) || ClassHolds(p, ConstantOne))
    ensures Val(w, p, c).VNum? && ExprType(p) == TNumber && ValidCtx(w, c)
  {
    hide Val, ValidWorld;
    ValTyped(w, p, c);
  }

  /** The member of s at a whole-numbered position, if there is one. */
  ghost function PickAt(s: seq<XNode>, er: Number): seq<XNode> {
    if er.Fin? && 1.0 <= er.r <= |s| as real && er.r == er.r.Floor as real then [s[er.r.Floor - 1]] else []
  }

  lemma PickSlice(ns0: seq<XNode>, first: nat, er: Number)
    requires first <= |ns0|
    ensures |PickAt(ns0[first..], er)| <= 1
    ensures er.Fin? && er.r >= 1.0 && er.r <= (|ns0| - first) as real && er.r == er.r.Floor as real ==>
      0 <= first + er.r.Floor - 1 < |ns0| && PickAt(ns0[first..], er) == [ns0[first + er.r.Floor - 1]]
    ensures !(er.Fin? && er.r >= 1.0 && er.r <= (|ns0| - first) as real && er.r == er.r.Floor as real) ==>
      PickAt(ns0[first..], er) == []
  {}

  lemma ConstantKeeps(w: World, p: Expr, s: seq<XNode>, er: Number)
    requires ClassHolds(p, Constant) || ClassHolds(p, ConstantOne)
    requires Val(w, p, Ctx(Null, 1, |s|)) == VNum(er)
    ensures Kept(w, p, s, |s|) == PickAt(s, er)
  {
    hide Val;
    forall i | 0 <= i < |s| ensures Val(w, p, Ctx(s[i], i + 1, |s|)) == VNum(er) {
      ConstantValue(w, p, s[i], i + 1, Null, 1, |s|);
    }
    ConstantKept(w, p, s, |s|, er);
  }

  method ApplyPredicate(w: World, p: Expr, cls: PredClass, ns0: seq<XNode>, first: nat, once: bool)
        returns (ns: seq<XNode>)
    requires EngineWorld(w) && Typed(w, p) && Classified(p) && ClassHolds(p, cls) && first <= |ns0|
    requires forall i :: first <= i < |ns0| ==> ValidNode(w.doc, ns0[i])
    ensures ns == ns0[..first] + Early(once, Kept(w, p, ns0[first..], |ns0| - first))
    decreases p, 6
  {
    hide Val, Typed, Classified, ValidWorld;
    if |ns0| == first {
      return ns0;
    }
    if cls == Constant || cls == ConstantOne {
      ns := ApplyPredicateConstant(w, p, ns0, first);
    } else {
      ns := ApplyPredicateEach(w, p, ns0, first, once);
    }
  }

  /** All predicates of a step, the last one stopping early when one node is enough. */
  method ApplyPredicates(w: World, ps: Preds, ns0: seq<XNode>, first: nat, lastOnce: bool) returns (ns: seq<XNode>)
    requires EngineWorld(w) && TypedPreds(w, ps) && ClassifiedPreds(ps) && first <= |ns0|
    requires forall i :: first <= i < |ns0| ==> ValidNode(w.doc, ns0[i])
    ensures ns == ns0[..first] + (if ps.NoPreds? then ns0[first..] else Early(lastOnce, KeptByAll(w, ps, ns0[first..])))
    decreases ps, 6
  {
    hide Val, Typed, ValidWorld;
    match ps
    case NoPreds => ns := ns0;
    case Pred(p, cls, next) =>
      ghost var s := ns0[first..];
      var once := next.NoPreds? && lastOnce;
      ns := ApplyPredicate(w, p, cls, ns0, first, once);
      ghost var kept := Kept(w, p, s, |s|);
      assert ns[..first] == ns0[..first];
      if next.NoPreds? {
        NoPredsKept(w, kept);
      } else {
        assert ns[first..] == kept;
        KeptSubset(w, p, s, |s|);
        forall i | first <= i < |ns| ensures ValidNode(w.doc, ns[i]) {
          assert ns[i] == kept[i - first];
          assert ns[i] in s[..|s|];
        }
        ns := ApplyPredicates(w, next, ns, first, lastOnce);
      }
  }

  // ----- scalar evaluation

  function Rank(e: Expr, ty: Type): nat {
    if ExprType(e) == ty then 1 else if ty == TString then 2 else 3
  }

  method EvalBoolean(w: World, e: Expr, c: Ctx) returns (b: bool)
    requires EngineWorld(w) && Typed(w, e) && Classified(e) && ValidCtx(w, c)
    ensures b == ToBool(Val(w, e, c))
    decreases e, Rank(e, TBoolean)
  {
    ValTyped(w, e, c);
    match e
    case Or(l, r) =>
      b := EvalBoolean(w, l, c);
      if !b { b := EvalBoolean(w, r, c); }
    case And(l, r) =>
      b := EvalBoolean(w, l, c);
      if b { b := EvalBoolean(w, r, c); }
    case Cmp(op, l, r) =>
      if IsEquality(op) { b := CompareEq(w, op, l, r, c); }
      else { b := CompareRel(w, op, l, r, c); }
    case AttributeEquals(name, r) =>
      var value := if r.Str? then r.s else w.scalars[r.name].s;
      b := LookupAttribute(w.doc, c.n, name, value);
    case _ => b := EvalBooleanByType(w, e, c);
  }

  /** The cases that fall through to the expression's own type. */
  method EvalBooleanByType(w: World, e: Expr, c: Ctx) returns (b: bool)
    requires EngineWorld(w) && Typed(w, e) && Classified(e) && ValidCtx(w, c)
    requires !e.Or? && !e.And? && !e.Cmp? && !e.AttributeEquals?
    ensures b == ToBool(Val(w, e, c))
    decreases e, Rank(e, TBoolean), 0
  {
    ValTyped(w, e, c);
    match ExprType(e)
    case TBoolean =>
      var v := EvalAtom(w, e, c);
      b := v.b;
    case TNumber =>
      hide Val, Typed, Classified, ValidWorld;
      var n := EvalNumber(w, e, c);
      b := n != NaN && n != Fin(0.0);
    case TString =>
      hide Val, Typed, Classified, ValidWorld;
      var s := EvalString(w, e, c);
      b := s != [];
    case TNodeSet =>
      hide Val, Typed, Classified, ValidWorld;
      var ns := EvalNodeSet(w, e, c, Any);
      AnyAnswers(SetOf(Val(w, e, c)), ns);
      b := ns.items != [];
  }

  lemma AnyAnswers(S: set<XNode>, ns: NodeSet)
    requires Answers(S, ns, Any)
    ensures ns.items != [] <==> S != {}
  {
    if ns.items != [] { assert ns.items[0] in S; }
  }

  lemma AllAnswers(S: set<XNode>, ns: NodeSet)
    requires Answers(S, ns, All)
    ensures |ns.items| == |S| && S == Members(ns.items)
  {
    TruthfulDistinct(ns);
    DistinctSize(ns.items);
    assert S == Members(ns.items);
  }

  lemma FirstAnswers(S: set<XNode>, ns: NodeSet)
    requires Answers(S, ns, FirstOnly)
    ensures ns.items == [] <==> S == {}
    ensures S != {} ==> forall x :: IsFirst(x, Members(ns.items)) ==> x == First(S)
  {
    if ns.items != [] { assert ns.items[0] in S; }
    if S != {} {
      forall x | IsFirst(x, Members(ns.items)) ensures x == First(S) {
        assert x in S && First(S) in Members(ns.items);
        assert IsFirst(First(S), S);
      }
    }
  }

  lemma TruthfulDistinct(ns: NodeSet)
    requires Truthful(ns)
    ensures NoRepeats(ns.items)
  {}

  lemma {:induction false} DistinctSize(s: seq<XNode>)
    requires NoRepeats(s)
    ensures |Members(s)| == |s|
    decreases |s|
  {
    if s == [] {
    } else {
      var n := |s| - 1;
      DistinctSize(s[..n]);
      assert s == s[..n] + [s[n]];
      assert Members(s) == Members(s[..n]) + {s[n]};
      assert s[n] !in s[..n];
    }
  }

  /** Variables and library calls of scalar type. */
  method EvalAtom(w: World, e: Expr, c: Ctx) returns (v: Value)
    requires EngineWorld(w) && Typed(w, e) && Classified(e) && ValidCtx(w, c)
    requires (e.Var? || e.Call?) && ExprType(e) != TNodeSet
    ensures v == Val(w, e, c) && TypeOf(v) == ExprType(e)
    decreases e, 0
  {
    match e {
      case Var(name, _) => v := w.scalars[name];
      case Call(fn, args) =>
        var vs := EvalArgs(w, args, fn.params, c);
        v := w.call(fn, c.n, vs);
    }
  }

  method EvalArgs(w: World, args: Args, params: seq<Param>, c: Ctx) returns (vs: seq<Value>)
    requires EngineWorld(w) && TypedArgs(w, args, params) && ClassifiedArgs(args) && ValidCtx(w, c)
    ensures vs == ArgVals(w, args, params, c)
    decreases args
  {
    hide ValidWorld;
    match args
    case NoArgs => vs := [];
    case Arg(e, next) =>
      var v := EvalArg(w, params[0], e, c);
      var rest := EvalArgs(w, next, params[1..], c);
      vs := [v] + rest;
  }

  method EvalArg(w: World, p: Param, e: Expr, c: Ctx) returns (v: Value)
    requires EngineWorld(w) && Typed(w, e) && Classified(e) && ValidCtx(w, c)
    requires p == PFirst ==> ExprType(e) == TNodeSet
    ensures v == Converted(w, p, Val(w, e, c))
    decreases e, 4
  {
    hide Val, Typed, Classified, ValidWorld;
    WorldParts(w);
    match p
    case PBoolean =>
      var b := EvalBoolean(w, e, c);
      v := VBool(b);
    case PNumber =>
      var n := EvalNumber(w, e, c);
      v := VNum(n);
    case PString =>
      var s := EvalString(w, e, c);
      v := VStr(s);
    case PFirst =>
      var ns := EvalNodeSet(w, e, c, FirstOnly);
      FirstAnswers(SetOf(Val(w, e, c)), ns);
      if ns.items == [] {
        v := VSet({});
      } else {
        var x := FirstOf(ns, w.place);
        v := VSet({x});
      }
  }

  method EvalNumber(w: World, e: Expr, c: Ctx) returns (n: Number)
    requires EngineWorld(w) && Typed(w, e) && Classified(e) && ValidCtx(w, c)
    ensures n == ToNum(w, Val(w, e, c))
    decreases e, Rank(e, TNumber)
  {
    ValTyped(w, e, c);
    match e
    case Num(k) => n := k;
    case Last => n := Fin(c.size as real);
    case Position => n := Fin(c.position as real);
    case Count(l) =>
      var ns := EvalNodeSet(w, l, c, All);
      AllAnswers(SetOf(Val(w, l, c)), ns);
      n := Fin(|ns.items| as real);
    case Sum(l) =>
      var ns := EvalNodeSet(w, l, c, All);
      n := AddUp(w, ns.items);
      SumOfAnswer(w, SetOf(Val(w, l, c)), ns);
    case _ => n := EvalNumberByType(w, e, c);
  }

  /** The loop of `sum()`, in whatever order the set is in. */
  method AddUp(w: World, items: seq<XNode>) returns (r: Number)
    ensures r == SumOf(w, items)
  {
    r := Fin(0.0);
    for it := 0 to |items|
      invariant r == SumOf(w, items[..it])
    {
      assert items[..it + 1] == items[..it] + [items[it]];
      assert items[..it + 1][..it] == items[..it];
      r := Plus(r, w.toNumber(w.stringValue(items[it])));
    }
    assert items[..|items|] == items;
  }

  lemma SumOfAnswer(w: World, S: set<XNode>, ns: NodeSet)
    requires Answers(S, ns, All)
    ensures SumOf(w, ns.items) == SumOf(w, InDocumentOrder(S))
  {
    TruthfulDistinct(ns);
    OrderedDistinct(false, InDocumentOrder(S));
    SumAnyOrder(w, ns.items, InDocumentOrder(S));
  }

  /** Taking one term out of a sum. */
  lemma {:induction false} SumWithout(w: World, t: seq<XNode>, j: nat)
    requires j < |t|
    ensures SumOf(w, t) == Plus(SumOf(w, t[..j] + t[j + 1..]), NodeNum(w, t[j]))
    decreases |t|
  {
    var n := |t| - 1;
    if j == n {
      assert t[..j] + t[j + 1..] == t[..n];
    } else {
      SumWithout(w, t[..n], j);
      var rest := t[..j] + t[j + 1..];
      assert t[..n][..j] + t[..n][j + 1..] == rest[..n - 1];
    }
  }

  /** Addition of numbers, with NaN and the infinities, does not depend on the order. */
  lemma {:induction false} SumAnyOrder(w: World, s: seq<XNode>, t: seq<XNode>)
    requires NoRepeats(s) && NoRepeats(t) && forall x :: x in s <==> x in t
    ensures SumOf(w, s) == SumOf(w, t)
    decreases |s|
  {
    HasMember(t);
    if s == [] {
    } else {
      var n := |s| - 1;
      assert s[n] in t;
      var j :| 0 <= j < |t| && t[j] == s[n];
      var rest := t[..j] + t[j + 1..];
      forall x ensures x in s[..n] <==> x in rest {
        assert s == s[..n] + [s[n]] && t == t[..j] + [t[j]] + t[j + 1..];
        assert x in s[..n] <==> x in s && x != s[n];
        assert x in rest <==> x in t && x != t[j];
      }
      SumAnyOrder(w, s[..n], rest);
      SumWithout(w, t, j);
    }
  }

  method EvalNumberByType(w: World, e: Expr, c: Ctx) returns (n: Number)
    requires EngineWorld(w) && Typed(w, e) && Classified(e) && ValidCtx(w, c)
    requires !e.Num? && !e.Last? && !e.Position? && !e.Count? && !e.Sum?
    ensures n == ToNum(w, Val(w, e, c))
    decreases e, Rank(e, TNumber), 0
  {
    ValTyped(w, e, c);
    match ExprType(e)
    case TNumber =>
      var v := EvalAtom(w, e, c);
      n := v.n;
    case TBoolean =>
      hide Val, Typed, Classified, ValidWorld;
      var b := EvalBoolean(w, e, c);
      n := if b then Fin(1.0) else Fin(0.0);
    case _ =>
      hide Val, Typed, Classified, ValidWorld;
      var s := EvalString(w, e, c);
      n := w.toNumber(s);
  }

  method EvalString(w: World, e: Expr, c: Ctx) returns (s: bytes)
    requires EngineWorld(w) && Typed(w, e) && Classified(e) && ValidCtx(w, c)
    ensures s == ToStr(w, Val(w, e, c))
    decreases e, Rank(e, TString)
  {
    ValTyped(w, e, c);
    match e
    case Str(t) => s := t;
    case TranslateCall(l, from, to) =>
      TranslateValue(w, l, from, to, c);
      var text := EvalString(w, l, c);
      var f := EvalString(w, from, c);
      var t := EvalString(w, to, c);
      s := Translate.Translated(text, f, t);
    case TranslateTable(l, t) =>
      TableValue(w, l, t, c);
      var text := EvalString(w, l, c);
      s := Translate.TableTranslated(text, t);
    case _ => s := EvalStringByType(w, e, c);
  }

  method EvalStringByType(w: World, e: Expr, c: Ctx) returns (s: bytes)
    requires EngineWorld(w) && Typed(w, e) && Classified(e) && ValidCtx(w, c)
    requires !e.Str? && !e.TranslateCall? && !e.TranslateTable?
    ensures s == ToStr(w, Val(w, e, c))
    decreases e, Rank(e, TString), 0
  {
    ValTyped(w, e, c);
    match ExprType(e)
    case TString =>
      var v := EvalAtom(w, e, c);
      s := v.s;
    case TBoolean =>
      hide Val, Typed, Classified, ValidWorld;
      var b := EvalBoolean(w, e, c);
      s := if b then TRUE else FALSE;
    case TNumber =>
      hide Val, Typed, Classified, ValidWorld;
      var n := EvalNumber(w, e, c);
      s := w.toText(n);
    case TNodeSet =>
      hide Val, Typed, Classified, ValidWorld;
      var ns := EvalNodeSet(w, e, c, FirstOnly);
      FirstAnswers(SetOf(Val(w, e, c)), ns);
      if ns.items == [] {
        s := [];
      } else {
        var x := FirstOf(ns, w.place);
        s := w.stringValue(x);
      }
  }

  /** `xml_node::attribute` by name, then the value test: the fast form of @name = 'value'. */
  method LookupAttribute(d: Doc, x: XNode, name: bytes, value: bytes) returns (b: bool)
    requires x == Null || ValidNode(d, x)
    ensures b == AttributeHolds(d, x, name, value)
  {
    if !x.Node? {
      return false;
    }
    var attrs := d.Attrs(x.i);
    for i := 0 to |attrs|
      invariant forall j :: 0 <= j < i ==> attrs[j].name != name
    {
      if attrs[i].name == name {
        return attrs[i].value == value && IsXPathAttribute(attrs[i].name);
      }
    }
    b := false;
  }

  // ----- comparisons

  /** Some node of the list compares with a fixed number, the node standing on the given side. */
  method SomeNumber(w: World, op: CmpOp, n: Number, items: seq<XNode>, nodeLeft: bool) returns (b: bool)
    ensures b <==> exists x :: (x in items &&
      (if nodeLeft then CmpNum(op, NodeNum(w, x), n) else CmpNum(op, n, NodeNum(w, x))))
  {
    for i := 0 to |items|
      invariant forall j :: 0 <= j < i ==>
        !(if nodeLeft then CmpNum(op, NodeNum(w, items[j]), n) else CmpNum(op, n, NodeNum(w, items[j])))
    {
      var m := w.toNumber(w.stringValue(items[i]));
      if if nodeLeft then CmpNum(op, m, n) else CmpNum(op, n, m) {
        assert items[i] in items;
        return true;
      }
    }
    b := false;
  }

  method SomeString(w: World, op: CmpOp, s: bytes, items: seq<XNode>) returns (b: bool)
    ensures b <==> exists x :: x in items && CmpStr(op, s, w.stringValue(x))
  {
    for i := 0 to |items|
      invariant forall j :: 0 <= j < i ==> !CmpStr(op, s, w.stringValue(items[j]))
    {
      if CmpStr(op, s, w.stringValue(items[i])) {
        assert items[i] in items;
        return true;
      }
    }
    b := false;
  }

  method SomePairOfStrings(w: World, op: CmpOp, ls: seq<XNode>, rs: seq<XNode>) returns (b: bool)
    ensures b <==> exists x, y :: x in ls && y in rs && CmpStr(op, w.stringValue(x), w.stringValue(y))
  {
    for i := 0 to |ls|
      invariant forall j, y :: 0 <= j < i && y in rs ==> !CmpStr(op, w.stringValue(ls[j]), w.stringValue(y))
    {
      var hit := SomeString(w, op, w.stringValue(ls[i]), rs);
      if hit {
        assert ls[i] in ls;
        return true;
      }
    }
    b := false;
  }

  method SomePairOfNumbers(w: World, op: CmpOp, ls: seq<XNode>, rs: seq<XNode>) returns (b: bool)
    ensures b <==> exists x, y :: x in ls && y in rs && CmpNum(op, NodeNum(w, x), NodeNum(w, y))
  {
    for i := 0 to |ls|
      invariant forall j, y :: 0 <= j < i && y in rs ==> !CmpNum(op, NodeNum(w, ls[j]), NodeNum(w, y))
    {
      var hit := SomeNumber(w, op, w.toNumber(w.stringValue(ls[i])), rs, false);
      if hit {
        assert ls[i] in ls;
        return true;
      }
    }
    b := false;
  }

  /** `compare_eq` for = and !=. */
  method CompareEq(w: World, op: CmpOp, l: Expr, r: Expr, c: Ctx) returns (b: bool)
    requires EngineWorld(w) && Typed(w, l) && Typed(w, r) && Classified(l) && Classified(r) && ValidCtx(w, c)
    requires IsEquality(op)
    ensures b == Compare(w, op, Val(w, l, c), Val(w, r, c))
    decreases Cmp(op, l, r), 0, 1
  {
    hide Val, Typed, Classified, ValidWorld, ValidCtx, Truthful, CmpNum, CmpBool, CmpStr;
    ValTyped(w, l, c);
    ValTyped(w, r, c);
    var lt, rt := ExprType(l), ExprType(r);
    if lt != TNodeSet && rt != TNodeSet {
      b := CompareScalars(w, op, l, r, c);
    } else if lt == TNodeSet && rt == TNodeSet {
      var ls := EvalNodeSet(w, l, c, All);
      var rs := EvalNodeSet(w, r, c, All);
      b := SomePairOfStrings(w, op, ls.items, rs.items);
    } else if lt == TNodeSet {
      b := CompareEqMixed(w, op, r, l, c, Cmp(op, l, r));
    } else {
      b := CompareEqMixed(w, op, l, r, c, Cmp(op, l, r));
    }
  }

  /** Neither operand is a node-set: booleans win over numbers, numbers over strings. */
  method CompareScalars(w: World, op: CmpOp, l: Expr, r: Expr, c: Ctx) returns (b: bool)
    requires EngineWorld(w) && Typed(w, l) && Typed(w, r) && Classified(l) && Classified(r) && ValidCtx(w, c)
    requires IsEquality(op) && ExprType(l) != TNodeSet && ExprType(r) != TNodeSet
    ensures b == Compare(w, op, Val(w, l, c), Val(w, r, c))
    decreases Cmp(op, l, r), 0, 0
  {
    hide Val, Typed, Classified, ValidWorld, ValidCtx, CmpNum, CmpBool, CmpStr;
    ValTyped(w, l, c);
    ValTyped(w, r, c);
    var lt, rt := ExprType(l), ExprType(r);
    if lt == TBoolean || rt == TBoolean {
      var x := EvalBoolean(w, l, c);
      var y := EvalBoolean(w, r, c);
      b := CmpBool(op, x, y);
    } else if lt == TNumber || rt == TNumber {
      var x := EvalNumber(w, l, c);
      var y := EvalNumber(w, r, c);
      b := CmpNum(op, x, y);
    } else {
      var x := EvalString(w, l, c);
      var y := EvalString(w, r, c);
      b := CmpStr(op, x, y);
    }
  }

  lemma EqualitySymmetric(w: World, op: CmpOp, x: Value, y: Value)
    requires IsEquality(op)
    ensures Compare(w, op, x, y) == Compare(w, op, y, x)
  {}

  /** One operand is a node-set; after the swap it is the right one. */
  method CompareEqMixed(w: World, op: CmpOp, l: Expr, r: Expr, c: Ctx, ghost e: Expr) returns (b: bool)
    requires e.Cmp? && ((e.l == l && e.r == r) || (e.l == r && e.r == l))
    requires EngineWorld(w) && Typed(w, l) && Typed(w, r) && Classified(l) && Classified(r) && ValidCtx(w, c)
    requires IsEquality(op) && ExprType(l) != TNodeSet && ExprType(r) == TNodeSet
    ensures b == Compare(w, op, Val(w, l, c), Val(w, r, c)) && b == Compare(w, op, Val(w, r, c), Val(w, l, c))
    decreases e, 0, 0
  {
    hide Val, Typed, Classified, ValidWorld, ValidCtx, Truthful, CmpNum, CmpBool, CmpStr;
    ValTyped(w, l, c);
    ValTyped(w, r, c);
    EqualitySymmetric(w, op, Val(w, l, c), Val(w, r, c));
    if ExprType(l) == TBoolean {
      var x := EvalBoolean(w, l, c);
      var y := EvalBoolean(w, r, c);
      b := CmpBool(op, x, y);
    } else if ExprType(l) == TNumber {
      var x := EvalNumber(w, l, c);
      var rs := EvalNodeSet(w, r, c, All);
      b := SomeNumber(w, op, x, rs.items, false);
    } else {
      var x := EvalString(w, l, c);
      var rs := EvalNodeSet(w, r, c, All);
      b := SomeString(w, op, x, rs.items);
    }
  }

  /** `compare_rel`: > and >= are < and <= with the operands exchanged. */
  method CompareRel(w: World, op: CmpOp, l: Expr, r: Expr, c: Ctx) returns (b: bool)
    requires EngineWorld(w) && Typed(w, l) && Typed(w, r) && Classified(l) && Classified(r) && ValidCtx(w, c)
    requires !IsEquality(op)
    ensures b == Compare(w, op, Val(w, l, c), Val(w, r, c))
    decreases Cmp(op, l, r), 0, 2
  {
    hide Val, Typed, Classified, ValidWorld;
    if op == Gt {
      ExchangeOrder(w, Gt, Lt, Val(w, l, c), Val(w, r, c));
      b := CompareLess(w, Lt, r, l, c, Cmp(op, l, r));
    } else if op == Ge {
      ExchangeOrder(w, Ge, Le, Val(w, l, c), Val(w, r, c));
      b := CompareLess(w, Le, r, l, c, Cmp(op, l, r));
    } else {
      b := CompareLess(w, op, l, r, c, Cmp(op, l, r));
    }
  }

  lemma ExchangeOrder(w: World, op: CmpOp, flipped: CmpOp, x: Value, y: Value)
    requires (op == Gt && flipped == Lt) || (op == Ge && flipped == Le)
    ensures Compare(w, op, x, y) == Compare(w, flipped, y, x)
  {
    hide NumLess, NumEq;
    assert forall m, n :: CmpNum(op, m, n) == CmpNum(flipped, n, m) by { FlipNum(op, flipped); }
    if x.VSet? && y.VSet? {
      assert CompareOrder(w, op, x, y) <==>
        exists a, b :: a in x.ns && b in y.ns && CmpNum(flipped, NodeNum(w, b), NodeNum(w, a));
    }
  }

  lemma FlipNum(op: CmpOp, flipped: CmpOp)
    requires (op == Gt && flipped == Lt) || (op == Ge && flipped == Le)
    ensures forall m, n :: CmpNum(op, m, n) == CmpNum(flipped, n, m)
  {}

  method CompareLess(w: World, op: CmpOp, l: Expr, r: Expr, c: Ctx, ghost e: Expr) returns (b: bool)
    requires EngineWorld(w) && Typed(w, l) && Typed(w, r) && Classified(l) && Classified(r) && ValidCtx(w, c)
    requires op == Lt || op == Le
    requires e.Cmp? && ((e.l == l && e.r == r) || (e.l == r && e.r == l))
    ensures b == Compare(w, op, Val(w, l, c), Val(w, r, c))
    decreases e, 0, 1
  {
    hide Val, Typed, Classified, ValidWorld, CmpNum, ValidCtx, Truthful;
    ValTyped(w, l, c);
    ValTyped(w, r, c);
    var lt, rt := ExprType(l), ExprType(r);
    if lt != TNodeSet && rt != TNodeSet {
      var x := EvalNumber(w, l, c);
      var y := EvalNumber(w, r, c);
      b := CmpNum(op, x, y);
    } else if lt == TNodeSet && rt == TNodeSet {
      var ls := EvalNodeSet(w, l, c, All);
      var rs := EvalNodeSet(w, r, c, All);
      b := SomePairOfNumbers(w, op, ls.items, rs.items);
    } else {
      b := CompareLessMixed(w, op, l, r, c, e);
    }
  }

  method CompareLessMixed(w: World, op: CmpOp, l: Expr, r: Expr, c: Ctx, ghost e: Expr) returns (b: bool)
    requires EngineWorld(w) && Typed(w, l) && Typed(w, r) && Classified(l) && Classified(r) && ValidCtx(w, c)
    requires op == Lt || op == Le
    requires e.Cmp? && ((e.l == l && e.r == r) || (e.l == r && e.r == l))
    requires (ExprType(l) == TNodeSet) != (ExprType(r) == TNodeSet)
    ensures b == Compare(w, op, Val(w, l, c), Val(w, r, c))
    decreases e, 0, 0
  {
    hide Val, Typed, Classified, ValidWorld, CmpNum, ValidCtx, Truthful;
    ValTyped(w, l, c);
    ValTyped(w, r, c);
    if ExprType(l) != TNodeSet {
      var x := EvalNumber(w, l, c);
      var rs := EvalNodeSet(w, r, c, All);
      b := SomeNumber(w, op, x, rs.items, false);
    } else {
      var ls := EvalNodeSet(w, l, c, All);
      var y := EvalNumber(w, r, c);
      b := SomeNumber(w, op, y, ls.items, true);
    }
  }

  // ----- node sets

  method EvalNodeSet(w: World, e: Expr, c: Ctx, mode: Mode) returns (ns: NodeSet)
    requires EngineWorld(w) && Typed(w, e) && Classified(e) && ValidCtx(w, c) && ExprType(e) == TNodeSet
    ensures Answers(SetOf(Val(w, e, c)), ns, mode)
    decreases e, 1
  {
    match e {
      case Union(l, r) =>
        var ls := EvalNodeSet(w, l, c, mode);
        var rs := EvalNodeSet(w, r, c, mode);
        var items := RemoveDuplicateNodes(rs.items + ls.items, w.addressLess);
        ns := NodeSet(Unsorted, items);
        UnionAnswers(SetOf(Val(w, l, c)), SetOf(Val(w, r, c)), ls, rs, ns, mode);
      case Filter(l, p, cls) => ns := EvalFilter(w, l, p, cls, c, mode);
      case Step(left, axis, test, preds) => ns := StepDo(w, left, axis, test, preds, c, mode);
      case Root =>
        ns := NodeSet(InOrder, if c.n == Null then [] else [Node(0)]);
      case Id(_) => ns := NodeSet(Unsorted, []);
      case Var(name, _) => ns := w.nodeSets[name];
    }
  }

  lemma UnionAnswers(S: set<XNode>, T: set<XNode>, ls: NodeSet, rs: NodeSet, ns: NodeSet, mode: Mode)
    requires Answers(S, ls, mode) && Answers(T, rs, mode)
    requires ns.tag == Unsorted && NoRepeats(ns.items) && forall x :: x in ns.items <==> x in rs.items + ls.items
    ensures Answers(S + T, ns, mode)
  {
    match mode
    case All =>
    case Any =>
      if ls.items != [] { assert ls.items[0] in rs.items + ls.items; }
      if rs.items != [] { assert rs.items[0] in rs.items + ls.items; }
    case FirstOnly =>
      if S + T != {} {
        var x := First(S + T);
        if x in S { assert First(S) == x; } else { assert First(T) == x; }
      }
  }

  /** What a filter works on: all nodes in any order, or, sorted, all nodes or at least the first. */
  ghost predicate Candidates(S: set<XNode>, set0: NodeSet, cls: PredClass) {
    && (cls == PosInvariant ==> Answers(S, set0, All))
    && (cls != PosInvariant ==>
          && set0.tag == InOrder && Ordered(false, set0.items) && (forall x :: x in set0.items ==> x in S)
          && if cls == ConstantOne then S != {} ==> First(S) in set0.items else forall x :: x in S ==> x in set0.items)
  }

  method FilterCandidates(w: World, l: Expr, cls: PredClass, c: Ctx) returns (set0: NodeSet)
    requires EngineWorld(w) && Typed(w, l) && Classified(l) && ValidCtx(w, c) && ExprType(l) == TNodeSet
    ensures Candidates(SetOf(Val(w, l, c)), set0, cls)
    decreases l, 2
  {
    hide Val, Typed, Classified, ValidWorld;
    WorldParts(w);
    set0 := EvalNodeSet(w, l, c, if cls == ConstantOne then FirstOnly else All);
    if cls != PosInvariant {
      set0 := SortDo(set0, w.place);
    }
  }

  method EvalFilter(w: World, l: Expr, p: Expr, cls: PredClass, c: Ctx, mode: Mode) returns (ns: NodeSet)
    requires EngineWorld(w) && ValidCtx(w, c) && Typed(w, Filter(l, p, cls)) && Classified(Filter(l, p, cls))
    ensures Answers(SetOf(Val(w, Filter(l, p, cls), c)), ns, mode)
    decreases Filter(l, p, cls), 0
  {
    hide Val, Typed, Classified, ValidWorld, Kept, ClassHolds, EvalOnce, Candidates;
    FilterParts(w, l, p, cls);
    var set0 := FilterCandidates(w, l, cls, c);
    ghost var S := SetOf(Val(w, l, c));
    CandidatesValid(w, l, c, set0, cls);
    var once := EvalOnce(set0.tag, mode);
    var items := ApplyPredicate(w, p, cls, set0.items, 0, once);
    ns := NodeSet(set0.tag, items);
    assert set0.items[0..] == set0.items;
    assert items == Early(once, Kept(w, p, set0.items, |set0.items|));
    FilterAnswers(w, l, p, cls, c, S, set0, ns, mode);
  }

  lemma FilterParts(w: World, l: Expr, p: Expr, cls: PredClass)
    requires Typed(w, Filter(l, p, cls)) && Classified(Filter(l, p, cls))
    ensures Typed(w, l) && Typed(w, p) && Classified(l) && Classified(p) && ClassHolds(p, cls) &&
      ExprType(l) == TNodeSet
  {}

  lemma CandidatesValid(w: World, l: Expr, c: Ctx, set0: NodeSet, cls: PredClass)
    requires ValidWorld(w) && Typed(w, l) && ValidCtx(w, c) && Candidates(SetOf(Val(w, l, c)), set0, cls)
    ensures forall i :: 0 <= i < |set0.items| ==> ValidNode(w.doc, set0.items[i])
  {
    ValidNodesOnly(w, l, c);
    hide Val, ValidWorld;
    assert forall i :: 0 <= i < |set0.items| ==> set0.items[i] in set0.items;
  }

  lemma FilterAnswers(w: World, l: Expr, p: Expr, cls: PredClass, c: Ctx, S: set<XNode>, set0: NodeSet, ns: NodeSet,
        mode: Mode)
    requires ValidWorld(w) && Typed(w, p) && ClassHolds(p, cls) && S == SetOf(Val(w, l, c)) && Candidates(S, set0, cls)
    requires ns == NodeSet(set0.tag, Early(EvalOnce(set0.tag, mode), Kept(w, p, set0.items, |set0.items|)))
    ensures Answers(SetOf(Val(w, Filter(l, p, cls), c)), ns, mode)
  {
    var full, result := InDocumentOrder(S), SetOf(Val(w, Filter(l, p, cls), c));
    assert forall y :: y in result <==> y in Kept(w, p, full, |full|);
    hide Val, Typed, ValidWorld, Kept, ClassHolds, EvalOnce, InDocumentOrder;
    var kept := Kept(w, p, set0.items, |set0.items|);
    if cls == PosInvariant {
      FilterPosInvariant(w, p, S, set0, kept, result);
      EarlyAnswers(result, set0.tag, kept, ns, mode);
    } else {
      FilterSorted(w, p, cls, S, set0.items, kept, result);
      EarlyAnswers(result, InOrder, kept, ns, mode);
    }
  }

  /** With any other predicate the candidates come sorted; the first of them is enough for the constant one. */
  lemma FilterSorted(w: World, p: Expr, cls: PredClass, S: set<XNode>, items: seq<XNode>, kept: seq<XNode>,
        result: set<XNode>)
    requires ValidWorld(w) && ClassHolds(p, cls) && Ordered(false, items) && kept == Kept(w, p, items, |items|)
    requires forall y :: y in result <==> y in Kept(w, p, InDocumentOrder(S), |InDocumentOrder(S)|)
    requires forall x :: x in items ==> x in S
    requires if cls == ConstantOne then S != {} ==> First(S) in items else forall x :: x in S ==> x in items
    ensures Ordered(false, kept) && forall y :: y in kept <==> y in result
  {
    hide Val, ValidWorld, InDocumentOrder, Kept, Before;
    var full := InDocumentOrder(S);
    if cls == ConstantOne {
      ConstantOneKept(w, full, |full|);
      ConstantOneKept(w, items, |items|);
      FirstOfSorted(S, full, items);
    } else {
      InDocumentOrderUnique(S, items);
    }
    KeptOrdered(w, p, items, |items|, false);
  }

  lemma FirstOfSorted(S: set<XNode>, full: seq<XNode>, part: seq<XNode>)
    requires full == InDocumentOrder(S) && Ordered(false, part)
    requires forall x :: x in part ==> x in S
    requires S != {} ==> First(S) in part
    ensures full == [] <==> part == []
    ensures full != [] ==> full[0] == part[0]
  {
    assert full == [] || full[0] in S;
    assert part == [] || part[0] in S;
    if S != {} {
      assert First(S) in full;
      assert full[0] == First(S) && part[0] == First(S);
    }
  }

  /** With a position-invariant predicate the order of the candidates does not matter. */
  lemma FilterPosInvariant(w: World, p: Expr, S: set<XNode>, set0: NodeSet, kept: seq<XNode>, result: set<XNode>)
    requires ValidWorld(w) && Typed(w, p) && ClassHolds(p, PosInvariant) && Answers(S, set0, All)
    requires kept == Kept(w, p, set0.items, |set0.items|)
    requires forall y :: y in result <==> y in Kept(w, p, InDocumentOrder(S), |InDocumentOrder(S)|)
    ensures Truthful(NodeSet(set0.tag, kept)) && forall y :: y in kept <==> y in result
  {
    hide Val, Typed, ValidWorld;
    var full := InDocumentOrder(S);
    KeptPosInvariant(w, p, full, |full|);
    KeptPosInvariant(w, p, set0.items, |set0.items|);
    assert full[..|full|] == full && set0.items[..|set0.items|] == set0.items;
    match set0.tag
    case InOrder => KeptOrdered(w, p, set0.items, |set0.items|, false);
    case InReverse => KeptOrdered(w, p, set0.items, |set0.items|, true);
    case Unsorted => KeptDistinct(w, p, set0.items, |set0.items|);
  }

  lemma {:induction false} KeptDistinct(w: World, p: Expr, s: seq<XNode>, k: nat)
    requires k <= |s| && NoRepeats(s)
    ensures NoRepeats(Kept(w, p, s, k))
    decreases k
  {
    hide Val;
    if k == 0 {
    } else {
      KeptDistinct(w, p, s, k - 1);
      KeptSubset(w, p, s, k - 1);
      KeptStep(w, p, s, k);
      assert s[k - 1] !in s[..k - 1];
    }
  }

  /** Stopping early is harmless exactly in the situations eval_once allows. */
  lemma EarlyAnswers(S: set<XNode>, tag: Tag, full: seq<XNode>, ns: NodeSet, mode: Mode)
    requires Truthful(NodeSet(tag, full)) && forall x :: x in full <==> x in S
    requires ns == NodeSet(tag, Early(EvalOnce(tag, mode), full))
    ensures Answers(S, ns, mode)
  {
    assert S == Members(full);
    if full != [] {
      assert full[0] in S;
      if tag == InOrder {
        assert First(S) in full;
        assert full[0] == First(S);
      }
    }
  }

  // ----- location steps

  /** What one starting node contributes: everything, or just the first node where that is enough. */
  ghost predicate Contribution(axis: Axis, mode: Mode, full: seq<XNode>, part: seq<XNode>) {
    part == full || (part == Early(true, full) && (mode == Any || (mode == FirstOnly && !IsReverse(axis))))
  }

  predicate SingleConstantOne(preds: Preds) {
    preds.Pred? && preds.next.NoPreds? && preds.cls == ConstantOne
  }

  /** Whether the walk may stop at its first node. */
  predicate WalkOnce(axis: Axis, test: NodeTest, preds: Preds, mode: Mode) {
    || (axis == Attributes && test.ByName?)
    || (preds.NoPreds? && EvalOnce(AxisTag(axis), mode))
    || SingleConstantOne(preds)
  }

  /** The pipeline for one starting node: walk, then filter the nodes just added. */
  method StepFromOne(w: World, axis: Axis, test: NodeTest, preds: Preds, x: XNode, ns0: seq<XNode>, tag: Tag,
        mode: Mode)
    returns (ns: seq<XNode>)
    requires EngineWorld(w) && TypedPreds(w, preds) && ClassifiedPreds(preds) && (x == Null || ValidNode(w.doc, x))
    requires tag == InOrder && axis != Self ==> !IsReverse(axis)
    ensures |ns0| <= |ns| && ns[..|ns0|] == ns0
    ensures Contribution(axis, mode, Selection(w, axis, test, preds, x), ns[|ns0|..])
    decreases preds, 7
  {
    hide Val, Typed, ValidWorld, TypedPreds, ClassifiedPreds, KeptByAll, AxisSeq, Contribution, WalkOnce;
    hide Doc.WellFormed;
    WorldParts(w);
    var once := WalkOnce(axis, test, preds, mode);
    var added := StepFill(w.doc, axis, test, x, once);
    ns := ns0 + added;
    AppendedValid(w, axis, test, x, once, ns0, added);
    var lastOnce := EvalOnce(tag, mode);
    ns := ApplyPredicates(w, preds, ns, |ns0|, lastOnce);
    ghost var part := if preds.NoPreds? then added else Early(lastOnce, KeptByAll(w, preds, added));
    PartContributes(w, axis, test, preds, x, tag, mode, part);
    assert ns == ns0 + part && ns[|ns0|..] == part;
  }

  lemma AppendedValid(w: World, axis: Axis, test: NodeTest, x: XNode, once: bool, ns0: seq<XNode>, added: seq<XNode>)
    requires ValidWorld(w) && (x == Null || ValidNode(w.doc, x))
    requires added == Early(once, AxisSeq(w.doc, axis, test, x))
    ensures var ns := ns0 + added;
      && ns[|ns0|..] == added && ns[..|ns0|] == ns0
      && forall i :: |ns0| <= i < |ns| ==> ValidNode(w.doc, ns[i])
  {
    AxisSeqMeaning(w.doc, axis, test, x);
    var ns := ns0 + added;
    forall i | |ns0| <= i < |ns| ensures ValidNode(w.doc, ns[i]) {
      assert ns[i] == added[i - |ns0|] && ns[i] in AxisSeq(w.doc, axis, test, x);
    }
  }

  lemma PartContributes(w: World, axis: Axis, test: NodeTest, preds: Preds, x: XNode, tag: Tag, mode: Mode,
        part: seq<XNode>)
    requires EngineWorld(w) && ClassifiedPreds(preds) && (x == Null || ValidNode(w.doc, x))
    requires tag == InOrder && axis != Self ==> !IsReverse(axis)
    requires var walked := Early(WalkOnce(axis, test, preds, mode), AxisSeq(w.doc, axis, test, x));
      part == if preds.NoPreds? then walked else Early(EvalOnce(tag, mode), KeptByAll(w, preds, walked))
    ensures Contribution(axis, mode, Selection(w, axis, test, preds, x), part)
  {
    WalkLosesNothing(w, axis, test, preds, x, mode);
    if axis == Self {
      SelfSelection(w, test, preds, x);
    }
    hide ValidWorld, Val, AxisSeq, StepNodes, WalkOnce;
    if preds.NoPreds? {
      NoPredsKept(w, StepNodes(w, axis, test, x));
    }
  }

  lemma WorldParts(w: World)
    requires ValidWorld(w)
    ensures w.doc.WellFormed() && InBufferOrder(w.place) && Sorting.StrictTotalOrder(w.addressLess)
  {}

  /** Ending the walk at its first node is harmless for what the step selects, or for what the mode needs of it. */
  lemma WalkLosesNothing(w: World, axis: Axis, test: NodeTest, preds: Preds, x: XNode, mode: Mode)
    requires EngineWorld(w) && ClassifiedPreds(preds) && (x == Null || ValidNode(w.doc, x))
    ensures var full := StepNodes(w, axis, test, x);
      var walked := Early(WalkOnce(axis, test, preds, mode), AxisSeq(w.doc, axis, test, x));
      if preds.NoPreds? then walked == full || (EvalOnce(AxisTag(axis), mode) && walked == Early(true, full))
      else KeptByAll(w, preds, walked) == KeptByAll(w, preds, full)
  {
    hide Val, AxisSeq, ValidWorld;
    var full := StepNodes(w, axis, test, x);
    if SingleConstantOne(preds) {
      ConstantOneKept(w, full, |full|);
      ConstantOneKept(w, Early(true, full), |Early(true, full)|);
      SinglePred(w, preds, full);
      SinglePred(w, preds, Early(true, full));
    }
  }

  lemma SinglePred(w: World, preds: Preds, s: seq<XNode>)
    requires preds.Pred? && preds.next.NoPreds?
    ensures KeptByAll(w, preds, s) == Kept(w, preds.e, s, |s|)
  {
    hide Val;
    NoPredsKept(w, Kept(w, preds.e, s, |s|));
  }

  lemma SelfSelection(w: World, test: NodeTest, preds: Preds, x: XNode)
    requires ValidWorld(w)
    ensures |Selection(w, Self, test, preds, x)| <= 1
    ensures forall y :: y in Selection(w, Self, test, preds, x) ==> y == x
  {
    hide Val;
    var f := Selection(w, Self, test, preds, x);
    SelectionOrdered(w, Self, test, preds, x);
    KeptByAllSubset(w, preds, StepNodes(w, Self, test, x));
    if x == Null || ValidNode(w.doc, x) {
      AxisSeqMeaning(w.doc, Self, test, x);
    }
    forall i | 0 <= i < |f| ensures f[i] == x { assert f[i] in f; }
    SameInOrder(f, x);
  }

  lemma SameInOrder(f: seq<XNode>, x: XNode)
    requires Ordered(false, f) && forall i :: 0 <= i < |f| ==> f[i] == x
    ensures |f| <= 1
  {
    assert |f| <= 1 || Before(f[0], f[1]);
  }

  /** Every gathered node is selected from one of the first k starting nodes. */
  ghost predicate FromSome(w: World, axis: Axis, test: NodeTest, preds: Preds, xs: seq<XNode>, k: nat,
        items: seq<XNode>)
    requires k <= |xs|
  {
    forall y :: y in items ==> exists i :: 0 <= i < k && y in Selection(w, axis, test, preds, xs[i])
  }

  /** A selected node is accounted for, as far as the mode needs it. */
  ghost predicate Accounted(mode: Mode, items: seq<XNode>, y: XNode) {
    match mode
    case All => y in items
    case Any => items != []
    case FirstOnly => Reached(items, y)
  }

  /** y itself or a node before it. */
  ghost predicate Reached(items: seq<XNode>, y: XNode) {
    exists z :: z in items && (z == y || Before(z, y))
  }

  ghost predicate Gathered(w: World, axis: Axis, test: NodeTest, preds: Preds, xs: seq<XNode>, k: nat,
      items: seq<XNode>, mode: Mode)
    requires k <= |xs|
  {
    && FromSome(w, axis, test, preds, xs, k, items)
    && forall i, y :: 0 <= i < k && y in Selection(w, axis, test, preds, xs[i]) ==> Accounted(mode, items, y)
  }

  lemma AccountedMore(mode: Mode, items: seq<XNode>, part: seq<XNode>, y: XNode)
    requires Accounted(mode, items, y)
    ensures Accounted(mode, items + part, y)
  {
    if mode == FirstOnly {
      var z :| z in items && (z == y || Before(z, y));
      assert z in items + part;
    }
  }

  lemma AccountedNow(axis: Axis, mode: Mode, items: seq<XNode>, full: seq<XNode>, part: seq<XNode>, y: XNode)
    requires Contribution(axis, mode, full, part) && Ordered(IsReverse(axis), full) && y in full
    ensures Accounted(mode, items + part, y)
  {
    assert part != [] && part[0] == full[0];
    if mode == FirstOnly {
      var j :| 0 <= j < |full| && full[j] == y;
      var z := if part == full then y else full[0];
      assert z in items + part && (z == y || Before(z, y));
    }
  }

  lemma ContributionInside(axis: Axis, mode: Mode, full: seq<XNode>, part: seq<XNode>)
    requires Contribution(axis, mode, full, part)
    ensures forall y :: y in part ==> y in full
  {}

  lemma FromSomeMore(w: World, axis: Axis, test: NodeTest, preds: Preds, xs: seq<XNode>, k: nat,
      items: seq<XNode>, part: seq<XNode>)
    requires k < |xs| && FromSome(w, axis, test, preds, xs, k, items)
    requires forall y :: y in part ==> y in Selection(w, axis, test, preds, xs[k])
    ensures FromSome(w, axis, test, preds, xs, k + 1, items + part)
  {
    hide Selection;
    forall y | y in items + part ensures exists i :: 0 <= i < k + 1 && y in Selection(w, axis, test, preds, xs[i]) {
      if y in items {
        var i :| 0 <= i < k && y in Selection(w, axis, test, preds, xs[i]);
      } else {
        assert y in Selection(w, axis, test, preds, xs[k]);
      }
    }
  }

  lemma GatherStep(w: World, axis: Axis, test: NodeTest, preds: Preds, xs: seq<XNode>, k: nat,
      items: seq<XNode>, part: seq<XNode>, mode: Mode)
    requires ValidWorld(w) && k < |xs| && Gathered(w, axis, test, preds, xs, k, items, mode)
    requires Contribution(axis, mode, Selection(w, axis, test, preds, xs[k]), part)
    ensures Gathered(w, axis, test, preds, xs, k + 1, items + part, mode)
  {
    hide ValidWorld, Selection, Accounted, Contribution, Ordered, FromSome;
    SelectionOrdered(w, axis, test, preds, xs[k]);
    ContributionInside(axis, mode, Selection(w, axis, test, preds, xs[k]), part);
    FromSomeMore(w, axis, test, preds, xs, k, items, part);
    forall i, y | 0 <= i < k + 1 && y in Selection(w, axis, test, preds, xs[i]) ensures Accounted(mode, items +
      part, y) {
      if i < k {
        AccountedMore(mode, items, part, y);
      } else {
        AccountedNow(axis, mode, items, Selection(w, axis, test, preds, xs[k]), part, y);
      }
    }
  }

  lemma GatheredAnswers(w: World, axis: Axis, test: NodeTest, preds: Preds, xs: seq<XNode>,
      items: seq<XNode>, S: set<XNode>, ns: NodeSet, mode: Mode)
    requires Gathered(w, axis, test, preds, xs, |xs|, items, mode)
    requires forall y :: y in S <==> exists x :: x in xs && y in Selection(w, axis, test, preds, x)
    requires Truthful(ns) && forall y :: y in ns.items <==> y in items
    ensures Answers(S, ns, mode)
  {
    hide Val, Selection, Before, Accounted, Truthful;
    forall y | y in items ensures y in S {
      var i :| 0 <= i < |xs| && y in Selection(w, axis, test, preds, xs[i]);
      assert xs[i] in xs;
    }
    forall y | y in S ensures Accounted(mode, items, y) {
      var x :| x in xs && y in Selection(w, axis, test, preds, x);
      var i :| 0 <= i < |xs| && xs[i] == x;
    }
    AccountedAnswers(S, items, ns, mode);
  }

  lemma AccountedAnswers(S: set<XNode>, items: seq<XNode>, ns: NodeSet, mode: Mode)
    requires forall y :: y in S ==> Accounted(mode, items, y)
    requires forall y :: y in items ==> y in S
    requires Truthful(ns) && forall y :: y in ns.items <==> y in items
    ensures Answers(S, ns, mode)
  {
    hide Before, Truthful;
    if S != {} {
      var y := First(S);
      assert Accounted(mode, items, y);
      if mode == Any {
        assert items[0] in ns.items;
      } else if mode == FirstOnly {
        var z :| z in items && (z == y || Before(z, y));
        NotBeforeFirst(S, z);
      }
    }
  }

  lemma NotBeforeFirst(S: set<XNode>, z: XNode)
    requires z in S
    ensures z == First(S) || !Before(z, First(S))
  {}

  /** What is known about the order of the nodes gathered so far. */
  ghost predicate OrderKept(axis: Axis, startTag: Tag, tag: Tag, items: seq<XNode>) {
    if axis == Self then tag == startTag && Truthful(NodeSet(tag, items))
    else
      && (tag == Unsorted || (tag == AxisTag(axis) && Ordered(IsReverse(axis), items)))
      && (axis in {Child, Attributes} ==> NoRepeats(items))
  }

  /** Children (attributes) of different nodes are different. */
  lemma ChildrenApart(w: World, axis: Axis, test: NodeTest, preds: Preds, x: XNode, x': XNode, y: XNode)
    requires ValidWorld(w) && axis in {Child, Attributes} && x != x'
    requires y in Selection(w, axis, test, preds, x)
    ensures y !in Selection(w, axis, test, preds, x')
  {
    hide Val;
    hide AxisSeq, KeptByAll, StepFrom;
    KeptByAllSubset(w, preds, StepNodes(w, axis, test, x));
    KeptByAllSubset(w, preds, StepNodes(w, axis, test, x'));
    StepFromMembers(w.doc, axis, test, x);
    StepFromMembers(w.doc, axis, test, x');
    assert y in StepFrom(w.doc, axis, test, x) && Selected(w.doc, axis, test, x, y);
    assert y in StepNodes(w, axis, test, x') ==> y in StepFrom(w.doc, axis, test, x');
  }

  lemma OrderStep(w: World, axis: Axis, test: NodeTest, preds: Preds, start: NodeSet, k: nat,
      items: seq<XNode>, part: seq<XNode>, tag: Tag, mode: Mode)
    requires ValidWorld(w) && Truthful(start) && k < |start.items|
    requires Gathered(w, axis, test, preds, start.items, k, items, mode)
    requires Contribution(axis, mode, Selection(w, axis, test, preds, start.items[k]), part)
    requires OrderKept(axis, start.tag, tag, items) && (axis != Self && items != [] ==> tag == Unsorted)
    ensures OrderKept(axis, start.tag, tag, items + part)
  {
    hide Val, ValidWorld, Selection, Accounted;
    var x := start.items[k];
    SelectionOrdered(w, axis, test, preds, x);
    if axis == Self {
      SelfOrderStep(w, test, preds, start, k, items, part, mode);
    } else {
      assert Ordered(IsReverse(axis), part);
      if items == [] {
        assert items + part == part;
        OrderedDistinct(IsReverse(axis), part);
      } else if axis in {Child, Attributes} {
        ChildrenStep(w, axis, test, preds, start, k, items, part, mode);
      }
    }
  }

  lemma OrderedDistinct(reverse: bool, s: seq<XNode>)
    requires Ordered(reverse, s)
    ensures NoRepeats(s)
  {}

  lemma ChildrenStep(w: World, axis: Axis, test: NodeTest, preds: Preds, start: NodeSet, k: nat,
      items: seq<XNode>, part: seq<XNode>, mode: Mode)
    requires ValidWorld(w) && Truthful(start) && k < |start.items| && axis in {Child, Attributes}
    requires FromSome(w, axis, test, preds, start.items, k, items)
    requires Contribution(axis, mode, Selection(w, axis, test, preds, start.items[k]), part)
    requires NoRepeats(items) && Ordered(IsReverse(axis), part)
    ensures NoRepeats(items + part)
  {
    hide Val, ValidWorld, Selection, Truthful;
    var x := start.items[k];
    TruthfulDistinct(start);
    OrderedDistinct(IsReverse(axis), part);
    ContributionInside(axis, mode, Selection(w, axis, test, preds, x), part);
    forall y | y in items ensures y !in part {
      var i :| 0 <= i < k && y in Selection(w, axis, test, preds, start.items[i]);
      ChildrenApart(w, axis, test, preds, start.items[i], x, y);
    }
    DistinctConcat(items, part);
  }

  lemma DistinctConcat(s: seq<XNode>, t: seq<XNode>)
    requires NoRepeats(s) && NoRepeats(t) && forall y :: y in s ==> y !in t
    ensures NoRepeats(s + t)
  {
    forall i, j | 0 <= i < |s| && 0 <= j < |t| ensures s[i] != t[j] {
      assert s[i] in s && t[j] in t;
    }
  }

  lemma SelfOrderStep(w: World, test: NodeTest, preds: Preds, start: NodeSet, k: nat,
      items: seq<XNode>, part: seq<XNode>, mode: Mode)
    requires ValidWorld(w) && Truthful(start) && k < |start.items|
    requires Gathered(w, Self, test, preds, start.items, k, items, mode)
    requires Contribution(Self, mode, Selection(w, Self, test, preds, start.items[k]), part)
    requires Truthful(NodeSet(start.tag, items))
    ensures Truthful(NodeSet(start.tag, items + part))
  {
    var x := start.items[k];
    SelfSelection(w, test, preds, x);
    var full := Selection(w, Self, test, preds, x);
    assert part == full;
    if part != [] {
      assert part[0] in full;
      assert part == [x];
      TruthfulDistinct(start);
      forall j | 0 <= j < |items| ensures exists i :: 0 <= i < k && items[j] == start.items[i] {
        assert items[j] in items;
        var i :| 0 <= i < k && items[j] in Selection(w, Self, test, preds, start.items[i]);
        SelfSelection(w, test, preds, start.items[i]);
      }
    } else {
      assert items + part == items;
    }
  }

  lemma GatherNone(w: World, axis: Axis, test: NodeTest, preds: Preds, xs: seq<XNode>, mode: Mode)
    ensures Gathered(w, axis, test, preds, xs, 0, [], mode)
  {}

  lemma StartMembers(w: World, axis: Axis, test: NodeTest, preds: Preds, start: set<XNode>, xs: seq<XNode>,
        S: set<XNode>)
    requires forall y :: y in S <==> exists x :: x in start && y in KeptByAll(w, preds, StepNodes(w, axis, test, x))
    requires forall x :: x in xs <==> x in start
    ensures forall y :: y in S <==> exists x :: x in xs && y in Selection(w, axis, test, preds, x)
  {
    hide Val, KeptByAll, StepFrom;
  }

  lemma StepParts(w: World, left: Left, axis: Axis, test: NodeTest, preds: Preds)
    requires Typed(w, Step(left, axis, test, preds)) && Classified(Step(left, axis, test, preds))
    ensures TypedPreds(w, preds) && ClassifiedPreds(preds)
    ensures left.From? ==> Typed(w, left.e) && Classified(left.e) && ExprType(left.e) == TNodeSet
  {}

  /** One round: the order claim is dropped once a second node contributes, then the new nodes are added. */
  method StepOnto(w: World, start: NodeSet, k: nat, axis: Axis, test: NodeTest, preds: Preds, mode: Mode,
      items0: seq<XNode>, tag0: Tag) returns (items: seq<XNode>, tag: Tag)
    requires EngineWorld(w) && TypedPreds(w, preds) && ClassifiedPreds(preds)
    requires Truthful(start) && k < |start.items| && ValidNode(w.doc, start.items[k])
    requires Gathered(w, axis, test, preds, start.items, k, items0, mode) && OrderKept(axis, start.tag, tag0, items0)
    ensures Gathered(w, axis, test, preds, start.items, k + 1, items, mode) && OrderKept(axis, start.tag, tag, items)
    decreases preds, 8
  {
    hide Val, Typed, ValidWorld, KeptByAll, Selection, Gathered, OrderKept, Contribution, TypedPreds, ClassifiedPreds;
    hide Doc.WellFormed, Truthful;
    tag := tag0;
    if axis != Self && |items0| != 0 {
      OrderForgotten(axis, start.tag, tag, items0);
      tag := Unsorted;
    }
    OrderTag(axis, start.tag, tag, items0);
    items := StepFromOne(w, axis, test, preds, start.items[k], items0, tag, mode);
    ghost var part := items[|items0|..];
    assert items == items0 + part;
    GatherStep(w, axis, test, preds, start.items, k, items0, part, mode);
    OrderStep(w, axis, test, preds, start, k, items0, part, tag, mode);
  }

  lemma OrderTag(axis: Axis, startTag: Tag, tag: Tag, items: seq<XNode>)
    requires OrderKept(axis, startTag, tag, items)
    ensures tag == InOrder && axis != Self ==> !IsReverse(axis)
  {}

  /** The loop over the starting nodes, with the duplicate removal that some axes need at the end. */
  method StepOver(w: World, start: NodeSet, axis: Axis, test: NodeTest, preds: Preds, mode: Mode)
    returns (ns: NodeSet)
    requires EngineWorld(w) && TypedPreds(w, preds) && ClassifiedPreds(preds)
    requires Truthful(start) && forall x :: x in start.items ==> ValidNode(w.doc, x)
    ensures Gathered(w, axis, test, preds, start.items, |start.items|, ns.items, mode) && Truthful(ns)
    decreases preds, 9
  {
    hide Val, Typed, ValidWorld, KeptByAll, Selection, Gathered, OrderKept, Contribution, TypedPreds, ClassifiedPreds;
    hide Doc.WellFormed, Truthful, Sorting.StrictTotalOrder;
    WorldParts(w);
    var tag := if axis == Self then start.tag else AxisTag(axis);
    var items: seq<XNode> := [];
    GatherNone(w, axis, test, preds, start.items, mode);
    OrderNone(axis, start.tag);
    for i := 0 to |start.items|
      invariant Gathered(w, axis, test, preds, start.items, i, items, mode)
      invariant OrderKept(axis, start.tag, tag, items)
    {
      assert start.items[i] in start.items;
      items, tag := StepOnto(w, start, i, axis, test, preds, mode, items, tag);
    }
    ghost var gathered := items;
    OrderAtEnd(axis, start.tag, tag, items);
    if axis != Child && axis != Attributes && axis != Self && tag == Unsorted {
      items := RemoveDuplicateNodes(items, w.addressLess);
      UnsortedTruthful(items);
    }
    SameGathered(w, axis, test, preds, start.items, gathered, items, mode);
    ns := NodeSet(tag, items);
  }

  lemma SameGathered(w: World, axis: Axis, test: NodeTest, preds: Preds, xs: seq<XNode>, items: seq<XNode>,
      other: seq<XNode>, mode: Mode)
    requires Gathered(w, axis, test, preds, xs, |xs|, items, mode) && forall y :: y in other <==> y in items
    ensures Gathered(w, axis, test, preds, xs, |xs|, other, mode)
  {
    hide Selection, Accounted;
    forall i, y | 0 <= i < |xs| && y in Selection(w, axis, test, preds, xs[i]) ensures Accounted(mode, other, y) {
      SameAccounted(mode, items, other, y);
    }
  }

  lemma SameAccounted(mode: Mode, items: seq<XNode>, other: seq<XNode>, y: XNode)
    requires Accounted(mode, items, y) && forall z :: z in other <==> z in items
    ensures Accounted(mode, other, y)
  {
    HasMember(items);
  }

  lemma UnsortedTruthful(items: seq<XNode>)
    requires NoRepeats(items)
    ensures Truthful(NodeSet(Unsorted, items))
  {}

  lemma OrderNone(axis: Axis, startTag: Tag)
    ensures OrderKept(axis, startTag, if axis == Self then startTag else AxisTag(axis), [])
  {}

  lemma OrderForgotten(axis: Axis, startTag: Tag, tag: Tag, items: seq<XNode>)
    requires OrderKept(axis, startTag, tag, items) && axis != Self
    ensures OrderKept(axis, startTag, Unsorted, items)
  {}

  lemma OrderAtEnd(axis: Axis, startTag: Tag, tag: Tag, items: seq<XNode>)
    requires OrderKept(axis, startTag, tag, items)
    ensures tag != Unsorted || axis in {Child, Attributes, Self} ==> Truthful(NodeSet(tag, items))
  {}

  /** A step that starts from the context node alone. */
  method StepFromContext(w: World, axis: Axis, test: NodeTest, preds: Preds, x: XNode, mode: Mode) returns (ns: NodeSet)
    requires EngineWorld(w) && TypedPreds(w, preds) && ClassifiedPreds(preds) && (x == Null || ValidNode(w.doc, x))
    ensures Gathered(w, axis, test, preds, [x], 1, ns.items, mode) && Truthful(ns)
    decreases preds, 8
  {
    hide Val, TypedPreds, ValidWorld, ClassifiedPreds, Selection, KeptByAll, Gathered, Contribution, Truthful, Ordered;
    var items := StepFromOne(w, axis, test, preds, x, [], AxisTag(axis), mode);
    assert items[0..] == items && [] + items == items;
    GatherNone(w, axis, test, preds, [x], mode);
    GatherStep(w, axis, test, preds, [x], 0, [], items, mode);
    SelectionOrdered(w, axis, test, preds, x);
    PartTruthful(axis, mode, Selection(w, axis, test, preds, x), items);
    ns := NodeSet(AxisTag(axis), items);
  }

  lemma PartTruthful(axis: Axis, mode: Mode, full: seq<XNode>, part: seq<XNode>)
    requires Contribution(axis, mode, full, part) && Ordered(IsReverse(axis), full)
    ensures Truthful(NodeSet(AxisTag(axis), part))
  {}

  /** `step_do`: one location step over the node-set on its left, or over the context node. */
  method StepDo(w: World, left: Left, axis: Axis, test: NodeTest, preds: Preds, c: Ctx, mode: Mode)
        returns (ns: NodeSet)
    requires EngineWorld(w) && ValidCtx(w, c)
    requires Typed(w, Step(left, axis, test, preds)) && Classified(Step(left, axis, test, preds))
    ensures Answers(SetOf(Val(w, Step(left, axis, test, preds), c)), ns, mode)
    decreases Step(left, axis, test, preds), 0
  {
    hide Val, Typed, ValidWorld, Classified, Selection, KeptByAll;
    ghost var S := SetOf(Val(w, Step(left, axis, test, preds), c));
    StepMembers(w, left, axis, test, preds, c);
    StepParts(w, left, axis, test, preds);
    match left {
      case NoLeft =>
        ns := StepFromContext(w, axis, test, preds, c.n, mode);
        StartMembers(w, axis, test, preds, Start(w, left, c), [c.n], S);
        GatheredAnswers(w, axis, test, preds, [c.n], ns.items, S, ns, mode);
      case From(e) =>
        var start := EvalNodeSet(w, e, c, All);
        ValidNodesOnly(w, e, c);
        ns := StepOver(w, start, axis, test, preds, mode);
        StartMembers(w, axis, test, preds, Start(w, left, c), start.items, S);
        GatheredAnswers(w, axis, test, preds, start.items, ns.items, S, ns, mode);
    }
  }
}
