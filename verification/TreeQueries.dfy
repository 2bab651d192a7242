/** Queries of the form /a/b/c on a tree, from their text to the nodes that they select. */
module TreeQueries {
  import opened Basics
  import opened Bytes
  import opened Document
  import opened Axes
  import opened NodeSets
  import opened XPathSemantics
  import opened TreeAxes
  import E = ExprSyntax
  import ExprTyping
  import XPathQuery

  /** The root, and then one child step for each name. */
  function NamedPath(names: seq<bytes>): Expr {
    if names == [] then Root
    else Step(From(NamedPath(names[..|names| - 1])), Child, ByName(names[|names| - 1]), NoPreds)
  }

  /** The elements on the way to p, the root left out, have these names. */
  ghost predicate Named(t: Tree, p: Path, names: seq<bytes>) {
    && HasPath(t, p) && |p| == |names|
    && forall k :: 0 < k <= |p| ==>
         HasPath(t, p[..k]) && Sub(t, p[..k]).kind == KElement && Sub(t, p[..k]).name == Some(names[k - 1])
  }

  lemma {:induction false} PrefixPath(t: Tree, p: Path, k: nat)
    requires HasPath(t, p) && k <= |p|
    ensures HasPath(t, p[..k])
    decreases k
  {
    if k == 0 {
    } else {
      assert p[..k][0] == p[0] && p[..k][1..] == p[1..][..k - 1];
      PrefixPath(t.kids[p[0]], p[1..], k - 1);
    }
  }

  /** One name more. */
  lemma NamedNext(t: Tree, p: Path, names: seq<bytes>)
    requires names != []
    ensures Named(t, p, names) <==>
      && p != [] && HasPath(t, p) && Named(t, p[..|p| - 1], names[..|names| - 1])
      && Sub(t, p).kind == KElement && Sub(t, p).name == Some(names[|names| - 1])
  {
    hide Sub, HasPath;
    var n, m := |p|, |names|;
    assert p[..n] == p;
    if p != [] {
      var q := p[..n - 1];
      if HasPath(t, p) { PrefixPath(t, p, n - 1); }
      assert forall k :: 0 < k <= n - 1 ==> q[..k] == p[..k];
      assert forall k :: 0 <= k < m - 1 ==> names[..m - 1][k] == names[k];
      forall k | 0 < k <= n && HasPath(t, p) ensures HasPath(t, p[..k]) {
        PrefixPath(t, p, k);
      }
    }
  }

  lemma RootSelected(w: World, t: Tree, c: Ctx, y: XNode)
    requires c.n != Null
    ensures y in SetOf(Val(w, Root, c)) <==> exists p :: ReachedBy(t, p, [], y)
  {
    RootIsFirst(t);
    assert Named(t, [], []) && Handle(t, []) == Node(0);
    assert ReachedBy(t, [], [], Node(0));
  }

  lemma ChildStepValue(w: World, e: Expr, name: bytes, c: Ctx, y: XNode)
    ensures y in SetOf(Val(w, Step(From(e), Child, ByName(name), NoPreds), c)) <==>
      exists x :: x in SetOf(Val(w, e, c)) && y in StepNodes(w, Child, ByName(name), x)
  {
    hide Val, StepNodes;
    StepMembers(w, From(e), Child, ByName(name), NoPreds, c);
    forall x ensures KeptByAll(w, NoPreds, StepNodes(w, Child, ByName(name), x)) ==
      StepNodes(w, Child, ByName(name), x)
    {
      NoPredsKept(w, StepNodes(w, Child, ByName(name), x));
    }
  }

  lemma StepDown(w: World, t: Tree, p: Path, names: seq<bytes>)
    requires w.doc == DocOf(t) && names != [] && Named(t, p, names)
    ensures p != [] && Named(t, p[..|p| - 1], names[..|names| - 1])
    ensures Handle(t, p) in StepNodes(w, Child, ByName(names[|names| - 1]), Handle(t, p[..|p| - 1]))
  {
    hide DocOf, TreeAxes.Number, HasPath, Sub, AxisSeq, Named;
    NamedNext(t, p, names);
    NamedHas(t, p[..|p| - 1], names[..|names| - 1]);
    StepOnTree(t, Child, p[..|p| - 1], p);
  }

  lemma NamedHas(t: Tree, p: Path, names: seq<bytes>)
    requires Named(t, p, names)
    ensures HasPath(t, p) && |p| == |names|
  {}

  lemma StepFound(w: World, t: Tree, q: Path, names: seq<bytes>, y: XNode) returns (p: Path)
    requires w.doc == DocOf(t) && names != [] && Named(t, q, names[..|names| - 1])
    requires y in StepNodes(w, Child, ByName(names[|names| - 1]), Handle(t, q))
    ensures Named(t, p, names) && y == Handle(t, p)
  {
    hide DocOf, TreeAxes.Number, HasPath, Sub, AxisSeq, Named;
    NamedHas(t, q, names[..|names| - 1]);
    WellPlaced(t, q);
    p := OnlyTreeNodes(t, Child, ByName(names[|names| - 1]), q, y);
    StepOnTree(t, Child, q, p);
    assert p[..|p| - 1] == q;
    NamedNext(t, p, names);
  }

  /** y is the handle of the node at p, and the way to p has these names. */
  ghost predicate ReachedBy(t: Tree, p: Path, names: seq<bytes>, y: XNode) {
    Named(t, p, names) && y == Handle(t, p)
  }

  lemma ReachedIs(t: Tree, p: Path, names: seq<bytes>, y: XNode)
    requires ReachedBy(t, p, names, y)
    ensures HasPath(t, p) && |p| == |names| && Named(t, p, names) && y == Handle(t, p)
  {}

  /** The query selects exactly the nodes with such a way from the root. */
  lemma {:induction false} NamedPathOnTree(w: World, t: Tree, names: seq<bytes>, c: Ctx, y: XNode)
    requires w.doc == DocOf(t) && c.n != Null
    ensures y in SetOf(Val(w, NamedPath(names), c)) <==> exists p :: ReachedBy(t, p, names, y)
    decreases |names|
  {
    hide Val, DocOf, HasPath, Sub, AxisSeq, Named, Handle, StepNodes, ReachedBy;
    if names == [] {
      RootSelected(w, t, c, y);
    } else {
      var n := |names| - 1;
      var e, name := NamedPath(names[..n]), names[n];
      ChildStepValue(w, e, name, c, y);
      if p :| ReachedBy(t, p, names, y) {
        ReachedIs(t, p, names, y);
        StepDown(w, t, p, names);
        NamedPathOnTree(w, t, names[..n], c, Reaching(t, p[..|p| - 1], names[..n]));
      }
      if x :| x in SetOf(Val(w, e, c)) && y in StepNodes(w, Child, ByName(name), x) {
        NamedPathOnTree(w, t, names[..n], c, x);
        var q :| ReachedBy(t, q, names[..n], x);
        ReachedIs(t, q, names[..n], x);
        var p := StepFound(w, t, q, names, y);
        assert Reaching(t, p, names) == y;
      }
    }
  }

  function Reaching(t: Tree, p: Path, names: seq<bytes>): (y: XNode)
    requires Named(t, p, names)
    ensures ReachedBy(t, p, names, y)
  {
    Handle(t, p)
  }

  // ----- from the text of such a query

  /** The tokens of /a/b/c. */
  function PathTokens(names: seq<bytes>): E.tokens {
    if names == [] then [] else [E.Slash, E.Name(names[0])] + PathTokens(names[1..])
  }

  function NameSteps(names: seq<bytes>): E.Steps {
    if names == [] then E.NoSteps
    else E.Step(false, E.Full(E.Implied, E.ByName(names[0]), E.NoPreds), NameSteps(names[1..]))
  }

  /** Names that do not end in a colon and an asterisk. */
  predicate Plain(names: seq<bytes>) {
    forall i :: 0 <= i < |names| && |names[i]| > 2 ==> names[i][|names[i]| - 2..] != [58, 42]
  }

  lemma {:induction false} NameStepsText(vs: E.vars, names: seq<bytes>)
    ensures E.YieldSteps(NameSteps(names)) == PathTokens(names) && E.StepsInGrammar(vs, NameSteps(names))
    decreases |names|
  {
    if names == [] {
    } else {
      NameStepsText(vs, names[1..]);
      var body := E.Full(E.Implied, E.ByName(names[0]), E.NoPreds);
      assert E.YieldPreds(E.NoPreds) == [] && E.PredsInGrammar(vs, E.NoPreds);
      assert E.YieldBody(body) == [E.Name(names[0])] && E.BodyInGrammar(vs, body);
      assert [E.Slash] + ([E.Name(names[0])] + PathTokens(names[1..])) == PathTokens(names);
    }
  }

  lemma {:induction false} NameStepsNodes(vs: E.vars, front: seq<bytes>, names: seq<bytes>)
    requires Plain(names)
    ensures E.AstSteps(vs, NamedPath(front), NameSteps(names)) == NamedPath(front + names)
    decreases |names|
  {
    if names == [] {
      assert front + names == front;
    } else {
      hide E.TestOf, E.AstBody, NamedPath;
      var front', rest := front + [names[0]], names[1..];
      assert front' + rest == front + names;
      PlainTest(names[0]);
      NameStepsNodes(vs, front', rest);
      NamedStepNode(vs, front, names[0]);
      var body := E.Full(E.Implied, E.ByName(names[0]), E.NoPreds);
      assert NameSteps(names) == E.Step(false, body, NameSteps(rest));
    }
  }

  lemma NamedStepNode(vs: E.vars, front: seq<bytes>, name: bytes)
    requires E.TestOf(E.ByName(name)) == ByName(name)
    ensures E.AstBody(vs, From(NamedPath(front)), E.Full(E.Implied, E.ByName(name), E.NoPreds))
      == NamedPath(front + [name])
  {
    hide E.TestOf;
    assert (front + [name])[..|front + [name]| - 1] == front;
    assert E.AstPreds(vs, E.NoPreds) == NoPreds;
  }

  lemma PlainTest(name: bytes)
    requires |name| > 2 ==> name[|name| - 2..] != [58, 42]
    ensures E.TestOf(E.ByName(name)) == ByName(name)
  {
    assert E.Ascii(":*") == [58, 42];
  }

  /** The text of the query has a tree in the grammar, and the nodes of that tree are the child steps. */
  lemma PathText(vs: E.vars, names: seq<bytes>)
    requires names != [] && Plain(names)
    ensures (var t := E.Path(E.AtRoot, NameSteps(names));
             XPathQuery.Selects(vs, PathTokens(names), t) && E.Ast(vs, t) == NamedPath(names))
  {
    hide E.Yield, E.InGrammar, E.Ast, E.YieldSteps, E.StepsInGrammar, E.AstSteps, PathTokens, NameSteps, NamedPath;
    NameStepsText(vs, names);
    NameStepsNodes(vs, [], names);
    NamedPathIs(names);
    RootPath(vs, NameSteps(names));
    assert [] + names == names;
  }

  lemma NamedPathIs(names: seq<bytes>)
    ensures ExprType(NamedPath(names)) == TNodeSet && NamedPath([]) == Root
    ensures names != [] ==> NameSteps(names).Step?
  {}

  lemma RootPath(vs: E.vars, steps: E.Steps)
    requires steps.Step?
    ensures E.Yield(E.Path(E.AtRoot, steps)) == E.YieldSteps(steps)
    ensures E.InGrammar(vs, E.Path(E.AtRoot, steps)) <==> E.StepsInGrammar(vs, steps)
    ensures E.Ast(vs, E.Path(E.AtRoot, steps)) == E.AstSteps(vs, Root, steps)
  {
    hide E.YieldSteps, E.StepsInGrammar, E.AstSteps;
  }

  /**
    `select_nodes("/a/b/c")`: exactly the nodes below the root whose way from it leads over elements with these names.
  */
  method SelectPath(w: World, t: Tree, names: seq<bytes>, c: Ctx) returns (ns: NodeSet)
    requires EngineWorld(w) && w.doc == DocOf(t) && ValidCtx(w, c) && c.n != Null && names != [] && Plain(names)
    ensures Truthful(ns) && forall y :: y in ns.items <==> exists p :: ReachedBy(t, p, names, y)
  {
    hide EngineWorld, Val, Truthful, DocOf, ReachedBy, XPathQuery.Selects, E.Ast, NamedPath, PathTokens;
    PathText(map[], names);
    var r := XPathQuery.SelectByText(w, map[], PathTokens(names), c);
    ns := r.value;
    forall y ensures y in ns.items <==> exists p :: ReachedBy(t, p, names, y) {
      NamedPathOnTree(w, t, names, c, y);
      assert y in ns.items <==> y in Members(ns.items);
    }
  }
}
