/**
  Expressions and their plain meaning: every location step is the union of its filtered axes, every conversion is
  done on whole values, and no order, tag or shortcut is involved (sections 2 and 3 of XPath 1.0).
*/
module XPathSemantics {
  import opened Bytes
  import opened Document
  import opened Axes
  import opened NodeSets
  import Sorting
  import Translate

  datatype Number = NaN | PosInf | NegInf | Fin(r: real)

  predicate NumEq(a: Number, b: Number) { !a.NaN? && a == b }

  predicate NumLess(a: Number, b: Number) {
    match (a, b)
    case (NaN, _) => false
    case (_, NaN) => false
    case (Fin(x), Fin(y)) => x < y
    case (NegInf, y) => y != NegInf
    case (x, PosInf) => x != PosInf
    case _ => false
  }

  datatype Type = TBoolean | TNumber | TString | TNodeSet

  datatype Value = VBool(b: bool) | VNum(n: Number) | VStr(s: bytes) | VSet(ns: set<XNode>)

  function TypeOf(v: Value): Type {
    match v case VBool(_) => TBoolean case VNum(_) => TNumber case VStr(_) => TString case VSet(_) => TNodeSet
  }

  datatype CmpOp = Eq | Ne | Lt | Gt | Le | Ge

  /** How a library function converts an argument before using it. */
  datatype Param = PBoolean | PNumber | PString | PFirst

  /** A library function that is strict in its converted arguments; arithmetic operators are such functions too. */
  datatype Fn = Fn(id: nat, params: seq<Param>, ret: Type)

  /** How a predicate has been classified for evaluation. */
  datatype PredClass = Default | PosInvariant | Constant | ConstantOne

  datatype Expr =
    | Or(l: Expr, r: Expr)
    | And(l: Expr, r: Expr)
    | Cmp(op: CmpOp, l: Expr, r: Expr)
    | Union(l: Expr, r: Expr)
    | Filter(l: Expr, p: Expr, cls: PredClass)
    | Step(left: Left, axis: Axis, test: NodeTest, preds: Preds)
    | Root
    | Id(l: Expr)
    | Str(s: bytes)
    | Num(n: Number)
    | Var(name: bytes, ty: Type)
    | Last
    | Position
    | Count(l: Expr)
    | Sum(l: Expr)
    | Call(fn: Fn, args: Args)
    | TranslateCall(l: Expr, from: Expr, to: Expr)
    | TranslateTable(l: Expr, table: Translate.Table)
    | AttributeEquals(name: bytes, r: Expr)

  datatype Left = NoLeft | From(e: Expr)

  datatype Preds = NoPreds | Pred(e: Expr, cls: PredClass, next: Preds)

  datatype Args = NoArgs | Arg(e: Expr, next: Args)

  datatype Ctx = Ctx(n: XNode, position: nat, size: nat)

  /**
    The document together with everything the engine takes from outside it. `firstNamed` chooses between two readings
    of @name: the first attribute of that name, which is where the walk stops, or all of them, as in the standard.
  */
  datatype World = World(
    doc: Doc,
    firstNamed: bool,
    place: Places,
    addressLess: (XNode, XNode) -> bool,
    stringValue: XNode -> bytes,
    toNumber: bytes -> Number,
    toText: Number -> bytes,
    call: (Fn, XNode, seq<Value>) -> Value,
    scalars: map<bytes, Value>,
    nodeSets: map<bytes, NodeSet>)

  function ExprType(e: Expr): Type {
    match e
    case Or(_, _) => TBoolean
    case And(_, _) => TBoolean
    case Cmp(_, _, _) => TBoolean
    case AttributeEquals(_, _) => TBoolean
    case Union(_, _) => TNodeSet
    case Filter(_, _, _) => TNodeSet
    case Step(_, _, _, _) => TNodeSet
    case Root => TNodeSet
    case Id(_) => TNodeSet
    case Str(_) => TString
    case TranslateCall(_, _, _) => TString
    case TranslateTable(_, _) => TString
    case Num(_) => TNumber
    case Last => TNumber
    case Position => TNumber
    case Count(_) => TNumber
    case Sum(_) => TNumber
    case Var(_, ty) => ty
    case Call(fn, _) => fn.ret
  }

  function ToBool(v: Value): bool {
    match v
    case VBool(b) => b
    case VNum(n) => n != NaN && n != Fin(0.0)
    case VStr(s) => s != []
    case VSet(ns) => ns != {}
  }

  ghost function ToStr(w: World, v: Value): bytes {
    match v
    case VBool(b) => if b then TRUE else FALSE
    case VNum(n) => w.toText(n)
    case VStr(s) => s
    case VSet(ns) => if ns == {} then [] else w.stringValue(First(ns))
  }

  const TRUE: bytes := [116, 114, 117, 101]
  const FALSE: bytes := [102, 97, 108, 115, 101]

  ghost function ToNum(w: World, v: Value): Number {
    match v
    case VBool(b) => if b then Fin(1.0) else Fin(0.0)
    case VNum(n) => n
    case VStr(s) => w.toNumber(s)
    case VSet(_) => w.toNumber(ToStr(w, v))
  }

  function SetOf(v: Value): set<XNode> {
    if v.VSet? then v.ns else {}
  }

  predicate CmpBool(op: CmpOp, a: bool, b: bool) {
    match op case Eq => a == b case _ => a != b
  }

  predicate CmpNum(op: CmpOp, a: Number, b: Number) {
    match op
    case Eq => NumEq(a, b)
    case Ne => !NumEq(a, b)
    case Lt => NumLess(a, b)
    case Gt => NumLess(b, a)
    case Le => NumLess(a, b) || NumEq(a, b)
    case Ge => NumLess(b, a) || NumEq(a, b)
  }

  predicate CmpStr(op: CmpOp, a: bytes, b: bytes) {
    match op case Eq => a == b case _ => a != b
  }

  predicate IsEquality(op: CmpOp) { op == Eq || op == Ne }

  ghost function NodeNum(w: World, x: XNode): Number { w.toNumber(w.stringValue(x)) }

  /** Comparison of two values; a node-set compares true when some member of it does. */
  ghost predicate Compare(w: World, op: CmpOp, a: Value, b: Value) {
    if IsEquality(op) then CompareEquality(w, op, a, b) else CompareOrder(w, op, a, b)
  }

  ghost predicate CompareEquality(w: World, op: CmpOp, a: Value, b: Value) {
    if a.VSet? && b.VSet? then
      exists x, y :: x in a.ns && y in b.ns && CmpStr(op, w.stringValue(x), w.stringValue(y))
    else if a.VBool? || b.VBool? then CmpBool(op, ToBool(a), ToBool(b))
    else if a.VNum? || b.VNum? then
      if a.VSet? then exists x :: x in a.ns && CmpNum(op, NodeNum(w, x), ToNum(w, b))
      else if b.VSet? then exists y :: y in b.ns && CmpNum(op, ToNum(w, a), NodeNum(w, y))
      else CmpNum(op, ToNum(w, a), ToNum(w, b))
    else
      if a.VSet? then exists x :: x in a.ns && CmpStr(op, w.stringValue(x), ToStr(w, b))
      else if b.VSet? then exists y :: y in b.ns && CmpStr(op, ToStr(w, a), w.stringValue(y))
      else CmpStr(op, ToStr(w, a), ToStr(w, b))
  }

  ghost predicate CompareOrder(w: World, op: CmpOp, a: Value, b: Value) {
    if a.VSet? && b.VSet? then
      exists x, y :: x in a.ns && y in b.ns && CmpNum(op, NodeNum(w, x), NodeNum(w, y))
    else if a.VSet? then exists x :: x in a.ns && CmpNum(op, NodeNum(w, x), ToNum(w, b))
    else if b.VSet? then exists y :: y in b.ns && CmpNum(op, ToNum(w, a), NodeNum(w, y))
    else CmpNum(op, ToNum(w, a), ToNum(w, b))
  }

  /** A predicate that is a number asks for that position; any other predicate is a truth value. */
  ghost predicate PredHolds(v: Value, position: nat) {
    if v.VNum? then NumEq(v.n, Fin(position as real)) else ToBool(v)
  }

  /** The nodes selected from x by one step without predicates, all attributes of a name included. */
  function StepFrom(d: Doc, axis: Axis, test: NodeTest, x: XNode): seq<XNode> {
    if x == Null || ValidNode(d, x) then AxisSeq(d, axis, test, x) else []
  }

  /** The same in the reading of the world. */
  function StepNodes(w: World, axis: Axis, test: NodeTest, x: XNode): seq<XNode> {
    if w.firstNamed && axis == Attributes && test.ByName? then Early(true, StepFrom(w.doc, axis, test, x))
    else StepFrom(w.doc, axis, test, x)
  }

  function Plus(a: Number, b: Number): Number {
    match (a, b)
    case (Fin(x), Fin(y)) => Fin(x + y)
    case (Fin(_), _) => b
    case (_, Fin(_)) => a
    case _ => if a == b then a else NaN
  }

  ghost function SumOf(w: World, s: seq<XNode>): Number {
    if s == [] then Fin(0.0) else Plus(SumOf(w, s[..|s| - 1]), NodeNum(w, s[|s| - 1]))
  }

  ghost function Val(w: World, e: Expr, c: Ctx): Value
    decreases e, 0, 1
  {
    match e
    case Or(l, r) => VBool(ToBool(Val(w, l, c)) || ToBool(Val(w, r, c)))
    case And(l, r) => VBool(ToBool(Val(w, l, c)) && ToBool(Val(w, r, c)))
    case Cmp(op, l, r) => VBool(Compare(w, op, Val(w, l, c), Val(w, r, c)))
    case Union(l, r) => VSet(SetOf(Val(w, l, c)) + SetOf(Val(w, r, c)))
    case Filter(l, p, _) =>
      var s := InDocumentOrder(SetOf(Val(w, l, c)));
      VSet(set y | y in Kept(w, p, s, |s|))
    case Step(left, axis, test, preds) =>
      var start := (match left case NoLeft => {c.n} case From(e1) => SetOf(Val(w, e1, c)));
      VSet(set x, y | x in start && y in KeptByAll(w, preds, StepNodes(w, axis, test, x)) :: y)
    case Root => VSet(if c.n == Null then {} else {Node(0)})
    case Id(_) => VSet({})
    case Str(s) => VStr(s)
    case Num(n) => VNum(n)
    case Var(name, ty) =>
      if ty == TNodeSet then VSet(if name in w.nodeSets then (set y | y in w.nodeSets[name].items) else {})
      else if name in w.scalars then w.scalars[name] else VNum(NaN)
    case Last => VNum(Fin(c.size as real))
    case Position => VNum(Fin(c.position as real))
    case Count(l) => VNum(Fin(|SetOf(Val(w, l, c))| as real))
    case Sum(l) => VNum(SumOf(w, InDocumentOrder(SetOf(Val(w, l, c)))))
    case Call(fn, args) => w.call(fn, c.n, ArgVals(w, args, fn.params, c))
    case TranslateCall(_, _, _) => TranslateVal(w, e, c)
    case TranslateTable(l, t) => VStr(Translate.TableTranslated(ToStr(w, Val(w, l, c)), t))
    case AttributeEquals(name, r) => VBool(AttributeHolds(w.doc, c.n, name, ToStr(w, Val(w, r, c))))
  }

  ghost function TranslateVal(w: World, e: Expr, c: Ctx): Value
    requires e.TranslateCall?
    decreases e, 0, 0
  {
    TranslatedValue(w, Val(w, e.l, c), Val(w, e.from, c), Val(w, e.to, c))
  }

  ghost function TranslatedValue(w: World, text: Value, from: Value, to: Value): Value {
    VStr(Translate.Translated(ToStr(w, text), ToStr(w, from), ToStr(w, to)))
  }

  /** Direct lookup: the first attribute of that name is a real attribute and has that value. */
  predicate AttributeHolds(d: Doc, x: XNode, name: bytes, value: bytes) {
    x.Node? && d.Has(x.i) && IsXPathAttribute(name) &&
    var k := FirstNamed(d.Attrs(x.i), name);
    k < |d.Attrs(x.i)| && d.Attrs(x.i)[k].value == value
  }

  function FirstNamed(attrs: seq<Attr>, name: bytes): (k: nat)
    ensures k <= |attrs| && (forall j :: 0 <= j < k ==> attrs[j].name != name)
    ensures k < |attrs| ==> attrs[k].name == name
  {
    if attrs == [] then 0 else if attrs[0].name == name then 0 else
      var k := FirstNamed(attrs[1..], name);
      assert forall j :: 1 <= j < k + 1 ==> attrs[j] == attrs[1..][j - 1];
      1 + k
  }

  ghost function Converted(w: World, p: Param, v: Value): Value {
    match p
    case PBoolean => VBool(ToBool(v))
    case PNumber => VNum(ToNum(w, v))
    case PString => VStr(ToStr(w, v))
    case PFirst => VSet(if SetOf(v) == {} then {} else {First(SetOf(v))})
  }

  ghost function ArgVals(w: World, args: Args, params: seq<Param>, c: Ctx): seq<Value>
    decreases args, 0, 0
  {
    match args
    case NoArgs => []
    case Arg(e, next) =>
      if params == [] then [] else [Converted(w, params[0], Val(w, e, c))] + ArgVals(w, next, params[1..], c)
  }

  /** The first k members of s, tested each in its own context. */
  ghost function Kept(w: World, p: Expr, s: seq<XNode>, k: nat): (r: seq<XNode>)
    requires k <= |s|
    decreases p, 1, k
  {
    if k == 0 then []
    else Kept(w, p, s, k - 1) + (if PredHolds(Val(w, p, Ctx(s[k - 1], k, |s|)), k) then [s[k - 1]] else [])
  }

  ghost function KeptByAll(w: World, ps: Preds, s: seq<XNode>): seq<XNode>
    decreases ps, 0, 0
  {
    match ps
    case NoPreds => s
    case Pred(p, _, next) => KeptByAll(w, next, Kept(w, p, s, |s|))
  }

  // ----- one-step unfoldings

  ghost function Start(w: World, left: Left, c: Ctx): set<XNode> {
    match left case NoLeft => {c.n} case From(e1) => SetOf(Val(w, e1, c))
  }

  lemma StepMembers(w: World, left: Left, axis: Axis, test: NodeTest, preds: Preds, c: Ctx)
    ensures Val(w, Step(left, axis, test, preds), c).VSet?
    ensures forall y :: y in SetOf(Val(w, Step(left, axis, test, preds), c)) <==>
      exists x :: x in Start(w, left, c) && y in KeptByAll(w, preds, StepNodes(w, axis, test, x))
  {}

  lemma NoPredsKept(w: World, s: seq<XNode>)
    ensures KeptByAll(w, NoPreds, s) == s
  {}

  lemma TranslateValue(w: World, l: Expr, from: Expr, to: Expr, c: Ctx)
    ensures Val(w, TranslateCall(l, from, to), c) == TranslatedValue(w, Val(w, l, c), Val(w, from, c), Val(w, to, c))
  {
    TranslateCase(w, TranslateCall(l, from, to), c);
    hide Val, TranslatedValue;
  }

  lemma TranslateCase(w: World, e: Expr, c: Ctx)
    requires e.TranslateCall?
    ensures Val(w, e, c) == TranslateVal(w, e, c)
  {
    hide TranslateVal;
  }

  lemma TableValue(w: World, l: Expr, t: Translate.Table, c: Ctx)
    ensures Val(w, TranslateTable(l, t), c) == VStr(Translate.TableTranslated(ToStr(w, Val(w, l, c)), t))
  {
    hide Translate.TableTranslated, ToStr;
  }

  lemma StrValue(w: World, s: bytes, c: Ctx)
    ensures Val(w, Str(s), c) == VStr(s) && ToStr(w, VStr(s)) == s
  {}

  lemma NothingKept(w: World, p: Expr, s: seq<XNode>)
    ensures Kept(w, p, s, 0) == []
  {}

  lemma KeptStep(w: World, p: Expr, s: seq<XNode>, k: nat)
    requires 0 < k <= |s|
    ensures Kept(w, p, s, k) ==
      Kept(w, p, s, k - 1) + (if PredHolds(Val(w, p, Ctx(s[k - 1], k, |s|)), k) then [s[k - 1]] else [])
  {}

  lemma CmpValue(w: World, op: CmpOp, l: Expr, r: Expr, c: Ctx)
    ensures Val(w, Cmp(op, l, r), c) == VBool(Compare(w, op, Val(w, l, c), Val(w, r, c)))
  {}

  lemma AttributeEqualsValue(w: World, name: bytes, r: Expr, c: Ctx)
    ensures Val(w, AttributeEquals(name, r), c) == VBool(AttributeHolds(w.doc, c.n, name, ToStr(w, Val(w, r, c))))
  {}

  /** What the parser guarantees about types. */
  ghost predicate Typed(w: World, e: Expr)
    decreases e, 0, 0
  {
    match e
    case Or(l, r) => Typed(w, l) && Typed(w, r)
    case And(l, r) => Typed(w, l) && Typed(w, r)
    case Cmp(_, l, r) => Typed(w, l) && Typed(w, r)
    case Union(l, r) => Typed(w, l) && Typed(w, r) && ExprType(l) == TNodeSet && ExprType(r) == TNodeSet
    case Filter(l, p, _) => Typed(w, l) && Typed(w, p) && ExprType(l) == TNodeSet
    case Step(left, _, _, preds) =>
      TypedPreds(w, preds) && (match left case NoLeft => true case From(e1) => Typed(w, e1) && ExprType(e1) == TNodeSet)
    case Id(l) => Typed(w, l)
    case Count(l) => Typed(w, l) && ExprType(l) == TNodeSet
    case Sum(l) => Typed(w, l) && ExprType(l) == TNodeSet
    case Var(name, ty) =>
      if ty == TNodeSet then name in w.nodeSets else name in w.scalars && TypeOf(w.scalars[name]) == ty
    case Call(fn, args) => fn.ret != TNodeSet && TypedArgs(w, args, fn.params)
    case TranslateCall(l, from, to) => Typed(w, l) && Typed(w, from) && Typed(w, to)
    case TranslateTable(l, _) => Typed(w, l)
    case AttributeEquals(name, r) => Typed(w, r) && (r.Str? || (r.Var? && r.ty == TString))
    case Str(s) => 0 !in s
    case Root => true
    case Num(_) => true
    case Last => true
    case Position => true
  }

  ghost predicate TypedPreds(w: World, ps: Preds)
    decreases ps, 0, 0
  {
    match ps case NoPreds => true case Pred(p, _, next) => Typed(w, p) && TypedPreds(w, next)
  }

  ghost predicate TypedArgs(w: World, args: Args, params: seq<Param>)
    decreases args, 0, 0
  {
    match args
    case NoArgs => params == []
    case Arg(e, next) =>
      params != [] && Typed(w, e) && (params[0] == PFirst ==> ExprType(e) == TNodeSet) &&
      TypedArgs(w, next, params[1..])
  }

  ghost predicate ValidSet(d: Doc, ns: NodeSet) {
    Truthful(ns) && forall x :: x in ns.items ==> ValidNode(d, x)
  }

  ghost predicate ValidWorld(w: World) {
    && w.doc.WellFormed() && InBufferOrder(w.place)
    && Sorting.StrictTotalOrder(w.addressLess)
    && (forall f: Fn, x: XNode, vs: seq<Value> :: f.ret != TNodeSet ==> TypeOf(w.call(f, x, vs)) == f.ret)
    && (forall x: XNode :: x.Attribute? && ValidNode(w.doc, x) ==>
          w.stringValue(x) == w.doc.Attrs(x.owner)[x.k].value)
    && (forall name :: name in w.nodeSets ==> ValidSet(w.doc, w.nodeSets[name]))
  }

  /** A value of the given type. */
  function Sample(ty: Type): Value {
    match ty case TBoolean => VBool(false) case TNumber => VNum(NaN) case TString => VStr([]) case TNodeSet => VSet({})
  }

  /** A world without variables, in which nothing but an attribute has text and no text is a number. */
  ghost function PlainWorld(doc: Doc, firstNamed: bool): World {
    World(doc, firstNamed, x => 0, DocLess(),
      (x: XNode) =>
        if x.Attribute? && doc.Has(x.owner) && 0 <= x.k < |doc.Attrs(x.owner)| then doc.Attrs(x.owner)[x.k].value
        else [],
      s => NaN, n => [], (f: Fn, x: XNode, vs: seq<Value>) => Sample(f.ret), map[], map[])
  }

  lemma PlainWorldValid(doc: Doc, firstNamed: bool)
    requires doc.WellFormed()
    ensures ValidWorld(PlainWorld(doc, firstNamed))
  {
    DocLessTotal();
  }

  /** The world as the evaluator sees it. */
  ghost predicate EngineWorld(w: World) {
    ValidWorld(w) && w.firstNamed
  }

  ghost predicate ValidCtx(w: World, c: Ctx) {
    c.n == Null || ValidNode(w.doc, c.n)
  }

  /** A well-typed expression has a value of its type, and node-sets hold nodes of the document. */
  lemma {:induction false} ValTyped(w: World, e: Expr, c: Ctx)
    requires ValidWorld(w) && Typed(w, e)
    ensures TypeOf(Val(w, e, c)) == ExprType(e)
  {}

  lemma {:induction false} KeptSubset(w: World, p: Expr, s: seq<XNode>, k: nat)
    requires k <= |s|
    ensures forall y :: y in Kept(w, p, s, k) ==> y in s[..k]
    decreases k
  {
    if k == 0 {
    } else {
      KeptSubset(w, p, s, k - 1);
      assert s[..k] == s[..k - 1] + [s[k - 1]];
    }
  }

  lemma {:induction false} KeptByAllSubset(w: World, ps: Preds, s: seq<XNode>)
    ensures forall y :: y in KeptByAll(w, ps, s) ==> y in s
    decreases ps
  {
    match ps
    case NoPreds =>
    case Pred(p, _, next) =>
      KeptSubset(w, p, s, |s|);
      KeptByAllSubset(w, next, Kept(w, p, s, |s|));
  }

  lemma {:induction false} ValidNodesOnly(w: World, e: Expr, c: Ctx)
    requires ValidWorld(w) && ValidCtx(w, c) && Typed(w, e)
    ensures forall x :: x in SetOf(Val(w, e, c)) ==> ValidNode(w.doc, x)
    decreases e
  {
    match e
    case Union(l, r) =>
      ValidNodesOnly(w, l, c);
      ValidNodesOnly(w, r, c);
    case Filter(l, p, _) =>
      ValidNodesOnly(w, l, c);
      var s := InDocumentOrder(SetOf(Val(w, l, c)));
      KeptSubset(w, p, s, |s|);
      assert s[..|s|] == s;
    case Step(left, axis, test, preds) =>
      forall x, y | y in KeptByAll(w, preds, StepNodes(w, axis, test, x)) ensures ValidNode(w.doc, y) {
        KeptByAllSubset(w, preds, StepNodes(w, axis, test, x));
        AxisSeqMeaning(w.doc, axis, test, x);
        assert y in StepFrom(w.doc, axis, test, x);
      }
    case Call(fn, args) => assert TypeOf(Val(w, e, c)) == fn.ret;
    case _ =>
  }

  // ----- the two readings of @name

  /** No element repeats a name that the expression asks for. Section 3.1 of XML 1.0 demands this of all names. */
  ghost predicate NamesApart(d: Doc, e: Expr)
    decreases e
  {
    match e
    case Or(l, r) => NamesApart(d, l) && NamesApart(d, r)
    case And(l, r) => NamesApart(d, l) && NamesApart(d, r)
    case Cmp(_, l, r) => NamesApart(d, l) && NamesApart(d, r)
    case Union(l, r) => NamesApart(d, l) && NamesApart(d, r)
    case Filter(l, p, _) => NamesApart(d, l) && NamesApart(d, p)
    case Step(left, axis, test, preds) =>
      && (axis == Attributes && test.ByName? ==> NameApart(d, test.name))
      && NamesApartPreds(d, preds) && (left.From? ==> NamesApart(d, left.e))
    case Id(l) => NamesApart(d, l)
    case Count(l) => NamesApart(d, l)
    case Sum(l) => NamesApart(d, l)
    case Call(_, args) => NamesApartArgs(d, args)
    case TranslateCall(l, from, to) => NamesApart(d, l) && NamesApart(d, from) && NamesApart(d, to)
    case TranslateTable(l, _) => NamesApart(d, l)
    case AttributeEquals(_, r) => NamesApart(d, r)
    case _ => true
  }

  ghost predicate NamesApartPreds(d: Doc, ps: Preds)
    decreases ps
  {
    match ps case NoPreds => true case Pred(p, _, next) => NamesApart(d, p) && NamesApartPreds(d, next)
  }

  ghost predicate NamesApartArgs(d: Doc, args: Args)
    decreases args
  {
    match args case NoArgs => true case Arg(e, next) => NamesApart(d, e) && NamesApartArgs(d, next)
  }

  /** In a document without repeated attributes every expression qualifies. */
  lemma {:induction false} UniqueApart(d: Doc, e: Expr)
    requires d.UniqueAttrs()
    ensures NamesApart(d, e)
    decreases e
  {
    match e
    case Or(l, r) => UniqueApart(d, l); UniqueApart(d, r);
    case And(l, r) => UniqueApart(d, l); UniqueApart(d, r);
    case Cmp(_, l, r) => UniqueApart(d, l); UniqueApart(d, r);
    case Union(l, r) => UniqueApart(d, l); UniqueApart(d, r);
    case Filter(l, p, _) => UniqueApart(d, l); UniqueApart(d, p);
    case Step(left, _, _, preds) =>
      UniqueApartPreds(d, preds);
      if left.From? { UniqueApart(d, left.e); }
    case Id(l) => UniqueApart(d, l);
    case Count(l) => UniqueApart(d, l);
    case Sum(l) => UniqueApart(d, l);
    case Call(_, args) => UniqueApartArgs(d, args);
    case TranslateCall(l, from, to) => UniqueApart(d, l); UniqueApart(d, from); UniqueApart(d, to);
    case TranslateTable(l, _) => UniqueApart(d, l);
    case AttributeEquals(_, r) => UniqueApart(d, r);
    case _ =>
  }

  lemma {:induction false} UniqueApartPreds(d: Doc, ps: Preds)
    requires d.UniqueAttrs()
    ensures NamesApartPreds(d, ps)
    decreases ps
  {
    match ps
    case NoPreds =>
    case Pred(p, _, next) => UniqueApart(d, p); UniqueApartPreds(d, next);
  }

  lemma {:induction false} UniqueApartArgs(d: Doc, args: Args)
    requires d.UniqueAttrs()
    ensures NamesApartArgs(d, args)
    decreases args
  {
    match args
    case NoArgs =>
    case Arg(e, next) => UniqueApart(d, e); UniqueApartArgs(d, next);
  }

  /** The same world in the reading of the standard. */
  function Standard(w: World): World { w.(firstNamed := false) }

  lemma StepNodesAgree(w: World, axis: Axis, test: NodeTest, x: XNode)
    requires w.doc.WellFormed() && (axis == Attributes && test.ByName? ==> NameApart(w.doc, test.name))
    ensures StepNodes(w, axis, test, x) == StepNodes(Standard(w), axis, test, x)
  {
    if axis == Attributes && test.ByName? && (x == Null || ValidNode(w.doc, x)) {
      NamedAttributeExact(w.doc, test.name, x);
    }
  }

  /** Where no name is repeated, both readings give an expression the same value. */
  lemma {:induction false} ReadingsAgree(w: World, e: Expr, c: Ctx)
    requires w.doc.WellFormed() && NamesApart(w.doc, e)
    ensures Val(w, e, c) == Val(Standard(w), e, c)
    decreases e, 1
  {
    hide Val, NamesApart;
    match e
    case Or(_, _) => PairReadings(w, e, c);
    case And(_, _) => PairReadings(w, e, c);
    case Cmp(_, _, _) => PairReadings(w, e, c);
    case Union(_, _) => PairReadings(w, e, c);
    case Filter(_, _, _) => FilterReadings(w, e, c);
    case Step(left, axis, test, preds) => StepReadings(w, left, axis, test, preds, c);
    case Call(_, _) => CallReadings(w, e, c);
    case TranslateCall(_, _, _) => CallReadings(w, e, c);
    case _ => SingleReadings(w, e, c);
  }

  lemma {:induction false} PairReadings(w: World, e: Expr, c: Ctx)
    requires w.doc.WellFormed() && NamesApart(w.doc, e) && (e.Or? || e.And? || e.Cmp? || e.Union?)
    ensures Val(w, e, c) == Val(Standard(w), e, c)
    decreases e, 0
  {
    hide Compare, TranslatedValue, AttributeHolds, StepNodes, Kept, KeptByAll, SumOf, InDocumentOrder, Doc.WellFormed;
    ReadingsAgree(w, e.l, c);
    ReadingsAgree(w, e.r, c);
    if e.Cmp? { CompareAgrees(w, e.op, Val(w, e.l, c), Val(w, e.r, c)); }
  }

  lemma {:induction false} FilterReadings(w: World, e: Expr, c: Ctx)
    requires w.doc.WellFormed() && NamesApart(w.doc, e) && e.Filter?
    ensures Val(w, e, c) == Val(Standard(w), e, c)
    decreases e, 0
  {
    hide Compare, TranslatedValue, AttributeHolds, StepNodes, KeptByAll, SumOf, InDocumentOrder, Kept, Doc.WellFormed;
    ReadingsAgree(w, e.l, c);
    var s := InDocumentOrder(SetOf(Val(w, e.l, c)));
    KeptReadings(w, e.p, s, |s|);
  }

  lemma {:induction false} CallReadings(w: World, e: Expr, c: Ctx)
    requires w.doc.WellFormed() && NamesApart(w.doc, e) && (e.Call? || e.TranslateCall?)
    ensures Val(w, e, c) == Val(Standard(w), e, c)
    decreases e, 0
  {
    hide Compare, AttributeHolds, StepNodes, Kept, KeptByAll, SumOf, InDocumentOrder, Doc.WellFormed;
    hide Translate.Translated;
    if e.Call? {
      ArgsReadings(w, e.args, e.fn.params, c);
    } else {
      ReadingsAgree(w, e.l, c);
      ReadingsAgree(w, e.from, c);
      ReadingsAgree(w, e.to, c);
    }
  }

  lemma {:induction false} SingleReadings(w: World, e: Expr, c: Ctx)
    requires w.doc.WellFormed() && NamesApart(w.doc, e)
    requires !e.Or? && !e.And? && !e.Cmp? && !e.Union? && !e.Filter? && !e.Step? && !e.Call? && !e.TranslateCall?
    ensures Val(w, e, c) == Val(Standard(w), e, c)
    decreases e, 0
  {
    hide Compare, TranslatedValue, AttributeHolds, StepNodes, Kept, KeptByAll, SumOf, InDocumentOrder, Doc.WellFormed;
    if e.Count? || e.Sum? || e.TranslateTable? {
      ReadingsAgree(w, e.l, c);
      if e.Sum? { SumReadings(w, InDocumentOrder(SetOf(Val(w, e.l, c)))); }
    } else if e.AttributeEquals? {
      ReadingsAgree(w, e.r, c);
    }
  }

  lemma {:induction false} StepReadings(w: World, left: Left, axis: Axis, test: NodeTest, preds: Preds, c: Ctx)
    requires w.doc.WellFormed() && NamesApart(w.doc, Step(left, axis, test, preds))
    ensures Val(w, Step(left, axis, test, preds), c) == Val(Standard(w), Step(left, axis, test, preds), c)
    decreases Step(left, axis, test, preds), 0
  {
    if left.From? { ReadingsAgree(w, left.e, c); }
    forall x ensures KeptByAll(w, preds, StepNodes(w, axis, test, x))
      == KeptByAll(Standard(w), preds, StepNodes(Standard(w), axis, test, x))
    {
      StepNodesAgree(w, axis, test, x);
      KeptByAllReadings(w, preds, StepNodes(w, axis, test, x));
    }
    SameSteps(w, Standard(w), left, axis, test, preds, c);
  }

  lemma SameSteps(w: World, u: World, left: Left, axis: Axis, test: NodeTest, preds: Preds, c: Ctx)
    requires Start(w, left, c) == Start(u, left, c)
    requires forall x ::
      KeptByAll(w, preds, StepNodes(w, axis, test, x)) == KeptByAll(u, preds, StepNodes(u, axis, test, x))
    ensures Val(w, Step(left, axis, test, preds), c) == Val(u, Step(left, axis, test, preds), c)
  {
    hide Val, StepNodes, KeptByAll, Start;
    StepMembers(w, left, axis, test, preds, c);
    StepMembers(u, left, axis, test, preds, c);
    assert SetOf(Val(w, Step(left, axis, test, preds), c)) == SetOf(Val(u, Step(left, axis, test, preds), c));
  }

  lemma CompareAgrees(w: World, op: CmpOp, a: Value, b: Value)
    ensures Compare(w, op, a, b) == Compare(Standard(w), op, a, b)
  {}

  lemma {:induction false} SumReadings(w: World, s: seq<XNode>)
    ensures SumOf(w, s) == SumOf(Standard(w), s)
    decreases |s|
  {
    if s == [] {
    } else {
      SumReadings(w, s[..|s| - 1]);
    }
  }

  lemma {:induction false} KeptReadings(w: World, p: Expr, s: seq<XNode>, k: nat)
    requires w.doc.WellFormed() && NamesApart(w.doc, p) && k <= |s|
    ensures Kept(w, p, s, k) == Kept(Standard(w), p, s, k)
    decreases p, 2, k
  {
    hide Val, Kept, NamesApart;
    if k == 0 {
      NothingKept(w, p, s);
      NothingKept(Standard(w), p, s);
    } else {
      KeptStep(w, p, s, k);
      KeptStep(Standard(w), p, s, k);
      KeptReadings(w, p, s, k - 1);
      ReadingsAgree(w, p, Ctx(s[k - 1], k, |s|));
    }
  }

  lemma {:induction false} KeptByAllReadings(w: World, ps: Preds, s: seq<XNode>)
    requires w.doc.WellFormed() && NamesApartPreds(w.doc, ps)
    ensures KeptByAll(w, ps, s) == KeptByAll(Standard(w), ps, s)
    decreases ps
  {
    match ps
    case NoPreds =>
    case Pred(p, _, next) =>
      KeptReadings(w, p, s, |s|);
      KeptByAllReadings(w, next, Kept(w, p, s, |s|));
  }

  lemma {:induction false} ArgsReadings(w: World, args: Args, params: seq<Param>, c: Ctx)
    requires w.doc.WellFormed() && NamesApartArgs(w.doc, args)
    ensures ArgVals(w, args, params, c) == ArgVals(Standard(w), args, params, c)
    decreases args
  {
    match args
    case NoArgs =>
    case Arg(e, next) =>
      if params != [] {
        ReadingsAgree(w, e, c);
        ArgsReadings(w, next, params[1..], c);
      }
  }
}
