/**
  The layout of an EGD page in memory: each variable in little-endian order at its byte, each truth value at its bit.
*/
module EgdPage {
  import opened Basics
  import opened Bytes
  import opened EgdCodec

  /** How many bytes a variable takes; a BOOL takes one bit. */
  function SizeOf(t: Type): nat {
    match t
    case SINT => 1 case USINT => 1 case BYTE => 1
    case INT => 2 case UINT => 2 case WORD => 2
    case DINT => 4 case UDINT => 4 case DWORD => 4 case REAL => 4
    case LINT => 8 case ULINT => 8 case LREAL => 8
    case _ => 0
  }

  lemma SizeIs(t: Type)
    requires Stored(t) && t != BOOL
    ensures WholeBytes(t) == SizeOf(t) && 1 <= SizeOf(t) <= 8
  {}

  /** 256 to the i, and 2 to the b. */
  lemma Powers()
    ensures Pow256(0) == 1 && Pow256(1) == 256 && Pow256(2) == 0x1_0000 && Pow256(3) == 0x100_0000
    ensures Pow256(4) == 0x1_0000_0000 && Pow256(8) == 0x1_0000_0000_0000_0000
  {
    assert Pow256(6) == 0x1_0000_0000_0000;
  }

  /** Dividing by two factors, one after the other. */
  lemma DivideTwice(x: nat, a: nat, b: nat)
    requires a > 0 && b > 0
    ensures a * b > 0 && x / a / b == x / (a * b)
  {
    var q, r, s, u := x / a, x % a, x / a / b, x / a % b;
    assert x == a * q + r && q == b * s + u;
    assert a * (b * s + u) == (a * b) * s + a * u;
    assert a * u + r < a * b by { Below(a, b, u, r); }
    Quotient(x, a * b, s, a * u + r);
  }

  lemma Below(a: nat, b: nat, u: nat, r: nat)
    requires u < b && r < a
    ensures a * u + r < a * b
  {
    assert a * (u + 1) <= a * b by { Times(a, u + 1, b); }
  }

  // ----- words and bits

  /** A byte of a word in memory. */
  lemma {:induction false} WordDigit(s: seq<byte>, i: nat)
    requires i < |s|
    ensures Pow256(i) > 0 && s[i] == FromLittleEndian(s) / Pow256(i) % 256
    decreases i
  {
    if i == 0 {
    } else {
      WordDigit(s[1..], i - 1);
      var rest := FromLittleEndian(s[1..]);
      DivideTwice(s[0] + 256 * rest, 256, Pow256(i - 1));
      assert (s[0] + 256 * rest) / 256 == rest;
    }
  }

  lemma {:induction false} BitIs(x: nat, b: nat)
    ensures BitSet(x, b) <==> x / Pow2(b) % 2 == 1
    decreases b
  {
    if b == 0 {
    } else {
      BitIs(x / 2, b - 1);
      DivideTwice(x, 2, Pow2(b - 1));
    }
  }

  /** n bytes from b on, the first with weight one and each further one with 256 times the weight. */
  function Weighted(data: seq<byte>, b: nat, n: nat): nat
    requires b + n <= |data|
  {
    if n == 0 then 0 else Weighted(data, b, n - 1) + Pow256(n - 1) * data[b + n - 1]
  }

  lemma {:induction false} WordIsWeighted(s: seq<byte>, n: nat)
    requires n <= |s|
    ensures FromLittleEndian(s[..n]) == Weighted(s, 0, n)
    decreases n
  {
    if n == 0 {
    } else {
      WordIsWeighted(s, n - 1);
      LastByte(s[..n]);
      assert s[..n][..n - 1] == s[..n - 1];
    }
  }

  /** The last byte has the highest weight. */
  lemma {:induction false} LastByte(s: seq<byte>)
    requires s != []
    ensures FromLittleEndian(s) == FromLittleEndian(s[..|s| - 1]) + Pow256(|s| - 1) * s[|s| - 1]
    decreases |s|
  {
    var n := |s| - 1;
    if n == 0 {
      assert s[1..] == [] && s[..0] == [];
    } else {
      var t := s[1..];
      LastByte(t);
      assert t[..n - 1] == s[..n][1..];
      var m, x := Pow256(n - 1), t[n - 1];
      assert 256 * (m * x) == (256 * m) * x;
    }
  }

  lemma {:induction false} WeightedSlice(data: seq<byte>, b: nat, n: nat)
    requires b + n <= |data|
    ensures Weighted(data, b, n) == Weighted(data[b..b + n], 0, n)
    decreases n
  {
    if n == 0 {
    } else {
      WeightedSlice(data, b, n - 1);
      SameWeights(data[b..b + n], data[b..b + n - 1], n - 1);
    }
  }

  lemma {:induction false} SameWeights(s: seq<byte>, t: seq<byte>, n: nat)
    requires n <= |s| && n <= |t| && s[..n] == t[..n]
    ensures Weighted(s, 0, n) == Weighted(t, 0, n)
    decreases n
  {
    if n == 0 {
    } else {
      assert s[n - 1] == s[..n][n - 1] == t[..n][n - 1] == t[n - 1];
      assert s[..n - 1] == s[..n][..n - 1] && t[..n - 1] == t[..n][..n - 1];
      SameWeights(s, t, n - 1);
    }
  }

  lemma WordAt(data: seq<byte>, b: nat, n: nat)
    requires b + n <= |data|
    ensures FromLittleEndian(data[b..b + n]) == Weighted(data, b, n)
  {
    var s := data[b..b + n];
    assert s[..n] == s;
    WordIsWeighted(s, n);
    WeightedSlice(data, b, n);
  }

  // ----- a received page

  /** A word reaches the upper half of its range exactly if its last byte does. */
  lemma TopByte(data: seq<byte>, b: nat, n: nat)
    requires n > 0 && b + n <= |data|
    ensures Weighted(data, b, n) < Pow256(n)
    ensures Weighted(data, b, n) >= Pow256(n) / 2 <==> data[b + n - 1] >= 128
  {
    WordAt(data, b, n - 1);
    var m, low, top: int := Pow256(n - 1), Weighted(data, b, n - 1), data[b + n - 1];
    assert low < m && Pow256(n) == 256 * m && Pow256(n) / 2 == 128 * m;
    if top >= 128 {
      Times(m, 128, top);
    } else {
      Times(m, top, 127);
    }
    Times(m, top, 255);
  }

  /** The n bytes from b on lie in the page. */
  predicate InPage(b: nat, n: nat) {
    b + n <= PAYLOAD
  }

  /** The word of n bytes at b, in two's complement. */
  function SignedAt(data: page, b: nat, n: nat): int
    requires InPage(b, n) && n > 0
  {
    Weighted(data, b, n) - if data[b + n - 1] >= 128 then Pow256(n) else 0
  }

  /** r is what the bytes of the page at v stand for. */
  ghost predicate Reads(r: Value, data: page, v: VarInfo) {
    var b, t := v.bitOffset / 8, v.typ;
    && (t == BOOL ==> InPage(b, 1) && r == Boolean(data[b] / Pow2(v.bitOffset % 8) % 2 == 1))
    && (t == USINT || t == BYTE ==> InPage(b, 1) && r == Whole(data[b]))
    && (t == UINT || t == WORD ==> InPage(b, 2) && r == Whole(Weighted(data, b, 2)))
    && (t == UDINT || t == DWORD ==> InPage(b, 4) && r == Whole(Weighted(data, b, 4)))
    && (t == ULINT ==> InPage(b, 8) && r == Whole(Weighted(data, b, 8)))
    && (t == SINT ==> InPage(b, 1) && r == Whole(SignedAt(data, b, 1)))
    && (t == INT ==> InPage(b, 2) && r == Whole(SignedAt(data, b, 2)))
    && (t == DINT ==> InPage(b, 4) && r == Whole(SignedAt(data, b, 4)))
    && (t == LINT ==> InPage(b, 8) && r == Whole(SignedAt(data, b, 8)))
    && (t == REAL ==> InPage(b, 4) && r == Single(Weighted(data, b, 4)))
    && (t == LREAL ==> InPage(b, 8) && r == Double(Weighted(data, b, 8)))
  }

  /** What is read of a variable is what its bytes stand for. */
  lemma ReadFromBytes(data: page, v: VarInfo)
    requires Stored(v.typ) && Fits(v)
    ensures Reads(Get(data, v), data, v)
  {
    hide FromLittleEndian, BitSet, Weighted, Pow256, Pow2, SignedAt;
    var b, n := v.bitOffset / 8, SizeOf(v.typ);
    if v.typ == BOOL {
      BitIs(data[b], v.bitOffset % 8);
    } else {
      SizeIs(v.typ);
      WordAt(data, b, n);
      OneWeight(data, b);
      SignedIs(data, b, n);
    }
  }

  lemma SignedIs(data: page, b: nat, n: nat)
    requires InPage(b, n) && n > 0
    ensures Pow256(n) >= 0 && (var w := Weighted(data, b, n);
      SignedAt(data, b, n) == if w >= Pow256(n) / 2 then w - Pow256(n) else w)
  {
    hide Weighted, Pow256;
    TopByte(data, b, n);
  }

  /** What the callback reports of a variable is what its bytes stand for. */
  lemma ReportedFromBytes(vars: VarMap, data: page, name: string)
    requires name in vars && Stored(vars[name].typ)
    requires forall n :: n in vars && Stored(vars[n].typ) ==> Fits(vars[n])
    ensures name in Decoded(vars, data) && Reads(Decoded(vars, data)[name], data, vars[name])
  {
    hide Reads, Get;
    ReadFromBytes(data, vars[name]);
  }

  lemma OneWeight(data: seq<byte>, b: nat)
    ensures b < |data| ==> Weighted(data, b, 1) == data[b]
  {
    if b < |data| { assert Weighted(data, b, 0) == 0 && Pow256(0) == 1; }
  }

  // ----- a page that is sent

  /** The number that a JSON value stands for in a variable, before it is cut to its bytes. */
  ghost function Meant(t: Type, j: Json, conv: Conv): int {
    if t == REAL then conv.single(j)
    else if t == LREAL then conv.double(j)
    else match j case Int(i) => i case Float(d) => conv.whole(d) case Bool(b) => if b then 1 else 0 case _ => 0
  }

  /** The word of a value in n bytes is its number modulo 256 to the n. */
  lemma WordOfNumber(t: Type, j: Json, conv: Conv)
    requires Stored(t) && t != BOOL && WordFor(t, j, conv) >= 0
    ensures Pow256(SizeOf(t)) > 1 && WordFor(t, j, conv) == Meant(t, j, conv) % Pow256(SizeOf(t))
  {
    SizeIs(t);
    Positive(SizeOf(t));
    hide Pow256;
    Small(1, Pow256(SizeOf(t)));
    Small(0, Pow256(SizeOf(t)));
  }

  lemma Small(x: nat, m: nat)
    requires x < m
    ensures x % m == x
  {
    Quotient(x, m, 0, x);
  }

  lemma {:induction false} PowSplit(n: nat, i: nat)
    requires i <= n
    ensures Pow256(n) == Pow256(n - i) * Pow256(i) && Pow256(i) > 0
    decreases i
  {
    if i == 0 {
    } else {
      PowSplit(n - 1, i - 1);
      var a, c := Pow256(n - i), Pow256(i - 1);
      assert 256 * (a * c) == a * (256 * c);
    }
  }

  /** The digits of a number and of its remainder are the same, up to the last one that the remainder has. */
  lemma DigitKept(x: int, m: nat, k: nat, a: nat)
    requires k > 0 && m > 0 && m == (a * 256) * k
    ensures (x % m) / k % 256 == x / k % 256
  {
    var q, r := x / m, x % m;
    assert x == m * q + r;
    Shifted(x, m, k, a, q, r);
  }

  /** A lower power divides a higher one at least 256 times. */
  lemma HigherPower(n: nat, i: nat) returns (a: nat)
    requires i < n
    ensures Pow256(i) > 0 && Pow256(n) > 0 && Pow256(n) == (a * 256) * Pow256(i)
  {
    PowSplit(n, i);
    PowSplit(n, n);
    a := Pow256(n - i - 1);
  }

  lemma Shifted(x: int, m: nat, k: nat, a: nat, q: int, r: nat)
    requires k > 0 && m == (a * 256) * k && x == m * q + r
    ensures x / k % 256 == r / k % 256
  {
    var s, u := r / k, r % k;
    assert r == k * s + u;
    assert m * q == k * (256 * (a * q));
    assert x == k * (256 * (a * q) + s) + u;
    Quotient(x, k, 256 * (a * q) + s, u);
    Multiple(a * q, s);
  }

  lemma Multiple(z: int, s: nat)
    ensures (256 * z + s) % 256 == s % 256
  {}

  lemma {:induction false} SentEntry(entries: seq<Entry>, name: string) returns (i: nat)
    requires Simple(Sent(entries, name))
    ensures i < |entries| && entries[i] == Entry(name, Sent(entries, name))
    decreases |entries|
  {
    if entries[0].name == name {
      i := 0;
    } else {
      i := SentEntry(entries[1..], name);
      i := i + 1;
    }
  }

  lemma SameWord(t: Type, w: nat, u: nat)
    requires Stored(t) && t != BOOL && w < Pow256(WholeBytes(t)) && u < Pow256(WholeBytes(t))
    requires Interpret(t, w) == Interpret(t, u)
    ensures w == u
  {}

  /** The word of a variable for which a value was sent. */
  lemma SentWord(entries: seq<Entry>, vars: VarMap, conv: Conv, name: string)
    requires Layout(vars) && Distinct(entries) && Encode(seq(PAYLOAD, i => 0), entries, vars, conv).Page?
    requires name in vars && Stored(vars[name].typ) && Simple(Sent(entries, name))
    ensures WordFor(vars[name].typ, Sent(entries, name), conv) >= 0
    ensures Get(Encode(seq(PAYLOAD, i => 0), entries, vars, conv).data, vars[name])
      == Interpret(vars[name].typ, WordFor(vars[name].typ, Sent(entries, name), conv))
  {
    hide Get, Interpret, WordFor, Encode, Sent, Layout;
    LayoutFits(vars, name);
    Blank(vars[name]);
    EncodedAt(seq(PAYLOAD, i => 0), entries, vars, conv, name);
    PublishSucceeds(seq(PAYLOAD, i => 0), entries, vars, conv);
    var i := SentEntry(entries, name);
    assert Acceptable(entries[i], vars, conv);
  }

  lemma LayoutFits(vars: VarMap, name: string)
    requires Layout(vars) && name in vars && Stored(vars[name].typ)
    ensures Fits(vars[name])
  {}

  /** The bytes of a variable for which a value was sent hold the number in little-endian order. */
  lemma SentBytes(entries: seq<Entry>, vars: VarMap, conv: Conv, name: string, i: nat)
    requires Layout(vars) && Distinct(entries) && Encode(seq(PAYLOAD, i => 0), entries, vars, conv).Page?
    requires name in vars && Stored(vars[name].typ) && vars[name].typ != BOOL && i < SizeOf(vars[name].typ)
    requires Simple(Sent(entries, name))
    ensures InPage(vars[name].bitOffset / 8, SizeOf(vars[name].typ)) && Pow256(i) > 0
    ensures (var data := Encode(seq(PAYLOAD, i => 0), entries, vars, conv).data;
             data[vars[name].bitOffset / 8 + i] == Meant(vars[name].typ, Sent(entries, name), conv) / Pow256(i) % 256)
  {
    hide Encode, Sent, WordFor, Pow256, FromLittleEndian, Layout, Interpret, Meant;
    var v, j := vars[name], Sent(entries, name);
    var data := Encode(seq(PAYLOAD, i => 0), entries, vars, conv).data;
    var b, n, w := v.bitOffset / 8, SizeOf(v.typ), WordFor(v.typ, j, conv);
    SizeIs(v.typ);
    LayoutFits(vars, name);
    SentWord(entries, vars, conv, name);
    WordBounds(v.typ, j, conv);
    var s := data[b..b + n];
    SameWord(v.typ, FromLittleEndian(s), w);
    WordDigit(s, i);
    WordOfNumber(v.typ, j, conv);
    var a := HigherPower(n, i);
    DigitKept(Meant(v.typ, j, conv), Pow256(n), Pow256(i), a);
  }

  /** Truth of a JSON value in a BOOL: an integer counts by its lowest byte. */
  ghost predicate MeansTrue(j: Json, conv: Conv) {
    match j
    case Bool(b) => b
    case Int(i) => i % 256 != 0
    case Float(d) => conv.whole(d) % 256 != 0
    case _ => false
  }

  /** The bit of a BOOL for which a value was sent is one exactly when true was sent. */
  lemma SentBit(entries: seq<Entry>, vars: VarMap, conv: Conv, name: string)
    requires Layout(vars) && Distinct(entries) && Encode(seq(PAYLOAD, i => 0), entries, vars, conv).Page?
    requires name in vars && vars[name].typ == BOOL && Simple(Sent(entries, name))
    ensures InPage(vars[name].bitOffset / 8, 1)
    ensures (var data := Encode(seq(PAYLOAD, i => 0), entries, vars, conv).data;
             data[vars[name].bitOffset / 8] / Pow2(vars[name].bitOffset % 8) % 2 == 1 <==>
               MeansTrue(Sent(entries, name), conv))
  {
    hide Encode, Sent, Layout, BitSet, Pow2;
    var v := vars[name];
    LayoutFits(vars, name);
    SentWord(entries, vars, conv, name);
    BitIs(Encode(seq(PAYLOAD, i => 0), entries, vars, conv).data[v.bitOffset / 8], v.bitOffset % 8);
    Powers();
  }

  /** The bytes of a variable for which no value was sent are zero, and so is the bit of a BOOL. */
  lemma NothingSent(entries: seq<Entry>, vars: VarMap, conv: Conv, name: string, i: nat)
    requires Layout(vars) && Distinct(entries) && Encode(seq(PAYLOAD, i => 0), entries, vars, conv).Page?
    requires name in vars && Stored(vars[name].typ) && Sent(entries, name) == Text
    ensures (var data, v, b := Encode(seq(PAYLOAD, i => 0), entries, vars, conv).data, vars[name],
               vars[name].bitOffset / 8;
             && (v.typ == BOOL ==> InPage(b, 1) && data[b] / Pow2(v.bitOffset % 8) % 2 == 0)
             && (v.typ != BOOL && i < SizeOf(v.typ) ==> InPage(b, SizeOf(v.typ)) && data[b + i] == 0))
  {
    hide Encode, Sent, Layout, BitSet, Pow2, FromLittleEndian, Pow256;
    var v := vars[name];
    var data, b := Encode(seq(PAYLOAD, i => 0), entries, vars, conv).data, v.bitOffset / 8;
    LayoutFits(vars, name);
    Blank(v);
    EncodedAt(seq(PAYLOAD, i => 0), entries, vars, conv, name);
    if v.typ == BOOL {
      BitIs(data[b], v.bitOffset % 8);
    } else if i < SizeOf(v.typ) {
      SizeIs(v.typ);
      PowSplit(SizeOf(v.typ), SizeOf(v.typ));
      var s := data[b..b + SizeOf(v.typ)];
      SameWord(v.typ, FromLittleEndian(s), 0);
      WordDigit(s, i);
      Small(0, Pow256(i));
      Quotient(0, Pow256(i), 0, 0);
    }
  }

  // ----- what can be sent

  /** Numbers convert to every type, truth values to those of less than eight bytes and to REAL. */
  lemma Converts(t: Type, j: Json, conv: Conv)
    requires Stored(t)
    ensures WordFor(t, j, conv) >= 0 <==>
      j.Int? || j.Float? || (j.Bool? && t != LINT && t != ULINT && t != LREAL)
  {
    hide Pow256, Word;
    Remains(conv.single(j), 4);
    Remains(conv.double(j), 8);
    if t != REAL && t != LREAL {
      WordConverts(j, if t == BOOL then 1 else WholeBytes(t), conv);
    }
  }

  lemma Remains(x: nat, n: nat)
    ensures Pow256(n) > 0 && x % Pow256(n) >= 0
  {
    Positive(n);
  }

  lemma WordConverts(j: Json, n: nat, conv: Conv)
    requires 1 <= n <= 8
    ensures Word(j, n, conv) >= 0 <==> j.Int? || j.Float? || (j.Bool? && n != 8)
  {
    Positive(n);
    hide Pow256;
  }

  /** An entry that a message may have: passed over, for no variable, or a value of the right kind for one in bounds. */
  predicate Sendable(e: Entry, vars: VarMap) {
    !e.value.Text? && !e.value.Composite? && e.name in vars ==>
      var (at, t) := (vars[e.name].bitOffset / 8, vars[e.name].typ);
      at < 1400 && at + SizeOf(t) < 1400 &&
      (t != DT && t != TIME && t != STRING && t != UNDEFINED ==>
        e.value.Int? || e.value.Float? || (e.value.Bool? && t != LINT && t != ULINT && t != LREAL))
  }

  lemma SendableIs(e: Entry, vars: VarMap, conv: Conv)
    ensures Acceptable(e, vars, conv) <==> Sendable(e, vars)
  {
    hide WordFor;
    if e.name in vars && Stored(vars[e.name].typ) {
      Converts(vars[e.name].typ, e.value, conv);
    }
  }

  /** A message is published exactly if it may have all its entries. */
  lemma SentExactly(entries: seq<Entry>, vars: VarMap, conv: Conv)
    ensures Encode(seq(PAYLOAD, i => 0), entries, vars, conv).Page? <==>
      forall i :: 0 <= i < |entries| ==> Sendable(entries[i], vars)
  {
    hide Encode, Acceptable, Sendable;
    PublishSucceeds(seq(PAYLOAD, i => 0), entries, vars, conv);
    forall i | 0 <= i < |entries| ensures Acceptable(entries[i], vars, conv) <==> Sendable(entries[i], vars) {
      SendableIs(entries[i], vars, conv);
    }
  }

  /** The first entry that it may not have decides the error: bounds come before conversion. */
  lemma {:induction false} FirstFailure(p: page, front: seq<Entry>, e: Entry, rest: seq<Entry>, vars: VarMap,
      conv: Conv)
    requires (forall i :: 0 <= i < |front| ==> Sendable(front[i], vars)) && !Sendable(e, vars)
    ensures (var v := vars[e.name]; var at := v.bitOffset / 8;
             Encode(p, front + ([e] + rest), vars, conv) ==
               if at >= 1400 || at + SizeOf(v.typ) >= 1400 then OutOfBounds else Raised)
    decreases |front|
  {
    hide Put, WordFor, Sendable;
    var entries := front + ([e] + rest);
    if front == [] {
      assert entries == [e] + rest;
      FailureHere(p, e, vars, conv);
    } else {
      assert entries[0] == front[0] && entries[1..] == front[1..] + ([e] + rest);
      SendableIs(front[0], vars, conv);
      FirstFailure(Step(p, front[0], vars, conv).data, front[1..], e, rest, vars, conv);
    }
  }

  lemma FailureHere(p: page, e: Entry, vars: VarMap, conv: Conv)
    requires !Sendable(e, vars)
    ensures (var v := vars[e.name]; var at := v.bitOffset / 8;
             Step(p, e, vars, conv) == if at >= 1400 || at + SizeOf(v.typ) >= 1400 then OutOfBounds else Raised)
  {
    hide Put, WordFor;
    if Stored(vars[e.name].typ) { Converts(vars[e.name].typ, e.value, conv); }
  }

  /** The value sent for a name is that of its entry. */
  lemma {:induction false} SentIs(entries: seq<Entry>, i: nat)
    requires Distinct(entries) && i < |entries|
    ensures (var j := entries[i].value; Sent(entries, entries[i].name) == if j.Text? || j.Composite? then Text else j)
    decreases i
  {
    if i == 0 {
    } else {
      assert entries[0].name != entries[i].name;
      SentIs(entries[1..], i - 1);
    }
  }
}
