/**
  The EGD payload codec: typed variables are stored into a fixed page by Publish and read back by the subscription
  callback. Floating-point bit patterns are opaque words.
*/
module EgdCodec {
  import opened Basics
  import opened Bytes
  import Integers

  const PAYLOAD: nat := 1400

  datatype Type =
    BOOL | REAL | LREAL | SINT | INT | DINT | LINT | USINT | UINT | UDINT | ULINT | BYTE | WORD | DWORD
    | DT | TIME | STRING | UNDEFINED

  /** `EgdTypeNameMap`: the size of each type in bits. */
  function Bits(t: Type): int {
    match t
    case BOOL => 1
    case SINT => 8 case USINT => 8 case BYTE => 8
    case INT => 16 case UINT => 16 case WORD => 16
    case DINT => 32 case UDINT => 32 case DWORD => 32 case REAL => 32
    case LINT => 64 case ULINT => 64 case LREAL => 64
    case DT => 0 case TIME => 0 case STRING => 0
    case UNDEFINED => -1
  }

  /** C division of a bit count by eight. */
  function WholeBytes(t: Type): nat {
    if Bits(t) < 0 then 0 else Bits(t) / 8
  }

  /** Types the codec stores at all. */
  predicate Stored(t: Type) {
    t != DT && t != TIME && t != STRING && t != UNDEFINED
  }

  predicate IsSigned(t: Type) {
    t == SINT || t == INT || t == DINT || t == LINT
  }

  datatype VarInfo = VarInfo(bitOffset: nat, typ: Type)

  function ByteOf(v: VarInfo): nat {
    v.bitOffset / 8
  }

  function BitOf(v: VarInfo): nat {
    v.bitOffset % 8
  }

  type VarMap = map<string, VarInfo>

  /** A JSON value: the number kinds, and what Publish passes over. */
  datatype Json = Null | Bool(b: bool) | Int(i: int) | Float(bits: nat) | Text | Composite

  /** The floating-point conversions of the JSON library and the language. */
  datatype Conv = Conv(single: Json -> nat, double: Json -> nat, whole: nat -> int)

  function Pow256(n: nat): nat {
    if n == 0 then 1 else 256 * Pow256(n - 1)
  }

  /** `get<T>` for an integer type of n bytes, as the stored word; booleans convert unless T is a 64-bit type. */
  function Word(j: Json, n: nat, conv: Conv): (r: int)
    requires 1 <= n <= 8
    ensures -1 <= r < Pow256(n)
  {
    Positive(n);
    match j
    case Int(i) => i % Pow256(n)
    case Float(d) => conv.whole(d) % Pow256(n)
    case Bool(b) => if n == 8 then -1 else if b then 1 else 0
    case _ => -1
  }

  lemma Positive(n: nat)
    ensures Pow256(n) >= 1 && (n > 0 ==> Pow256(n) >= 256)
  {}

  /** The word stored for a value, or -1 when the JSON library refuses the conversion. */
  function WordFor(t: Type, j: Json, conv: Conv): int
    requires Stored(t)
  {
    if t == BOOL then
      if j.Bool? then if j.b then 1 else 0
      else
        var w := Word(j, 1, conv);
        if w < 0 then -1 else if w != 0 then 1 else 0
    else if t == REAL then if j.Bool? || j.Int? || j.Float? then conv.single(j) % Pow256(4) else -1
    else if t == LREAL then if j.Int? || j.Float? then conv.double(j) % Pow256(8) else -1
    else Word(j, WholeBytes(t), conv)
  }

  // ----- words in the payload

  function LittleEndian(w: nat, n: nat): (r: seq<byte>)
    ensures |r| == n
  {
    if n == 0 then [] else [w % 256] + LittleEndian(w / 256, n - 1)
  }

  function FromLittleEndian(s: seq<byte>): (w: nat)
    ensures w < Pow256(|s|)
  {
    if s == [] then 0
    else
      assert FromLittleEndian(s[1..]) <= Pow256(|s| - 1) - 1;
      s[0] + 256 * FromLittleEndian(s[1..])
  }

  lemma {:induction false} LittleEndianBack(w: nat, n: nat)
    requires w < Pow256(n)
    ensures FromLittleEndian(LittleEndian(w, n)) == w
    decreases n
  {
    if n == 0 {
    } else {
      LittleEndianBack(w / 256, n - 1);
      assert LittleEndian(w, n)[1..] == LittleEndian(w / 256, n - 1);
    }
  }

  lemma {:induction false} ZeroBytes(s: seq<byte>)
    requires forall i :: 0 <= i < |s| ==> s[i] == 0
    ensures FromLittleEndian(s) == 0
    decreases |s|
  {
    if s == [] {
    } else {
      ZeroBytes(s[1..]);
    }
  }

  /** Bit b of a number. */
  predicate BitSet(x: nat, b: nat) {
    if b == 0 then x % 2 == 1 else BitSet(x / 2, b - 1)
  }

  /** Bitwise or with a one at position b. */
  function WithBit(x: nat, b: nat): (r: nat)
    ensures BitSet(r, b)
  {
    if b == 0 then x / 2 * 2 + 1 else 2 * WithBit(x / 2, b - 1) + x % 2
  }

  lemma {:induction false} WithBitFits(x: nat, b: nat, n: nat)
    requires b < n && x < Pow2(n)
    ensures WithBit(x, b) < Pow2(n)
    decreases n
  {
    var half := Pow2(n - 1);
    assert Pow2(n) == 2 * half && x / 2 < half;
    if b == 0 {
    } else {
      WithBitFits(x / 2, b - 1, n - 1);
      assert WithBit(x, b) == 2 * WithBit(x / 2, b - 1) + x % 2;
    }
  }

  /** `x |= (val << b) & (0x01 << b)`. */
  function OrBit(x: byte, b: nat, val: bool): (r: byte)
    requires b < 8
    ensures BitSet(r, b) == (BitSet(x, b) || val)
  {
    assert Pow2(8) == 256;
    WithBitFits(x, b, 8);
    if val then WithBit(x, b) else x
  }

  lemma {:induction false} OtherBits(x: nat, b: nat, c: nat)
    requires b != c
    ensures BitSet(WithBit(x, b), c) == BitSet(x, c)
    decreases b
  {
    var r := WithBit(x, b);
    if b == 0 {
      assert r / 2 == x / 2;
    } else {
      assert r / 2 == WithBit(x / 2, b - 1) && r % 2 == x % 2;
      if c > 0 { OtherBits(x / 2, b - 1, c - 1); }
    }
  }

  lemma {:induction false} ZeroBits(b: nat)
    ensures !BitSet(0, b)
    decreases b
  {
    if b == 0 {
    } else {
      ZeroBits(b - 1);
    }
  }

  // ----- one variable

  type page = s: seq<byte> | |s| == PAYLOAD witness seq(PAYLOAD, i => 0)

  /** The bytes of v lie inside the payload. */
  predicate Fits(v: VarInfo) {
    ByteOf(v) + (if v.typ == BOOL then 1 else WholeBytes(v.typ)) <= PAYLOAD
  }

  /** The bounds check of Publish. */
  predicate Refused(v: VarInfo) {
    ByteOf(v) >= PAYLOAD || ByteOf(v) + WholeBytes(v.typ) >= PAYLOAD
  }

  /** The check keeps every write inside, and refuses besides exactly the variables that end with the last byte. */
  lemma RefusedExactly(v: VarInfo)
    ensures !Refused(v) ==> Fits(v)
    ensures Fits(v) && Refused(v) <==> v.typ != BOOL && ByteOf(v) + WholeBytes(v.typ) == PAYLOAD
  {}

  function Put(p: page, v: VarInfo, w: nat): page
    requires Stored(v.typ) && Fits(v)
  {
    var b := ByteOf(v);
    if v.typ == BOOL then p[b := OrBit(p[b], BitOf(v), w == 1)]
    else
      var n := WholeBytes(v.typ);
      p[..b] + LittleEndian(w, n) + p[b + n..]
  }

  datatype Value = Boolean(b: bool) | Whole(i: int) | Single(w: nat) | Double(w: nat)

  /** A stored word as the value the callback reports. */
  function Interpret(t: Type, w: nat): Value {
    if t == BOOL then Boolean(w == 1)
    else if t == REAL then Single(w)
    else if t == LREAL then Double(w)
    else if IsSigned(t) && w >= Pow256(WholeBytes(t)) / 2 then Whole(w - Pow256(WholeBytes(t)))
    else Whole(w)
  }

  function Get(p: page, v: VarInfo): Value
    requires Stored(v.typ) && Fits(v)
  {
    var b := ByteOf(v);
    if v.typ == BOOL then Boolean(BitSet(p[b], BitOf(v)))
    else Interpret(v.typ, FromLittleEndian(p[b..b + WholeBytes(v.typ)]))
  }

  /** Bit k of the page belongs to v. */
  predicate Touches(v: VarInfo, k: int) {
    if v.typ == BOOL then k == v.bitOffset
    else 8 * ByteOf(v) <= k < 8 * (ByteOf(v) + WholeBytes(v.typ))
  }

  ghost predicate Disjoint(v: VarInfo, w: VarInfo) {
    forall k :: !(Touches(v, k) && Touches(w, k))
  }

  lemma PutGet(p: page, v: VarInfo, w: nat)
    requires Stored(v.typ) && Fits(v)
    requires if v.typ == BOOL then w <= 1 && !BitSet(p[ByteOf(v)], BitOf(v)) else w < Pow256(WholeBytes(v.typ))
    ensures Get(Put(p, v, w), v) == Interpret(v.typ, w)
  {
    if v.typ != BOOL {
      var b, n := ByteOf(v), WholeBytes(v.typ);
      assert Put(p, v, w)[b..b + n] == LittleEndian(w, n);
      LittleEndianBack(w, n);
    }
  }

  lemma OtherSlice(p: seq<byte>, b: nat, s: seq<byte>, c: nat, m: nat)
    requires b + |s| <= |p| && c + m <= |p| && (c + m <= b || b + |s| <= c)
    ensures (p[..b] + s + p[b + |s|..])[c..c + m] == p[c..c + m]
  {
    var q := p[..b] + s + p[b + |s|..];
    assert forall i :: c <= i < c + m ==> q[i] == p[i];
  }

  lemma OtherByte(p: seq<byte>, b: nat, x: byte, c: nat, m: nat)
    requires b < |p| && c + m <= |p| && (c + m <= b || b < c)
    ensures p[b := x][c..c + m] == p[c..c + m]
  {}

  /** Variables that share no bit share no byte, unless both are truth values. */
  lemma BytesApart(v: VarInfo, o: VarInfo)
    requires Stored(v.typ) && Stored(o.typ) && Disjoint(v, o)
    ensures (var b, c, n, m := ByteOf(v), ByteOf(o), WholeBytes(v.typ), WholeBytes(o.typ);
             && (v.typ == BOOL && o.typ == BOOL ==> b != c || BitOf(v) != BitOf(o))
             && (v.typ == BOOL && o.typ != BOOL ==> c + m <= b || b < c)
             && (v.typ != BOOL && o.typ == BOOL ==> c < b || b + n <= c)
             && (v.typ != BOOL && o.typ != BOOL ==> c + m <= b || b + n <= c))
  {
    var b, c := ByteOf(v), ByteOf(o);
    assert !(Touches(v, v.bitOffset) && Touches(o, v.bitOffset));
    assert !(Touches(v, o.bitOffset) && Touches(o, o.bitOffset));
    assert !(Touches(v, 8 * b) && Touches(o, 8 * b));
    assert !(Touches(v, 8 * c) && Touches(o, 8 * c));
  }

  /** Storing one variable leaves every other variable as it was. */
  lemma PutOther(p: page, v: VarInfo, w: nat, o: VarInfo)
    requires Stored(v.typ) && Fits(v) && Stored(o.typ) && Fits(o) && Disjoint(v, o)
    ensures Get(Put(p, v, w), o) == Get(p, o)
  {
    hide Disjoint, Touches, BitSet, FromLittleEndian, LittleEndian;
    BytesApart(v, o);
    var b, c, n, m := ByteOf(v), ByteOf(o), WholeBytes(v.typ), WholeBytes(o.typ);
    if v.typ == BOOL && o.typ == BOOL {
      if b == c { OtherBits(p[b], BitOf(v), BitOf(o)); }
    } else if v.typ == BOOL {
      OtherByte(p, b, OrBit(p[b], BitOf(v), w == 1), c, m);
    } else if o.typ == BOOL {
      OtherSlice(p, b, LittleEndian(w, n), c, 1);
      assert Put(p, v, w)[c] == Put(p, v, w)[c..c + 1][0] == p[c..c + 1][0];
    } else {
      OtherSlice(p, b, LittleEndian(w, n), c, m);
    }
  }

  lemma Blank(v: VarInfo)
    requires Stored(v.typ) && Fits(v)
    ensures Get(seq(PAYLOAD, i => 0), v) == Interpret(v.typ, 0)
  {
    ZeroBits(BitOf(v));
    ZeroBytes(seq(PAYLOAD, i => 0)[ByteOf(v)..ByteOf(v) + WholeBytes(v.typ)]);
  }

  // ----- Publish

  datatype Entry = Entry(name: string, value: Json)

  datatype Outcome = Page(data: page) | OutOfBounds | Raised

  /** Objects, arrays and strings are passed over. */
  predicate Simple(j: Json) {
    !j.Text? && !j.Composite?
  }

  /** What one JSON entry does to the payload. */
  function Step(p: page, e: Entry, vars: VarMap, conv: Conv): Outcome {
    if !Simple(e.value) || e.name !in vars then Page(p)
    else
      var v := vars[e.name];
      if Refused(v) then OutOfBounds
      else if !Stored(v.typ) then Page(p)
      else
        RefusedExactly(v);
        var w := WordFor(v.typ, e.value, conv);
        if w < 0 then Raised else Page(Put(p, v, w))
  }

  function Encode(p: page, entries: seq<Entry>, vars: VarMap, conv: Conv): Outcome
    decreases |entries|
  {
    if entries == [] then Page(p)
    else
      match Step(p, entries[0], vars, conv)
      case Page(q) => Encode(q, entries[1..], vars, conv)
      case OutOfBounds => OutOfBounds
      case Raised => Raised
  }

  /** The unaligned little-endian stores of Publish. */
  method StoreLe(data: array<byte>, b: nat, w: nat, n: nat)
    requires b + n <= data.Length
    modifies data
    ensures data[..] == old(data[..])[..b] + LittleEndian(w, n) + old(data[..])[b + n..]
  {
    var i, rest := 0, w;
    ghost var bytes := LittleEndian(w, n);
    while i < n
      invariant 0 <= i <= n && LittleEndian(rest, n - i) == bytes[i..]
      invariant forall k :: b <= k < b + i ==> data[k] == bytes[k - b]
      invariant forall k :: (0 <= k < b || b + i <= k < data.Length) ==> data[k] == old(data[k])
    {
      assert bytes[i] == bytes[i..][0] && bytes[i + 1..] == bytes[i..][1..];
      data[b + i] := rest % 256;
      i, rest := i + 1, rest / 256;
    }
    hide LittleEndian;
    Assembled(data[..], old(data[..]), b, bytes);
  }

  lemma Assembled(a: seq<byte>, was: seq<byte>, b: nat, bytes: seq<byte>)
    requires |a| == |was| && b + |bytes| <= |a|
    requires forall k :: b <= k < b + |bytes| ==> a[k] == bytes[k - b]
    requires forall k :: (0 <= k < b || b + |bytes| <= k < |a|) ==> a[k] == was[k]
    ensures a == was[..b] + bytes + was[b + |bytes|..]
  {}

  /** The switch of Publish: each type stored at its own width. */
  method StoreValue(data: array<byte>, v: VarInfo, j: Json, conv: Conv) returns (raised: bool)
    requires data.Length == PAYLOAD && !Refused(v) && Simple(j)
    modifies data
    ensures raised <==> Stored(v.typ) && WordFor(v.typ, j, conv) < 0
    ensures raised || !Stored(v.typ) ==> data[..] == old(data[..])
    ensures !raised && Stored(v.typ) ==> Fits(v) && data[..] == Put(old(data[..]), v, WordFor(v.typ, j, conv))
  {
    hide LittleEndian, Word, WordFor, OrBit;
    RefusedExactly(v);
    raised := false;
    if !Stored(v.typ) { return; }
    var byteOffset, bitOffset := v.bitOffset / 8, v.bitOffset % 8;
    var w := WordFor(v.typ, j, conv);
    if w < 0 { return true; }
    match v.typ {
      case BOOL => data[byteOffset] := OrBit(data[byteOffset], bitOffset, w == 1);
      case REAL => StoreLe(data, byteOffset, w, 4);
      case LREAL => StoreLe(data, byteOffset, w, 8);
      case SINT => StoreLe(data, byteOffset, w, 1);
      case INT => StoreLe(data, byteOffset, w, 2);
      case DINT => StoreLe(data, byteOffset, w, 4);
      case LINT => StoreLe(data, byteOffset, w, 8);
      case BYTE => StoreLe(data, byteOffset, w, 1);
      case USINT => StoreLe(data, byteOffset, w, 1);
      case WORD => StoreLe(data, byteOffset, w, 2);
      case UINT => StoreLe(data, byteOffset, w, 2);
      case DWORD => StoreLe(data, byteOffset, w, 4);
      case UDINT => StoreLe(data, byteOffset, w, 4);
      case ULINT => StoreLe(data, byteOffset, w, 8);
    }
  }

  /** The encode loop of `JsonClient::Publish`: a zeroed page, then one entry after the other. */
  method Publish(entries: seq<Entry>, vars: VarMap, conv: Conv) returns (r: Outcome)
    ensures r == Encode(seq(PAYLOAD, i => 0), entries, vars, conv)
  {
    var data := new byte[PAYLOAD](i => 0);
    ghost var blank: page := seq(PAYLOAD, i => 0);
    assert data[..] == blank;
    assert entries[0..] == entries;
    hide Put, WordFor;
    for k := 0 to |entries|
      invariant Encode(blank, entries, vars, conv) == Encode(data[..], entries[k..], vars, conv)
    {
      var e := entries[k];
      EncodeStep(data[..], entries, k, vars, conv);
      if e.value.Composite? || e.value.Text? { continue; }
      if e.name !in vars { continue; }
      var v := vars[e.name];
      var byteOffset := v.bitOffset / 8;
      if byteOffset >= PAYLOAD || byteOffset + WholeBytes(v.typ) >= PAYLOAD { return OutOfBounds; }
      var raised := StoreValue(data, v, e.value, conv);
      if raised { return Raised; }
    }
    return Page(data[..]);
  }

  lemma EncodeStep(p: page, entries: seq<Entry>, k: nat, vars: VarMap, conv: Conv)
    requires k < |entries|
    ensures (var s := Step(p, entries[k], vars, conv);
             Encode(p, entries[k..], vars, conv) == if s.Page? then Encode(s.data, entries[k + 1..], vars, conv) else s)
  {
    assert entries[k..][1..] == entries[k + 1..];
  }

  // ----- the callback

  /** What the callback reports: every stored variable of the page. */
  function Decoded(vars: VarMap, data: seq<byte>): map<string, Value>
    requires |data| == PAYLOAD && forall n :: n in vars && Stored(vars[n].typ) ==> Fits(vars[n])
  {
    Reported(vars, data, vars.Keys)
  }

  function Reported(vars: VarMap, data: seq<byte>, names: set<string>): map<string, Value>
    requires |data| == PAYLOAD && forall n :: n in vars && Stored(vars[n].typ) ==> Fits(vars[n])
  {
    map n | n in vars && n in names && Stored(vars[n].typ) :: Get(data, vars[n])
  }

  /**
    The decode loop of `JsonClient::JsonProxyCallback`: `received` bytes of the buffer came in; a payload shorter than
    the page says is ignored.
  */
  method JsonProxyCallback(vars: VarMap, pageLength: nat, data: page, received: nat)
        returns (r: Option<map<string, Value>>)
    requires forall n :: n in vars && Stored(vars[n].typ) ==> Fits(vars[n])
    ensures r == if received < pageLength then None else Some(Decoded(vars, data))
  {
    if received < pageLength { return None; }
    var names, message: map<string, Value> := vars.Keys, map[];
    hide Get;
    while names != {}
      invariant names <= vars.Keys && message == Reported(vars, data, vars.Keys - names)
      decreases names
    {
      var name :| name in names;
      ghost var seen := vars.Keys - names;
      names := names - {name};
      assert vars.Keys - names == seen + {name};
      if Stored(vars[name].typ) {
        var value := ReadValue(data, vars[name]);
        message := message[name := value];
      }
    }
    assert vars.Keys - names == vars.Keys;
    r := Some(message);
  }

  /** The switch of the callback. */
  method ReadValue(data: page, v: VarInfo) returns (r: Value)
    requires Stored(v.typ) && Fits(v)
    ensures r == Get(data, v)
  {
    hide FromLittleEndian;
    var b := v.bitOffset / 8;
    match v.typ {
      case BOOL => r := Boolean(BitSet(data[b], v.bitOffset % 8));
      case REAL => r := Single(FromLittleEndian(data[b..b + 4]));
      case LREAL => r := Double(FromLittleEndian(data[b..b + 8]));
      case SINT => r := Whole(AsSigned(FromLittleEndian(data[b..b + 1]), 1));
      case INT => r := Whole(AsSigned(FromLittleEndian(data[b..b + 2]), 2));
      case DINT => r := Whole(AsSigned(FromLittleEndian(data[b..b + 4]), 4));
      case LINT => r := Whole(AsSigned(FromLittleEndian(data[b..b + 8]), 8));
      case BYTE => r := Whole(FromLittleEndian(data[b..b + 1]));
      case USINT => r := Whole(FromLittleEndian(data[b..b + 1]));
      case WORD => r := Whole(FromLittleEndian(data[b..b + 2]));
      case UINT => r := Whole(FromLittleEndian(data[b..b + 2]));
      case DWORD => r := Whole(FromLittleEndian(data[b..b + 4]));
      case UDINT => r := Whole(FromLittleEndian(data[b..b + 4]));
      case ULINT => r := Whole(FromLittleEndian(data[b..b + 8]));
    }
  }

  /** `static_cast` of a word of n bytes to the signed type. */
  function AsSigned(w: nat, n: nat): int {
    if w >= Pow256(n) / 2 then w - Pow256(n) else w
  }

  // ----- round trip

  /** A page whose stored variables lie inside the payload and share no bit. */
  ghost predicate Layout(vars: VarMap) {
    && (forall n :: n in vars && Stored(vars[n].typ) ==> Fits(vars[n]))
    && (forall n, m :: n in vars && m in vars && n != m && Stored(vars[n].typ) && Stored(vars[m].typ)
                       ==> Disjoint(vars[n], vars[m]))
  }

  /** The names in a JSON object are distinct. */
  predicate Distinct(entries: seq<Entry>) {
    forall i, j :: 0 <= i < j < |entries| ==> entries[i].name != entries[j].name
  }

  /** The value sent for a name, Text standing for nothing that could be stored. */
  function Sent(entries: seq<Entry>, name: string): Json {
    if entries == [] then Text
    else if entries[0].name == name then if Simple(entries[0].value) then entries[0].value else Text
    else Sent(entries[1..], name)
  }

  /** What the callback should report for a variable. */
  function Expected(t: Type, j: Json, conv: Conv): Value
    requires Stored(t)
  {
    var w := WordFor(t, j, conv);
    if Simple(j) && w >= 0 then Interpret(t, w) else Interpret(t, 0)
  }

  lemma {:induction false} NotSent(entries: seq<Entry>, name: string)
    requires forall i :: 0 <= i < |entries| ==> entries[i].name != name
    ensures Sent(entries, name) == Text
    decreases |entries|
  {
    if entries == [] {
    } else {
      NotSent(entries[1..], name);
    }
  }

  lemma WordBounds(t: Type, j: Json, conv: Conv)
    requires Stored(t) && WordFor(t, j, conv) >= 0
    ensures if t == BOOL then WordFor(t, j, conv) <= 1 else WordFor(t, j, conv) < Pow256(WholeBytes(t))
  {
    Positive(4);
    Positive(8);
  }

  /**
    From a page where the bit or bytes of n are still unwritten, encoding leaves n with the value sent or as it was.
  */
  lemma {:induction false} EncodedAt(p: page, entries: seq<Entry>, vars: VarMap, conv: Conv, n: string)
    requires Layout(vars) && Distinct(entries) && n in vars && Stored(vars[n].typ) &&
      Encode(p, entries, vars, conv).Page?
    requires Get(p, vars[n]) == Interpret(vars[n].typ, 0)
    ensures Get(Encode(p, entries, vars, conv).data, vars[n]) == Expected(vars[n].typ, Sent(entries, n), conv)
    decreases |entries|
  {
    if entries == [] {
    } else {
      var e, rest := entries[0], entries[1..];
      var q := Step(p, e, vars, conv).data;
      hide Put, Get, Interpret, WordFor, Encode;
      EncodeStep(p, entries, 0, vars, conv);
      assert entries[0..] == entries;
      if e.name == n {
        OwnStep(p, e, vars, conv);
        NotSent(rest, n);
        EncodedSkip(q, rest, vars, conv, n);
      } else {
        OtherStep(p, e, vars, conv, n);
        EncodedAt(q, rest, vars, conv, n);
      }
    }
  }

  /** Entries for other names do not change n. */
  lemma {:induction false} EncodedSkip(p: page, entries: seq<Entry>, vars: VarMap, conv: Conv, n: string)
    requires Layout(vars) && n in vars && Stored(vars[n].typ) && Encode(p, entries, vars, conv).Page?
    requires forall i :: 0 <= i < |entries| ==> entries[i].name != n
    ensures Get(Encode(p, entries, vars, conv).data, vars[n]) == Get(p, vars[n])
    decreases |entries|
  {
    if entries == [] {
    } else {
      hide Put, Get;
      OtherStep(p, entries[0], vars, conv, n);
      EncodedSkip(Step(p, entries[0], vars, conv).data, entries[1..], vars, conv, n);
    }
  }

  lemma OtherStep(p: page, e: Entry, vars: VarMap, conv: Conv, n: string)
    requires Layout(vars) && n in vars && Stored(vars[n].typ) && e.name != n && Step(p, e, vars, conv).Page?
    ensures Get(Step(p, e, vars, conv).data, vars[n]) == Get(p, vars[n])
  {
    hide Put, Get, WordFor, Disjoint;
    if Simple(e.value) && e.name in vars && Stored(vars[e.name].typ) {
      RefusedExactly(vars[e.name]);
      PutOther(p, vars[e.name], WordFor(vars[e.name].typ, e.value, conv), vars[n]);
    }
  }

  lemma OwnStep(p: page, e: Entry, vars: VarMap, conv: Conv)
    requires Layout(vars) && e.name in vars && Stored(vars[e.name].typ) && Step(p, e, vars, conv).Page?
    requires Get(p, vars[e.name]) == Interpret(vars[e.name].typ, 0)
    ensures (var v := vars[e.name]; var j := if Simple(e.value) then e.value else Text;
             Get(Step(p, e, vars, conv).data, v) == Expected(v.typ, j, conv))
  {
    var v := vars[e.name];
    if Simple(e.value) {
      WordBounds(v.typ, e.value, conv);
      PutGet(p, v, WordFor(v.typ, e.value, conv));
    }
  }

  /** Decoding what Publish encoded: the value sent for each variable sent, zero or false for the others. */
  lemma EncodeThenDecode(entries: seq<Entry>, vars: VarMap, conv: Conv)
    requires Layout(vars) && Distinct(entries) && Encode(seq(PAYLOAD, i => 0), entries, vars, conv).Page?
    ensures (var data := Encode(seq(PAYLOAD, i => 0), entries, vars, conv).data;
             Decoded(vars, data) == map n | n in vars &&
               Stored(vars[n].typ) :: Expected(vars[n].typ, Sent(entries, n), conv))
  {
    forall n | n in vars && Stored(vars[n].typ)
      ensures Get(Encode(seq(PAYLOAD, i => 0), entries, vars, conv).data, vars[n])
           == Expected(vars[n].typ, Sent(entries, n), conv)
    {
      Blank(vars[n]);
      EncodedAt(seq(PAYLOAD, i => 0), entries, vars, conv, n);
    }
  }

  /** The values of each integer type. */
  predicate InRange(t: Type, i: int) {
    var m := Pow256(WholeBytes(t));
    if IsSigned(t) then -(m / 2) <= i < m / 2 else 0 <= i < m
  }

  /** An integer in the range of its type is reported as it was sent; so is a truth value sent to a BOOL. */
  lemma InRangeSurvives(t: Type, i: int, b: bool, conv: Conv)
    requires Stored(t)
    ensures t != BOOL && t != REAL && t != LREAL && InRange(t, i) ==> Expected(t, Int(i), conv) == Whole(i)
    ensures t == BOOL ==> Expected(t, Bool(b), conv) == Boolean(b)
  {
    if t != BOOL && t != REAL && t != LREAL && InRange(t, i) {
      var n := WholeBytes(t);
      Wrapped(n, i);
      hide Pow256;
      assert WordFor(t, Int(i), conv) == i % Pow256(n);
    }
  }

  lemma Wrapped(n: nat, i: int)
    requires n >= 1 && -(Pow256(n) / 2) <= i < Pow256(n)
    ensures Pow256(n) > 0 && i % Pow256(n) == if i < 0 then i + Pow256(n) else i
    ensures i < 0 ==> i + Pow256(n) >= Pow256(n) / 2
  {
    var m := Pow256(n);
    assert m == 2 * (128 * Pow256(n - 1));
    Positive(n);
    if i < 0 {
      Integers.Remainder(i, m, -1, i + m);
    } else {
      Integers.Below(i, m);
    }
  }

  /** When Publish succeeds. */
  lemma {:induction false} PublishSucceeds(p: page, entries: seq<Entry>, vars: VarMap, conv: Conv)
    ensures Encode(p, entries, vars, conv).Page? <==>
      forall i :: 0 <= i < |entries| ==> Acceptable(entries[i], vars, conv)
    decreases |entries|
  {
    if entries == [] {
    } else {
      hide Put, WordFor;
      assert Step(p, entries[0], vars, conv).Page? <==> Acceptable(entries[0], vars, conv);
      if Step(p, entries[0], vars, conv).Page? {
        PublishSucceeds(Step(p, entries[0], vars, conv).data, entries[1..], vars, conv);
      }
      assert entries == [entries[0]] + entries[1..];
    }
  }

  /** A BYTE at the last byte of the payload fits, and a message with a value for it is refused as a whole. */
  lemma LastByteRefused(name: string, conv: Conv)
    ensures Fits(VarInfo(8 * 1399, BYTE)) && Refused(VarInfo(8 * 1399, BYTE))
    ensures Encode(seq(PAYLOAD, i => 0), [Entry(name, Int(1))], map[name := VarInfo(8 * 1399, BYTE)], conv) ==
      OutOfBounds
  {}

  /** The variable does not reach the last byte, unless a BOOL, and the JSON value converts to its type. */
  predicate Acceptable(e: Entry, vars: VarMap, conv: Conv) {
    Simple(e.value) && e.name in vars ==>
      var v := vars[e.name];
      !Refused(v) && (Stored(v.typ) ==> WordFor(v.typ, e.value, conv) >= 0)
  }
}
