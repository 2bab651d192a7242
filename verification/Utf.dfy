/** UTF-8 and UTF-16 decoders, the counting and writing traits they drive, and conversion in two passes. */
module Utf {
  import opened Bytes

  type low = x: int | 0 <= x < 0x10000

  type high = x: int | 0 <= x < 0x200000

  /** One decoded character; High is what a four-byte sequence or a surrogate pair yields. */
  datatype Point = Low(lo: low) | High(hi: high)

  type points = seq<Point>

  datatype Format = Utf8 | Utf16 | Utf32 | Latin1

  /** `utf8_writer`, `utf16_writer`, `utf32_writer` and `latin1_writer`: the units written for one character. */
  function Written(f: Format, p: Point): (r: seq<int>)
    ensures f.Utf8? || f.Latin1? ==> forall i :: 0 <= i < |r| ==> 0 <= r[i] < 256
    ensures f.Utf16? ==> forall i :: 0 <= i < |r| ==> 0 <= r[i] < 65536
    ensures f.Utf32? ==> forall i :: 0 <= i < |r| ==> 0 <= r[i] < 0x200000
    ensures 1 <= |r| <= 4 && (f.Utf32? || f.Latin1? ==> |r| == 1) && (f.Utf16? ==> |r| == if p.Low? then 1 else 2)
  {
    match f
    case Utf8 => (
      match p
      case Low(ch) =>
        if ch < 0x80 then [ch]
        else if ch < 0x800 then [0xC0 + ch / 64, 0x80 + ch % 64]
        else [0xE0 + ch / 4096, 0x80 + ch / 64 % 64, 0x80 + ch % 64]
      case High(ch) => [0xF0 + ch / 262144, 0x80 + ch / 4096 % 64, 0x80 + ch / 64 % 64, 0x80 + ch % 64])
    case Utf16 => (
      match p
      case Low(ch) => [ch]
      case High(ch) =>
        var v := (ch - 0x10000) % 0x1_0000_0000;
        [(0xD800 + v / 1024) % 65536, 0xDC00 + v % 1024])
    case Utf32 => (match p case Low(ch) => [ch] case High(ch) => [ch])
    case Latin1 => (match p case Low(ch) => [if ch > 255 then '?' as int else ch] case High(_) => ['?' as int])
  }

  /** `utf8_counter`, `utf16_counter` and `utf32_counter`. */
  function Counted(f: Format, p: Point): nat
    requires f != Latin1
  {
    match f
    case Utf8 => (match p case Low(ch) => if ch < 0x80 then 1 else if ch < 0x800 then 2 else 3 case High(_) => 4)
    case Utf16 => if p.Low? then 1 else 2
    case Utf32 => 1
  }

  /** The units written for a whole text. */
  function Encode(f: Format, ps: points): (r: seq<int>)
    ensures f.Utf8? || f.Latin1? ==> forall i :: 0 <= i < |r| ==> 0 <= r[i] < 256
    ensures f.Utf16? ==> forall i :: 0 <= i < |r| ==> 0 <= r[i] < 65536
    ensures f.Utf32? ==> forall i :: 0 <= i < |r| ==> 0 <= r[i] < 0x200000
  {
    if ps == [] then [] else Written(f, ps[0]) + Encode(f, ps[1..])
  }

  lemma {:induction false} EncodeConcat(f: Format, a: points, b: points)
    ensures Encode(f, a + b) == Encode(f, a) + Encode(f, b)
  {
    if a == [] {
      assert a + b == b;
    } else {
      assert (a + b)[0] == a[0] && (a + b)[1..] == a[1..] + b;
      EncodeConcat(f, a[1..], b);
    }
  }

  // ----- traits: what a decoder does with each character

  datatype Traits = Counter(cf: Format) | Writer(wf: Format)

  datatype Value = Count(n: nat) | Units(s: seq<int>)

  predicate Fits(t: Traits, v: Value) {
    match t case Counter(f) => f != Latin1 && v.Count? case Writer(_) => v.Units?
  }

  function Emit(t: Traits, v: Value, p: Point): (r: Value)
    requires Fits(t, v)
    ensures Fits(t, r)
  {
    match t
    case Counter(f) => Count(v.n + Counted(f, p))
    case Writer(f) => Units(v.s + Written(f, p))
  }

  function EmitAll(t: Traits, v: Value, ps: points): (r: Value)
    requires Fits(t, v)
    ensures Fits(t, r)
    decreases |ps|
  {
    if ps == [] then v else EmitAll(t, Emit(t, v, ps[0]), ps[1..])
  }

  /** The writing pass yields the encoding, and the counting pass its length. */
  lemma {:induction false} WriterEncodes(f: Format, s: seq<int>, ps: points)
    ensures EmitAll(Writer(f), Units(s), ps) == Units(s + Encode(f, ps))
    decreases |ps|
  {
    hide Written;
    if ps != [] {
      var w, rest := Written(f, ps[0]), Encode(f, ps[1..]);
      WriterEncodes(f, s + w, ps[1..]);
      assert s + w + rest == s + (w + rest);
    } else {
      assert s + [] == s;
    }
  }

  lemma {:induction false} CounterMeasures(f: Format, n: nat, ps: points)
    requires f != Latin1
    ensures EmitAll(Counter(f), Count(n), ps) == Count(n + |Encode(f, ps)|)
    decreases |ps|
  {
    hide Written, Counted;
    EncodeFirst(f, ps);
    if ps == [] {
    } else {
      CountedIs(f, ps[0]);
      CounterMeasures(f, n + Counted(f, ps[0]), ps[1..]);
    }
  }

  lemma CountedIs(f: Format, p: Point)
    requires f != Latin1
    ensures Counted(f, p) == |Written(f, p)|
  {}

  // ----- UTF-8

  predicate Cont(c: byte) {
    0x80 <= c < 0xC0
  }

  /** The low six bits of a continuation byte. */
  function Six(c: byte): (r: int)
    ensures 0 <= r < 64 && (Cont(c) ==> c == 0x80 + r)
  {
    c % 64
  }

  function Two(a: byte, b: byte): low
    requires 0xC0 <= a < 0xE0
  {
    var x: int := a;
    (x - 0xC0) * 64 + Six(b)
  }

  function Three(a: byte, b: byte, c: byte): low
    requires 0xE0 <= a < 0xF0
  {
    var x: int := a;
    (x - 0xE0) * 4096 + Six(b) * 64 + Six(c)
  }

  function Four(a: byte, b: byte, c: byte, d: byte): high
    requires 0xF0 <= a < 0xF8
  {
    var x: int := a;
    (x - 0xF0) * 262144 + Six(b) * 4096 + Six(c) * 64 + Six(d)
  }

  /** The next character of d, if its bytes form one, and how many bytes it takes; a malformed byte is skipped. */
  function Step8(d: bytes): (r: (nat, points))
    requires d != []
    ensures 1 <= r.0 <= |d| && r.0 <= 4 && |r.1| <= 1
  {
    var lead := d[0];
    if lead < 0x80 then (1, [Low(lead)])
    else if 0xC0 <= lead < 0xE0 && |d| >= 2 && Cont(d[1]) then (2, [Low(Two(lead, d[1]))])
    else if 0xE0 <= lead < 0xF0 && |d| >= 3 && Cont(d[1]) && Cont(d[2]) then
      (3, [Low(Three(lead, d[1], d[2]))])
    else if 0xF0 <= lead < 0xF8 && |d| >= 4 && Cont(d[1]) && Cont(d[2]) && Cont(d[3]) then
      (4, [High(Four(lead, d[1], d[2], d[3]))])
    else (1, [])
  }

  function Decode8(d: bytes): points
    decreases |d|
  {
    if d == [] then [] else Step8(d).1 + Decode8(d[Step8(d).0..])
  }

  /** `utf8_decoder::process`, with its four-at-a-time path for ASCII at aligned addresses. */
  method Process8(data: bytes, address: nat, t: Traits, v: Value) returns (r: Value)
    requires Fits(t, v)
    ensures Fits(t, r) && r == EmitAll(t, v, Decode8(data))
  {
    hide Decode8, EmitAll, Emit;
    r := v;
    var i := 0;
    assert data[0..] == data;
    while i < |data|
      invariant 0 <= i <= |data| && Fits(t, r)
      invariant EmitAll(t, v, Decode8(data)) == EmitAll(t, r, Decode8(data[i..]))
    {
      var lead := data[i];
      StepOver(data, i, t, r);
      if lead < 0x80 {
        r := Emit(t, r, Low(lead));
        i := i + 1;
        if (address + i) % 4 == 0 {
          while |data| - i >= 4 && data[i] < 0x80 && data[i + 1] < 0x80 && data[i + 2] < 0x80 && data[i + 3] < 0x80
            invariant 0 <= i <= |data| && Fits(t, r)
            invariant EmitAll(t, v, Decode8(data)) == EmitAll(t, r, Decode8(data[i..]))
          {
            AsciiBlock(data, i, t, r);
            r := Emit(t, r, Low(data[i]));
            r := Emit(t, r, Low(data[i + 1]));
            r := Emit(t, r, Low(data[i + 2]));
            r := Emit(t, r, Low(data[i + 3]));
            i := i + 4;
          }
        }
      } else if 0xC0 <= lead < 0xE0 && |data| - i >= 2 && Cont(data[i + 1]) {
        r := Emit(t, r, Low(Two(lead, data[i + 1])));
        i := i + 2;
      } else if 0xE0 <= lead < 0xF0 && |data| - i >= 3 && Cont(data[i + 1]) && Cont(data[i + 2]) {
        r := Emit(t, r, Low(Three(lead, data[i + 1], data[i + 2])));
        i := i + 3;
      } else if 0xF0 <= lead < 0xF8 && |data| - i >= 4 && Cont(data[i + 1]) && Cont(data[i + 2]) && Cont(data[i + 3]) {
        r := Emit(t, r, High(Four(lead, data[i + 1], data[i + 2], data[i + 3])));
        i := i + 4;
      } else {
        i := i + 1;
      }
    }
    assert data[i..] == [];
    NothingLeft(t, r);
  }

  lemma NothingLeft(t: Traits, v: Value)
    requires Fits(t, v)
    ensures EmitAll(t, v, Decode8([])) == v
  {}

  lemma StepOver(data: bytes, i: nat, t: Traits, v: Value)
    requires i < |data| && Fits(t, v)
    ensures (var s := Step8(data[i..]);
             EmitAll(t, v, Decode8(data[i..]))
             == EmitAll(t, if s.1 == [] then v else Emit(t, v, s.1[0]), Decode8(data[i + s.0..])))
  {
    var d := data[i..];
    var s := Step8(d);
    assert d[s.0..] == data[i + s.0..];
    if s.1 != [] {
      assert (s.1 + Decode8(d[s.0..]))[1..] == Decode8(d[s.0..]);
    } else {
      assert s.1 + Decode8(d[s.0..]) == Decode8(d[s.0..]);
    }
  }

  lemma AsciiBlock(data: bytes, i: nat, t: Traits, v: Value)
    requires i + 4 <= |data| && Fits(t, v) && forall k :: i <= k < i + 4 ==> data[k] < 0x80
    ensures EmitAll(t, v, Decode8(data[i..]))
            == EmitAll(t, Emit(t, Emit(t, Emit(t, Emit(t, v, Low(data[i])), Low(data[i + 1])), Low(data[i + 2])),
              Low(data[i + 3])),
                       Decode8(data[i + 4..]))
  {
    StepOver(data, i, t, v);
    var v1 := Emit(t, v, Low(data[i]));
    StepOver(data, i + 1, t, v1);
    var v2 := Emit(t, v1, Low(data[i + 1]));
    StepOver(data, i + 2, t, v2);
    StepOver(data, i + 3, t, Emit(t, v2, Low(data[i + 2])));
  }

  // ----- where UTF-8 may be cut

  /** How many bytes a sequence with this first byte wants. */
  function Wanted(lead: byte): nat {
    if 0xC0 <= lead < 0xE0 then 2 else if 0xE0 <= lead < 0xF0 then 3 else if 0xF0 <= lead < 0xF8 then 4 else 1
  }

  /** No sequence started in a wants bytes past its end. */
  predicate Closed(a: bytes) {
    forall i :: 0 <= i < |a| ==> i + Wanted(a[i]) <= |a|
  }

  /** Cutting between a and b separates no character. */
  predicate SafeCut(a: bytes, b: bytes) {
    b == [] || !Cont(b[0]) || Closed(a)
  }

  /** At a safe cut the two parts decode on their own to what they decode to together, malformed bytes included. */
  lemma {:induction false} DecodeSplit(a: bytes, b: bytes)
    requires SafeCut(a, b)
    ensures Decode8(a + b) == Decode8(a) + Decode8(b)
    decreases |a|
  {
    hide Step8, SafeCut;
    if b == [] {
      assert a + b == a;
    } else if a == [] {
      assert a + b == b;
    } else {
      SameStep(a, b);
      var n := Step8(a).0;
      assert (a + b)[n..] == a[n..] + b;
      DecodeSplit(a[n..], b);
    }
  }

  lemma SameStep(a: bytes, b: bytes)
    requires SafeCut(a, b) && a != [] && b != []
    ensures Step8(a + b) == Step8(a) && SafeCut(a[Step8(a).0..], b)
  {
    var d, n := a + b, Step8(a).0;
    assert d[0] == a[0] && Closed(a) ==> Wanted(a[0]) <= |a|;
    assert forall i :: 0 <= i < |a| ==> d[i] == a[i];
    assert d[|a|] == b[0];
    assert forall i :: 0 <= i < |a| - n ==> a[n..][i] == a[n + i];
  }

  /** The form of one written character: a lead byte that says how many bytes there are, then continuation bytes. */
  lemma WrittenForm(p: Point)
    ensures (var w := Written(Utf8, p);
             |w| == Wanted(w[0]) && !Cont(w[0]) && forall i :: 0 < i < |w| ==> Cont(w[i]))
  {}

  lemma EncodeFirst(f: Format, ps: points)
    ensures Encode(f, ps) == if ps == [] then [] else Written(f, ps[0]) + Encode(f, ps[1..])
  {}

  /** In a text of whole characters a safe cut falls between two characters. */
  lemma {:induction false} CutBetween(a: bytes, b: bytes, ps: points) returns (k: nat)
    requires SafeCut(a, b) && a + b == Encode(Utf8, ps)
    ensures k <= |ps| && a == Encode(Utf8, ps[..k]) && b == Encode(Utf8, ps[k..])
    decreases |ps|
  {
    hide Written, SafeCut, Encode;
    EncodeFirst(Utf8, ps);
    if a == [] {
      k := 0;
      EncodeFirst(Utf8, ps[..0]);
      assert ps[0..] == ps;
    } else {
      var w, rest := Written(Utf8, ps[0]), Encode(Utf8, ps[1..]);
      WrittenForm(ps[0]);
      AfterFirst(a, b, w, rest);
      var k' := CutBetween(a[|w|..], b, ps[1..]);
      k := k' + 1;
      assert ps[..k][1..] == ps[1..][..k'] && ps[k..] == ps[1..][k'..];
      EncodeFirst(Utf8, ps[..k]);
      assert a == w + a[|w|..];
    }
  }

  lemma NextByte(a: bytes, b: bytes, w: bytes, rest: bytes)
    ensures a + b == w + rest && |a| < |w| ==> b != [] && b[0] == w[|a|]
  {
    if a + b == w + rest && |a| < |w| {
      assert (a + b)[|a|] == (w + rest)[|a|] == w[|a|];
    }
  }

  /** A safe cut behind the start of a text does not fall inside its first character. */
  lemma AfterFirst(a: bytes, b: bytes, w: bytes, rest: bytes)
    requires SafeCut(a, b) && a != [] && a + b == w + rest
    requires w != [] && |w| == Wanted(w[0]) && forall i :: 0 < i < |w| ==> Cont(w[i])
    ensures |w| <= |a| && a[..|w|] == w && a[|w|..] + b == rest && SafeCut(a[|w|..], b)
  {
    assert forall i :: 0 <= i < |a| && i < |w| ==> a[i] == (a + b)[i] == w[i];
    NextByte(a, b, w, rest);
    assert (a + b)[|w|..] == a[|w|..] + b && (w + rest)[|w|..] == rest;
    assert forall i :: 0 <= i < |a| - |w| ==> a[|w|..][i] == a[|w| + i];
  }

  /** The output of one chunk is bounded by its length. */
  lemma {:induction false} UnitsBound(f: Format, d: bytes)
    requires f != Utf8
    ensures |Encode(f, Decode8(d))| <= |d|
    decreases |d|
  {
    if d == [] {
    } else {
      var s := Step8(d);
      UnitsBound(f, d[s.0..]);
      if s.1 != [] {
        assert (s.1 + Decode8(d[s.0..]))[1..] == Decode8(d[s.0..]);
      } else {
        assert s.1 + Decode8(d[s.0..]) == Decode8(d[s.0..]);
      }
    }
  }

  // ----- UTF-16

  type unit16 = x: int | 0 <= x < 65536

  function Swap16(u: unit16): (r: unit16) {
    u % 256 * 256 + u / 256
  }

  function Pair(lead: unit16, next: unit16): (r: high)
    ensures 0x10000 <= r < 0x110000
    ensures 0xD800 <= lead < 0xDC00 && 0xDC00 <= next < 0xE000 ==>
      r == 0x10000 + (lead - 0xD800) * 1024 + (next - 0xDC00)
  {
    var x: int, y: int := lead, next;
    0x10000 + x % 1024 * 1024 + y % 1024
  }

  function Step16(d: seq<unit16>): (r: (nat, points))
    requires d != []
    ensures 1 <= r.0 <= |d| && r.0 <= 2 && |r.1| <= 1
  {
    var lead := d[0];
    if lead < 0xD800 || 0xE000 <= lead then (1, [Low(lead)])
    else if lead < 0xDC00 && |d| >= 2 && 0xDC00 <= d[1] < 0xE000 then
      (2, [High(Pair(lead, d[1]))])
    else (1, [])
  }

  function Decode16(d: seq<unit16>): points
    decreases |d|
  {
    if d == [] then [] else Step16(d).1 + Decode16(d[Step16(d).0..])
  }

  function Swapped(swap: bool, d: seq<unit16>): (r: seq<unit16>)
    ensures |r| == |d| && forall i :: 0 <= i < |d| ==> r[i] == if swap then Swap16(d[i]) else d[i]
  {
    seq(|d|, i requires 0 <= i < |d| => if swap then Swap16(d[i]) else d[i])
  }

  /** `utf16_decoder::process`, swapping the bytes of each unit as it is read when asked to. */
  method Process16(swap: bool, data: seq<unit16>, t: Traits, v: Value) returns (r: Value)
    requires Fits(t, v)
    ensures Fits(t, r) && r == EmitAll(t, v, Decode16(Swapped(swap, data)))
  {
    hide Decode16, EmitAll, Emit, Swapped, Swap16, Pair;
    SwappedAt(swap, data);
    r := v;
    var i := 0;
    ghost var d := Swapped(swap, data);
    assert d[0..] == d;
    while i < |data|
      invariant 0 <= i <= |data| && Fits(t, r)
      invariant EmitAll(t, v, Decode16(d)) == EmitAll(t, r, Decode16(d[i..]))
    {
      var lead := if swap then Swap16(data[i]) else data[i];
      StepOver16(d, i, t, r);
      if lead < 0xD800 {
        r := Emit(t, r, Low(lead));
        i := i + 1;
      } else if 0xE000 <= lead {
        r := Emit(t, r, Low(lead));
        i := i + 1;
      } else if lead < 0xDC00 && |data| - i >= 2 {
        var next := if swap then Swap16(data[i + 1]) else data[i + 1];
        if 0xDC00 <= next < 0xE000 {
          r := Emit(t, r, High(Pair(lead, next)));
          i := i + 2;
        } else {
          i := i + 1;
        }
      } else {
        i := i + 1;
      }
    }
    assert d[i..] == [];
    NothingLeft16(t, r);
  }

  lemma NothingLeft16(t: Traits, v: Value)
    requires Fits(t, v)
    ensures EmitAll(t, v, Decode16([])) == v
  {}

  lemma SwappedAt(swap: bool, data: seq<unit16>)
    ensures |Swapped(swap, data)| == |data|
    ensures forall i :: 0 <= i < |data| ==> Swapped(swap, data)[i] == if swap then Swap16(data[i]) else data[i]
  {}

  lemma StepOver16(d: seq<unit16>, i: nat, t: Traits, v: Value)
    requires i < |d| && Fits(t, v)
    ensures (var s := Step16(d[i..]);
             EmitAll(t, v, Decode16(d[i..]))
             == EmitAll(t, if s.1 == [] then v else Emit(t, v, s.1[0]), Decode16(d[i + s.0..])))
  {
    var e := d[i..];
    var s := Step16(e);
    assert e[s.0..] == d[i + s.0..];
    if s.1 != [] {
      assert (s.1 + Decode16(e[s.0..]))[1..] == Decode16(e[s.0..]);
    } else {
      assert s.1 + Decode16(e[s.0..]) == Decode16(e[s.0..]);
    }
  }

  /**
    `convert_buffer_generic` from UTF-16: count, allocate, write, and terminate; the two passes agree on the length.
  */
  method ConvertUtf16(swap: bool, data: seq<unit16>) returns (buffer: array<byte>, length: nat)
    ensures fresh(buffer) && length == buffer.Length == |Encode(Utf8, Decode16(Swapped(swap, data)))| + 1
    ensures buffer[..length - 1] == Encode(Utf8, Decode16(Swapped(swap, data))) && buffer[length - 1] == 0
  {
    hide Decode16, EmitAll, Encode, Swapped;
    var count := Process16(swap, data, Counter(Utf8), Count(0));
    CounterMeasures(Utf8, 0, Decode16(Swapped(swap, data)));
    buffer := new byte[count.n + 1];
    var written := Process16(swap, data, Writer(Utf8), Units([]));
    WriterEncodes(Utf8, [], Decode16(Swapped(swap, data)));
    Fill(buffer, written.s);
    length := count.n + 1;
  }

  /** The bytes written by the second pass, and the terminator. */
  method Fill(buffer: array<byte>, s: bytes)
    requires buffer.Length == |s| + 1
    modifies buffer
    ensures buffer[..|s|] == s && buffer[|s|] == 0
  {
    var end := 0;
    while end < |s|
      invariant 0 <= end <= |s| && buffer[..end] == s[..end]
    {
      buffer[end] := s[end];
      end := end + 1;
    }
    buffer[end] := 0;
  }

  // ----- round trips

  /** Section 3 of RFC 3629: the characters that have a code, surrogates excluded. */
  predicate Scalar(p: Point) {
    match p
    case Low(ch) => ch < 0xD800 || 0xE000 <= ch
    case High(ch) => 0x10000 <= ch < 0x110000
  }

  predicate Scalars(ps: points) {
    forall i :: 0 <= i < |ps| ==> Scalar(ps[i])
  }

  /** Every sequence of characters survives UTF-8, surrogates and codes beyond Unicode included. */
  lemma {:induction false} Utf8RoundTrip(ps: points)
    ensures Decode8(Encode(Utf8, ps)) == ps
    decreases |ps|
  {
    if ps == [] {
    } else {
      var d: bytes, w: bytes := Encode(Utf8, ps), Written(Utf8, ps[0]);
      assert d == w + Encode(Utf8, ps[1..]);
      FirstStep8(ps[0], d);
      assert d[|w|..] == Encode(Utf8, ps[1..]);
      Utf8RoundTrip(ps[1..]);
      assert ps == [ps[0]] + ps[1..];
    }
  }

  lemma FirstStep8(p: Point, d: bytes)
    requires |Written(Utf8, p)| <= |d| && d[..|Written(Utf8, p)|] == Written(Utf8, p)
    ensures Step8(d) == (|Written(Utf8, p)|, [p])
  {
    var w := Written(Utf8, p);
    assert forall i :: 0 <= i < |w| ==> d[i] == d[..|w|][i] == w[i];
    match p {
      case Low(ch) =>
        Digits64(ch);
        assert d[0] == w[0] && (|w| > 1 ==> d[1] == w[1]) && (|w| > 2 ==> d[2] == w[2]);
      case High(ch) =>
        Digits64(ch);
        assert d[0] == w[0] && d[1] == w[1] && d[2] == w[2] && d[3] == w[3];
    }
  }

  /** A character code from its base-64 digits. */
  lemma Digits64(ch: nat)
    ensures ch == ch / 64 * 64 + ch % 64
    ensures ch == ch / 4096 * 4096 + ch / 64 % 64 * 64 + ch % 64
    ensures ch == ch / 262144 * 262144 + ch / 4096 % 64 * 4096 + ch / 64 % 64 * 64 + ch % 64
  {
    var a, b, c := ch / 64, ch / 64 / 64, ch / 64 / 64 / 64;
    assert a == b * 64 + a % 64 && b == c * 64 + b % 64;
    assert ch / 4096 == b;
    assert ch / 262144 == c;
  }

  /** Well-formed UTF-16 (section 2 of RFC 2781): surrogates come in pairs. */
  predicate WellFormed16(u: seq<unit16>)
    decreases |u|
  {
    u == [] || (Step16(u).1 != [] && WellFormed16(u[Step16(u).0..]))
  }

  lemma PairSplit(x: nat, y: nat)
    requires x < 1024 && y < 1024
    ensures (1024 * x + y) % 0x1_0000_0000 == 1024 * x + y
    ensures (1024 * x + y) / 1024 == x && (1024 * x + y) % 1024 == y
  {}

  lemma WrittenBack(u: seq<unit16>)
    requires u != [] && Step16(u).1 != []
    ensures (var s := Step16(u); Scalar(s.1[0]) && Written(Utf16, s.1[0]) == u[..s.0])
  {
    var s := Step16(u);
    if s.0 == 2 {
      var x: int, y: int := u[0], u[1];
      x, y := x - 0xD800, y - 0xDC00;
      PairSplit(x, y);
      assert s.1[0] == High(0x10000 + 1024 * x + y);
    }
  }

  /** Well-formed UTF-16 is what its characters are written as. */
  lemma {:induction false} Utf16Decodes(u: seq<unit16>)
    requires WellFormed16(u)
    ensures Scalars(Decode16(u)) && Encode(Utf16, Decode16(u)) == u
    decreases |u|
  {
    if u == [] {
    } else {
      var s := Step16(u);
      Utf16Decodes(u[s.0..]);
      WrittenBack(u);
      var ps := Decode16(u);
      assert ps == s.1 + Decode16(u[s.0..]) && ps[1..] == Decode16(u[s.0..]);
      assert u == u[..s.0] + u[s.0..];
    }
  }

  /** Well-formed UTF-16 converted to UTF-8 and back is unchanged. */
  lemma Utf16ThroughUtf8(u: seq<unit16>)
    requires WellFormed16(u)
    ensures Encode(Utf16, Decode8(Encode(Utf8, Decode16(u)))) == u
  {
    Utf16Decodes(u);
    Utf8RoundTrip(Decode16(u));
  }
}
