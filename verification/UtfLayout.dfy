/** The encodings bit by bit: section 3 of RFC 3629 for UTF-8, section 2 of RFC 2781 for UTF-16. */
module UtfLayout {
  import opened Bytes
  import opened Utf
  import BufferedWriter

  function Code(p: Point): int {
    match p case Low(ch) => ch case High(ch) => ch
  }

  /** A lead byte that begins with as many ones as there are bytes, and six bits in each further byte. */
  lemma Utf8Layout(p: Point)
    ensures (var w, c := Written(Utf8, p), Code(p);
             && (|w| == 1 <==> p.Low? && c < 0x80) && (|w| == 2 <==> p.Low? && 0x80 <= c < 0x800)
             && (|w| == 3 <==> p.Low? && 0x800 <= c) && (|w| == 4 <==> p.High?)
             && (|w| == 1 ==> w[0] == c)
             && (|w| == 2 ==> 0xC0 <= w[0] < 0xE0 && c == (w[0] - 0xC0) * 0x40 + (w[1] - 0x80))
             && (|w| == 3 ==> 0xE0 <= w[0] < 0xF0 && c == (w[0] - 0xE0) * 0x1000 + (w[1] - 0x80) * 0x40 + (w[2] - 0x80))
             && (|w| == 4 ==> 0xF0 <= w[0] < 0xF8)
             && (|w| == 4 ==>
                   c == (w[0] - 0xF0) * 0x4_0000 + (w[1] - 0x80) * 0x1000 + (w[2] - 0x80) * 0x40 + (w[3] - 0x80))
             && forall i :: 0 < i < |w| ==> 0x80 <= w[i] < 0xC0)
  {
    Digits64(Code(p));
  }

  /** s comes before t in lexicographic order, neither being the beginning of the other. */
  predicate LexLess(s: seq<int>, t: seq<int>) {
    exists k :: 0 <= k < |s| && k < |t| && s[..k] == t[..k] && s[k] < t[k]
  }

  /** Section 1 of RFC 3629: the order of the codes is the order of their bytes. */
  lemma Utf8Order(p: Point, q: Point)
    requires (p.High? ==> p.hi >= 0x10000) && (q.High? ==> q.hi >= 0x10000) && Code(p) < Code(q)
    ensures LexLess(Written(Utf8, p), Written(Utf8, q))
  {
    Utf8Layout(p);
    Utf8Layout(q);
    var v, w := Written(Utf8, p), Written(Utf8, q);
    hide Written, LexLess;
    if v[0] < w[0] {
      DiffersAt(v, w, 0);
    } else if v[1] < w[1] {
      DiffersAt(v, w, 1);
    } else if v[2] < w[2] {
      DiffersAt(v, w, 2);
    } else {
      DiffersAt(v, w, 3);
    }
  }

  lemma DiffersAt(s: seq<int>, t: seq<int>, k: nat)
    requires k < |s| && k < |t| && s[k] < t[k] && forall i :: 0 <= i < k ==> s[i] == t[i]
    ensures LexLess(s, t)
  {
    assert s[..k] == t[..k];
  }

  /** A unit for a code below 2^16; above, a high surrogate with the upper and a low one with the lower ten bits. */
  lemma Utf16Layout(p: Point)
    requires p.High? ==> 0x10000 <= p.hi < 0x110000
    ensures (var u, c := Written(Utf16, p), Code(p);
             && (p.Low? ==> u == [c])
             && (p.High? ==> |u| == 2 && 0xD800 <= u[0] < 0xDC00 && 0xDC00 <= u[1] < 0xE000)
             && (p.High? ==> c == 0x10000 + (u[0] - 0xD800) * 0x400 + (u[1] - 0xDC00)))
  {
    if p.High? {
      var v := p.hi - 0x10000;
      assert v % 0x1_0000_0000 == v && v == v / 1024 * 1024 + v % 1024;
    }
  }

  /** One unit, the code; one byte, the code, or a question mark for what Latin-1 does not have. */
  lemma OneUnit(p: Point)
    ensures Written(Utf32, p) == [Code(p)]
    ensures Written(Latin1, p) == [if p.Low? && Code(p) < 0x100 then Code(p) else 63]
  {}

  // ----- decoding

  predicate Continues(d: bytes, i: int) {
    0 <= i < |d| && 0x80 <= d[i] < 0xC0
  }

  /** The character at the head of a text, and how many bytes it takes; one byte for what begins no character. */
  function FirstOf(d: bytes): (r: (nat, points))
    requires d != []
    ensures 1 <= r.0 <= |d|
  {
    var a: int := d[0];
    if a < 0x80 then (1, [Low(a)])
    else if 0xC0 <= a < 0xE0 && Continues(d, 1) then
      var b: int := d[1];
      (2, [Low((a - 0xC0) * 0x40 + (b - 0x80))])
    else if 0xE0 <= a < 0xF0 && Continues(d, 1) && Continues(d, 2) then
      var b: int, c: int := d[1], d[2];
      (3, [Low((a - 0xE0) * 0x1000 + (b - 0x80) * 0x40 + (c - 0x80))])
    else if 0xF0 <= a < 0xF8 && Continues(d, 1) && Continues(d, 2) && Continues(d, 3) then
      var b: int, c: int, e: int := d[1], d[2], d[3];
      (4, [High((a - 0xF0) * 0x4_0000 + (b - 0x80) * 0x1000 + (c - 0x80) * 0x40 + (e - 0x80))])
    else (1, [])
  }

  /** How a text is read, well formed or not. */
  lemma Utf8Read(d: bytes)
    requires d != []
    ensures Decode8(d) == FirstOf(d).1 + Decode8(d[FirstOf(d).0..])
  {
    FirstIsStep(d);
    hide FirstOf, Step8;
  }

  lemma FirstIsStep(d: bytes)
    requires d != []
    ensures Step8(d) == FirstOf(d)
  {}

  /** How the units at the head of a text are read: a surrogate that is not part of a pair is passed over. */
  lemma Utf16Read(d: seq<unit16>)
    requires d != []
    ensures (var a, b: int := d[0], if |d| > 1 then d[1] else 0;
             if a < 0xD800 || a >= 0xE000 then Decode16(d) == [Low(a)] + Decode16(d[1..])
             else if a < 0xDC00 && |d| > 1 && 0xDC00 <= b < 0xE000 then
               Decode16(d) == [High(0x10000 + (a - 0xD800) * 0x400 + (b - 0xDC00))] + Decode16(d[2..])
             else Decode16(d) == Decode16(d[1..]))
  {
    assert Decode16(d) == Step16(d).1 + Decode16(d[Step16(d).0..]);
    assert [] + Decode16(d[1..]) == Decode16(d[1..]);
    hide Decode16;
  }

  /** The other byte order: the two bytes of each unit exchanged. */
  lemma OtherOrder(data: seq<unit16>, i: nat, x: nat, y: nat)
    requires i < |data| && x < 256 && y < 256 && data[i] == 256 * x + y
    ensures Swapped(true, data)[i] == 256 * y + x && Swapped(false, data)[i] == data[i]
  {}

  // ----- units in memory

  /** The bytes of a unit, the highest or the lowest first. */
  function UnitBytes(u: nat, width: nat, big: bool): seq<int> {
    match width
    case 1 => [u % 256]
    case 2 => if big then [u / 0x100 % 256, u % 256] else [u % 256, u / 0x100 % 256]
    case _ =>
      if big then [u / 0x100_0000 % 256, u / 0x1_0000 % 256, u / 0x100 % 256, u % 256]
      else [u % 256, u / 0x100 % 256, u / 0x1_0000 % 256, u / 0x100_0000 % 256]
  }

  lemma StoredBytes(u: nat, width: nat, big: bool)
    requires width == 1 || width == 2 || width == 4
    ensures BufferedWriter.Stored(u, width, big) == UnitBytes(u, width, big)
  {
    if width == 4 {
      BufferedWriter.StoredFour(u, big);
      assert u / 256 / 256 == u / 0x1_0000 && u / 256 / 256 / 256 == u / 0x100_0000;
    } else if width == 2 {
      assert BufferedWriter.Stored(u / 256, 1, big) == [u / 256 % 256];
    }
  }

  /** The units of a text lie one behind the other. */
  lemma {:induction false} ImageUnit(s: seq<int>, width: nat, big: bool, i: nat)
    requires i < |s| && forall k :: 0 <= k < |s| ==> s[k] >= 0
    requires width == 1 || width == 2 || width == 4
    ensures width * i + width <= |BufferedWriter.Image(s, width, big)|
    ensures BufferedWriter.Image(s, width, big)[width * i..width * i + width] == UnitBytes(s[i], width, big)
    decreases i
  {
    hide UnitBytes, BufferedWriter.Stored, BufferedWriter.Image;
    var first, rest := BufferedWriter.Stored(s[0], width, big), BufferedWriter.Image(s[1..], width, big);
    ImageFirst(s, width, big);
    if i == 0 {
      StoredBytes(s[0], width, big);
      SliceIn(first, rest, 0);
    } else {
      ImageUnit(s[1..], width, big, i - 1);
      OneMore(width, i);
      SliceIn(first, rest, width * (i - 1));
    }
  }

  lemma ImageFirst(s: seq<int>, width: nat, big: bool)
    requires s != [] && forall k :: 0 <= k < |s| ==> s[k] >= 0
    ensures BufferedWriter.Image(s, width, big)
      == BufferedWriter.Stored(s[0], width, big) + BufferedWriter.Image(s[1..], width, big)
  {}

  lemma OneMore(width: nat, i: nat)
    requires i > 0
    ensures width * i == width * (i - 1) + width
  {}

  lemma SliceIn(first: seq<int>, rest: seq<int>, k: nat)
    ensures (first + rest)[..|first|] == first
    ensures k + |first| <= |rest| ==> (first + rest)[k + |first|..k + |first| + |first|] == rest[k..k + |first|]
  {}

  /** What is written to a file in each encoding: the units of its characters, in its byte order. */
  lemma OutputUnit(e: BufferedWriter.Encoding, data: bytes, i: nat)
    requires !e.NativeUtf8?
    ensures (var f, width, big :=
               match e case ToLatin1 => Latin1 case ToUtf16(_) => Utf16 case _ => Utf32,
               match e case ToLatin1 => 1 case ToUtf16(_) => 2 case _ => 4,
               (e.ToUtf16? || e.ToUtf32?) && e.bigEndian;
             var units, out := Encode(f, Decode8(data)), BufferedWriter.Convert(e, data);
             |out| == width * |units| &&
             (i < |units| ==> width * i + width <= |out| && units[i] >= 0 &&
                              out[width * i..width * i + width] == UnitBytes(units[i], width, big)))
  {
    hide Decode8, Encode, UnitBytes;
    var f := BufferedWriter.FormatOf(e);
    var units := Encode(f, Decode8(data));
    if i < |units| { ImageUnit(units, BufferedWriter.Width(e), BufferedWriter.BigEndian(e), i); }
  }
}
