/**
  The buffered output stage: bytes collect in a fixed buffer and leave it converted to the target encoding. Where the
  buffer is cut never shows in what is delivered.
*/
module BufferedWriter {
  import opened Bytes
  import opened Utf

  const CAPACITY: nat := 2048

  datatype Encoding = NativeUtf8 | ToUtf16(bigEndian: bool) | ToUtf32(bigEndian: bool) | ToLatin1

  // ----- conversion of one chunk

  function FormatOf(e: Encoding): Format {
    match e case NativeUtf8 => Utf8 case ToUtf16(_) => Utf16 case ToUtf32(_) => Utf32 case ToLatin1 => Latin1
  }

  /** Bytes per unit. */
  function Width(e: Encoding): nat {
    match e case NativeUtf8 => 1 case ToUtf16(_) => 2 case ToUtf32(_) => 4 case ToLatin1 => 1
  }

  predicate BigEndian(e: Encoding) {
    (e.ToUtf16? || e.ToUtf32?) && e.bigEndian
  }

  /** A unit in memory. */
  function Stored(u: nat, width: nat, big: bool): (r: bytes)
    ensures |r| == width
  {
    if width == 0 then []
    else if big then Stored(u / 256, width - 1, true) + [u % 256]
    else [u % 256] + Stored(u / 256, width - 1, false)
  }

  function Image(s: seq<int>, width: nat, big: bool): (r: bytes)
    requires forall i :: 0 <= i < |s| ==> 0 <= s[i]
    ensures |r| == width * |s|
  {
    if s == [] then [] else Stored(s[0], width, big) + Image(s[1..], width, big)
  }

  /** A text in the target encoding: its characters, written unit by unit in the target byte order. */
  function Convert(e: Encoding, data: bytes): bytes {
    if e.NativeUtf8? then data else Image(Encode(FormatOf(e), Decode8(data)), Width(e), BigEndian(e))
  }

  /** `endian_swap` for 16- and 32-bit units. */
  function Swap(u: nat, width: nat): nat {
    if width == 2 then u % 256 * 256 + u / 256
    else if width == 4 then u % 256 * 0x100_0000 + u / 256 % 256 * 0x1_0000 + u / 0x1_0000 % 256 * 256 + u / 0x100_0000
    else u
  }

  lemma SwapStored(u: nat, width: nat, big: bool)
    requires (width == 2 && u < 0x1_0000) || (width == 4 && u < 0x1_0000_0000)
    ensures Stored(Swap(u, width), width, big) == Stored(u, width, !big)
  {
    var v := Swap(u, width);
    if width == 2 {
      assert v % 256 == u / 256 && v / 256 == u % 256;
      assert Stored(u, 2, !big) == if big then [u % 256, u / 256 % 256] else [u / 256 % 256, u % 256];
    } else {
      SwapDigits(u);
      StoredFour(u, !big);
      StoredFour(v, big);
    }
  }

  lemma StoredFour(u: nat, big: bool)
    ensures Stored(u, 4, big) == if big then [u / 256 / 256 / 256 % 256, u / 256 / 256 % 256, u / 256 % 256, u % 256]
                                 else [u % 256, u / 256 % 256, u / 256 / 256 % 256, u / 256 / 256 / 256 % 256]
  {
    assert Stored(u / 256 / 256 / 256, 1, big) == [u / 256 / 256 / 256 % 256];
    assert Stored(u / 256 / 256, 2, big)
        == if big then [u / 256 / 256 / 256 % 256, u / 256 / 256 % 256]
          else [u / 256 / 256 % 256, u / 256 / 256 / 256 % 256];
  }

  lemma SwapDigits(u: nat)
    requires u < 0x1_0000_0000
    ensures (var v := Swap(u, 4); v % 256 == u / 256 / 256 / 256 % 256 && v / 256 % 256 == u / 256 / 256 % 256)
    ensures (var v := Swap(u, 4); v / 256 / 256 % 256 == u / 256 % 256 && v / 256 / 256 / 256 % 256 == u % 256)
  {
    var a, b, c, d := u % 256, u / 256 % 256, u / 0x1_0000 % 256, u / 0x100_0000;
    assert u / 256 / 256 == u / 0x1_0000 && u / 256 / 256 / 256 == u / 0x100_0000 && d < 256;
    var v := ((a * 256 + b) * 256 + c) * 256 + d;
    assert v == Swap(u, 4) && v / 256 == (a * 256 + b) * 256 + c && v / 256 / 256 == a * 256 + b;
  }

  /** The in-place swap of the units of a converted chunk. */
  method SwapUnits(scratch: array<int>, width: nat)
    requires forall k :: 0 <= k < scratch.Length ==> scratch[k] >= 0
    modifies scratch
    ensures forall k :: 0 <= k < scratch.Length ==> scratch[k] == Swap(old(scratch[k]), width)
  {
    var i := 0;
    while i != scratch.Length
      invariant 0 <= i <= scratch.Length
      invariant forall k :: 0 <= k < i ==> scratch[k] == Swap(old(scratch[k]), width)
      invariant forall k :: i <= k < scratch.Length ==> scratch[k] == old(scratch[k])
    {
      scratch[i] := Swap(scratch[i], width);
      i := i + 1;
    }
  }

  /** `convert_buffer_output`: write units in native order, swap them in place if the target order differs. */
  method ConvertBufferOutput(e: Encoding, nativeBig: bool, data: bytes) returns (out: bytes)
    requires !e.NativeUtf8? && |data| <= CAPACITY
    ensures out == Convert(e, data) && |out| <= 4 * CAPACITY
  {
    hide Decode8, EmitAll, Encode, Image;
    var s := UnitsOf(FormatOf(e), data);
    var scratch := new int[|s|](i requires 0 <= i < |s| => s[i]);
    var order := if Width(e) > 1 then nativeBig else false;
    var optSwap := order != BigEndian(e);
    if optSwap { SwapUnits(scratch, Width(e)); }
    SameImage(s, scratch[..], Width(e), order, optSwap);
    out := Image(scratch[..], Width(e), order);
  }

  method UnitsOf(f: Format, data: bytes) returns (s: seq<int>)
    requires f != Utf8 && |data| <= CAPACITY
    ensures s == Encode(f, Decode8(data)) && |s| <= CAPACITY
  {
    hide Decode8, Encode, EmitAll;
    var written := Process8(data, 0, Writer(f), Units([]));
    WriterEncodes(f, [], Decode8(data));
    UnitsBound(f, data);
    s := written.s;
    assert [] + Encode(f, Decode8(data)) == Encode(f, Decode8(data));
  }

  lemma {:induction false} SameImage(s: seq<int>, t: seq<int>, width: nat, native: bool, swapped: bool)
    requires forall i :: 0 <= i < |s| ==>
      0 <= s[i] && (width == 2 ==> s[i] < 0x1_0000) && (width == 4 ==> s[i] < 0x1_0000_0000)
    requires |t| == |s| && (swapped ==> width == 2 || width == 4)
    requires forall i :: 0 <= i < |s| ==> t[i] == if swapped then Swap(s[i], width) else s[i]
    ensures forall i :: 0 <= i < |t| ==> t[i] >= 0
    ensures Image(t, width, native) == Image(s, width, if swapped then !native else native)
    decreases |s|
  {
    if s == [] {
    } else {
      SameImage(s[1..], t[1..], width, native, swapped);
      if swapped { SwapStored(s[0], width, native); }
    }
  }

  // ----- safe cuts

  lemma {:induction false} ImageConcat(a: seq<int>, b: seq<int>, width: nat, big: bool)
    requires forall i :: 0 <= i < |a| ==> 0 <= a[i]
    requires forall i :: 0 <= i < |b| ==> 0 <= b[i]
    ensures Image(a + b, width, big) == Image(a, width, big) + Image(b, width, big)
    decreases |a|
  {
    if a == [] {
      assert a + b == b;
    } else {
      assert (a + b)[1..] == a[1..] + b;
      ImageConcat(a[1..], b, width, big);
    }
  }

  /** At a safe cut the two parts convert on their own to what they convert to together. */
  lemma ConvertSplit(e: Encoding, a: bytes, b: bytes)
    requires SafeCut(a, b)
    ensures Convert(e, a + b) == Convert(e, a) + Convert(e, b)
  {
    if !e.NativeUtf8? {
      hide Decode8, Encode, SafeCut, Image;
      DecodeSplit(a, b);
      EncodeConcat(FormatOf(e), Decode8(a), Decode8(b));
      ImageConcat(Encode(FormatOf(e), Decode8(a)), Encode(FormatOf(e), Decode8(b)), Width(e), BigEndian(e));
    }
  }

  /** r is where the last character of d starts if that is among the last four bytes, and all of d otherwise. */
  predicate IsValidLength(d: bytes, r: nat) {
    && r <= |d|
    && (|d| < 5 ==> r == 0)
    && (|d| >= 5 ==> r >= |d| - 4 && (r < |d| ==> !Cont(d[r])))
    && (|d| >= 5 ==> forall i :: (if r == |d| then |d| - 4 else r + 1) <= i < |d| ==> Cont(d[i]))
  }

  /** `get_valid_length`: back off to the last byte that starts a character, looking at four bytes at most. */
  method GetValidLength(data: bytes) returns (r: nat)
    ensures IsValidLength(data, r)
  {
    if |data| < 5 { return 0; }
    var i := 1;
    while i <= 4
      invariant 1 <= i <= 5 && forall k :: |data| - i < k < |data| ==> Cont(data[k])
    {
      var ch := data[|data| - i];
      if !Cont(ch) { return |data| - i; }
      i := i + 1;
    }
    return |data|;
  }

  /** Such a length is a safe place to cut, whatever came before and malformed bytes included. */
  lemma ValidLengthSafe(w: bytes, data: bytes, r: nat)
    requires r <= |data|
    requires r == 0 ==> SafeCut(w, data)
    requires (r < |data| && !Cont(data[r])) || r == 0 || EndsWithFour(data[..r])
    ensures SafeCut(w + data[..r], data[r..])
  {
    var a := w + data[..r];
    if r == 0 {
      assert a == w && data[r..] == data;
    } else if r == |data| || Cont(data[r]) {
      assert forall i :: |w| <= i < |a| ==> a[i] == data[..r][i - |w|];
      assert forall i :: |a| - 4 <= i < |a| ==> Cont(a[i]);
    }
  }

  predicate EndsWithFour(d: bytes) {
    |d| >= 4 && forall i :: |d| - 4 <= i < |d| ==> Cont(d[i])
  }

  /** Whole characters can follow anything. */
  lemma WholeCharactersSafe(w: bytes, ps: points)
    ensures SafeCut(w, Encode(Utf8, ps))
  {
    if ps != [] {
      assert Encode(Utf8, ps)[0] == Written(Utf8, ps[0])[0];
    }
  }

  /** Whole characters reach a converted target as those characters, in its units and byte order. */
  lemma WholeCharactersConverted(e: Encoding, ps: points)
    requires Scalars(ps) && !e.NativeUtf8?
    ensures Convert(e, Encode(Utf8, ps)) == Image(Encode(FormatOf(e), ps), Width(e), BigEndian(e))
  {
    Utf8RoundTrip(ps);
  }

  /** A C string ends before its first NUL. */
  function CString(data: bytes): (r: bytes)
    ensures |r| <= |data| && r == data[..|r|] && At(data, |r|) == 0 && forall k :: 0 <= k < |r| ==> data[k] != 0
  {
    data[..StrLength(data)]
  }

  /** `strlength`. */
  function StrLength(data: bytes): (n: nat)
    ensures n <= |data| && At(data, n) == 0 && forall k :: 0 <= k < n ==> data[k] != 0
  {
    if data == [] || data[0] == 0 then 0
    else
      assert forall k :: 0 <= k < |data| - 1 ==> data[1..][k] == data[k + 1];
      1 + StrLength(data[1..])
  }

  lemma CStringAt(data: bytes, i: nat)
    requires i <= |CString(data)|
    ensures At(data, i) != 0 <==> i < |CString(data)|
    ensures i < |CString(data)| ==>
      i < |data| && CString(data)[i] == data[i] && CString(data)[..i + 1] == CString(data)[..i] + [data[i]]
  {}

  lemma RestOfString(data: bytes, i: nat, extra: nat)
    requires extra <= i <= |CString(data)|
    ensures i + StrLength(data[i..]) == |CString(data)|
    ensures data[i - extra..i + StrLength(data[i..])] == CString(data)[i - extra..] && data[..i] == CString(data)[..i]
    ensures CString(data) == CString(data)[..i - extra] + CString(data)[i - extra..]
  {
    var n, m := StrLength(data), StrLength(data[i..]);
    assert forall k :: 0 <= k < |data| - i ==> data[i..][k] == data[i + k];
    assert i + m < |data| ==> data[i..][m] == data[i + m];
  }

  /** A string of which i bytes filled the buffer, cut at a valid length r. */
  lemma CutString(w: bytes, data: bytes, i: nat, r: nat)
    requires i <= |CString(data)| && IsValidLength(data[..i], r) && SafeCut(w, CString(data))
    ensures (var s := CString(data);
             SafeCut(w, s[..r]) && SafeCut(w + s[..r], s[r..]) && data[r..i + StrLength(data[i..])] == s[r..]
             && w + s[..r] + s[r..] == w + s)
  {
    var s := CString(data);
    RestOfString(data, i, i - r);
    assert forall k :: 0 <= k < i ==> data[..i][k] == s[k];
    assert forall k :: 0 <= k < r ==> s[..r][k] == data[..i][k];
    ValidLengthSafe(w, s, r);
    Rejoined(w, s, r);
  }

  lemma Rejoined(w: bytes, s: bytes, r: nat)
    requires r <= |s|
    ensures w + s[..r] + s[r..] == w + s
  {
    assert s == s[..r] + s[r..];
  }

  // ----- the writer

  /** What has left the writer and what waits in the buffer, against everything written so far. */
  predicate State(e: Encoding, delivered: bytes, buf: bytes, written: bytes) {
    && |buf| <= |written|
    && buf == written[|written| - |buf|..]
    && delivered == Convert(e, written[..|written| - |buf|])
    && SafeCut(written[..|written| - |buf|], buf)
  }

  /** When whole characters are written, what has left the writer is the conversion of the first of them. */
  lemma CharactersDelivered(e: Encoding, delivered: bytes, buf: bytes, ps: points) returns (k: nat)
    requires State(e, delivered, buf, Encode(Utf8, ps))
    ensures k <= |ps| && delivered == Convert(e, Encode(Utf8, ps[..k])) && buf == Encode(Utf8, ps[k..])
  {
    hide Convert, Encode;
    var written := Encode(Utf8, ps);
    var sent := written[..|written| - |buf|];
    assert sent + buf == written;
    k := CutBetween(sent, buf, ps);
  }

  lemma Invisible(e: Encoding, delivered: bytes, buf: bytes, written: bytes)
    requires State(e, delivered, buf, written)
    ensures delivered + Convert(e, buf) == Convert(e, written)
  {
    assert written == written[..|written| - |buf|] + buf;
    ConvertSplit(e, written[..|written| - |buf|], buf);
  }

  lemma Buffered(e: Encoding, delivered: bytes, buf: bytes, written: bytes, c: bytes)
    requires State(e, delivered, buf, written) && SafeCut(written, c)
    ensures State(e, delivered, buf + c, written + c)
  {
    var k := |written| - |buf|;
    assert (written + c)[..k] == written[..k];
    assert (written + c)[k..] == buf + c;
    if buf == [] { assert written[..k] == written; }
  }

  lemma StartSafe(w: bytes, data: bytes, n: nat)
    requires SafeCut(w, data) && n <= |data|
    ensures SafeCut(w, data[..n])
  {}

  /** A chunk of valid length taken off a long text. */
  lemma ChunkDelivered(e: Encoding, delivered: bytes, written: bytes, data: bytes, r: nat)
    requires State(e, delivered, [], written) && SafeCut(written, data) && |data| > CAPACITY
    requires IsValidLength(data[..CAPACITY], r)
    ensures 0 < r <= CAPACITY && SafeCut(written + data[..r], data[r..])
    ensures State(e, delivered + Convert(e, data[..r]), [], written + data[..r])
  {
    hide State, Convert, SafeCut;
    var chunk := data[..r];
    assert chunk == data[..CAPACITY][..r] && [] + chunk == chunk;
    ValidLengthSafe(written, data, r);
    StartSafe(written, data, r);
    Buffered(e, delivered, [], written, chunk);
    Flushed(e, delivered, chunk, written + chunk);
  }

  lemma EmptyCut(w: bytes)
    ensures SafeCut(w, [])
  {}

  lemma Flushed(e: Encoding, delivered: bytes, buf: bytes, written: bytes)
    requires State(e, delivered, buf, written)
    ensures State(e, delivered + Convert(e, buf), [], written)
  {
    hide Convert, SafeCut;
    Invisible(e, delivered, buf, written);
    assert written[..|written|] == written && written[|written|..] == [];
    EmptyCut(written);
  }

  /** `xml_buffered_writer`, with the sink that `xml_writer::write` appends to. */
  class Writer {
    const encoding: Encoding
    const nativeBig: bool
    const buffer: array<byte>
    var bufsize: nat
    var delivered: bytes
    ghost var written: bytes

    ghost predicate Valid()
      reads this, buffer
    {
      && buffer.Length == CAPACITY && bufsize <= CAPACITY
      && State(encoding, delivered, buffer[..bufsize], written)
    }

    constructor (encoding: Encoding, nativeBig: bool)
      ensures Valid() && fresh(buffer) && this.encoding == encoding && written == [] && delivered == []
    {
      this.encoding, this.nativeBig := encoding, nativeBig;
      buffer := new byte[CAPACITY];
      bufsize, delivered, written := 0, [], [];
    }

    /** `flush(data, size)`: converts one chunk, which fits the scratch area, and hands it to the sink. */
    method Deliver(data: bytes)
      requires |data| <= CAPACITY
      modifies this`delivered
      ensures delivered == old(delivered) + Convert(encoding, data)
    {
      if |data| == 0 { return; }
      if encoding.NativeUtf8? {
        delivered := delivered + data;
      } else {
        var result := ConvertBufferOutput(encoding, nativeBig, data);
        delivered := delivered + result;
      }
    }

    method Flush()
      requires Valid()
      modifies this`delivered, this`bufsize
      ensures Valid() && bufsize == 0 && delivered == Convert(encoding, written)
    {
      Invisible(encoding, delivered, buffer[..bufsize], written);
      Flushed(encoding, delivered, buffer[..bufsize], written);
      Deliver(buffer[..bufsize]);
      bufsize := 0;
      assert buffer[..0] == [];
    }

    /** `memcpy(buffer + bufsize, data, length)`. */
    method CopyIn(data: bytes)
      requires buffer.Length == CAPACITY && bufsize + |data| <= CAPACITY
      modifies buffer, this`bufsize
      ensures bufsize == old(bufsize) + |data| && buffer[..bufsize] == old(buffer[..bufsize]) + data
    {
      var i := 0;
      while i < |data|
        invariant 0 <= i <= |data| && buffer[..bufsize + i] == old(buffer[..bufsize]) + data[..i]
        modifies buffer
      {
        buffer[bufsize + i] := data[i];
        i := i + 1;
      }
      assert data[..i] == data;
      bufsize := bufsize + |data|;
    }

    /** Hands data to the sink as it is: the fast path for the native encoding. */
    method WriteThrough(data: bytes)
      requires Valid() && bufsize == 0 && encoding.NativeUtf8? && SafeCut(written, data)
      modifies this
      ensures Valid() && bufsize == 0 && written == old(written) + data
    {
      assert buffer[..0] == [] && data == Convert(encoding, data);
      Buffered(encoding, delivered, [], written, data);
      assert [] + data == data;
      Flushed(encoding, delivered, data, written + data);
      delivered := delivered + data;
      written := written + data;
    }

    /** Converts and delivers as much of data as surely fits the scratch area, up to a place where it can be cut. */
    method WriteChunk(data: bytes) returns (chunkSize: nat)
      requires Valid() && bufsize == 0 && |data| > CAPACITY && SafeCut(written, data)
      modifies this`delivered, this`written
      ensures 0 < chunkSize <= CAPACITY
      ensures Valid() && written == old(written) + data[..chunkSize] && SafeCut(written, data[chunkSize..])
    {
      hide State, SafeCut, IsValidLength, Convert;
      chunkSize := GetValidLength(data[..CAPACITY]);
      assert buffer[..bufsize] == [];
      ChunkDelivered(encoding, delivered, written, data, chunkSize);
      Deliver(data[..chunkSize]);
      written := written + data[..chunkSize];
    }

    method WriteDirect(data0: bytes)
      requires Valid() && SafeCut(written, data0)
      modifies this, buffer
      ensures Valid() && written == old(written) + data0
    {
      hide State, SafeCut;
      var data := data0;
      Flush();
      if |data| > CAPACITY {
        if encoding.NativeUtf8? {
          WriteThrough(data);
          return;
        }
        while |data| > CAPACITY
          invariant Valid() && bufsize == 0 && SafeCut(written, data)
          invariant written + data == old(written) + data0
        {
          var chunkSize := WriteChunk(data);
          assert data == data[..chunkSize] + data[chunkSize..];
          data := data[chunkSize..];
        }
        bufsize := 0;
      }
      assert buffer[..0] == [];
      Buffered(encoding, delivered, [], written, data);
      CopyIn(data);
      written := written + data;
    }

    method WriteBuffer(data: bytes)
      requires Valid() && SafeCut(written, data)
      modifies this, buffer
      ensures Valid() && written == old(written) + data
    {
      if bufsize + |data| <= CAPACITY {
        Buffered(encoding, delivered, buffer[..bufsize], written, data);
        CopyIn(data);
        written := written + data;
      } else {
        WriteDirect(data);
      }
    }

    /** The tail of `write_string`: i bytes of data fill the buffer, perhaps with a character split at the end. */
    method RestFromCut(data: bytes, i: nat, ghost s: bytes)
      requires buffer.Length == CAPACITY && bufsize + i == CAPACITY && s == CString(data) && i <= |s|
      requires |buffer[..CAPACITY]| >= i && buffer[bufsize..CAPACITY] == s[..i]
      requires State(encoding, delivered, buffer[..bufsize], written) && SafeCut(written, s)
      modifies this, buffer
      ensures Valid() && written == old(written) + s
    {
      hide State, SafeCut, CString, StrLength;
      var valid := GetValidLength(data[..i]);
      var extra := i - valid;
      CutString(written, data, i, valid);
      assert buffer[..CAPACITY - extra] == buffer[..bufsize] + s[..valid] by {
        assert forall k :: bufsize <= k < CAPACITY ==> buffer[k] == buffer[bufsize..CAPACITY][k - bufsize];
      }
      KeepAndWrite(CAPACITY - extra, s[..valid], data[i - extra..i + StrLength(data[i..])]);
    }

    /** Keeps the first n bytes in the buffer, of which c are new, and writes rest directly. */
    method KeepAndWrite(n: nat, ghost c: bytes, rest: bytes)
      requires buffer.Length == CAPACITY && bufsize <= CAPACITY && n <= CAPACITY && buffer[..n] == buffer[..bufsize] + c
      requires State(encoding, delivered, buffer[..bufsize], written) && SafeCut(written, c) &&
        SafeCut(written + c, rest)
      modifies this, buffer
      ensures Valid() && written == old(written) + c + rest
    {
      hide State, SafeCut;
      Buffered(encoding, delivered, buffer[..bufsize], written, c);
      bufsize := n;
      written := written + c;
      WriteDirect(rest);
    }

    /** Writes a C string: what fits the buffer byte by byte, backing off if that split a character, then the rest. */
    method WriteString(data: bytes)
      requires Valid() && SafeCut(written, CString(data))
      modifies this, buffer
      ensures Valid() && written == old(written) + CString(data)
    {
      hide State, SafeCut;
      ghost var s := CString(data);
      var offset := bufsize;
      var i := 0;
      while At(data, i) != 0 && offset < CAPACITY
        invariant 0 <= i <= |s| && offset == bufsize + i <= CAPACITY
        invariant buffer[..offset] == old(buffer[..bufsize]) + s[..i]
        modifies buffer
        decreases CAPACITY - offset
      {
        CStringAt(data, i);
        buffer[offset] := data[i];
        offset, i := offset + 1, i + 1;
      }
      CStringAt(data, i);
      if offset < CAPACITY {
        assert s[..i] == s;
        Buffered(encoding, delivered, old(buffer[..bufsize]), written, s);
        bufsize := offset;
        written := written + s;
      } else {
        assert buffer[..bufsize] == old(buffer[..bufsize]) && buffer[bufsize..CAPACITY] == s[..i];
        RestFromCut(data, i, s);
      }
    }

    /** `write(d0)` up to `write(d0, ..., d5)`. */
    method Write(d: bytes)
      requires Valid() && SafeCut(written, d) && 1 <= |d| <= 6
      modifies this, buffer
      ensures Valid() && written == old(written) + d
    {
      if bufsize > CAPACITY - |d| { Flush(); }
      Buffered(encoding, delivered, buffer[..bufsize], written, d);
      CopyIn(d);
      written := written + d;
    }
  }
}
