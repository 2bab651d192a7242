/** Escapes: what they stand for, how they are printed, and how they are resolved in place. */
module AttributeText {
  import opened Bytes
  import opened Utf
  import opened Integers
  import opened GapEditing
  import BufferedWriter

  // ----- what an escape stands for

  /** `utf8_writer::any` for an arbitrary 32-bit code. */
  function AnyUtf8(ch: nat): (r: bytes)
    ensures 1 <= |r| <= 4 && (ch < 0x80 ==> r == [ch])
  {
    if ch < 0x10000 then Written(Utf8, Low(ch))
    else [0xF0 + ch / 262144 % 16, 0x80 + ch / 4096 % 64, 0x80 + ch / 64 % 64, 0x80 + ch % 64]
  }

  /** How many characters of pat are found from position j on. */
  function Matched(t: bytes, j: nat, pat: bytes): (r: nat)
    requires forall k :: 0 <= k < |pat| ==> pat[k] != 0
    ensures r <= |pat| && (r > 0 ==> j + r <= |t|)
    decreases |pat|
  {
    if pat != [] && At(t, j) == pat[0] then 1 + Matched(t, j + 1, pat[1..]) else 0
  }

  /** An escape read at i: where reading goes on, and what it puts in the output. */
  datatype Escape = Escape(next: nat, text: bytes)

  /** The escape runs to i + skip and then through pat; otherwise what was looked at stays as it is. */
  function Named(t: bytes, i: nat, skip: nat, pat: bytes, c: byte): (r: Escape)
    requires i + skip <= |t| && forall k :: 0 <= k < |pat| ==> pat[k] != 0
    ensures i + skip <= r.next <= |t|
  {
    var k := Matched(t, i + skip, pat);
    Escape(i + skip + k, if k == |pat| then [c] else t[i..i + skip + k])
  }

  function Numeric(t: bytes, i: nat, j: nat, b: Base): (r: Escape)
    requires i < j <= |t|
    ensures j <= r.next <= |t|
  {
    if At(t, j) == ';' as int then Escape(j, t[i..j])
    else
      var k := RunEnd(b, t, j);
      if At(t, k) == ';' as int then Escape(k + 1, AnyUtf8(Wrap(4, Integers.Value(b, t[j..k]))))
      else Escape(k, t[i..k])
  }

  function CodeOf(p: Point): nat {
    if p.Low? then p.lo else p.hi
  }

  /** The text is the UTF-8 form of the character with that code. */
  ghost predicate SpellsCode(text: bytes, code: nat) {
    exists p: Point :: CodeOf(p) == code && Decode8(text) == [p]
  }

  /** A reference with digits and a semicolon: t[j..k] are the digits, k is the semicolon. */
  predicate Reference(t: bytes, j: nat, k: nat, b: Base) {
    j < k < |t| && RunEnd(b, t, j) == k && t[k] == ';' as int && t[j] != ';' as int
  }

  /** What follows an ampersand at i (section 4.6 of XML 1.0 and character references). */
  function EscapeAt(t: bytes, i: nat): (r: Escape)
    requires i < |t|
    ensures i < r.next <= |t|
  {
    var c := At(t, i + 1);
    if c == '#' as int then
      if At(t, i + 2) == 'x' as int then Numeric(t, i, i + 3, Sixteen) else Numeric(t, i, i + 2, Ten)
    else if c == 'a' as int then
      if At(t, i + 2) == 'm' as int then Named(t, i, 3, ['p' as int, ';' as int], '&' as int)
      else if At(t, i + 2) == 'p' as int then Named(t, i, 3, ['o' as int, 's' as int, ';' as int], '\'' as int)
      else Escape(i + 2, t[i..i + 2])
    else if c == 'g' as int then Named(t, i, 2, ['t' as int, ';' as int], '>' as int)
    else if c == 'l' as int then Named(t, i, 2, ['t' as int, ';' as int], '<' as int)
    else if c == 'q' as int then Named(t, i, 2, ['u' as int, 'o' as int, 't' as int, ';' as int], '"' as int)
    else Escape(i + 1, t[i..i + 1])
  }

  // ----- character references

  /** `any` spells every code that has four bytes in UTF-8. */
  lemma AnySpells(code: nat)
    requires code < 0x200000
    ensures SpellsCode(AnyUtf8(code), code)
  {
    hide AnyUtf8, Written, Decode8;
    var p := if code < 0x10000 then Low(code) else High(code);
    AnyIsWritten(code, p);
    Utf8RoundTrip([p]);
    assert [p][1..] == [] && Encode(Utf8, [p]) == Written(Utf8, p) + [];
    assert AnyUtf8(code) == Encode(Utf8, [p]);
    assert CodeOf(p) == code && Decode8(AnyUtf8(code)) == [p];
  }

  lemma AnyIsWritten(code: nat, p: Point)
    requires code < 0x200000 && p == if code < 0x10000 then Low(code) else High(code)
    ensures AnyUtf8(code) == Written(Utf8, p)
  {}

  /** A reference with digits and a semicolon spells its number exactly when UTF-8 can. */
  lemma ReferenceExact(t: bytes, i: nat, j: nat, k: nat, b: Base)
    requires i < j && Reference(t, j, k, b)
    ensures Numeric(t, i, j, b) == Escape(k + 1, AnyUtf8(Wrap(4, Integers.Value(b, t[j..k]))))
    ensures SpellsCode(Numeric(t, i, j, b).text, Integers.Value(b, t[j..k])) <==> Integers.Value(b, t[j..k]) < 0x200000
  {
    hide AnyUtf8, SpellsCode;
    NumericCases(t, i, j, b);
    var v := Integers.Value(b, t[j..k]);
    if v < 0x200000 {
      Wrapped(v, 4);
      AnySpells(v);
    } else {
      TooLarge(Numeric(t, i, j, b).text, v);
    }
  }

  lemma TooLarge(text: bytes, code: nat)
    requires code >= 0x200000
    ensures !SpellsCode(text, code)
  {}

  /** It is read as a NUL exactly when its number is a multiple of 2^32. */
  lemma ReadAsNul(v: nat)
    ensures AnyUtf8(Wrap(4, v)) == [0] <==> v % 0x1_0000_0000 == 0
  {}

  /** The text of a decimal character reference. */
  function ReferenceText(n: nat): bytes {
    ['&' as int, '#' as int] + Decimal(n) + [';' as int]
  }

  /** Every number written as a reference is read as its remainder modulo 2^32. */
  lemma DecimalReference(n: nat)
    ensures EscapeAt(ReferenceText(n), 0) == Escape(|ReferenceText(n)|, AnyUtf8(Wrap(4, n)))
  {
    var t, d := ReferenceText(n), Decimal(n);
    DecimalValue(n);
    hide Decimal, AnyUtf8;
    assert forall i :: 0 <= i < |d| ==> t[2 + i] == d[i];
    DigitsTo(t, 2, 2 + |d|);
    assert t[2..2 + |d|] == d;
    ReferenceExact(t, 0, 2, 2 + |d|, Ten);
  }

  /** &#0; is read as a NUL, and &#4294967361;, which is 65 more than 2^32, as the letter A. */
  lemma ReferencesMisread()
    ensures EscapeAt(ReferenceText(0), 0).text == [0]
    ensures EscapeAt(ReferenceText(4294967361), 0).text == ['A' as int]
  {
    hide EscapeAt, ReferenceText;
    DecimalReference(0);
    DecimalReference(4294967361);
    ReadAsNul(0);
    assert AnyUtf8(65) == ['A' as int];
  }

  lemma {:induction false} DigitsTo(t: bytes, j: nat, k: nat)
    requires j <= k < |t| && (forall i :: j <= i < k ==> IsDigit(t[i])) && !IsDigit(t[k])
    ensures RunEnd(Ten, t, j) == k
    decreases k - j
  {
    if j == k {
    } else {
      DigitsTo(t, j + 1, k);
    }
  }

  // ----- the printer

  /** `chartypex_table`: characters that must be escaped in attribute values or in text. */
  predicate IsSpecial(attr: bool, c: byte) {
    (c < 32 && c != 9 && (attr || (c != 10 && c != 13))) || c == '&' as int || c == '<' as int || c == '>' as int
    || (attr && c == '"' as int)
  }

  function EscapedChar(attr: bool, c: byte): bytes {
    if !IsSpecial(attr, c) then [c]
    else if c == '&' as int then ['&' as int, 'a' as int, 'm' as int, 'p' as int, ';' as int]
    else if c == '<' as int then ['&' as int, 'l' as int, 't' as int, ';' as int]
    else if c == '>' as int then ['&' as int, 'g' as int, 't' as int, ';' as int]
    else if c == '"' as int then ['&' as int, 'q' as int, 'u' as int, 'o' as int, 't' as int, ';' as int]
    else ['&' as int, '#' as int, c / 10 + 48, c % 10 + 48, ';' as int]
  }

  function Escaped(attr: bool, s: bytes): bytes {
    if s == [] then [] else EscapedChar(attr, s[0]) + Escaped(attr, s[1..])
  }

  lemma {:induction false} EscapedConcat(attr: bool, a: bytes, b: bytes)
    ensures Escaped(attr, a + b) == Escaped(attr, a) + Escaped(attr, b)
    decreases |a|
  {
    if a == [] {
      assert a + b == b;
    } else {
      assert (a + b)[1..] == a[1..] + b;
      EscapedConcat(attr, a[1..], b);
    }
  }

  lemma {:induction false} EscapedPlain(attr: bool, s: bytes)
    requires forall i :: 0 <= i < |s| ==> !IsSpecial(attr, s[i])
    ensures Escaped(attr, s) == s
    decreases |s|
  {
    if s == [] {
    } else {
      EscapedPlain(attr, s[1..]);
    }
  }

  lemma EscapeCloses(w: bytes, attr: bool, c: byte)
    requires IsSpecial(attr, c)
    ensures SafeCut(w, EscapedChar(attr, c)) && Closed(w + EscapedChar(attr, c))
    ensures 1 <= |EscapedChar(attr, c)| <= 6
  {
    var e := EscapedChar(attr, c);
    var x := w + e;
    forall i | 0 <= i < |x| ensures i + Wanted(x[i]) <= |x| {
      if i >= |w| { assert x[i] == e[i - |w|] < 0x80; }
    }
  }

  /** What the next plain run and the escape after it add. */
  lemma EscapedNext(attr: bool, cs: bytes, prev: nat, i: nat)
    requires prev <= i <= |cs| && forall k :: prev <= k < i ==> !IsSpecial(attr, cs[k])
    ensures Escaped(attr, cs[..i]) == Escaped(attr, cs[..prev]) + cs[prev..i]
    ensures i < |cs| ==> Escaped(attr, cs[..i + 1]) == Escaped(attr, cs[..i]) + EscapedChar(attr, cs[i])
  {
    assert cs[..i] == cs[..prev] + cs[prev..i];
    EscapedConcat(attr, cs[..prev], cs[prev..i]);
    EscapedPlain(attr, cs[prev..i]);
    if i < |cs| {
      assert cs[..i + 1] == cs[..i] + [cs[i]];
      EscapedConcat(attr, cs[..i], [cs[i]]);
      assert Escaped(attr, [cs[i]]) == EscapedChar(attr, cs[i]) + [];
    }
  }

  lemma InsideCString(s: bytes, prev: nat, i: nat)
    requires prev <= i <= |BufferedWriter.CString(s)|
    ensures i <= |s| && s[prev..i] == BufferedWriter.CString(s)[prev..i]
  {
    var cs := BufferedWriter.CString(s);
    assert cs == s[..|cs|];
  }

  /** `text_output_escaped`: plain runs are written as they are, special characters as escapes. */
  method TextOutputEscaped(writer: BufferedWriter.Writer, s: bytes, attr: bool)
    requires writer.Valid() && SafeCut(writer.written, BufferedWriter.CString(s))
    modifies writer, writer.buffer
    ensures writer.Valid() && writer.written == old(writer.written) + Escaped(attr, BufferedWriter.CString(s))
  {
    hide Escaped, EscapedChar, SafeCut, Closed, BufferedWriter.State;
    ghost var cs := BufferedWriter.CString(s);
    var i := 0;
    NothingEscaped(attr, cs);
    while At(s, i) != 0
      invariant 0 <= i <= |cs| && writer.Valid() && SafeCut(writer.written, cs[i..])
      invariant writer.written == old(writer.written) + Escaped(attr, cs[..i])
      decreases |cs| - i
    {
      var prev := i;
      while !IsSpecial(attr, At(s, i))
        invariant prev <= i <= |cs| && forall k :: prev <= k < i ==> !IsSpecial(attr, cs[k])
        modifies {}
        decreases |cs| - i
      {
        BufferedWriter.CStringAt(s, i);
        i := i + 1;
      }
      BufferedWriter.CStringAt(s, i);
      EscapedNext(attr, cs, prev, i);
      PrefixSafe(writer.written, cs, prev, i);
      InsideCString(s, prev, i);
      writer.WriteBuffer(s[prev..i]);
      if At(s, i) != 0 {
        var e := EscapedChar(attr, s[i]);
        EscapeCloses(writer.written, attr, s[i]);
        ClosedSafe(writer.written + e, cs[i + 1..]);
        writer.Write(e);
        i := i + 1;
      } else {
        ClosedSafe(writer.written, cs[i..]);
      }
    }
    BufferedWriter.CStringAt(s, i);
    assert cs[..i] == cs;
  }

  lemma NothingEscaped(attr: bool, cs: bytes)
    ensures Escaped(attr, cs[..0]) == [] && cs[0..] == cs
  {}

  lemma PrefixSafe(w: bytes, cs: bytes, prev: nat, i: nat)
    requires prev <= i <= |cs| && SafeCut(w, cs[prev..])
    ensures SafeCut(w, cs[prev..i])
  {}

  lemma ClosedSafe(w: bytes, b: bytes)
    requires Closed(w) || b == []
    ensures SafeCut(w, b)
  {}

  // ----- printed escapes

  /** The escape printed for a character reads back as that character. */
  lemma EscapeRead(t: bytes, i: nat, attr: bool, c: byte)
    requires c != 0 && IsSpecial(attr, c) && i + |EscapedChar(attr, c)| < |t|
    requires forall k :: 0 <= k < |EscapedChar(attr, c)| ==> t[i + k] == EscapedChar(attr, c)[k]
    ensures EscapeAt(t, i) == Escape(i + |EscapedChar(attr, c)|, [c])
  {
    var e := EscapedChar(attr, c);
    assert t[i] == e[0] && t[i + 1] == e[1] && t[i + 2] == e[2] && t[i + 3] == e[3];
    if c < 32 {
      assert t[i + 4] == e[4];
      NumericRead(t, i, c);
    } else {
      var skip := if c == '&' as int then 3 else 2;
      assert forall k :: 0 <= k < |e| - skip ==> e[skip..][k] == t[i + skip + k];
      MatchedAll(t, i + skip, e[skip..]);
    }
  }

  lemma NumericRead(t: bytes, i: nat, c: byte)
    requires 0 < c < 32 && i + 5 < |t|
    requires t[i + 2] == c / 10 + 48 && t[i + 3] == c % 10 + 48 && t[i + 4] == ';' as int
    ensures Numeric(t, i, i + 2, Ten) == Escape(i + 5, [c])
  {
    var d := [c / 10 + 48, c % 10 + 48];
    assert t[i + 2..i + 4] == d;
    assert RunEnd(Ten, t, i + 4) == i + 4;
    assert RunEnd(Ten, t, i + 3) == i + 4;
    assert RunEnd(Ten, t, i + 2) == i + 4;
    hide RunEnd;
    TwoDigits(c);
    hide Integers.Value, AllIn;
    assert Wrap(4, c) == c;
  }

  lemma TwoDigits(c: byte)
    requires 0 < c < 32
    ensures AllIn(Ten, [c / 10 + 48, c % 10 + 48]) && Integers.Value(Ten, [c / 10 + 48, c % 10 + 48]) == c
  {
    var d := [c / 10 + 48, c % 10 + 48];
    assert d[..1] == [c / 10 + 48] && d[..1][..0] == [];
    assert Integers.Value(Ten, d[..1]) == c / 10;
  }

  lemma {:induction false} MatchedAll(t: bytes, j: nat, pat: bytes)
    requires j + |pat| <= |t| && forall k :: 0 <= k < |pat| ==> pat[k] != 0 && pat[k] == t[j + k]
    ensures Matched(t, j, pat) == |pat|
    decreases |pat|
  {
    if pat == [] {
    } else {
      assert t[j] == pat[0];
      assert forall k :: 0 <= k < |pat| - 1 ==> pat[1..][k] == pat[k + 1];
      MatchedAll(t, j + 1, pat[1..]);
    }
  }

  // ----- escapes resolved in place

  /** A text in a buffer ends with a NUL, at the latest in the last byte. */
  ghost predicate Terminated(buf: array<byte>)
    reads buf
  {
    buf.Length > 0 && buf[buf.Length - 1] == 0
  }

  lemma ProducedGrows(t: bytes, v: View, start: nat, s: nat, r: nat)
    requires Sane(v, start, s) && s <= r <= |t|
    ensures Sane(v, start, r) && Produced(t, v, start, r) == Produced(t, v, start, s) + t[s..r]
  {
    if v.end < 0 {
      assert t[start..r] == t[start..s] + t[s..r];
    } else {
      assert t[v.end..r] == t[v.end..s] + t[s..r];
    }
  }

  /** Writing at s and beyond extends what has been produced by what is written. */
  lemma ProducedWrite(t: bytes, t': bytes, v: View, start: nat, s: nat, w: bytes)
    requires Sane(v, start, s) && s + |w| <= |t| == |t'| && t'[..s] == t[..s] && t'[s..s + |w|] == w
    ensures Sane(v, start, s + |w|) && Produced(t', v, start, s + |w|) == Produced(t, v, start, s) + w
  {
    ProducedGrows(t', v, start, s, s + |w|);
    if v.end < 0 {
      SamePart(t, t', s, start, s);
    } else {
      SamePart(t, t', s, start, v.end - v.size);
      SamePart(t, t', s, v.end, s);
    }
  }

  lemma SamePart(t: bytes, t': bytes, s: nat, i: nat, j: nat)
    requires s <= |t| && s <= |t'| && t[..s] == t'[..s] && i <= j <= s
    ensures t[i..j] == t'[i..j]
  {
    assert t[i..j] == t[..s][i..j] && t'[i..j] == t'[..s][i..j];
  }

  /** `*s++ = ...` for each unit of w. */
  method WriteAt(buf: array<byte>, s: nat, w: bytes)
    requires s + |w| <= buf.Length
    modifies buf
    ensures buf[..s] == old(buf[..s]) && buf[s..s + |w|] == w && buf[s + |w|..] == old(buf[s + |w|..])
  {
    var i := 0;
    while i < |w|
      invariant 0 <= i <= |w|
      invariant forall k :: s <= k < s + i ==> buf[k] == w[k - s]
      invariant forall k :: (0 <= k < s || s + i <= k < buf.Length) ==> buf[k] == old(buf[k])
    {
      buf[s + i] := w[i];
      i := i + 1;
    }
  }

  /** Writes w over the characters from s on and skips the rest of them up to stre. */
  method Replace(buf: array<byte>, s: nat, w: bytes, stre: nat, g: Gap, ghost start: nat)
    requires Sane(g.Now(), start, s) && s + |w| <= stre <= buf.Length
    modifies buf, g
    ensures Sane(g.Now(), start, stre) && buf[stre..] == old(buf[stre..]) && buf[..start] == old(buf[..start])
    ensures Produced(buf[..], g.Now(), start, stre) == old(Produced(buf[..], g.Now(), start, s)) + w
  {
    hide Sane, Produced;
    StartBelow(g.Now(), start, s);
    WriteAt(buf, s, w);
    SameHead(buf[..], old(buf[..]), start, s);
    ProducedWrite(old(buf[..]), buf[..], g.Now(), start, s, w);
    var i := s + |w|;
    SameTail(buf[..], old(buf[..]), i, stre);
    label L:
    var r := g.Push(buf, i, stre - i, start);
    SameTail(buf[..], old@L(buf[..]), i, stre);
  }

  lemma StartBelow(v: View, start: nat, s: nat)
    requires Sane(v, start, s)
    ensures start <= s
  {}

  lemma SameTail(t: bytes, t': bytes, i: nat, j: nat)
    requires i <= j <= |t| && i <= |t'| && t[i..] == t'[i..]
    ensures j <= |t'| && t[j..] == t'[j..]
  {
    assert t[j..] == t[i..][j - i..] && t'[j..] == t'[i..][j - i..];
  }

  /** The comparisons `*++stre == ...`: how far pat is followed from j on. */
  method Follow(buf: array<byte>, j: nat, pat: bytes) returns (k: nat, all: bool)
    requires Terminated(buf) && j < buf.Length && forall i :: 0 <= i < |pat| ==> pat[i] != 0
    ensures k == j + Matched(buf[..], j, pat) < buf.Length && (all <==> Matched(buf[..], j, pat) == |pat|)
  {
    k := j;
    ghost var t := buf[..];
    hide Matched;
    assert pat[0..] == pat;
    while k - j < |pat| && buf[k] == pat[k - j]
      invariant j <= k < buf.Length && k - j <= |pat|
      invariant Matched(t, j, pat) == k - j + Matched(t, k, pat[k - j..])
    {
      MatchStep(t, k, pat, k - j);
      k := k + 1;
    }
    MatchStep(t, k, pat, k - j);
    all := k - j == |pat|;
  }

  lemma MatchStep(t: bytes, k: nat, pat: bytes, m: nat)
    requires m <= |pat| && forall i :: 0 <= i < |pat| ==> pat[i] != 0
    ensures Matched(t, k, pat[m..]) == if m < |pat| && At(t, k) == pat[m] then 1 + Matched(t, k + 1, pat[m + 1..])
      else 0
  {
    if m < |pat| { assert pat[m..][1..] == pat[m + 1..]; }
  }

  /** e was read at s: reading stands at e.next, its text has been produced, and nothing from there on was touched. */
  ghost predicate Resolved(t: bytes, v: View, t': bytes, v': View, start: nat, s: nat, e: Escape) {
    && s < e.next < |t| == |t'| && Sane(v, start, s) && Sane(v', start, e.next)
    && Produced(t', v', start, e.next) == Produced(t, v, start, s) + e.text
    && t'[e.next..] == t[e.next..] && t'[..start] == t[..start]
  }

  lemma Untouched(t: bytes, v: View, start: nat, s: nat, r: nat)
    requires Sane(v, start, s) && s < r < |t|
    ensures Resolved(t, v, t, v, start, s, Escape(r, t[s..r]))
  {
    ProducedGrows(t, v, start, s, r);
  }

  method NamedEscape(buf: array<byte>, s: nat, j: nat, pat: bytes, c: byte, g: Gap, ghost start: nat) returns (r: nat)
    requires Terminated(buf) && Sane(g.Now(), start, s) && s + 2 <= j < buf.Length
    requires forall i :: 0 <= i < |pat| ==> pat[i] != 0
    modifies buf, g
    ensures (var e := Named(old(buf[..]), s, j - s, pat, c);
             r == e.next && Resolved(old(buf[..]), old(g.Now()), buf[..], g.Now(), start, s, e))
  {
    var k, all := Follow(buf, j, pat);
    ghost var t, v := buf[..], g.Now();
    Untouched(t, v, start, s, k);
    if all {
      Replace(buf, s, [c], k, g, start);
    }
    r := k;
  }

  /** A character reference whose digits start at j. */
  method NumericEscape(buf: array<byte>, s: nat, j: nat, b: Base, g: Gap, ghost start: nat) returns (r: nat)
    requires Terminated(buf) && Sane(g.Now(), start, s) && s + 2 <= j < buf.Length
    modifies buf, g
    ensures (var e := Numeric(old(buf[..]), s, j, b);
             r == e.next && Resolved(old(buf[..]), old(g.Now()), buf[..], g.Now(), start, s, e))
  {
    hide Numeric, RunEnd, AnyUtf8, Resolved, Produced;
    ghost var t, v := buf[..], g.Now();
    NumericCases(t, s, j, b);
    InsideText(b, t, j);
    if buf[j] == ';' as int {
      Untouched(t, v, start, s, j);
      return j;
    }
    var ucsc, k := Accumulate(4, b, buf[..], j);
    if buf[k] == ';' as int {
      ReplaceNumber(buf, s, ucsc, k + 1, g, start);
      return k + 1;
    }
    Untouched(t, v, start, s, k);
    r := k;
  }

  /** The character a reference stands for, over the reference. */
  method ReplaceNumber(buf: array<byte>, s: nat, ucsc: nat, stre: nat, g: Gap, ghost start: nat)
    requires Sane(g.Now(), start, s) && s + 4 <= stre < buf.Length
    modifies buf, g
    ensures Resolved(old(buf[..]), old(g.Now()), buf[..], g.Now(), start, s, Escape(stre, AnyUtf8(ucsc)))
  {
    hide Produced, Sane, AnyUtf8;
    var w := AnyUtf8(ucsc);
    Replace(buf, s, w, stre, g, start);
  }

  lemma NumericCases(t: bytes, i: nat, j: nat, b: Base)
    requires i < j <= |t|
    ensures (var k := RunEnd(b, t, j);
             Numeric(t, i, j, b)
             == if At(t, j) == ';' as int then Escape(j, t[i..j])
                else if At(t, k) == ';' as int then Escape(k + 1, AnyUtf8(Wrap(4, Integers.Value(b, t[j..k]))))
                else Escape(k, t[i..k]))
  {}

  lemma {:induction false} InsideText(b: Base, t: bytes, j: nat)
    requires j < |t| && t[|t| - 1] == 0
    ensures RunEnd(b, t, j) < |t| && (t[j] != ';' as int && t[RunEnd(b, t, j)] == ';' as int ==> RunEnd(b, t, j) > j)
    decreases |t| - j
  {
    if InBase(b, t[j]) { InsideText(b, t, j + 1); }
  }

  /** `strconv_escape`. */
  method StrconvEscape(buf: array<byte>, s: nat, g: Gap, ghost start: nat) returns (r: nat)
    requires Terminated(buf) && Sane(g.Now(), start, s) && s + 1 < buf.Length
    modifies buf, g
    ensures (var e := EscapeAt(old(buf[..]), s);
             r == e.next && Resolved(old(buf[..]), old(g.Now()), buf[..], g.Now(), start, s, e))
  {
    hide Resolved, Numeric, Named, Sane;
    ghost var t, v := buf[..], g.Now();
    var stre := s + 1;
    var c := buf[stre];
    if c == '#' as int {
      if buf[stre + 1] == 'x' as int {
        r := NumericEscape(buf, s, stre + 2, Sixteen, g, start);
      } else {
        r := NumericEscape(buf, s, stre + 1, Ten, g, start);
      }
    } else if c == 'a' as int {
      stre := stre + 1;
      if buf[stre] == 'm' as int {
        r := NamedEscape(buf, s, stre + 1, ['p' as int, ';' as int], '&' as int, g, start);
      } else if buf[stre] == 'p' as int {
        r := NamedEscape(buf, s, stre + 1, ['o' as int, 's' as int, ';' as int], '\'' as int, g, start);
      } else {
        Untouched(t, v, start, s, stre);
        r := stre;
      }
    } else if c == 'g' as int {
      r := NamedEscape(buf, s, stre + 1, ['t' as int, ';' as int], '>' as int, g, start);
    } else if c == 'l' as int {
      r := NamedEscape(buf, s, stre + 1, ['t' as int, ';' as int], '<' as int, g, start);
    } else if c == 'q' as int {
      r := NamedEscape(buf, s, stre + 1, ['u' as int, 'o' as int, 't' as int, ';' as int], '"' as int, g, start);
    } else {
      Untouched(t, v, start, s, stre);
      r := stre;
    }
  }

  // ----- what an escape depends on

  lemma SuffixAt(a: bytes, b: bytes, i: nat, k: nat)
    requires |a| == |b| && i <= k && i <= |a| && a[i..] == b[i..]
    ensures At(a, k) == At(b, k) && (k <= |a| ==> a[k..] == b[k..])
    ensures forall m :: k <= m <= |a| ==> a[k..m] == b[k..m]
  {
    if k < |a| { assert a[k] == a[i..][k - i] && b[k] == b[i..][k - i]; }
    if k <= |a| {
      SameTail(a, b, i, k);
      assert forall m :: k <= m <= |a| ==> a[k..m] == a[k..][..m - k] && b[k..m] == b[k..][..m - k];
    }
  }

  lemma {:induction false} SuffixMatched(a: bytes, b: bytes, i: nat, j: nat, pat: bytes)
    requires |a| == |b| && i <= j && i <= |a| && a[i..] == b[i..] && forall k :: 0 <= k < |pat| ==> pat[k] != 0
    ensures Matched(a, j, pat) == Matched(b, j, pat)
    decreases |pat|
  {
    SuffixAt(a, b, i, j);
    if pat == [] {
    } else {
      SuffixMatched(a, b, i, j + 1, pat[1..]);
    }
  }

  lemma {:induction false} SuffixRun(a: bytes, b: bytes, i: nat, base: Base, j: nat)
    requires |a| == |b| && i <= j <= |a| && a[i..] == b[i..]
    ensures RunEnd(base, a, j) == RunEnd(base, b, j)
    decreases |a| - j
  {
    SuffixAt(a, b, i, j);
    if InBase(base, At(a, j)) { SuffixRun(a, b, i, base, j + 1); }
  }

  lemma SuffixNumeric(a: bytes, b: bytes, i: nat, j: nat, base: Base)
    requires |a| == |b| && i < j <= |a| && a[i..] == b[i..]
    ensures Numeric(a, i, j, base) == Numeric(b, i, j, base)
  {
    SuffixAt(a, b, i, i);
    SuffixAt(a, b, i, j);
    SuffixRun(a, b, i, base, j);
    SuffixAt(a, b, i, RunEnd(base, a, j));
  }

  lemma SuffixNamed(a: bytes, b: bytes, i: nat, skip: nat, pat: bytes, c: byte)
    requires |a| == |b| && i + skip <= |a| && a[i..] == b[i..] && forall k :: 0 <= k < |pat| ==> pat[k] != 0
    ensures Named(a, i, skip, pat, c) == Named(b, i, skip, pat, c)
  {
    SuffixAt(a, b, i, i);
    SuffixMatched(a, b, i, i + skip, pat);
  }

  /** What an escape means depends on the unread text only. */
  lemma SuffixEscape(a: bytes, b: bytes, i: nat)
    requires |a| == |b| && i < |a| && a[i..] == b[i..]
    ensures EscapeAt(a, i) == EscapeAt(b, i)
  {
    SuffixAt(a, b, i, i);
    SuffixAt(a, b, i, i + 1);
    SuffixAt(a, b, i, i + 2);
    var c, d := At(a, i + 1), At(a, i + 2);
    hide Numeric, Named;
    if c == '#' as int {
      if d == 'x' as int { SuffixNumeric(a, b, i, i + 3, Sixteen); } else { SuffixNumeric(a, b, i, i + 2, Ten); }
    } else if c == 'a' as int {
      if d == 'm' as int { SuffixNamed(a, b, i, 3, ['p' as int, ';' as int], '&' as int); }
      if d == 'p' as int { SuffixNamed(a, b, i, 3, ['o' as int, 's' as int, ';' as int], '\'' as int); }
    } else if c == 'g' as int {
      SuffixNamed(a, b, i, 2, ['t' as int, ';' as int], '>' as int);
    } else if c == 'l' as int {
      SuffixNamed(a, b, i, 2, ['t' as int, ';' as int], '<' as int);
    } else if c == 'q' as int {
      SuffixNamed(a, b, i, 2, ['u' as int, 'o' as int, 't' as int, ';' as int], '"' as int);
    }
  }
}
