/**
  Attribute values, text, comments and CDATA sections read in place: what has been normalised and unescaped is written
  over the bytes that have been read.
*/
module InPlaceReading {
  import opened Bytes
  import opened Integers
  import opened GapEditing
  import opened AttributeText
  import opened TextReading

  // ----- what a piece depends on

  lemma {:induction false} SuffixSpaces(a: bytes, b: bytes, i: nat, j: nat)
    requires |a| == |b| && i <= j <= |a| && a[i..] == b[i..]
    ensures AfterSpaces(a, j) == AfterSpaces(b, j)
    decreases |a| - j
  {
    SuffixAt(a, b, i, j);
    if !IsSpace(At(a, j)) {
    } else {
      SuffixSpaces(a, b, i, j + 1);
    }
  }

  /** What stands at i depends on the text from i on. */
  lemma SuffixPiece(r: Reader, a: bytes, b: bytes, i: nat)
    requires Proper(r) && |a| == |b| && i < |a| && a[i..] == b[i..]
    ensures PieceAt(r, a, i) == PieceAt(r, b, i)
  {
    hide EscapeAt, AfterSpaces;
    SuffixAt(a, b, i, i);
    SuffixAt(a, b, i, i + 1);
    SuffixAt(a, b, i, i + 2);
    SuffixSpaces(a, b, i, i + 1);
    SuffixEscape(a, b, i);
  }

  // ----- the state of a reading

  /** Reading has reached s; what the original text t0 reads as is what has been produced, then the rest. */
  ghost predicate Reading(r: Reader, t0: bytes, t: bytes, v: View, start: nat, s: nat) {
    && Proper(r) && start <= s < |t| == |t0| && Sane(v, start, s)
    && t[s..] == t0[s..] && t[..start] == t0[..start]
    && Pieces(r, t0, Begin(r, t0, start)) == Before(Produced(t, v, start, s), Pieces(r, t0, s))
  }

  lemma Associate(a: bytes, b: bytes, p: Parsed)
    ensures Before(a, Before(b, p)) == Before(a + b, p)
  {
    if p.Done? { assert a + (b + p.text) == a + b + p.text; }
  }

  /** One piece has gone to the output. */
  ghost predicate PutOut(t: bytes, v: View, t': bytes, v': View, start: nat, s: nat, next: nat, text: bytes) {
    && s < next < |t| == |t'| && Sane(v, start, s) && Sane(v', start, next)
    && Produced(t', v', start, next) == Produced(t, v, start, s) + text
    && t'[next..] == t[next..] && t'[..start] == t[..start]
  }

  lemma Advance(r: Reader, t0: bytes, t: bytes, v: View, start: nat, s: nat, t': bytes, v': View, next: nat,
        text: bytes)
    requires Reading(r, t0, t, v, start, s) && PutOut(t, v, t', v', start, s, next, text)
    requires PieceAt(r, t, s) == Put(next, text)
    ensures Reading(r, t0, t', v', start, next)
  {
    hide PieceAt, Produced, Begin;
    SuffixPiece(r, t, t0, s);
    SameTail(t, t0, s, next);
    Associate(Produced(t, v, start, s), text, Pieces(r, t0, next));
  }

  /** What a reader needs to know to go on. */
  lemma Bounds(r: Reader, t0: bytes, t: bytes, v: View, start: nat, s: nat)
    requires Reading(r, t0, t, v, start, s) && t0[|t0| - 1] == 0
    ensures Proper(r) && start <= s < |t| == |t0| && Sane(v, start, s) && t[|t| - 1] == 0 && (t[s] != 0 ==> s + 1 < |t|)
    ensures t[..start] == t0[..start]
  {
    SuffixAt(t, t0, s, |t| - 1);
  }

  lemma PlainOut(t: bytes, v: View, start: nat, s: nat)
    requires Sane(v, start, s) && s + 1 < |t|
    ensures PutOut(t, v, t, v, start, s, s + 1, [t[s]])
  {
    ProducedGrows(t, v, start, s, s + 1);
    assert t[s..s + 1] == [t[s]];
  }

  lemma EscapeOut(t: bytes, v: View, t': bytes, v': View, start: nat, s: nat, e: Escape)
    requires Resolved(t, v, t', v', start, s, e)
    ensures PutOut(t, v, t', v', start, s, e.next, e.text)
  {}

  // ----- the character tables

  /** The `ct_parse_` classes: where a scan of plain characters stops. */
  predicate IsSpecial(r: Reader, c: byte) {
    c == 0 || match r
              case Pcdata(_, _, _) => c == '&' as int || c == 13 || c == '<' as int
              case Comment(_) => c == '-' as int || c == '>' as int || c == 13
              case Cdata(_) => c == ']' as int || c == '>' as int || c == 13
              case Wnorm(_, _) => InAttribute(c) || IsSpace(c)
              case Wconv(_, _) => InAttribute(c) || c == 10 || c == 9
              case _ => InAttribute(c)
  }

  /** `ct_parse_attr`. */
  predicate InAttribute(c: byte) {
    c == 0 || c == '&' as int || c == 13 || c == '\'' as int || c == '"' as int
  }

  lemma PlainPiece(r: Reader, t: bytes, s: nat)
    requires Proper(r) && s < |t| && !IsSpecial(r, t[s])
    ensures PieceAt(r, t, s) == Put(s + 1, [t[s]])
  {}

  /** `PUGI__SCANWHILE_UNROLL`: plain characters stay where they are. */
  method Scan(buf: array<byte>, r: Reader, g: Gap, s0: nat, ghost start: nat, ghost t0: bytes) returns (s: nat)
    requires Reading(r, t0, buf[..], g.Now(), start, s0) && t0[|t0| - 1] == 0
    ensures s0 <= s < buf.Length && Reading(r, t0, buf[..], g.Now(), start, s) && IsSpecial(r, buf[s])
  {
    hide Reading, IsSpecial, PieceAt, PutOut;
    s := s0;
    ghost var t, v := buf[..], g.Now();
    Bounds(r, t0, t, v, start, s);
    while !IsSpecial(r, buf[s])
      invariant s0 <= s < buf.Length && Reading(r, t0, t, v, start, s)
      decreases buf.Length - s
    {
      NulIsSpecial(r, buf[s]);
      Bounds(r, t0, t, v, start, s);
      PlainPiece(r, t, s);
      PlainOut(t, v, start, s);
      Advance(r, t0, t, v, start, s, t, v, s + 1, [t[s]]);
      s := s + 1;
    }
  }

  lemma NulIsSpecial(r: Reader, c: byte)
    ensures c == 0 ==> IsSpecial(r, c)
  {}

  // ----- the branches of the loops

  /** `*s++ = w`. */
  method PutOver(buf: array<byte>, s: nat, w: byte, g: Gap, ghost start: nat)
    requires Sane(g.Now(), start, s) && s + 1 < buf.Length
    modifies buf
    ensures PutOut(old(buf[..]), g.Now(), buf[..], g.Now(), start, s, s + 1, [w])
    ensures buf[s + 1] == old(buf[s + 1]) && buf[buf.Length - 1] == old(buf[buf.Length - 1])
  {
    ghost var t := buf[..];
    StartBelow(g.Now(), start, s);
    buf[s] := w;
    ProducedWrite(t, buf[..], g.Now(), start, s, [w]);
  }

  /** Skips bytes that come to nothing. */
  lemma PushedOut(t: bytes, v: View, t1: bytes, v1: View, t2: bytes, v2: View, start: nat, s: nat, m: nat, n: nat,
        text: bytes)
    requires PutOut(t, v, t1, v1, start, s, m, text) && m <= n < |t2| == |t1| && Sane(v2, start, n)
    requires Produced(t2, v2, start, n) == Produced(t1, v1, start, m) && t2[m..] == t1[m..]
    requires t2[..start] == t1[..start]
    ensures PutOut(t, v, t2, v2, start, s, n, text)
  {
    hide Produced, Sane;
    SameTail(t2, t1, m, n);
    SameTail(t1, t, m, n);
  }

  /** A carriage return is overwritten with w, and a line feed behind it skipped. */
  method LineEnd(buf: array<byte>, s: nat, w: byte, g: Gap, ghost start: nat) returns (r: nat)
    requires Terminated(buf) && Sane(g.Now(), start, s) && s + 1 < buf.Length && buf[s] == 13
    modifies buf, g
    ensures r == AfterLineEnd(old(buf[..]), s)
    ensures PutOut(old(buf[..]), old(g.Now()), buf[..], g.Now(), start, s, r, [w])
  {
    hide Sane, Produced;
    ghost var t, v := buf[..], g.Now();
    PutOver(buf, s, w, g, start);
    r := s + 1;
    if buf[r] == 10 {
      ghost var t1 := buf[..];
      r := g.Push(buf, r, 1, start);
      PushedOut(t, v, t1, v, buf[..], g.Now(), start, s, s + 1, r, [w]);
    }
  }

  method TakeLineEnd(buf: array<byte>, ghost r: Reader, w: byte, s: nat, g: Gap, ghost start: nat, ghost t0: bytes)
    returns (next: nat)
    requires Reading(r, t0, buf[..], g.Now(), start, s) && t0[|t0| - 1] == 0 && buf[s] == 13
    requires PieceAt(r, buf[..], s) == Put(AfterLineEnd(buf[..], s), [w])
    modifies buf, g
    ensures s < next && Reading(r, t0, buf[..], g.Now(), start, next)
  {
    hide Reading, PieceAt, PutOut, AfterLineEnd;
    ghost var t, v := buf[..], g.Now();
    Bounds(r, t0, t, v, start, s);
    next := LineEnd(buf, s, w, g, start);
    Advance(r, t0, t, v, start, s, buf[..], g.Now(), next, [w]);
    Onward(t, v, buf[..], g.Now(), start, s, next, [w]);
  }

  lemma Onward(t: bytes, v: View, t': bytes, v': View, start: nat, s: nat, next: nat, text: bytes)
    requires PutOut(t, v, t', v', start, s, next, text)
    ensures s < next
  {}

  method TakeEscape(buf: array<byte>, ghost r: Reader, s: nat, g: Gap, ghost start: nat, ghost t0: bytes)
    returns (next: nat)
    requires Reading(r, t0, buf[..], g.Now(), start, s) && t0[|t0| - 1] == 0 && buf[s] != 0
    requires PieceAt(r, buf[..], s) == Put(EscapeAt(buf[..], s).next, EscapeAt(buf[..], s).text)
    modifies buf, g
    ensures s < next && Reading(r, t0, buf[..], g.Now(), start, next)
  {
    hide Reading, PieceAt, PutOut, EscapeAt, Resolved;
    ghost var t, v := buf[..], g.Now();
    ghost var e := EscapeAt(t, s);
    Bounds(r, t0, t, v, start, s);
    next := StrconvEscape(buf, s, g, start);
    EscapeOut(t, v, buf[..], g.Now(), start, s, e);
    Advance(r, t0, t, v, start, s, buf[..], g.Now(), next, e.text);
    Onward(t, v, buf[..], g.Now(), start, s, next, e.text);
  }

  /** `++s`: the character stays. */
  lemma StepOn(r: Reader, t0: bytes, t: bytes, v: View, start: nat, s: nat)
    requires Reading(r, t0, t, v, start, s) && t0[|t0| - 1] == 0 && t[s] != 0 && PieceAt(r, t, s) == Put(s + 1, [t[s]])
    ensures Reading(r, t0, t, v, start, s + 1)
  {
    hide PieceAt, PutOut;
    Bounds(r, t0, t, v, start, s);
    PlainOut(t, v, start, s);
    Advance(r, t0, t, v, start, s, t, v, s + 1, [t[s]]);
  }

  /** `*s++ = ' '`. */
  method TakeOne(buf: array<byte>, ghost r: Reader, w: byte, s: nat, g: Gap, ghost start: nat, ghost t0: bytes)
    returns (next: nat)
    requires Reading(r, t0, buf[..], g.Now(), start, s) && t0[|t0| - 1] == 0 && buf[s] != 0
    requires PieceAt(r, buf[..], s) == Put(s + 1, [w])
    modifies buf
    ensures s < next && Reading(r, t0, buf[..], g.Now(), start, next)
  {
    hide Reading, PieceAt, PutOut;
    ghost var t, v := buf[..], g.Now();
    Bounds(r, t0, t, v, start, s);
    next := s + 1;
    PutOver(buf, s, w, g, start);
    Advance(r, t0, t, v, start, s, buf[..], g.Now(), next, [w]);
  }

  // ----- the end

  /** The text is complete in [start, end). */
  ghost predicate Complete(r: Reader, t0: bytes, t: bytes, start: nat, end: nat, next: nat)
    requires Proper(r) && start <= |t0|
  {
    && start <= end < |t| == |t0| && end <= next <= |t| && (end == next ==> t[end] == 0)
    && Pieces(r, t0, Begin(r, t0, start)) == Done(t[start..end], next)
    && t[next..] == t0[next..] && t[..start] == t0[..start]
  }

  /** The gap is closed at the end of the text. */
  method Close(buf: array<byte>, ghost r: Reader, s: nat, g: Gap, ghost start: nat, ghost t0: bytes) returns (end: nat)
    requires Reading(r, t0, buf[..], g.Now(), start, s) && t0[|t0| - 1] == 0 && EndsAt(r, buf[..], s)
    modifies buf
    ensures end <= s && buf[s..] == old(buf[s..])
    ensures Complete(r, t0, buf[..], start, end, AfterEnd(r, old(buf[..]), s))
  {
    hide EndsAt, AfterEnd;
    ghost var t, v := buf[..], g.Now();
    end := g.Flush(buf, s, start);
    Closing(r, t0, t, v, start, s, buf[..], end);
  }

  lemma Closing(r: Reader, t0: bytes, t: bytes, v: View, start: nat, s: nat, t': bytes, end: nat)
    requires Reading(r, t0, t, v, start, s) && EndsAt(r, t, s) && start <= end <= s < |t'| == |t|
    requires t'[start..end] == Produced(t, v, start, s) && t'[s..] == t[s..] && t'[..start] == t[..start]
    ensures Complete(r, t0, t', start, end, AfterEnd(r, t, s))
  {
    hide Produced, Begin;
    SuffixPiece(r, t, t0, s);
    var next := AfterEnd(r, t, s);
    EndInside(r, t, s);
    SameTail(t', t, s, next);
    SameTail(t, t0, s, next);
    assert t'[s] == t'[s..][0] == t[s..][0] == t[s];
    assert t'[start..end] + [] == t'[start..end];
  }

  lemma EndInside(r: Reader, t: bytes, s: nat)
    requires Proper(r) && s < |t| && EndsAt(r, t, s)
    ensures PieceAt(r, t, s) == Stop(AfterEnd(r, t, s)) && s <= AfterEnd(r, t, s) <= |t|
    ensures AfterEnd(r, t, s) == s ==> t[s] == 0
  {}

  /**
    The reader's result stands in place of what was read, followed by a NUL; nothing before it or behind the end is
    touched. Without an end there is no result.
  */
  ghost predicate Rewritten(r: Reader, t0: bytes, start: nat, t: bytes, ok: bool, next: nat)
    requires Proper(r) && start <= |t0|
  {
    var p := Result(r, t0, start);
    && (ok <==> p.Done?)
    && (ok ==>
          && |t| == |t0| && next == p.next && start + |p.text| < |t|
          && t[start..start + |p.text|] == p.text && t[start + |p.text|] == 0
          && t[next..] == t0[next..] && t[..start] == t0[..start])
  }

  /** `*end = 0`. */
  method Terminate(buf: array<byte>, ghost r: Reader, ghost start: nat, end: nat, ghost next: nat, ghost t0: bytes)
    requires Proper(r) && start <= |t0| && Complete(r, t0, buf[..], start, end, next) && !Trims(r)
    modifies buf
    ensures Rewritten(r, t0, start, buf[..], true, next)
  {
    hide Pieces, Begin;
    ghost var t := buf[..];
    buf[end] := 0;
    OneByte(t, buf[..], start, end, next);
  }

  /** Storing a NUL at the end changes nothing that counts. */
  lemma OneByte(t: bytes, t': bytes, start: nat, end: nat, next: nat)
    requires start <= end < |t| && end <= next <= |t| && t' == t[end := 0] && (end == next ==> t[end] == 0)
    ensures t'[start..end] == t[start..end] && t'[next..] == t[next..] && t'[..start] == t[..start] && t'[end] == 0
  {}

  lemma NoEnd(r: Reader, t0: bytes, t: bytes, v: View, start: nat, s: nat)
    requires Reading(r, t0, t, v, start, s) && PieceAt(r, t, s) == Fail
    ensures Rewritten(r, t0, start, t, false, 0)
  {
    hide PieceAt, Produced, Begin;
    SuffixPiece(r, t, t0, s);
  }

  lemma Started(r: Reader, t0: bytes, start: nat)
    requires Proper(r) && start < |t0| && !r.Wnorm?
    ensures Reading(r, t0, t0, View(-1, 0), start, start)
  {
    assert t0[start..start] == [];
  }

  // ----- trimming at the end

  lemma TrimStep(t: bytes, start: nat, end: nat)
    requires start <= end <= |t|
    ensures Trimmed(t[start..end]) == if end > start && IsSpace(t[end - 1]) then Trimmed(t[start..end - 1])
      else t[start..end]
  {
    if end > start { assert t[start..end][..end - start - 1] == t[start..end - 1]; }
  }

  /** The loop that moves the end of the text in front of trailing white space. */
  method TrimEnd(buf: array<byte>, start: nat, end0: nat) returns (end: nat)
    requires start <= end0 <= buf.Length
    ensures start <= end <= end0 && buf[start..end] == Trimmed(buf[start..end0])
  {
    hide Trimmed, IsSpace;
    ghost var t := buf[..];
    end := end0;
    while end > start && IsSpace(buf[end - 1])
      invariant start <= end <= end0 && Trimmed(t[start..end]) == Trimmed(t[start..end0])
    {
      TrimStep(t, start, end);
      end := end - 1;
    }
    TrimStep(t, start, end);
    assert buf[start..end] == t[start..end] && buf[start..end0] == t[start..end0];
  }

  /** The loop that overwrites trailing white space with NULs, and stops at the quote in front of an empty value. */
  method ClearBack(buf: array<byte>, ghost start: nat, end: nat) returns (ghost stop: nat)
    requires 0 < start <= end < buf.Length && !IsSpace(buf[start - 1])
    modifies buf
    ensures start <= stop <= end && buf[start..stop] == Trimmed(old(buf[start..end])) && buf[stop] == 0
    ensures buf[..start] == old(buf[..start]) && buf[end + 1..] == old(buf[end + 1..])
  {
    hide Trimmed, IsSpace;
    ghost var t := buf[..];
    stop := end;
    var str := end;
    buf[str] := 0;
    str := str - 1;
    TrimStep(t, start, stop);
    while IsSpace(buf[str])
      invariant start <= stop <= end && str == stop - 1 && buf[..stop] == t[..stop] && buf[stop] == 0
      invariant buf[end + 1..] == t[end + 1..] && Trimmed(t[start..stop]) == Trimmed(t[start..end])
      invariant Trimmed(t[start..stop]) == if stop > start && IsSpace(t[stop - 1]) then Trimmed(t[start..stop - 1])
        else t[start..stop]
      decreases stop
    {
      assert buf[str] == buf[..stop][str] == t[str];
      stop := str;
      buf[str] := 0;
      str := str - 1;
      assert buf[..stop] == t[..stop];
      TrimStep(t, start, stop);
    }
    assert buf[str] == buf[..stop][str] == t[str];
    assert buf[start..stop] == buf[..stop][start..] == t[start..stop];
    assert buf[..start] == buf[..stop][..start] == t[..start];
  }

  // ----- the readers

  /** `parse_simple`. */
  method ParseSimple(buf: array<byte>, start: nat, endQuote: byte, escapes: bool) returns (ok: bool, next: nat)
    requires Terminated(buf) && start < buf.Length && Proper(Simple(endQuote, escapes))
    modifies buf
    ensures Rewritten(Simple(endQuote, escapes), old(buf[..]), start, buf[..], ok, next)
  {
    hide Reading, Pieces, Rewritten, Complete, EscapeAt, AfterSpaces, AfterLineEnd;
    ghost var t0 := buf[..];
    var r := Simple(endQuote, escapes);
    var g := new Gap();
    var s := start;
    Started(r, t0, start);
    while true
      invariant Reading(r, t0, buf[..], g.Now(), start, s) && fresh(g)
      decreases buf.Length - s
    {
      s := Scan(buf, r, g, s, start, t0);
      Bounds(r, t0, buf[..], g.Now(), start, s);
      if buf[s] == endQuote {
        var end := Close(buf, r, s, g, start, t0);
        Terminate(buf, r, start, end, s + 1, t0);
        return true, s + 1;
      } else if escapes && buf[s] == '&' as int {
        s := TakeEscape(buf, r, s, g, start, t0);
      } else if buf[s] == 0 {
        NoEnd(r, t0, buf[..], g.Now(), start, s);
        return false, 0;
      } else {
        StepOn(r, t0, buf[..], g.Now(), start, s);
        s := s + 1;
      }
    }
  }

  /** `parse_eol`. */
  method ParseEol(buf: array<byte>, start: nat, endQuote: byte, escapes: bool) returns (ok: bool, next: nat)
    requires Terminated(buf) && start < buf.Length && Proper(Eol(endQuote, escapes))
    modifies buf
    ensures Rewritten(Eol(endQuote, escapes), old(buf[..]), start, buf[..], ok, next)
  {
    hide Reading, Pieces, Rewritten, Complete, EscapeAt, AfterSpaces, AfterLineEnd;
    ghost var t0 := buf[..];
    var r := Eol(endQuote, escapes);
    var g := new Gap();
    var s := start;
    Started(r, t0, start);
    while true
      invariant Reading(r, t0, buf[..], g.Now(), start, s) && fresh(g)
      decreases buf.Length - s
    {
      s := Scan(buf, r, g, s, start, t0);
      Bounds(r, t0, buf[..], g.Now(), start, s);
      if buf[s] == endQuote {
        var end := Close(buf, r, s, g, start, t0);
        Terminate(buf, r, start, end, s + 1, t0);
        return true, s + 1;
      } else if buf[s] == 13 {
        s := TakeLineEnd(buf, r, 10, s, g, start, t0);
      } else if escapes && buf[s] == '&' as int {
        s := TakeEscape(buf, r, s, g, start, t0);
      } else if buf[s] == 0 {
        NoEnd(r, t0, buf[..], g.Now(), start, s);
        return false, 0;
      } else {
        StepOn(r, t0, buf[..], g.Now(), start, s);
        s := s + 1;
      }
    }
  }

  /**
    `parse_wconv`: the value is rewritten in place from start, NUL-terminated, exactly as a rewriting into a fresh text
    would have it; nothing else is touched.
  */
  method ParseWconv(buf: array<byte>, start: nat, endQuote: byte, escapes: bool) returns (ok: bool, next: nat)
    requires Terminated(buf) && start < buf.Length && Proper(Wconv(endQuote, escapes))
    modifies buf
    ensures Rewritten(Wconv(endQuote, escapes), old(buf[..]), start, buf[..], ok, next)
  {
    hide Reading, Pieces, Rewritten, Complete, EscapeAt, AfterSpaces, AfterLineEnd;
    ghost var t0 := buf[..];
    var r := Wconv(endQuote, escapes);
    var g := new Gap();
    var s := start;
    Started(r, t0, start);
    while true
      invariant Reading(r, t0, buf[..], g.Now(), start, s) && fresh(g)
      decreases buf.Length - s
    {
      s := Scan(buf, r, g, s, start, t0);
      Bounds(r, t0, buf[..], g.Now(), start, s);
      if buf[s] == endQuote {
        var end := Close(buf, r, s, g, start, t0);
        Terminate(buf, r, start, end, s + 1, t0);
        return true, s + 1;
      } else if IsSpace(buf[s]) {
        if buf[s] == 13 {
          s := TakeLineEnd(buf, r, 32, s, g, start, t0);
        } else {
          OneSpace(buf[..], s);
          s := TakeOne(buf, r, 32, s, g, start, t0);
        }
      } else if escapes && buf[s] == '&' as int {
        s := TakeEscape(buf, r, s, g, start, t0);
      } else if buf[s] == 0 {
        NoEnd(r, t0, buf[..], g.Now(), start, s);
        return false, 0;
      } else {
        StepOn(r, t0, buf[..], g.Now(), start, s);
        s := s + 1;
      }
    }
  }

  lemma OneSpace(t: bytes, s: nat)
    ensures At(t, s) != 13 ==> AfterLineEnd(t, s) == s + 1
  {}

  /** Where a run of white space ends. */
  method EndOfRun(buf: array<byte>, s: nat) returns (str: nat)
    requires Terminated(buf) && s < buf.Length
    ensures s <= str < buf.Length && str == AfterSpaces(buf[..], s)
  {
    str := s;
    while IsSpace(buf[str])
      invariant s <= str < buf.Length && AfterSpaces(buf[..], s) == AfterSpaces(buf[..], str)
      decreases buf.Length - str
    {
      str := str + 1;
    }
  }

  /** A run of white space becomes one space. */
  method SpaceRun(buf: array<byte>, s: nat, g: Gap, ghost start: nat) returns (r: nat)
    requires Terminated(buf) && Sane(g.Now(), start, s) && s + 1 < buf.Length && IsSpace(buf[s])
    modifies buf, g
    ensures r == AfterSpaces(old(buf[..]), s + 1)
    ensures PutOut(old(buf[..]), old(g.Now()), buf[..], g.Now(), start, s, r, [32])
  {
    hide Sane, Produced, AfterSpaces;
    ghost var t, v := buf[..], g.Now();
    PutOver(buf, s, 32, g, start);
    ghost var t1 := buf[..];
    SuffixSpaces(t, t1, s + 1, s + 1);
    r := s + 1;
    NoRun(t1, r);
    if IsSpace(buf[r]) {
      var str := EndOfRun(buf, r);
      r := g.Push(buf, r, str - r, start);
      PushedOut(t, v, t1, v, buf[..], g.Now(), start, s, s + 1, r, [32]);
    }
  }

  lemma NoRun(t: bytes, s: nat)
    requires s <= |t|
    ensures !IsSpace(At(t, s)) ==> AfterSpaces(t, s) == s
  {}

  method TakeRun(buf: array<byte>, ghost r: Reader, s: nat, g: Gap, ghost start: nat, ghost t0: bytes)
    returns (next: nat)
    requires Reading(r, t0, buf[..], g.Now(), start, s) && t0[|t0| - 1] == 0 && IsSpace(buf[s])
    requires PieceAt(r, buf[..], s) == Put(AfterSpaces(buf[..], s + 1), [32])
    modifies buf, g
    ensures s < next && Reading(r, t0, buf[..], g.Now(), start, next)
  {
    hide Reading, PieceAt, PutOut, AfterSpaces;
    ghost var t, v := buf[..], g.Now();
    Bounds(r, t0, t, v, start, s);
    next := SpaceRun(buf, s, g, start);
    Advance(r, t0, t, v, start, s, buf[..], g.Now(), next, [32]);
    Onward(t, v, buf[..], g.Now(), start, s, next, [32]);
  }

  /** The white space in front of a value is skipped. */
  method SkipFront(buf: array<byte>, ghost r: Reader, start: nat, g: Gap) returns (s: nat)
    requires Terminated(buf) && start < buf.Length && Proper(r) && r.Wnorm? && g.Now() == View(-1, 0)
    modifies buf, g
    ensures Reading(r, old(buf[..]), buf[..], g.Now(), start, s)
  {
    hide Pieces, AfterSpaces, PieceAt;
    ghost var t0 := buf[..];
    s := start;
    NoRun(t0, start);
    assert t0[start..start] == [];
    if IsSpace(buf[s]) {
      var str := EndOfRun(buf, s);
      s := g.Push(buf, s, str - s, start);
      SameTail(buf[..], t0, start, s);
    }
    NothingYet(r, t0, s);
  }

  lemma NothingYet(r: Reader, t0: bytes, s: nat)
    requires Proper(r) && s <= |t0|
    ensures Pieces(r, t0, s) == Before([], Pieces(r, t0, s))
  {
    if Pieces(r, t0, s).Done? { assert [] + Pieces(r, t0, s).text == Pieces(r, t0, s).text; }
  }

  /** `do *str-- = 0; while (...)` behind the flushed value. */
  method TerminateTrimmed(buf: array<byte>, ghost r: Reader, ghost start: nat, end: nat, ghost next: nat,
      ghost t0: bytes)
    requires Proper(r) && 0 < start <= |t0| && Complete(r, t0, buf[..], start, end, next) && r.Wnorm?
    requires !IsSpace(t0[start - 1]) && end < next
    modifies buf
    ensures Rewritten(r, t0, start, buf[..], true, next)
  {
    hide Pieces, Begin, Trimmed;
    ghost var t := buf[..];
    assert t[start - 1] == t[..start][start - 1];
    ghost var stop := ClearBack(buf, start, end);
    SameTail(buf[..], t, end + 1, next);
  }

  /**
    `parse_wnorm`: runs of white space become one space, and none is left at either end. The quote stands in front of
    the value.
  */
  method ParseWnorm(buf: array<byte>, start: nat, endQuote: byte, escapes: bool) returns (ok: bool, next: nat)
    requires Terminated(buf) && 0 < start < buf.Length && !IsSpace(buf[start - 1]) && Proper(Wnorm(endQuote, escapes))
    modifies buf
    ensures Rewritten(Wnorm(endQuote, escapes), old(buf[..]), start, buf[..], ok, next)
  {
    hide Reading, Pieces, Rewritten, Complete, EscapeAt, AfterSpaces, AfterLineEnd;
    ghost var t0 := buf[..];
    var r := Wnorm(endQuote, escapes);
    var g := new Gap();
    var s := SkipFront(buf, r, start, g);
    while true
      invariant Reading(r, t0, buf[..], g.Now(), start, s) && fresh(g)
      decreases buf.Length - s
    {
      s := Scan(buf, r, g, s, start, t0);
      Bounds(r, t0, buf[..], g.Now(), start, s);
      if buf[s] == endQuote {
        var end := Close(buf, r, s, g, start, t0);
        TerminateTrimmed(buf, r, start, end, s + 1, t0);
        return true, s + 1;
      } else if IsSpace(buf[s]) {
        s := TakeRun(buf, r, s, g, start, t0);
      } else if escapes && buf[s] == '&' as int {
        s := TakeEscape(buf, r, s, g, start, t0);
      } else if buf[s] == 0 {
        NoEnd(r, t0, buf[..], g.Now(), start, s);
        return false, 0;
      } else {
        StepOn(r, t0, buf[..], g.Now(), start, s);
        s := s + 1;
      }
    }
  }

  /** The text of PCDATA, with the three options of `strconv_pcdata_impl`; the end of the input ends it as well. */
  method StrconvPcdata(buf: array<byte>, start: nat, trim: bool, eol: bool, escapes: bool) returns (next: nat)
    requires Terminated(buf) && start < buf.Length
    modifies buf
    ensures Rewritten(Pcdata(trim, eol, escapes), old(buf[..]), start, buf[..], true, next)
  {
    hide Reading, Pieces, Rewritten, Complete, EscapeAt, AfterSpaces, AfterLineEnd;
    ghost var t0 := buf[..];
    var r := Pcdata(trim, eol, escapes);
    var g := new Gap();
    var s := start;
    Started(r, t0, start);
    while true
      invariant Reading(r, t0, buf[..], g.Now(), start, s) && fresh(g)
      decreases buf.Length - s
    {
      s := Scan(buf, r, g, s, start, t0);
      Bounds(r, t0, buf[..], g.Now(), start, s);
      if buf[s] == '<' as int {
        EndText(buf, r, s, s + 1, g, start, t0);
        return s + 1;
      } else if eol && buf[s] == 13 {
        s := TakeLineEnd(buf, r, 10, s, g, start, t0);
      } else if escapes && buf[s] == '&' as int {
        s := TakeEscape(buf, r, s, g, start, t0);
      } else if buf[s] == 0 {
        EndText(buf, r, s, s, g, start, t0);
        return s;
      } else {
        StepOn(r, t0, buf[..], g.Now(), start, s);
        s := s + 1;
      }
    }
  }

  /** The end of a text: the gap is closed and, if asked for, white space trimmed. */
  method EndText(buf: array<byte>, r: Reader, s: nat, ghost next: nat, g: Gap, start: nat, ghost t0: bytes)
    requires Reading(r, t0, buf[..], g.Now(), start, s) && t0[|t0| - 1] == 0 && EndsAt(r, buf[..], s) && r.Pcdata?
    requires next == AfterEnd(r, buf[..], s)
    modifies buf
    ensures Rewritten(r, t0, start, buf[..], true, next)
  {
    hide Pieces, Begin, Trimmed, EndsAt, AfterEnd, Reading;
    Bounds(r, t0, buf[..], g.Now(), start, s);
    var end := Close(buf, r, s, g, start, t0);
    ghost var t := buf[..];
    if r.trim {
      end := TrimEnd(buf, start, end);
    }
    buf[end] := 0;
    assert buf[start..end] == t[start..end] && buf[..start] == t[..start];
    assert buf[next..] == t[next..];
  }

  /** `strconv_comment`. */
  method StrconvComment(buf: array<byte>, start: nat, endch: byte) returns (ok: bool, next: nat)
    requires Terminated(buf) && start < buf.Length
    modifies buf
    ensures Rewritten(Comment(endch), old(buf[..]), start, buf[..], ok, next)
  {
    hide Reading, Pieces, Rewritten, Complete, EscapeAt, AfterSpaces, AfterLineEnd;
    ghost var t0 := buf[..];
    var r := Comment(endch);
    var g := new Gap();
    var s := start;
    Started(r, t0, start);
    while true
      invariant Reading(r, t0, buf[..], g.Now(), start, s) && fresh(g)
      decreases buf.Length - s
    {
      s := Scan(buf, r, g, s, start, t0);
      Bounds(r, t0, buf[..], g.Now(), start, s);
      if buf[s] == 13 {
        s := TakeLineEnd(buf, r, 10, s, g, start, t0);
      } else if buf[s] == '-' as int == buf[s + 1] && EndsWith(buf[s + 2], '>' as int, endch) {
        next := s + if buf[s + 2] == '>' as int then 3 else 2;
        var end := Close(buf, r, s, g, start, t0);
        Terminate(buf, r, start, end, next, t0);
        return true, next;
      } else if buf[s] == 0 {
        NoEnd(r, t0, buf[..], g.Now(), start, s);
        return false, 0;
      } else {
        StepOn(r, t0, buf[..], g.Now(), start, s);
        s := s + 1;
      }
    }
  }

  /** `strconv_cdata`. */
  method StrconvCdata(buf: array<byte>, start: nat, endch: byte) returns (ok: bool, next: nat)
    requires Terminated(buf) && start < buf.Length
    modifies buf
    ensures Rewritten(Cdata(endch), old(buf[..]), start, buf[..], ok, next)
  {
    hide Reading, Pieces, Rewritten, Complete, EscapeAt, AfterSpaces, AfterLineEnd;
    ghost var t0 := buf[..];
    var r := Cdata(endch);
    var g := new Gap();
    var s := start;
    Started(r, t0, start);
    while true
      invariant Reading(r, t0, buf[..], g.Now(), start, s) && fresh(g)
      decreases buf.Length - s
    {
      s := Scan(buf, r, g, s, start, t0);
      Bounds(r, t0, buf[..], g.Now(), start, s);
      if buf[s] == 13 {
        s := TakeLineEnd(buf, r, 10, s, g, start, t0);
      } else if buf[s] == ']' as int == buf[s + 1] && EndsWith(buf[s + 2], '>' as int, endch) {
        next := s + 1;
        var end := Close(buf, r, s, g, start, t0);
        Terminate(buf, r, start, end, next, t0);
        return true, next;
      } else if buf[s] == 0 {
        NoEnd(r, t0, buf[..], g.Now(), start, s);
        return false, 0;
      } else {
        StepOn(r, t0, buf[..], g.Now(), start, s);
        s := s + 1;
      }
    }
  }
}
