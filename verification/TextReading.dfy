/**
  What attribute values, text, comments and CDATA sections read as: ends of lines and white space are normalised and
  escapes resolved, into a fresh text.
*/
module TextReading {
  import opened Bytes
  import opened Integers
  import opened AttributeText

  /**
    The seven readers. An attribute value ends at its quote, text at a `<` or the end of the input; the end of the input
    may stand for the last character of a comment or CDATA section, if that is what the input ended with.
  */
  datatype Reader =
    | Wnorm(quote: byte, escapes: bool)
    | Wconv(quote: byte, escapes: bool)
    | Eol(quote: byte, escapes: bool)
    | Simple(quote: byte, escapes: bool)
    | Pcdata(trim: bool, eol: bool, escapes: bool)
    | Comment(last: byte)
    | Cdata(last: byte)

  predicate HasQuote(r: Reader) {
    r.Wnorm? || r.Wconv? || r.Eol? || r.Simple?
  }

  predicate Proper(r: Reader) {
    HasQuote(r) ==> r.quote == '\'' as int || r.quote == '"' as int
  }

  /** What stands at one position: something that goes to the output, the end, or an end that never comes. */
  datatype Piece = Put(next: nat, text: bytes) | Stop(next: nat) | Fail

  predicate EndsWith(c: byte, e: byte, last: byte) {
    c == e || (c == 0 && last == e)
  }

  /** Whether the text ends at i. */
  predicate EndsAt(r: Reader, t: bytes, i: nat) {
    match r
    case Pcdata(_, _, _) => At(t, i) == '<' as int || At(t, i) == 0
    case Comment(last) => At(t, i) == '-' as int == At(t, i + 1) && EndsWith(At(t, i + 2), '>' as int, last)
    case Cdata(last) => At(t, i) == ']' as int == At(t, i + 1) && EndsWith(At(t, i + 2), '>' as int, last)
    case _ => At(t, i) == r.quote
  }

  /** Where parsing goes on after the end at i. */
  function AfterEnd(r: Reader, t: bytes, i: nat): nat {
    match r
    case Pcdata(_, _, _) => if At(t, i) == 0 then i else i + 1
    case Comment(_) => i + if At(t, i + 2) == '>' as int then 3 else 2
    case _ => i + 1
  }

  predicate TakesEscapes(r: Reader) {
    (HasQuote(r) || r.Pcdata?) && r.escapes
  }

  predicate TakesLineEnds(r: Reader) {
    r.Eol? || (r.Pcdata? && r.eol) || r.Comment? || r.Cdata?
  }

  /** A carriage return counts with the line feed behind it. */
  function AfterLineEnd(t: bytes, i: nat): nat {
    if At(t, i) == 13 && At(t, i + 1) == 10 then i + 2 else i + 1
  }

  /** Sections 2.11 and 3.3.3 of XML 1.0, one piece at a time. */
  function PieceAt(r: Reader, t: bytes, i: nat): (p: Piece)
    requires Proper(r) && i <= |t|
    ensures p.Put? ==> i < p.next <= |t|
    ensures p.Stop? ==> i <= p.next <= |t|
  {
    var c := At(t, i);
    if EndsAt(r, t, i) then Stop(AfterEnd(r, t, i))
    else if c == 0 then Fail
    else if TakesLineEnds(r) && c == 13 then Put(AfterLineEnd(t, i), [10])
    else if r.Wconv? && IsSpace(c) then Put(AfterLineEnd(t, i), [32])
    else if r.Wnorm? && IsSpace(c) then Put(AfterSpaces(t, i + 1), [32])
    else if TakesEscapes(r) && c == '&' as int then Put(EscapeAt(t, i).next, EscapeAt(t, i).text)
    else Put(i + 1, [c])
  }

  datatype Parsed = Unterminated | Done(text: bytes, next: nat)

  function Before(text: bytes, p: Parsed): (r: Parsed)
    ensures r.Done? <==> p.Done?
    ensures p.Done? ==> r.next == p.next && r.text == text + p.text
  {
    match p case Unterminated => Unterminated case Done(rest, next) => Done(text + rest, next)
  }

  /** All pieces from i on, into a fresh text. */
  function Pieces(r: Reader, t: bytes, i: nat): (p: Parsed)
    requires Proper(r) && i <= |t|
    ensures p.Done? ==> i <= p.next <= |t|
    decreases |t| - i
  {
    match PieceAt(r, t, i)
    case Put(next, text) => Before(text, Pieces(r, t, next))
    case Stop(next) => Done([], next)
    case Fail => Unterminated
  }

  /** Without the white space at the end. */
  function Trimmed(s: bytes): (r: bytes)
    ensures r <= s
  {
    if s != [] && IsSpace(s[|s| - 1]) then Trimmed(s[..|s| - 1]) else s
  }

  predicate Trims(r: Reader) {
    r.Wnorm? || (r.Pcdata? && r.trim)
  }

  /** Normalisation to tokens drops the white space in front first. */
  function Begin(r: Reader, t: bytes, start: nat): (i: nat)
    requires start <= |t|
    ensures start <= i <= |t|
  {
    if r.Wnorm? then AfterSpaces(t, start) else start
  }

  /** What a reader makes of the text from start on. */
  function Result(r: Reader, t: bytes, start: nat): Parsed
    requires Proper(r) && start <= |t|
  {
    var p := Pieces(r, t, Begin(r, t, start));
    if p.Done? && Trims(r) then Done(Trimmed(p.text), p.next) else p
  }

  // ----- ends of lines

  /** Section 2.11 of XML 1.0: a carriage return, alone or with a line feed behind it, becomes a line feed. */
  function LineEnds(s: bytes): bytes {
    if s == [] then []
    else if s[0] == 13 then [10] + LineEnds(if |s| > 1 && s[1] == 10 then s[2..] else s[1..])
    else [s[0]] + LineEnds(s[1..])
  }

  /** Nothing changes if and only if there is no carriage return. */
  lemma {:induction false} LineEndsSame(s: bytes)
    ensures LineEnds(s) == s <==> 13 !in s
    decreases |s|
  {
    if s == [] {
    } else {
      LineEndsSame(s[1..]);
      assert s == [s[0]] + s[1..];
    }
  }

  /** A text that ends at j and holds no end before it. */
  ghost predicate EndsFirstAt(r: Reader, t: bytes, i: nat, j: nat) {
    && i <= j <= |t| && EndsAt(r, t, j)
    && forall k :: i <= k < j ==> !EndsAt(r, t, k) && At(t, k) != 0
  }

  /** Without escapes, such a text is read with its ends of lines translated and nothing else changed. */
  lemma {:induction false} LineEndsRead(r: Reader, t: bytes, i: nat, j: nat)
    requires Proper(r) && TakesLineEnds(r) && !TakesEscapes(r) && EndsFirstAt(r, t, i, j)
    ensures Pieces(r, t, i) == Done(LineEnds(t[i..j]), AfterEnd(r, t, j))
    decreases j - i
  {
    if i == j {
    } else {
      var next := if t[i] == 13 then AfterLineEnd(t, i) else i + 1;
      assert i + 1 == j ==> At(t, i + 1) != 10;
      LineEndsRead(r, t, next, j);
      assert t[i..j][next - i..] == t[next..j];
      assert |t[i..j]| > 1 ==> t[i..j][1] == t[i + 1];
    }
  }

  // ----- printing then reading

  /** Tabs become spaces, everything else stays. */
  function Spaced(s: bytes): (r: bytes)
    ensures |r| == |s| && forall i :: 0 <= i < |s| ==> r[i] == if s[i] == 9 then 32 else s[i]
  {
    seq(|s|, i requires 0 <= i < |s| => if s[i] == 9 then 32 else s[i])
  }

  /** What comes back of a printed string. */
  function ReadBack(r: Reader, s: bytes): bytes {
    match r
    case Wconv(_, _) => Spaced(s)
    case Pcdata(_, eol, _) => if eol then LineEnds(s) else s
    case _ => s
  }

  /** The readers for which a string is printed, attribute values in double quotes. */
  predicate ReadsPrinted(r: Reader) {
    r.Pcdata? || ((r.Wconv? || r.Eol? || r.Simple?) && r.quote == '"' as int)
  }

  lemma TwoParts(t: bytes, i: nat, a: bytes, b: bytes)
    requires i + |a + b| <= |t| && t[i..i + |a + b|] == a + b
    ensures t[i..i + |a|] == a && t[i + |a|..i + |a| + |b|] == b
  {
    var whole := t[i..i + |a + b|];
    assert whole[..|a|] == a && whole[|a|..] == b;
    assert whole[..|a|] == t[i..i + |a|];
    assert whole[|a|..] == t[i + |a|..i + |a| + |b|];
  }

  lemma EscapedFirst(attr: bool, s: bytes)
    requires s != []
    ensures Escaped(attr, s) == EscapedChar(attr, s[0]) + Escaped(attr, s[1..])
  {}

  /** One printed character, unless it is a carriage return that a text reader translates. */
  lemma OneChar(r: Reader, t: bytes, i: nat, c: byte)
    requires ReadsPrinted(r) && r.escapes && c != 0 && !(r.Pcdata? && r.eol && c == 13)
    requires i + |EscapedChar(!r.Pcdata?, c)| < |t|
    requires t[i..i + |EscapedChar(!r.Pcdata?, c)|] == EscapedChar(!r.Pcdata?, c)
    ensures PieceAt(r, t, i)
         == Put(i + |EscapedChar(!r.Pcdata?, c)|, [if c == 9 && r.Wconv? then 32 else c])
  {
    hide EscapeAt;
    var e := EscapedChar(!r.Pcdata?, c);
    assert forall k :: 0 <= k < |e| ==> t[i + k] == t[i..i + |e|][k] == e[k];
    if AttributeText.IsSpecial(!r.Pcdata?, c) {
      assert t[i] == e[0] == '&' as int;
      EscapeRead(t, i, !r.Pcdata?, c);
    } else {
      assert t[i] == e[0] == c;
    }
  }

  lemma ReadBackFirst(r: Reader, s: bytes)
    requires s != [] && !(r.Pcdata? && r.eol && s[0] == 13)
    ensures ReadBack(r, s) == [if s[0] == 9 && r.Wconv? then 32 else s[0]] + ReadBack(r, s[1..])
  {}

  /**
    A NUL-free string that has been printed is read back: as it is by the readers that keep white space or translate
    ends of lines in attribute values, with spaces for tabs by the converting one, and from text with ends of lines
    translated.
  */
  lemma {:induction false} PrintThenRead(r: Reader, t: bytes, i: nat, s: bytes)
    requires ReadsPrinted(r) && r.escapes && 0 !in s && i + |Escaped(!r.Pcdata?, s)| < |t|
    requires t[i..i + |Escaped(!r.Pcdata?, s)|] == Escaped(!r.Pcdata?, s) &&
      EndsAt(r, t, i + |Escaped(!r.Pcdata?, s)|)
    ensures Pieces(r, t, i) == Done(ReadBack(r, s), AfterEnd(r, t, i + |Escaped(!r.Pcdata?, s)|))
    decreases |s|
  {
    hide EscapedChar, Escaped, PieceAt, ReadBack, EndsAt, ReturnLength;
    var attr := !r.Pcdata?;
    if s == [] {
      NothingPrinted(r, t, i);
    } else if r.Pcdata? && r.eol && s[0] == 13 {
      var n := ReturnLength(s);
      PrintedReturn(r, t, i, s);
      PrintThenRead(r, t, i + n, s[n..]);
    } else {
      EscapedFirst(attr, s);
      TwoParts(t, i, EscapedChar(attr, s[0]), Escaped(attr, s[1..]));
      PrintThenRead(r, t, i + |EscapedChar(attr, s[0])|, s[1..]);
      OneChar(r, t, i, s[0]);
      ReadBackFirst(r, s);
    }
  }

  lemma NothingPrinted(r: Reader, t: bytes, i: nat)
    requires ReadsPrinted(r) && i + |Escaped(!r.Pcdata?, [])| < |t| && EndsAt(r, t, i + |Escaped(!r.Pcdata?, [])|)
    ensures Escaped(!r.Pcdata?, []) == [] && ReadBack(r, []) == [] && PieceAt(r, t, i) == Stop(AfterEnd(r, t, i))
  {}

  /** How many characters an end of line at the head of s takes. */
  function ReturnLength(s: bytes): (n: nat)
    requires s != []
    ensures 1 <= n <= |s|
  {
    if |s| > 1 && s[1] == 10 then 2 else 1
  }

  /** A printed carriage return in text is read as an end of line, with the line feed behind it. */
  lemma PrintedReturn(r: Reader, t: bytes, i: nat, s: bytes)
    requires r.Pcdata? && r.eol && s != [] && s[0] == 13 && i + |Escaped(false, s)| < |t|
    requires t[i..i + |Escaped(false, s)|] == Escaped(false, s) && EndsAt(r, t, i + |Escaped(false, s)|)
    ensures |Escaped(false, s)| == ReturnLength(s) + |Escaped(false, s[ReturnLength(s)..])|
    ensures PieceAt(r, t, i) == Put(i + ReturnLength(s), [10])
    ensures t[i + ReturnLength(s)..i + |Escaped(false, s)|] == Escaped(false, s[ReturnLength(s)..])
    ensures ReadBack(r, s) == [10] + ReadBack(r, s[ReturnLength(s)..])
  {
    hide Escaped, PieceAt, ReadBack;
    var n := ReturnLength(s);
    ReturnPrinted(s);
    TwoParts(t, i, s[..n], Escaped(false, s[n..]));
    assert t[i] == t[i..i + n][0];
    SecondPrinted(t, i, s);
    ReturnPiece(r, t, i, s);
  }

  lemma ReturnPrinted(s: bytes)
    requires s != [] && s[0] == 13
    ensures Escaped(false, s) == s[..ReturnLength(s)] + Escaped(false, s[ReturnLength(s)..])
  {
    EscapedFirst(false, s);
    if |s| > 1 {
      EscapedFirst(false, s[1..]);
      assert s[1..][1..] == s[2..];
    }
  }

  lemma ReturnPiece(r: Reader, t: bytes, i: nat, s: bytes)
    requires r.Pcdata? && r.eol && s != [] && s[0] == 13 && i < |t| && t[i] == 13
    requires At(t, i + 1) == 10 <==> |s| > 1 && s[1] == 10
    ensures PieceAt(r, t, i) == Put(i + ReturnLength(s), [10])
    ensures ReadBack(r, s) == [10] + ReadBack(r, s[ReturnLength(s)..])
  {}

  lemma SecondPrinted(t: bytes, i: nat, s: bytes)
    requires |s| > 0 && s[0] == 13 && i + |Escaped(false, s)| < |t|
    requires t[i..i + |Escaped(false, s)|] == Escaped(false, s)
    requires At(t, i + |Escaped(false, s)|) == '<' as int || At(t, i + |Escaped(false, s)|) == 0
    ensures At(t, i + 1) == 10 <==> |s| > 1 && s[1] == 10
  {
    EscapedFirst(false, s);
    var e := Escaped(false, s);
    if |s| > 1 {
      EscapedFirst(false, s[1..]);
      var c := EscapedChar(false, s[1]);
      assert c[0] == 10 <==> s[1] == 10;
      assert e[1] == c[0];
      assert t[i + 1] == t[i..i + |e|][1];
    } else {
      assert e == [13] + [];
    }
  }

  // ----- normalisation to tokens

  /** The words of a text: its maximal runs without white space. */
  function Words(s: bytes): (ws: seq<bytes>)
    ensures s != [] && !IsSpace(s[0]) ==> ws != []
    ensures forall i :: 0 <= i < |ws| ==> ws[i] != []
  {
    if s == [] then []
    else if IsSpace(s[0]) then Words(s[1..])
    else if |s| > 1 && !IsSpace(s[1]) then var ws := Words(s[1..]); [[s[0]] + ws[0]] + ws[1..]
    else [[s[0]]] + Words(s[1..])
  }

  /** Words with one space between them. */
  function Joined(ws: seq<bytes>): bytes {
    if ws == [] then [] else if |ws| == 1 then ws[0] else ws[0] + ([32] + Joined(ws[1..]))
  }

  predicate NoSpaces(s: bytes) {
    forall i :: 0 <= i < |s| ==> !IsSpace(s[i])
  }

  /** The words of s, with a space in front if s has one there and any words. */
  function Spread(s: bytes): bytes {
    if s != [] && IsSpace(s[0]) && Words(s) != [] then [32] + Joined(Words(s)) else Joined(Words(s))
  }

  lemma SpreadChar(c: byte, x: bytes)
    requires !IsSpace(c)
    ensures Spread([c] + x) == [c] + Spread(x)
  {
    var s := [c] + x;
    assert s[1..] == x;
    if x != [] && !IsSpace(x[0]) {
      var ws := Words(x);
      assert Words(s) == [[c] + ws[0]] + ws[1..];
      JoinedFirst(c, ws);
    } else {
      assert Words(s) == [[c]] + Words(x);
      assert Words(s)[1..] == Words(x);
    }
  }

  lemma JoinedFirst(c: byte, ws: seq<bytes>)
    requires ws != []
    ensures Joined([[c] + ws[0]] + ws[1..]) == [c] + Joined(ws)
  {
    var vs := [[c] + ws[0]] + ws[1..];
    if |ws| > 1 {
      assert vs[1..] == ws[1..];
      assert [c] + ws[0] + ([32] + Joined(ws[1..])) == [c] + (ws[0] + ([32] + Joined(ws[1..])));
    }
  }

  /** Joined words are nothing only if there are none. */
  lemma NoWords(ws: seq<bytes>)
    requires forall i :: 0 <= i < |ws| ==> ws[i] != []
    ensures Joined(ws) == [] <==> ws == []
  {}

  lemma {:induction false} TrimmedConcat(a: bytes, x: bytes)
    ensures Trimmed(a + x) == if Trimmed(x) == [] then Trimmed(a) else a + Trimmed(x)
    decreases |x|
  {
    if x == [] {
      assert a + x == a;
    } else if IsSpace(x[|x| - 1]) {
      assert (a + x)[..|a + x| - 1] == a + x[..|x| - 1];
      TrimmedConcat(a, x[..|x| - 1]);
    }
  }

  /** Behind a run of white space the words go on as at its beginning. */
  lemma {:induction false} RunSkipped(t: bytes, i: nat, quote: byte, escapes: bool)
    requires i <= |t| && Proper(Wconv(quote, escapes))
    ensures (var a, b := Pieces(Wconv(quote, escapes), t, i), Pieces(Wconv(quote, escapes), t, AfterSpaces(t, i));
             && (a.Done? <==> b.Done?)
             && (a.Done? ==> a.next == b.next && Words(a.text) == Words(b.text)))
    decreases |t| - i
  {
    if !IsSpace(At(t, i)) {
    } else {
      var r, next := Wconv(quote, escapes), AfterLineEnd(t, i);
      assert PieceAt(r, t, i) == Put(next, [32]);
      RunSkipped(t, next, quote, escapes);
      assert AfterSpaces(t, next) == AfterSpaces(t, i);
      var b := Pieces(r, t, next);
      if b.Done? { assert ([32] + b.text)[1..] == b.text; }
    }
  }

  lemma SamePieces(t: bytes, i: nat, quote: byte, escapes: bool)
    requires i <= |t| && Proper(Wconv(quote, escapes)) && !IsSpace(At(t, i))
    ensures PieceAt(Wnorm(quote, escapes), t, i) == PieceAt(Wconv(quote, escapes), t, i)
  {}

  lemma AfterRun(t: bytes, i: nat)
    requires i < |t| && IsSpace(t[i])
    ensures i < AfterSpaces(t, i) == AfterSpaces(t, i + 1) && !IsSpace(At(t, AfterSpaces(t, i)))
  {
    RunEnds(t, i + 1);
  }

  lemma {:induction false} RunEnds(t: bytes, i: nat)
    requires i <= |t|
    ensures !IsSpace(At(t, AfterSpaces(t, i)))
    decreases |t| - i
  {
    if !IsSpace(At(t, i)) {
    } else {
      RunEnds(t, i + 1);
    }
  }

  lemma SpacePieces(t: bytes, i: nat, quote: byte, escapes: bool)
    requires i < |t| && IsSpace(t[i]) && Proper(Wconv(quote, escapes))
    ensures Pieces(Wconv(quote, escapes), t, i) == Before([32], Pieces(Wconv(quote, escapes), t, AfterLineEnd(t, i)))
    ensures Pieces(Wnorm(quote, escapes), t, i) == Before([32], Pieces(Wnorm(quote, escapes), t, AfterSpaces(t, i)))
  {}

  // ----- the words of a value, whatever its references

  lemma SomeText(r: Reader, t: bytes, i: nat)
    requires Proper(r) && i <= |t|
    ensures PieceAt(r, t, i).Put? ==> PieceAt(r, t, i).text != []
  {
    if i < |t| { EscapeNotEmpty(t, i); }
    hide EscapeAt;
  }

  lemma EscapeNotEmpty(t: bytes, i: nat)
    requires i < |t|
    ensures EscapeAt(t, i).text != []
  {}

  predicate Solid(s: bytes) {
    s != [] && !IsSpace(s[0])
  }

  /** The two texts have the same words, and the same text can be put in front of both. */
  ghost predicate Alike(x: bytes, y: bytes) {
    Words(x) == Words(y) && (Solid(x) <==> Solid(y))
  }

  lemma AlikeChar(c: byte, x: bytes, y: bytes)
    requires Alike(x, y)
    ensures Alike([c] + x, [c] + y)
  {
    assert ([c] + x)[1..] == x && ([c] + y)[1..] == y;
  }

  lemma {:induction false} AlikeText(w: bytes, x: bytes, y: bytes)
    requires Alike(x, y)
    ensures Alike(w + x, w + y)
    decreases |w|
  {
    if w == [] {
      assert w + x == x && w + y == y;
    } else {
      AlikeText(w[1..], x, y);
      AlikeChar(w[0], w[1..] + x, w[1..] + y);
      assert w + x == [w[0]] + (w[1..] + x) && w + y == [w[0]] + (w[1..] + y);
    }
  }

  ghost predicate AlikeParsed(a: Parsed, b: Parsed) {
    (a.Done? <==> b.Done?) && (a.Done? ==> a.next == b.next && Alike(a.text, b.text))
  }

  lemma {:induction false} SameWords(t: bytes, i: nat, quote: byte, escapes: bool)
    requires i <= |t| && Proper(Wconv(quote, escapes))
    ensures AlikeParsed(Pieces(Wconv(quote, escapes), t, i), Pieces(Wnorm(quote, escapes), t, i))
    decreases |t| - i
  {
    hide EscapeAt, Words;
    var r, p := Wconv(quote, escapes), PieceAt(Wconv(quote, escapes), t, i);
    if IsSpace(At(t, i)) {
      AfterRun(t, i);
      SameWords(t, AfterSpaces(t, i), quote, escapes);
      RunSkipped(t, i, quote, escapes);
      SpacePieces(t, i, quote, escapes);
      var b := Pieces(Wnorm(quote, escapes), t, AfterSpaces(t, i));
      if b.Done? { SpaceWords(b.text); }
    } else {
      SamePieces(t, i, quote, escapes);
      if p.Put? {
        SameWords(t, p.next, quote, escapes);
        var a, b := Pieces(r, t, p.next), Pieces(Wnorm(quote, escapes), t, p.next);
        if a.Done? { AlikeText(p.text, a.text, b.text); }
      }
    }
  }

  lemma SpaceWords(x: bytes)
    ensures Words([32] + x) == Words(x) && !Solid([32] + x)
  {
    assert ([32] + x)[1..] == x;
  }

  lemma {:induction false} WordsBeforeSpace(s: bytes, c: byte)
    requires IsSpace(c)
    ensures Words(s + [c]) == Words(s)
    decreases |s|
  {
    if s == [] {
      assert ([c] + [])[1..] == [] && s + [c] == [c];
    } else {
      assert (s + [c])[1..] == s[1..] + [c];
      WordsBeforeSpace(s[1..], c);
      assert |s| > 1 ==> (s + [c])[1] == s[1];
    }
  }

  lemma {:induction false} WordsTrimmed(s: bytes)
    ensures Words(Trimmed(s)) == Words(s)
    decreases |s|
  {
    if s == [] || !IsSpace(s[|s| - 1]) {
    } else {
      WordsTrimmed(s[..|s| - 1]);
      WordsBeforeSpace(s[..|s| - 1], s[|s| - 1]);
      assert s[..|s| - 1] + [s[|s| - 1]] == s;
    }
  }

  /** Whatever the references stand for, normalising to tokens keeps the words of the value, and ends in a word. */
  lemma WnormKeepsWords(t: bytes, start: nat, quote: byte, escapes: bool)
    requires start <= |t| && Proper(Wconv(quote, escapes))
    ensures (var a, b := Result(Wconv(quote, escapes), t, start), Result(Wnorm(quote, escapes), t, start);
             && (a.Done? <==> b.Done?)
             && (a.Done? ==> a.next == b.next && Words(a.text) == Words(b.text)
                             && (b.text != [] ==> !IsSpace(b.text[|b.text| - 1]))))
  {
    hide Words, Trimmed, Pieces, EscapeAt;
    var j := AfterSpaces(t, start);
    SameWords(t, j, quote, escapes);
    RunSkipped(t, start, quote, escapes);
    var b := Pieces(Wnorm(quote, escapes), t, j);
    if b.Done? {
      WordsTrimmed(b.text);
      EndsInWord(b.text);
    }
  }

  lemma {:induction false} EndsInWord(s: bytes)
    ensures Trimmed(s) != [] ==> !IsSpace(Trimmed(s)[|Trimmed(s)| - 1])
    decreases |s|
  {
    if s == [] || !IsSpace(s[|s| - 1]) {
    } else {
      EndsInWord(s[..|s| - 1]);
    }
  }

  // ----- when the value is one of tokens

  /**
    s, without the white space at its end, is words one space apart; before it a space may come first only if `open`.
  */
  predicate Tidy(s: bytes, open: bool) {
    Words(s) == [] ||
    if IsSpace(s[0]) then open && s[0] == 32 && Tidy(s[1..], false) else Tidy(s[1..], true)
  }

  lemma {:induction false} TidyExact(s: bytes, open: bool)
    ensures Tidy(s, open) <==> Trimmed(s) == if open then Spread(s) else Joined(Words(s))
    decreases |s|
  {
    hide Joined, Trimmed, Spread;
    NoWords(Words(s));
    WordsTrimmed(s);
    SpreadIs(s);
    if s == [] {
      TrimmedNothing(s);
    } else {
      assert s == [s[0]] + s[1..];
      TidyExact(s[1..], !IsSpace(s[0]));
      TrimmedConcat([s[0]], s[1..]);
      TrimmedNothing(s);
      TrimmedNothing(s[1..]);
      SpreadIs(s[1..]);
      JoinedSolid(s);
      if !IsSpace(s[0]) { SpreadChar(s[0], s[1..]); }
    }
  }

  lemma SpreadIs(s: bytes)
    ensures Spread(s) == if s != [] && IsSpace(s[0]) && Words(s) != [] then [32] + Joined(Words(s))
      else Joined(Words(s))
  {}

  /** Nothing is left of a text exactly if it has no words. */
  lemma {:induction false} TrimmedNothing(s: bytes)
    ensures Trimmed(s) == [] <==> Words(s) == []
    decreases |s|
  {
    if s != [] && IsSpace(s[|s| - 1]) {
      TrimmedNothing(s[..|s| - 1]);
      WordsBeforeSpace(s[..|s| - 1], s[|s| - 1]);
      assert s[..|s| - 1] + [s[|s| - 1]] == s;
    } else if s != [] {
      SomeWord(s);
    }
  }

  lemma {:induction false} SomeWord(s: bytes)
    requires s != [] && !IsSpace(s[|s| - 1])
    ensures Words(s) != []
    decreases |s|
  {
    if !IsSpace(s[0]) {
    } else {
      assert s[1..][|s| - 2] == s[|s| - 1];
      SomeWord(s[1..]);
    }
  }

  /** Words do not begin with white space. */
  lemma {:induction false} JoinedSolid(s: bytes)
    ensures Joined(Words(s)) != [] ==> !IsSpace(Joined(Words(s))[0])
    decreases |s|
  {
    if s != [] {
      if IsSpace(s[0]) {
        JoinedSolid(s[1..]);
      } else {
        assert s == [s[0]] + s[1..];
        SpreadChar(s[0], s[1..]);
      }
    }
  }

  /** Several characters hold no white space. */
  predicate OneOrSolid(s: bytes) {
    NoSpaces(s) || |s| == 1
  }

  lemma AnySolid(code: nat)
    ensures OneOrSolid(AnyUtf8(code))
  {}

  lemma {:induction false} MatchedPart(t: bytes, j: nat, pat: bytes, k: nat)
    requires (forall i :: 0 <= i < |pat| ==> pat[i] != 0) && k < Matched(t, j, pat)
    ensures t[j + k] == pat[k]
    decreases |pat|
  {
    if k == 0 {
    } else {
      MatchedPart(t, j + 1, pat[1..], k - 1);
    }
  }

  lemma NamedSolid(t: bytes, i: nat, skip: nat, pat: bytes, c: byte)
    requires i + skip <= |t| && NoSpaces(t[i..i + skip]) && NoSpaces(pat) && forall k :: 0 <= k < |pat| ==> pat[k] != 0
    ensures OneOrSolid(Named(t, i, skip, pat, c).text)
  {
    hide IsSpace, Matched;
    var k := Matched(t, i + skip, pat);
    var m := t[i + skip..i + skip + k];
    forall n | 0 <= n < |m| ensures !IsSpace(m[n]) {
      MatchedPart(t, i + skip, pat, n);
    }
    assert t[i..i + skip + k] == t[i..i + skip] + m;
  }

  lemma NumericSolid(t: bytes, i: nat, j: nat, b: Base)
    requires i < j <= |t| && NoSpaces(t[i..j])
    ensures OneOrSolid(Numeric(t, i, j, b).text)
  {
    hide AnyUtf8, Integers.Value;
    NumericCases(t, i, j, b);
    var k := RunEnd(b, t, j);
    AnySolid(Wrap(4, Integers.Value(b, t[j..k])));
    assert t[i..k] == t[i..j] + t[j..k];
  }

  /** What an escape stands for holds no white space, or is one character. */
  lemma EscapeSolid(t: bytes, i: nat)
    requires i < |t| && t[i] == '&' as int
    ensures OneOrSolid(EscapeAt(t, i).text)
  {
    hide Numeric, Named, OneOrSolid;
    var c, d := At(t, i + 1), At(t, i + 2);
    SolidParts(t, i);
    if c == '#' as int {
      if d == 'x' as int { NumericSolid(t, i, i + 3, Sixteen); } else { NumericSolid(t, i, i + 2, Ten); }
    } else if c == 'a' as int {
      if d == 'm' as int { NamedSolid(t, i, 3, ['p' as int, ';' as int], '&' as int); }
      if d == 'p' as int { NamedSolid(t, i, 3, ['o' as int, 's' as int, ';' as int], '\'' as int); }
    } else if c == 'g' as int {
      NamedSolid(t, i, 2, ['t' as int, ';' as int], '>' as int);
    } else if c == 'l' as int {
      NamedSolid(t, i, 2, ['t' as int, ';' as int], '<' as int);
    } else if c == 'q' as int {
      NamedSolid(t, i, 2, ['u' as int, 'o' as int, 't' as int, ';' as int], '"' as int);
    }
  }

  /** The beginnings of escapes hold no white space. */
  lemma SolidParts(t: bytes, i: nat)
    requires i < |t| && t[i] == '&' as int
    ensures OneOrSolid(t[i..i + 1])
    ensures At(t, i + 1) == 0 || IsSpace(At(t, i + 1)) || (NoSpaces(t[i..i + 2]) && OneOrSolid(t[i..i + 2]))
    ensures At(t, i + 1) == 0 || IsSpace(At(t, i + 1)) || At(t, i + 2) == 0 || IsSpace(At(t, i + 2)) ||
      NoSpaces(t[i..i + 3])
  {}

  // ----- in terms of what stands in the value

  /** Nothing but white space and references to white space is left of the value. */
  ghost predicate OnlySpace(t: bytes, i: nat, quote: byte, escapes: bool)
    requires i <= |t| && Proper(Wnorm(quote, escapes))
  {
    var b := Pieces(Wnorm(quote, escapes), t, i);
    b.Done? ==> Words(b.text) == []
  }

  /**
    Every reference to white space that is followed by any text is one to a space, and stands between two characters
    that are no white space; `open` says that such a character stands in front.
  */
  ghost predicate SpacesApart(t: bytes, i: nat, quote: byte, escapes: bool, open: bool)
    requires i <= |t| && Proper(Wnorm(quote, escapes))
    decreases |t| - i
  {
    match PieceAt(Wnorm(quote, escapes), t, i)
    case Put(next, text) =>
      if NoSpaces(text) then SpacesApart(t, next, quote, escapes, true)
      else OnlySpace(t, i, quote, escapes) || (open && text == [32] && SpacesApart(t, next, quote, escapes, false))
    case _ => true
  }

  lemma {:induction false} TidySolid(w: bytes, x: bytes, open: bool)
    requires NoSpaces(w) && w != []
    ensures Tidy(w + x, open) <==> Tidy(x, true)
    decreases |w|
  {
    hide IsSpace;
    var s := w + x;
    assert s[0] == w[0] && s[1..] == w[1..] + x;
    WordsSolid(s);
    if |w| > 1 {
      TidySolid(w[1..], x, true);
    } else {
      assert s[1..] == x;
    }
  }

  lemma WordsSolid(s: bytes)
    requires s != [] && !IsSpace(s[0])
    ensures Words(s) != []
  {}

  lemma {:induction false} SpacesApartTidy(t: bytes, i: nat, quote: byte, escapes: bool, open: bool)
    requires i <= |t| && Proper(Wnorm(quote, escapes)) && Pieces(Wnorm(quote, escapes), t, i).Done?
    ensures SpacesApart(t, i, quote, escapes, open) <==> Tidy(Pieces(Wnorm(quote, escapes), t, i).text, open)
    decreases |t| - i
  {
    hide Words, EscapeAt, IsSpace;
    var r, p := Wnorm(quote, escapes), PieceAt(Wnorm(quote, escapes), t, i);
    NoText(open);
    if p.Put? {
      var x := Pieces(r, t, p.next);
      PieceSolid(r, t, i);
      SomeText(r, t, i);
      if NoSpaces(p.text) {
        SpacesApartTidy(t, p.next, quote, escapes, true);
        TidySolid(p.text, x.text, open);
      } else {
        SpacesApartTidy(t, p.next, quote, escapes, false);
        assert (p.text + x.text)[0] == p.text[0] && (p.text + x.text)[1..] == x.text;
      }
    }
  }

  lemma NoText(open: bool)
    ensures Tidy([], open)
  {}

  lemma PieceSolid(r: Reader, t: bytes, i: nat)
    requires Proper(r) && i <= |t| && PieceAt(r, t, i).Put?
    ensures OneOrSolid(PieceAt(r, t, i).text)
  {
    hide EscapeAt, IsSpace;
    if i < |t| && t[i] == '&' as int { EscapeSolid(t, i); }
  }

  /**
    Section 3.3.3 of XML 1.0 for tokens: the value is the converted value with its words one space apart, if and only if
    its references to white space stand apart.
  */
  lemma WnormExact(t: bytes, start: nat, quote: byte, escapes: bool)
    requires start <= |t| && Proper(Wconv(quote, escapes)) && Result(Wconv(quote, escapes), t, start).Done?
    ensures (var a := Result(Wconv(quote, escapes), t, start);
             Result(Wnorm(quote, escapes), t, start) == Done(Joined(Words(a.text)), a.next)
             <==> SpacesApart(t, AfterSpaces(t, start), quote, escapes, false))
  {
    hide Words, Joined, Trimmed, Pieces, EscapeAt, SpacesApart;
    var j := AfterSpaces(t, start);
    SameWords(t, j, quote, escapes);
    RunSkipped(t, start, quote, escapes);
    var b := Pieces(Wnorm(quote, escapes), t, j);
    SpacesApartTidy(t, j, quote, escapes, false);
    TidyExact(b.text, false);
  }

  /** Without references, white space always stands apart. */
  lemma {:induction false} RawSpacesApart(t: bytes, i: nat, quote: byte, open: bool)
    requires i <= |t| && Proper(Wnorm(quote, false)) && (open || !IsSpace(At(t, i)))
    ensures SpacesApart(t, i, quote, false, open)
    decreases |t| - i
  {
    hide Words;
    var p := PieceAt(Wnorm(quote, false), t, i);
    if p.Put? {
      if IsSpace(At(t, i)) {
        AfterRun(t, i);
        RawSpacesApart(t, p.next, quote, false);
      } else {
        RawSpacesApart(t, p.next, quote, true);
      }
    }
  }

  /** &#32;a, in quotes. */
  function SpaceReference(): bytes {
    ['&' as int, '#' as int, '3' as int, '2' as int, ';' as int, 'a' as int, '"' as int]
  }

  /** It keeps its space in front, so what is read is no list of tokens. */
  lemma ReferenceKept()
    ensures Result(Wconv('"' as int, true), SpaceReference(), 0) == Done([32, 'a' as int], 7)
    ensures Result(Wnorm('"' as int, true), SpaceReference(), 0) == Done([32, 'a' as int], 7)
    ensures Joined(Words([32, 'a' as int])) == ['a' as int]
  {
    hide Words, Joined, EscapeAt;
    SpaceRead();
    PiecesKept(Wconv('"' as int, true));
    PiecesKept(Wnorm('"' as int, true));
    OneWord();
  }

  lemma OneWord()
    ensures Joined(Words([32, 'a' as int])) == ['a' as int]
  {
    var s := [32, 'a' as int];
    assert s[1..] == ['a' as int] && s[1..][1..] == [];
    assert Words(s[1..]) == [['a' as int]];
  }

  lemma SpaceRead()
    ensures EscapeAt(SpaceReference(), 0) == Escape(5, [32])
  {
    hide AnyUtf8, Integers.Value, Integers.RunEnd;
    var t := SpaceReference();
    DigitsTo(t, 2, 4);
    ReferenceExact(t, 0, 2, 4, Ten);
    assert t[2..4] == ['3' as int, '2' as int];
    ThirtyTwo();
  }

  lemma ThirtyTwo()
    ensures Integers.Value(Ten, ['3' as int, '2' as int]) == 32 && AnyUtf8(32) == [32]
  {
    var d := ['3' as int, '2' as int];
    assert d[..1] == ['3' as int] && d[..1][..0] == [];
    assert Integers.Value(Ten, d[..1]) == 3;
  }

  lemma PiecesKept(r: Reader)
    requires r == Wconv('"' as int, true) || r == Wnorm('"' as int, true)
    requires EscapeAt(SpaceReference(), 0) == Escape(5, [32])
    ensures Result(r, SpaceReference(), 0) == Done([32, 'a' as int], 7)
  {
    hide EscapeAt;
    var t := SpaceReference();
    assert Pieces(r, t, 6) == Done([], 7);
    assert PieceAt(r, t, 5) == Put(6, ['a' as int]);
    assert PieceAt(r, t, 0) == Put(5, [32]);
    assert [32] + (['a' as int] + []) == [32, 'a' as int];
  }
}
