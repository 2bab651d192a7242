/**
  Markup by its characters: sections 2.4, 2.5, 2.7, 2.11, 3.3.3, 4.1 and 4.6 of XML 1.0, with every sign given by its
  code.
*/
module XmlCharacters {
  import opened Bytes
  import opened Integers
  import opened AttributeText
  import opened TextReading

  /** s stands at i. */
  predicate StandsAt(t: bytes, i: nat, s: bytes) {
    i + |s| <= |t| && t[i..i + |s|] == s
  }

  lemma StandsEach(t: bytes, i: nat, s: bytes)
    requires StandsAt(t, i, s)
    ensures i + |s| <= |t| && forall k :: 0 <= k < |s| ==> t[i + k] == s[k]
    ensures |s| > 1 ==> t[i + 1] == s[1]
    ensures |s| > 2 ==> t[i + 2] == s[2]
  {
    forall k | 0 <= k < |s| ensures t[i + k] == s[k] {
      assert t[i..i + |s|][k] == t[i + k];
    }
  }

  // ----- the predefined entities

  const LT: bytes := [38, 108, 116, 59]
  const GT: bytes := [38, 103, 116, 59]
  const AMP: bytes := [38, 97, 109, 112, 59]
  const APOS: bytes := [38, 97, 112, 111, 115, 59]
  const QUOT: bytes := [38, 113, 117, 111, 116, 59]

  /** What each of them is read as. */
  lemma LtRead(t: bytes, i: nat)
    requires StandsAt(t, i, LT)
    ensures EscapeAt(t, i) == Escape(i + 4, [60])
  {
    hide Named, Numeric, Matched, StandsAt;
    EntityRead(t, i, LT, 2, 60);
    assert LT[2..] == [116, 59];
  }

  lemma GtRead(t: bytes, i: nat)
    requires StandsAt(t, i, GT)
    ensures EscapeAt(t, i) == Escape(i + 4, [62])
  {
    hide Named, Numeric, Matched, StandsAt;
    EntityRead(t, i, GT, 2, 62);
    assert GT[2..] == [116, 59];
  }

  lemma AmpRead(t: bytes, i: nat)
    requires StandsAt(t, i, AMP)
    ensures EscapeAt(t, i) == Escape(i + 5, [38])
  {
    hide Named, Numeric, Matched, StandsAt;
    EntityRead(t, i, AMP, 3, 38);
    assert AMP[3..] == [112, 59];
  }

  lemma AposRead(t: bytes, i: nat)
    requires StandsAt(t, i, APOS)
    ensures EscapeAt(t, i) == Escape(i + 6, [39])
  {
    hide Named, Numeric, Matched, StandsAt;
    EntityRead(t, i, APOS, 3, 39);
    assert APOS[3..] == [111, 115, 59];
  }

  lemma QuotRead(t: bytes, i: nat)
    requires StandsAt(t, i, QUOT)
    ensures EscapeAt(t, i) == Escape(i + 6, [34])
  {
    hide Named, Numeric, Matched, StandsAt;
    EntityRead(t, i, QUOT, 2, 34);
    assert QUOT[2..] == [117, 111, 116, 59];
  }

  lemma EntityRead(t: bytes, i: nat, s: bytes, skip: nat, c: byte)
    requires StandsAt(t, i, s) && skip < |s| && 0 !in s
    ensures Named(t, i, skip, s[skip..], c) == Escape(i + |s|, [c])
    ensures i + |s| <= |t| && forall k :: 0 <= k < |s| ==> t[i + k] == s[k]
    ensures |s| > 1 ==> t[i + 1] == s[1]
    ensures |s| > 2 ==> t[i + 2] == s[2]
  {
    StandsEach(t, i, s);
    assert forall k :: 0 <= k < |s| - skip ==> s[skip..][k] == s[skip + k];
    MatchedAll(t, i + skip, s[skip..]);
  }

  // ----- character references

  /** Decimal and hexadecimal references, with any number of digits. */
  lemma ReferenceRead(t: bytes, i: nat, k: nat, hex: bool)
    requires StandsAt(t, i, if hex then [38, 35, 120] else [38, 35])
    requires (var b, j := if hex then Sixteen else Ten, if hex then i + 3 else i + 2;
              j < k < |t| && t[k] == 59 && (forall m :: j <= m < k ==> InBase(b, t[m])))
    ensures (var b, j := if hex then Sixteen else Ten, if hex then i + 3 else i + 2;
             AllIn(b, t[j..k]) &&
             EscapeAt(t, i) == Escape(k + 1, AnyUtf8(Integers.Value(b, t[j..k]) % 0x1_0000_0000)))
  {
    hide AnyUtf8, Integers.Value, Numeric, Named, StandsAt;
    var b, j := if hex then Sixteen else Ten, if hex then i + 3 else i + 2;
    StandsEach(t, i, if hex then [38, 35, 120] else [38, 35]);
    DigitRun(t, j, k, b);
    NoHexSign(t, j, b);
    ReferenceExact(t, i, j, k, b);
  }

  lemma {:induction false} DigitRun(t: bytes, j: nat, k: nat, b: Base)
    requires j <= k < |t| && t[k] == 59 && forall m :: j <= m < k ==> InBase(b, t[m])
    ensures RunEnd(b, t, j) == k
    decreases k - j
  {
    if j == k {
    } else {
      DigitRun(t, j + 1, k, b);
    }
  }

  lemma NoHexSign(t: bytes, j: nat, b: Base)
    requires j < |t| && InBase(b, t[j])
    ensures t[j] != 59 && t[j] != 120
  {}

  /** An ampersand before any other character is a character of its own. */
  lemma AmpersandAlone(t: bytes, i: nat)
    requires i < |t| && t[i] == 38 && (i + 1 < |t| ==> t[i + 1] !in {35, 97, 103, 108, 113})
    ensures EscapeAt(t, i) == Escape(i + 1, [38])
  {
    assert t[i..i + 1] == [38];
  }

  // ----- printing

  /** What is printed for a character of an attribute value, or of text. */
  lemma PrintedCharacter(attr: bool, c: byte)
    ensures EscapedChar(attr, c) ==
      if c == 60 then LT else if c == 62 then GT else if c == 38 then AMP
      else if attr && c == 34 then QUOT
      else if c >= 32 || c == 9 || (!attr && (c == 10 || c == 13)) then [c]
      else [38, 35, 48 + c / 10, 48 + c % 10, 59]
  {}

  // ----- ends of lines and white space

  /** A carriage return, a line feed behind it, any other character. */
  lemma LineEndCases(c: byte, s: bytes)
    ensures LineEnds([]) == [] && LineEnds([13, 10] + s) == [10] + LineEnds(s)
    ensures s == [] || s[0] != 10 ==> LineEnds([13] + s) == [10] + LineEnds(s)
    ensures c != 13 ==> LineEnds([c] + s) == [c] + LineEnds(s)
  {
    assert ([13, 10] + s)[2..] == s && ([13] + s)[1..] == s && ([c] + s)[1..] == s;
  }

  lemma WhiteSpace(c: byte)
    ensures IsSpace(c) <==> c == 9 || c == 10 || c == 13 || c == 32
  {}

  // ----- where a text ends

  /** s stands in t nowhere before its end. */
  predicate OnlyAtEnd(t: bytes, s: bytes) {
    forall k :: 0 <= k < |t| - |s| ==> !StandsAt(t, k, s)
  }

  /** A comment goes to the first `-->`. */
  lemma CommentRead(t: bytes, i: nat, body: bytes, last: byte)
    requires StandsAt(t, i, body + [45, 45, 62]) && 0 !in body && OnlyAtEnd(body + [45, 45, 62], [45, 45, 62])
    ensures Pieces(Comment(last), t, i) == Done(LineEnds(body), i + |body| + 3)
  {
    SectionRead(t, i, body, 45, Comment(last));
  }

  /** A CDATA section goes to the first `]]>`, and parsing goes on at its second bracket. */
  lemma CdataRead(t: bytes, i: nat, body: bytes, last: byte)
    requires StandsAt(t, i, body + [93, 93, 62]) && 0 !in body && OnlyAtEnd(body + [93, 93, 62], [93, 93, 62])
    ensures Pieces(Cdata(last), t, i) == Done(LineEnds(body), i + |body| + 1)
  {
    SectionRead(t, i, body, 93, Cdata(last));
  }

  /** The beginning of a text that stands somewhere. */
  lemma BodyAt(t: bytes, i: nat, body: bytes, s: bytes)
    requires StandsAt(t, i, s) && body <= s
    ensures i + |s| <= |t| && t[i..i + |body|] == body
    ensures forall k :: i <= k < i + |body| ==> t[k] in body && t[k] == body[k - i]
    ensures |s| > |body| ==> t[i + |body|] == s[|body|]
  {
    assert t[i..i + |body|] == t[i..i + |s|][..|body|];
    forall k | i <= k < i + |body| ensures t[k] in body && t[k] == body[k - i] {
      assert t[k] == t[i..i + |body|][k - i];
    }
    if |s| > |body| { assert t[i + |body|] == t[i..i + |s|][|body|]; }
  }

  lemma SectionRead(t: bytes, i: nat, body: bytes, c: byte, r: Reader)
    requires (r.Comment? && c == 45) || (r.Cdata? && c == 93)
    requires StandsAt(t, i, body + [c, c, 62]) && 0 !in body && OnlyAtEnd(body + [c, c, 62], [c, c, 62])
    ensures Pieces(r, t, i) == Done(LineEnds(body), i + |body| + if r.Comment? then 3 else 1)
  {
    hide Pieces, LineEnds, StandsAt, EndsFirstAt, OnlyAtEnd;
    var s, j := body + [c, c, 62], i + |body|;
    StandsEach(t, i, s);
    BodyAt(t, i, body, s);
    assert s[|body|] == s[|body| + 1] == c && s[|body| + 2] == 62;
    assert t[j] == t[j + 1] == c && t[j + 2] == 62 by {
      assert t[i + (|body| + 1)] == c && t[i + (|body| + 2)] == 62;
    }
    SectionEnds(t, i, s, c, r);
    LineEndsRead(r, t, i, j);
  }

  lemma SectionEnds(t: bytes, i: nat, s: bytes, c: byte, r: Reader)
    requires (r.Comment? && c == 45) || (r.Cdata? && c == 93)
    requires |s| >= 3 && s[|s| - 3] == s[|s| - 2] == c && s[|s| - 1] == 62 && 0 !in s[..|s| - 3]
    requires i + |s| <= |t| && (forall k :: 0 <= k < |s| ==> t[i + k] == s[k]) && OnlyAtEnd(s, [c, c, 62])
    ensures EndsFirstAt(r, t, i, i + |s| - 3)
  {
    hide StandsAt;
    var n := |s| - 3;
    assert t[i + n] == t[i + (n + 1)] == c && t[i + (n + 2)] == 62;
    forall k | i <= k < i + n ensures !EndsAt(r, t, k) && At(t, k) != 0 {
      NotYet(s, k - i, c);
      var m := k - i;
      assert t[i + m] == s[m] && t[i + (m + 1)] == s[m + 1] && t[i + (m + 2)] == s[m + 2];
      assert s[m] == s[..n][m] && (m + 2 < n ==> s[m + 2] == s[..n][m + 2]);
    }
  }

  /** c c > does not stand at m. */
  lemma NotYet(s: bytes, m: nat, c: byte)
    requires m + 3 <= |s| && !StandsAt(s, m, [c, c, 62])
    ensures !(s[m] == c && s[m + 1] == c && s[m + 2] == 62)
  {
    assert s[m..m + 3] == [s[m], s[m + 1], s[m + 2]];
  }

  /** Text goes to the next tag or the end of the input; without translation and escapes it stays as it is. */
  lemma TextRead(t: bytes, i: nat, body: bytes, trim: bool)
    requires StandsAt(t, i, body) && 0 !in body && 60 !in body && At(t, i + |body|) in {0, 60}
    ensures (var next := if At(t, i + |body|) == 60 then i + |body| + 1 else i + |body|;
             && Pieces(Pcdata(trim, true, false), t, i) == Done(LineEnds(body), next)
             && Pieces(Pcdata(trim, false, false), t, i) == Done(body, next))
  {
    hide Pieces, LineEnds;
    var j := i + |body|;
    BodyAt(t, i, body, body);
    LineEndsRead(Pcdata(trim, true, false), t, i, j);
    AsItIs(Pcdata(trim, false, false), t, i, j);
  }

  /** A reader without options keeps everything up to the end. */
  lemma {:induction false} AsItIs(r: Reader, t: bytes, i: nat, j: nat)
    requires Proper(r) && ((r.Pcdata? && !r.eol && !r.escapes) || (r.Simple? && !r.escapes)) && EndsFirstAt(r, t, i, j)
    ensures Pieces(r, t, i) == Done(t[i..j], AfterEnd(r, t, j))
    decreases j - i
  {
    if i == j {
    } else {
      AsItIs(r, t, i + 1, j);
      assert t[i..j] == [t[i]] + t[i + 1..j];
    }
  }

  /** White space of any kind as spaces. */
  function Blanked(s: bytes): (r: bytes)
    ensures |r| == |s| && forall i :: 0 <= i < |s| ==> r[i] == if s[i] in {9, 10, 13} then 32 else s[i]
  {
    seq(|s|, i requires 0 <= i < |s| => if s[i] in {9, 10, 13} then 32 else s[i])
  }

  /** An attribute value goes to its quote; without escapes, each option changes it as it says. */
  lemma ValueRead(t: bytes, i: nat, body: bytes, quote: byte)
    requires (quote == 34 || quote == 39) && StandsAt(t, i, body + [quote]) && 0 !in body && quote !in body
    ensures Pieces(Simple(quote, false), t, i) == Done(body, i + |body| + 1)
    ensures Pieces(Eol(quote, false), t, i) == Done(LineEnds(body), i + |body| + 1)
    ensures Pieces(Wconv(quote, false), t, i) == Done(Blanked(LineEnds(body)), i + |body| + 1)
  {
    hide Pieces, LineEnds, Blanked;
    var s, j := body + [quote], i + |body|;
    BodyAt(t, i, body, s);
    AsItIs(Simple(quote, false), t, i, j);
    LineEndsRead(Eol(quote, false), t, i, j);
    BlankedRead(t, i, j, quote);
  }

  lemma {:induction false} BlankedRead(t: bytes, i: nat, j: nat, quote: byte)
    requires Proper(Wconv(quote, false)) && EndsFirstAt(Wconv(quote, false), t, i, j)
    ensures Pieces(Wconv(quote, false), t, i) == Done(Blanked(LineEnds(t[i..j])), j + 1)
    decreases j - i
  {
    var s := t[i..j];
    if i == j {
      assert Blanked([]) == [];
    } else {
      var next := AfterLineEnd(t, i);
      assert t[j] == quote && i + 1 == j ==> At(t, i + 1) != 10;
      BlankedRead(t, next, j, quote);
      BlankedFirst(s);
      assert s[next - i..] == t[next..j];
      assert |s| > 1 ==> s[1] == t[i + 1];
    }
  }

  lemma BlankedFirst(s: bytes)
    requires s != []
    ensures (var n := if s[0] == 13 && |s| > 1 && s[1] == 10 then 2 else 1;
             Blanked(LineEnds(s)) == [if s[0] in {9, 10, 13} then 32 else s[0]] + Blanked(LineEnds(s[n..])))
  {
    hide Blanked;
    var n := if s[0] == 13 && |s| > 1 && s[1] == 10 then 2 else 1;
    BlankedMore(if s[0] == 13 then 10 else s[0], LineEnds(s[n..]));
  }

  lemma BlankedMore(c: byte, x: bytes)
    ensures Blanked([c] + x) == [if c in {9, 10, 13} then 32 else c] + Blanked(x)
  {}

  // ----- trimming

  lemma {:induction false} TrimmedIs(s: bytes, white: bytes)
    requires s != [] ==> s[|s| - 1] !in {9, 10, 13, 32}
    requires forall i :: 0 <= i < |white| ==> white[i] in {9, 10, 13, 32}
    ensures Trimmed(s + white) == s
    decreases |white|
  {
    var all := s + white;
    if white == [] {
      assert all == s;
    } else {
      assert all[..|all| - 1] == s + white[..|white| - 1];
      TrimmedIs(s, white[..|white| - 1]);
    }
  }

  /** Only text with that option and values normalised to tokens are trimmed, the latter in front too. */
  lemma TrimmedReaders(r: Reader, t: bytes, i: nat)
    requires Proper(r) && i <= |t| && Pieces(r, t, if r.Wnorm? then AfterSpaces(t, i) else i).Done?
    ensures (var p := Pieces(r, t, if r.Wnorm? then AfterSpaces(t, i) else i);
             Result(r, t, i) == if r.Wnorm? || (r.Pcdata? && r.trim) then Done(Trimmed(p.text), p.next) else p)
  {}

  // ----- words

  predicate AllWhite(s: bytes) {
    forall i :: 0 <= i < |s| ==> s[i] in {9, 10, 13, 32}
  }

  predicate NoneWhite(s: bytes) {
    forall i :: 0 <= i < |s| ==> s[i] !in {9, 10, 13, 32}
  }

  /** White space in front makes no difference, and a word goes to the next white space. */
  lemma {:induction false} WhiteInFront(white: bytes, rest: bytes)
    requires AllWhite(white)
    ensures Words(white + rest) == Words(rest)
    decreases |white|
  {
    if white == [] {
      assert white + rest == rest;
    } else {
      assert (white + rest)[1..] == white[1..] + rest;
      WhiteInFront(white[1..], rest);
    }
  }

  lemma {:induction false} WordInFront(word: bytes, rest: bytes)
    requires word != [] && NoneWhite(word) && (rest != [] ==> rest[0] in {9, 10, 13, 32})
    ensures Words(word + rest) == [word] + Words(rest)
    decreases |word|
  {
    var s := word + rest;
    assert s[1..] == word[1..] + rest;
    assert s[0] == word[0];
    if |word| == 1 {
      assert s[1..] == rest && word == [s[0]];
      assert |s| > 1 ==> s[1] == rest[0];
    } else {
      WordInFront(word[1..], rest);
      assert s[1] == word[1];
      assert [s[0]] + word[1..] == word;
      assert ([word[1..]] + Words(rest))[1..] == Words(rest);
    }
  }

  /** A list of words, and the text that has them one space apart. */
  predicate AreWords(ws: seq<bytes>) {
    forall i :: 0 <= i < |ws| ==> ws[i] != [] && NoneWhite(ws[i])
  }

  /** Words one space apart are read as these words, and no others are joined to that text. */
  lemma {:induction false} WordsJoined(ws: seq<bytes>)
    requires AreWords(ws)
    ensures Words(Joined(ws)) == ws
    decreases |ws|
  {
    if ws == [] {
    } else if |ws| == 1 {
      WordInFront(ws[0], []);
      assert ws[0] + [] == ws[0];
    } else {
      WordsJoined(ws[1..]);
      WordInFront(ws[0], [32] + Joined(ws[1..]));
      WhiteInFront([32], Joined(ws[1..]));
    }
  }
}
