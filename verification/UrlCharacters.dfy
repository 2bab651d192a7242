/**
  Which characters stand for what in a query: sections 2.1, 2.2, 2.3 and 3.4 of RFC 3986, by their codes, and a plus
  sign for a space.
*/
module UrlCharacters {
  import opened UrlQuery

  /** ALPHA, DIGIT, hyphen, full stop, underscore and tilde. */
  predicate Unreserved(c: char) {
    var x := c as int;
    65 <= x <= 90 || 97 <= x <= 122 || 48 <= x <= 57 || x == 45 || x == 46 || x == 95 || x == 126
  }

  /** ! $ & ' ( ) * + , ; = */
  predicate SubDelim(c: char) {
    var x := c as int;
    x == 33 || x == 36 || 38 <= x <= 44 || x == 59 || x == 61
  }

  /** What may stand in a query unescaped: pchar, slash and question mark. */
  predicate QueryChar(c: char) {
    Unreserved(c) || SubDelim(c) || c as int == 58 || c as int == 64 || c as int == 47 || c as int == 63
  }

  /** The value of a hexadecimal digit in either case, -1 for any other character. */
  function HexValue(c: char): int {
    var x := c as int;
    if 48 <= x <= 57 then x - 48 else if 65 <= x <= 70 then x - 55 else if 97 <= x <= 102 then x - 87 else -1
  }

  function UpperHex(d: int): int
    requires 0 <= d < 16
  {
    if d < 10 then 48 + d else 55 + d
  }

  lemma ClassIs(c: char)
    ensures Printable(c) <==> QueryChar(c)
    ensures Accepted(c) <==> QueryChar(c) || c as int == 37
    ensures HexDigit(c) == HexValue(c)
  {
    Classes(c);
    hide Class;
  }

  // ----- printing

  /** How one character is printed: as it is, as a plus sign, or as a percent triple with upper-case digits. */
  lemma PrintedChar(c: char, isKey: bool)
    requires c as int < 128
    ensures (var r, x := EncodedChar(c, isKey), c as int;
             if x == 32 then r == [43 as char]
             else if QueryChar(c) && x != 43 && x != 38 && x != 59 && !(isKey && x == 61) then r == [c]
             else r == [37 as char, UpperHex(x / 16) as char, UpperHex(x % 16) as char])
  {
    ClassIs(c);
    HexDigits(c as int / 16);
    HexDigits(c as int % 16);
    hide Printable, QueryChar, HexChar;
  }

  lemma HexDigits(d: int)
    requires 0 <= d < 16
    ensures HexChar(d) as int == UpperHex(d)
  {}

  /** A text of unreserved characters is printed as itself. */
  lemma {:induction false} UnreservedPrinted(s: string, isKey: bool)
    requires forall i :: 0 <= i < |s| ==> Unreserved(s[i])
    ensures UrlQuery.Ascii(s) && Encoded(s, isKey) == s
    decreases |s|
  {
    if s == [] {
    } else {
      UnreservedPrinted(s[1..], isKey);
      PrintedChar(s[0], isKey);
      assert s == [s[0]] + s[1..];
    }
  }

  // ----- reading

  /** The characters of a query, a percent sign only before two hexadecimal digits. */
  predicate WellFormed(s: string) {
    forall i :: 0 <= i < |s| ==> GoodAt(s, i)
  }

  predicate GoodAt(s: string, i: nat)
    requires i < |s|
  {
    QueryChar(s[i]) ||
    (s[i] as int == 37 && i + 2 < |s| && HexValue(s[i + 1]) >= 0 && HexValue(s[i + 2]) >= 0)
  }

  /** What the head of a text is decoded to. */
  lemma DecodedHead(s: string)
    requires s != []
    ensures s[0] as int != 37 ==>
      Decoded(s) == Joined([if s[0] as int == 43 then 32 as char else s[0]], Decoded(s[1..]))
    ensures s[0] as int == 37 ==>
      if |s| > 2 && HexValue(s[1]) >= 0 && HexValue(s[2]) >= 0 then
        Decoded(s) == Joined([(HexValue(s[1]) * 16 + HexValue(s[2])) as char], Decoded(s[3..]))
      else Decoded(s) == Err(InvalidPercent)
  {
    if |s| > 2 {
      ClassIs(s[1]);
      ClassIs(s[2]);
    }
    hide Class;
  }

  /** Percent signs stand before two hexadecimal digits. */
  predicate Triples(s: string) {
    forall i :: 0 <= i < |s| && s[i] as int == 37 ==>
      i + 2 < |s| && HexValue(s[i + 1]) >= 0 && HexValue(s[i + 2]) >= 0
  }

  lemma {:induction false} DecodedIff(s: string)
    ensures Decoded(s).Ok? <==> Triples(s)
    decreases |s|
  {
    hide Decoded;
    if s == [] {
      assert Decoded([]) == Ok([]) by { NothingDecoded(); }
    } else {
      DecodedHead(s);
      var n := if s[0] as int == 37 then 3 else 1;
      if n <= |s| {
        DecodedIff(s[n..]);
        TriplesBehind(s, n);
      }
    }
  }

  lemma NothingDecoded()
    ensures Decoded([]) == Ok([])
  {}

  lemma TriplesBehind(s: string, n: nat)
    requires s != [] && n == (if s[0] as int == 37 then 3 else 1) && n <= |s|
    ensures Triples(s) <==>
      Triples(s[n..]) && (n == 3 ==> HexValue(s[1]) >= 0 && HexValue(s[2]) >= 0)
  {
    assert forall i :: 0 <= i < |s| - n ==> s[n..][i] == s[n + i];
    if Triples(s[n..]) && (n == 3 ==> HexValue(s[1]) >= 0 && HexValue(s[2]) >= 0) {
      forall i | 0 <= i < |s| && s[i] as int == 37
        ensures i + 2 < |s| && HexValue(s[i + 1]) >= 0 && HexValue(s[i + 2]) >= 0
      {
        if i >= n { assert s[n..][i - n] == s[i]; }
      }
    }
    if Triples(s) {
      forall i | 0 <= i < |s| - n && s[n..][i] as int == 37
        ensures i + 2 < |s| - n && HexValue(s[n..][i + 1]) >= 0 && HexValue(s[n..][i + 2]) >= 0
      {
        assert s[n + i] as int == 37;
      }
    }
  }

  /** A raw key or value is taken exactly if it is well formed. */
  lemma PartIff(raw: string, error: Error)
    ensures Part(raw, error).Ok? <==> WellFormed(raw)
  {
    hide Decoded, IsChar, QueryChar, HexValue;
    NoPercent();
    DecodedIff(raw);
    forall i | 0 <= i < |raw| ensures IsChar(raw[i], 0x3F) <==> QueryChar(raw[i]) || raw[i] as int == 37 {
      ClassIs(raw[i]);
    }
    var accepted, triples := IsChars(raw, 0x3F), Triples(raw);
    if WellFormed(raw) {
      forall i | 0 <= i < |raw| ensures IsChar(raw[i], 0x3F) {
        assert GoodAt(raw, i);
      }
      forall i | 0 <= i < |raw| && raw[i] as int == 37
        ensures i + 2 < |raw| && HexValue(raw[i + 1]) >= 0 && HexValue(raw[i + 2]) >= 0
      {
        assert GoodAt(raw, i);
      }
      assert accepted && triples;
    }
    if accepted && triples {
      forall i | 0 <= i < |raw| ensures GoodAt(raw, i) {
        assert IsChar(raw[i], 0x3F);
      }
    }
  }

  lemma NoPercent()
    ensures forall c: char :: QueryChar(c) ==> c as int != 37
  {}

  /** Joining at a character that is no hexadecimal digit. */
  lemma WellFormedJoin(a: string, c: char, b: string)
    requires QueryChar(c) && HexValue(c) < 0
    ensures WellFormed(a + [c] + b) <==> WellFormed(a) && WellFormed(b)
  {
    hide QueryChar, HexValue;
    NoPercent();
    var s := a + [c] + b;
    forall i | 0 <= i < |a| ensures GoodAt(s, i) <==> GoodAt(a, i) {
      assert s[i] == a[i];
    }
    forall i | 0 <= i < |b| ensures GoodAt(s, |a| + 1 + i) <==> GoodAt(b, i) {
      assert s[|a| + 1 + i] == b[i];
    }
    assert s[|a|] == c && GoodAt(s, |a|);
    if WellFormed(s) {
      forall i | 0 <= i < |b| ensures GoodAt(b, i) {
        assert GoodAt(s, |a| + 1 + i);
      }
    }
    if WellFormed(a) && WellFormed(b) {
      forall i | 0 <= i < |s| ensures GoodAt(s, i) {
        if i > |a| { assert GoodAt(b, i - |a| - 1); }
      }
    }
  }

  /** A query text is accepted exactly if it is well formed; separators do not matter. */
  lemma {:induction false} EntriesIff(s: string)
    ensures Entries(s).Ok? <==> WellFormed(s)
    decreases |s|
  {
    hide Cut, Part, WellFormed;
    var raw := Cut(s);
    PartIff(raw.key, InvalidKey);
    PartIff(raw.val, InvalidValue);
    EntryCases(raw);
    CutParts(s);
    if raw.more {
      CutShorter(s);
      EntriesIff(raw.rest);
    }
  }

  lemma CutShorter(s: string)
    requires Cut(s).more
    ensures |Cut(s).rest| < |s|
  {}

  /** A text is well formed exactly if the parts it is cut into are. */
  lemma CutParts(s: string)
    ensures (var raw := Cut(s);
             WellFormed(s) <==> WellFormed(raw.key) && WellFormed(raw.val) && (raw.more ==> WellFormed(raw.rest)))
  {
    hide WellFormed, FindFirst;
    Separators();
    WellFormedEmpty();
    var p := FindFirst(s, KEY_STOPS);
    if p < |s| {
      StopsAt(s, KEY_STOPS);
      var v := s[p + 1..];
      assert s == s[..p] + [s[p]] + v;
      WellFormedJoin(s[..p], s[p], v);
      var n := FindFirst(v, VAL_STOPS);
      if n < |v| {
        StopsAt(v, VAL_STOPS);
        assert v == v[..n] + [v[n]] + v[n + 1..];
        WellFormedJoin(v[..n], v[n], v[n + 1..]);
      } else {
        assert v[..n] == v;
      }
    } else {
      assert s[..p] == s;
    }
  }

  lemma WellFormedEmpty()
    ensures WellFormed([])
  {}

  lemma {:induction false} StopsAt(s: string, stops: set<char>)
    requires FindFirst(s, stops) < |s|
    ensures s[FindFirst(s, stops)] in stops
    decreases |s|
  {
    if s[0] in stops {
    } else {
      StopsAt(s[1..], stops);
    }
  }

  /** The separators may stand in a query, and are no hexadecimal digits. */
  lemma Separators()
    ensures forall c :: c in KEY_STOPS ==> QueryChar(c) && HexValue(c) < 0
    ensures forall c :: c in VAL_STOPS ==> QueryChar(c) && HexValue(c) < 0
  {}

  /** Whatever stands in a query: it is accepted if and only if it is well formed. */
  lemma AcceptedIff(query: string)
    ensures Parsed(query).Ok? <==> WellFormed(query)
  {
    hide Entries;
    EntriesIff(query);
  }

  // ----- the parts of a query

  /** No equals sign, ampersand or semicolon; a value may hold equals signs. */
  predicate Solid(s: string, isKey: bool) {
    forall i :: 0 <= i < |s| ==> s[i] as int != 38 && s[i] as int != 59 && (isKey ==> s[i] as int != 61)
  }

  /** A key goes to the first equals sign or separator, a value to the next separator, which ends the entry. */
  lemma EntryParts(key: string, val: string, sep: char, rest: string)
    requires Solid(key, true) && Solid(val, false) && (sep as int == 38 || sep as int == 59)
    ensures Cut(key) == Raw(key, [], false, [])
    ensures Cut(key + ([sep] + rest)) == Raw(key, [], true, rest)
    ensures Cut(key + ([61 as char] + val)) == Raw(key, val, false, [])
    ensures Cut(key + ([61 as char] + (val + ([sep] + rest)))) == Raw(key, val, true, rest)
  {
    var eq: char := 61 as char;
    assert forall c: char :: c in KEY_STOPS <==> c as int == 61 || c as int == 59 || c as int == 38;
    assert forall c: char :: c in VAL_STOPS <==> c as int == 59 || c as int == 38;
    hide FindFirst;
    KeyAlone(key);
    KeyThenSeparator(key, sep, rest);
    KeyThenValue(key, eq, val, []);
    KeyThenValue(key, eq, val, [sep] + rest);
    assert val + [] == val && ([sep] + rest)[1..] == rest;
  }

  lemma KeyAlone(key: string)
    requires forall i :: 0 <= i < |key| ==> key[i] !in KEY_STOPS
    ensures Cut(key) == Raw(key, [], false, [])
  {
    FoundFirst(key, [], KEY_STOPS);
    assert key + [] == key && key[..|key|] == key;
  }

  lemma KeyThenSeparator(key: string, sep: char, rest: string)
    requires (forall i :: 0 <= i < |key| ==> key[i] !in KEY_STOPS) && sep in VAL_STOPS
    ensures Cut(key + ([sep] + rest)) == Raw(key, [], true, rest)
  {
    var s := key + ([sep] + rest);
    FoundFirst(key, [sep] + rest, KEY_STOPS);
    assert s[..|key|] == key && s[|key|] == sep && s[|key| + 1..] == rest;
    hide FindFirst;
  }

  lemma KeyThenValue(key: string, eq: char, val: string, tail: string)
    requires eq as int == 61 && (forall i :: 0 <= i < |key| ==> key[i] !in KEY_STOPS)
    requires (forall i :: 0 <= i < |val| ==> val[i] !in VAL_STOPS) && (tail != [] ==> tail[0] in VAL_STOPS)
    ensures Cut(key + ([eq] + (val + tail))) == Raw(key, val, tail != [], if tail != [] then tail[1..] else [])
  {
    var t := val + tail;
    var s := key + ([eq] + t);
    FoundFirst(key, [eq] + t, KEY_STOPS);
    FoundFirst(val, tail, VAL_STOPS);
    assert s[..|key|] == key && s[|key|] == eq && s[|key| + 1..] == t;
    assert t[..|val|] == val && (tail != [] ==> t[|val| + 1..] == tail[1..]);
    hide FindFirst;
  }
}
