/** The query part of a URL: key/value pairs printed by build_url and read back by parse_url. */
module UrlQuery {
  datatype KeyVal = KeyVal(key: string, val: string)

  datatype Error = InvalidKey | InvalidValue | InvalidPercent | EmptyKey

  datatype Result<T> = Ok(value: T) | Err(error: Error)

  // ----- character classes

  predicate IsAlnum(c: char) {
    '0' <= c <= '9' || 'A' <= c <= 'Z' || 'a' <= c <= 'z'
  }

  /** The unreserved characters and sub-delimiters of RFC 3986. */
  predicate IsPlain(c: char) {
    IsAlnum(c) || c in "-._~!$&'()*+,;="
  }

  /** `tbl`: a bit for each place a character may stand in. */
  function Class(c: char): bv8 {
    if c == ':' then 0x04
    else if c == '@' then 0x02
    else if c == '/' then 0x08
    else if c == '?' then 0x10
    else if c == '%' then 0x20
    else if IsPlain(c) then 0x01
    else 0
  }

  predicate IsChar(c: char, mask: bv8) {
    Class(c) & mask != 0
  }

  predicate IsChars(s: string, mask: bv8) {
    forall i :: 0 <= i < |s| ==> IsChar(s[i], mask)
  }

  /** The characters build_url writes as they are, and those parse_url accepts in a query. */
  predicate Printable(c: char) {
    IsChar(c, 0x1F)
  }

  predicate Accepted(c: char) {
    IsChar(c, 0x3F)
  }

  lemma Classes(c: char)
    ensures Printable(c) <==> IsPlain(c) || c == ':' || c == '@' || c == '/' || c == '?'
    ensures Accepted(c) <==> Printable(c) || c == '%'
  {}

  // ----- percent encoding

  function HexChar(d: int): char
    requires 0 <= d < 16
  {
    "0123456789ABCDEF"[d]
  }

  /** `get_hex_digit`. */
  function HexDigit(c: char): (r: int)
    ensures -1 <= r < 16
  {
    if '0' <= c <= '9' then c as int - '0' as int
    else if 'A' <= c <= 'F' then c as int - 'A' as int + 10
    else if 'a' <= c <= 'f' then c as int - 'a' as int + 10
    else -1
  }

  /** Encoding is for 7-bit characters: the first hexadecimal digit is looked up by the signed upper half. */
  predicate Ascii(s: string) {
    forall i :: 0 <= i < |s| ==> s[i] < 128 as char
  }

  /** One character of a key, or of a value, as printed. */
  function EncodedChar(c: char, isKey: bool): (r: string)
    requires c < 128 as char
    ensures |r| > 0
  {
    if c == ' ' then "+"
    else if c == '+' then "%2B"
    else if isKey && c == '=' then "%3D"
    else if c == '&' then "%26"
    else if c == ';' then "%3B"
    else if Printable(c) then [c]
    else ['%', HexChar(c as int / 16), HexChar(c as int % 16)]
  }

  function Encoded(s: string, isKey: bool): string
    requires Ascii(s)
  {
    if s == "" then "" else EncodedChar(s[0], isKey) + Encoded(s[1..], isKey)
  }

  lemma Regroup(a: string, b: string, c: string)
    ensures a + (b + c) == a + b + c
  {}

  lemma EncodedStep(s: string, i: nat, isKey: bool, o: string)
    requires i < |s| && Ascii(s)
    ensures o + Encoded(s[i..], isKey) == o + EncodedChar(s[i], isKey) + Encoded(s[i + 1..], isKey)
  {
    assert s[i..][1..] == s[i + 1..];
    Regroup(o, EncodedChar(s[i], isKey), Encoded(s[i + 1..], isKey));
  }

  lemma EncodedEnds(s: string, isKey: bool)
    requires Ascii(s)
    ensures s[0..] == s && s[|s|..] == "" && Encoded(s[|s|..], isKey) == ""
  {}

  /** `encode_query_key`. */
  method EncodeQueryKey(s: string) returns (o: string)
    requires Ascii(s)
    ensures o == Encoded(s, true)
  {
    o := "";
    EncodedEnds(s, true);
    hide Encoded;
    for i := 0 to |s|
      invariant o + Encoded(s[i..], true) == Encoded(s, true)
    {
      var c := s[i];
      EncodedStep(s, i, true, o);
      if c == ' ' {
        o := o + "+";
      } else if c == '+' {
        o := o + "%2B";
      } else if c == '=' {
        o := o + "%3D";
      } else if c == '&' {
        o := o + "%26";
      } else if c == ';' {
        o := o + "%3B";
      } else if IsChar(c, 0x1F) {
        o := o + [c];
      } else {
        o := o + ['%', HexChar(c as int / 16), HexChar(c as int % 16)];
      }
    }
  }

  /** `encode_query_val`: an equals sign stays as it is. */
  method EncodeQueryVal(s: string) returns (o: string)
    requires Ascii(s)
    ensures o == Encoded(s, false)
  {
    o := "";
    EncodedEnds(s, false);
    hide Encoded;
    for i := 0 to |s|
      invariant o + Encoded(s[i..], false) == Encoded(s, false)
    {
      var c := s[i];
      EncodedStep(s, i, false, o);
      if c == ' ' {
        o := o + "+";
      } else if c == '+' {
        o := o + "%2B";
      } else if c == '&' {
        o := o + "%26";
      } else if c == ';' {
        o := o + "%3B";
      } else if IsChar(c, 0x1F) {
        o := o + [c];
      } else {
        o := o + ['%', HexChar(c as int / 16), HexChar(c as int % 16)];
      }
    }
  }

  /** Plus signs and percent triples resolved. */
  function Decoded(s: string): Result<string> {
    if s == [] then Ok([])
    else if s[0] == '%' then
      if |s| < 3 || HexDigit(s[1]) < 0 || HexDigit(s[2]) < 0 then Err(InvalidPercent)
      else Joined([(HexDigit(s[1]) * 16 + HexDigit(s[2])) as char], Decoded(s[3..]))
    else Joined([if s[0] == '+' then ' ' else s[0]], Decoded(s[1..]))
  }

  function Joined<T>(a: seq<T>, r: Result<seq<T>>): Result<seq<T>> {
    match r case Ok(b) => Ok(a + b) case Err(e) => Err(e)
  }

  lemma JoinedNone<T>(r: Result<seq<T>>)
    ensures Joined([], r) == r
  {
    if r.Ok? { assert [] + r.value == r.value; }
  }

  lemma JoinedTwice<T>(a: seq<T>, b: seq<T>, r: Result<seq<T>>)
    ensures Joined(a, Joined(b, r)) == Joined(a + b, r)
  {
    if r.Ok? { assert a + (b + r.value) == a + b + r.value; }
  }

  /** `decode_plus`. */
  method DecodePlus(s: string) returns (r: Result<string>)
    ensures r == Decoded(s)
  {
    var o: string, i := [], 0;
    assert s[0..] == s;
    JoinedNone(Decoded(s));
    while i != |s|
      invariant 0 <= i <= |s| && Decoded(s) == Joined(o, Decoded(s[i..]))
      decreases |s| - i
    {
      var c := s[i];
      ghost var at, before := i, o;
      i := i + 1;
      if c == '+' {
        c := ' ';
      } else if c == '%' {
        if i == |s| { return Err(InvalidPercent); }
        var a := HexDigit(s[i]);
        i := i + 1;
        if a < 0 || i == |s| { return Err(InvalidPercent); }
        var b := HexDigit(s[i]);
        i := i + 1;
        if b < 0 { return Err(InvalidPercent); }
        c := (a * 16 + b) as char;
      }
      o := o + [c];
      assert s[at..][i - at..] == s[i..];
      JoinedTwice(before, [c], Decoded(s[i..]));
    }
    r := Ok(o);
    assert o + [] == o;
  }

  // ----- printing and reading a query

  predicate AllAscii(q: seq<KeyVal>) {
    forall i :: 0 <= i < |q| ==> Ascii(q[i].key) && Ascii(q[i].val)
  }

  function PrintedEntry(kv: KeyVal): string
    requires Ascii(kv.key) && Ascii(kv.val)
  {
    Encoded(kv.key, true) + if kv.val == [] then [] else "=" + Encoded(kv.val, false)
  }

  function Printed(q: seq<KeyVal>): string
    requires AllAscii(q)
  {
    if q == [] then "" else PrintedEntry(q[0]) + PrintedRest(q[1..])
  }

  function PrintedRest(q: seq<KeyVal>): string
    requires AllAscii(q)
  {
    if q == [] then "" else "&" + (PrintedEntry(q[0]) + PrintedRest(q[1..]))
  }

  predicate HasEmptyKey(q: seq<KeyVal>) {
    exists i :: 0 <= i < |q| && q[i].key == []
  }

  /** `url << encode_query_key(key)`, then the value if there is one. */
  method PutEntry(url0: string, kv: KeyVal) returns (url: string)
    requires Ascii(kv.key) && Ascii(kv.val)
    ensures url == url0 + PrintedEntry(kv)
  {
    var e := EncodeQueryKey(kv.key);
    url := url0 + e;
    if kv.val != [] {
      e := EncodeQueryVal(kv.val);
      url := url + ("=" + e);
    }
  }

  lemma PrintedNext(q: seq<KeyVal>, it: nat, text: string)
    requires it < |q| && AllAscii(q)
    ensures text + PrintedRest(q[it..]) == text + "&" + PrintedEntry(q[it]) + PrintedRest(q[it + 1..])
  {
    assert q[it..][1..] == q[it + 1..];
    Regroup(text, "&", PrintedEntry(q[it]) + PrintedRest(q[it + 1..]));
    Regroup(text + "&", PrintedEntry(q[it]), PrintedRest(q[it + 1..]));
    hide PrintedEntry, Ascii;
  }

  lemma EmptyKeyAt(q: seq<KeyVal>, i: nat)
    requires i < |q|
    ensures q[i].key == [] ==> HasEmptyKey(q)
    ensures q[i].key != [] && !HasEmptyKey(q[..i]) ==> !HasEmptyKey(q[..i + 1])
  {}

  /** The query loop of `build_url`, from the question mark on; an entry without a key is refused. */
  method BuildQuery(q: seq<KeyVal>) returns (r: Result<string>)
    requires AllAscii(q)
    ensures r == if HasEmptyKey(q) then Err(EmptyKey) else Ok(if q == [] then [] else "?" + Printed(q))
  {
    if q == [] { return Ok(""); }
    assert !HasEmptyKey(q[..0]);
    hide PrintedEntry, PrintedRest, HasEmptyKey;
    EmptyKeyAt(q, 0);
    if q[0].key == "" { return Err(EmptyKey); }
    var text := PutEntry("", q[0]);
    assert text == PrintedEntry(q[0]) by { assert "" + PrintedEntry(q[0]) == PrintedEntry(q[0]); }
    hide Printed;
    var it := 1;
    while it != |q|
      invariant 1 <= it <= |q| && text + PrintedRest(q[it..]) == Printed(q) && !HasEmptyKey(q[..it])
    {
      EmptyKeyAt(q, it);
      if q[it].key == "" { return Err(EmptyKey); }
      PrintedNext(q, it, text);
      text := PutEntry(text + "&", q[it]);
      it := it + 1;
    }
    assert q[..it] == q;
    NothingPrinted(q[it..]);
    assert text + "" == text;
    r := Ok("?" + text);
  }

  lemma NothingPrinted(q: seq<KeyVal>)
    requires q == []
    ensures PrintedRest(q) == ""
  {}

  /** `find_first_of`: position of the first character of s that is one of the stops. */
  function FindFirst(s: string, stops: set<char>): (p: nat)
    ensures p <= |s|
  {
    if s == [] || s[0] in stops then 0 else 1 + FindFirst(s[1..], stops)
  }

  lemma {:induction false} FoundFirst(a: string, b: string, stops: set<char>)
    requires (forall k :: 0 <= k < |a| ==> a[k] !in stops) && (b != [] ==> b[0] in stops)
    ensures FindFirst(a + b, stops) == |a|
    decreases |a|
  {
    if a == [] {
      assert a + b == b;
    } else {
      assert (a + b)[1..] == a[1..] + b;
      FoundFirst(a[1..], b, stops);
    }
  }

  const KEY_STOPS: set<char> := {'=', ';', '&'}

  const VAL_STOPS: set<char> := {';', '&'}

  /** The next entry of a query text: its raw key and value, and what follows the separator, if there is one. */
  datatype Raw = Raw(key: string, val: string, more: bool, rest: string)

  function Cut(s: string): Raw {
    var p := FindFirst(s, KEY_STOPS);
    if p < |s| && s[p] == '=' then
      var v := s[p + 1..];
      var n := FindFirst(v, VAL_STOPS);
      Raw(s[..p], v[..n], n < |v|, if n < |v| then v[n + 1..] else [])
    else Raw(s[..p], [], p < |s|, if p < |s| then s[p + 1..] else [])
  }

  /** A raw key or value, checked and decoded. */
  function Part(raw: string, error: Error): Result<string> {
    if IsChars(raw, 0x3F) then Decoded(raw) else Err(error)
  }

  function Entry(raw: Raw): Result<KeyVal> {
    match Part(raw.key, InvalidKey)
    case Err(e) => Err(e)
    case Ok(key) =>
      match Part(raw.val, InvalidValue)
      case Err(e) => Err(e)
      case Ok(val) => Ok(KeyVal(key, val))
  }

  /**
    The entries of a query text, the first error winning; a separator at the end is followed by one more, empty,
    entry.
  */
  function Entries(s: string): Result<seq<KeyVal>>
    decreases |s|
  {
    var raw := Cut(s);
    match Entry(raw)
    case Err(e) => Err(e)
    case Ok(kv) =>
      if raw.more then
        assert |raw.rest| < |s|;
        Joined([kv], Entries(raw.rest))
      else Ok([kv])
  }

  function Parsed(s: string): Result<seq<KeyVal>> {
    if s == [] then Ok([]) else Entries(s)
  }

  method FindFirstOf(s: string, b: nat, stops: set<char>) returns (p: nat)
    requires b <= |s|
    ensures p == b + FindFirst(s[b..], stops) <= |s|
  {
    p := b;
    while p != |s| && s[p] !in stops
      invariant b <= p <= |s| && b + FindFirst(s[b..], stops) == p + FindFirst(s[p..], stops)
    {
      assert s[p..][1..] == s[p + 1..];
      p := p + 1;
    }
  }

  /** raw goes on from a key that ended at p: the value, if an equals sign follows, and what is behind the separator. */
  predicate CutFrom(s: string, p: nat, raw: Raw) {
    && p <= |s|
    && if p < |s| && s[p] == '=' then
         var n := p + 1 + FindFirst(s[p + 1..], VAL_STOPS);
         raw.val == s[p + 1..n] && (raw.more <==> n < |s|) && (n < |s| ==> raw.rest == s[n + 1..])
       else raw.val == "" && (raw.more <==> p < |s|) && (p < |s| ==> raw.rest == s[p + 1..])
  }

  /** The cut at b, by positions in the whole text. */
  lemma CutAt(s: string, b: nat)
    requires b <= |s|
    ensures (var p := b + FindFirst(s[b..], KEY_STOPS);
             p <= |s| && Cut(s[b..]).key == s[b..p] && CutFrom(s, p, Cut(s[b..])))
  {
    hide FindFirst;
    var t := s[b..];
    var p := FindFirst(t, KEY_STOPS);
    assert t[..p] == s[b..b + p];
    if p < |t| {
      var v := s[b + p + 1..];
      assert t[p + 1..] == v && t[p] == s[b + p];
      var n := FindFirst(v, VAL_STOPS);
      assert v[..n] == s[b + p + 1..b + p + 1 + n];
      assert n < |v| ==> v[n + 1..] == s[b + p + 1 + n + 1..];
    }
  }

  /** One round of the query loop of `parse_url`: the entry at b, and where the loop stands after it. */
  method ParseEntry(query: string, b0: nat) returns (r: Result<KeyVal>, p: nat, b: nat)
    requires b0 <= |query|
    ensures r == Entry(Cut(query[b0..]))
    ensures r.Ok? ==> p <= |query| && (p != |query| <==> Cut(query[b0..]).more)
    ensures r.Ok? && p != |query| ==> b0 < b <= |query| && query[b..] == Cut(query[b0..]).rest
  {
    b := b0;
    CutAt(query, b);
    ghost var raw := Cut(query[b..]);
    EntryCases(raw);
    hide *;
    p := FindFirstOf(query, b, KEY_STOPS);
    var key := ReadPart(query[b..p], InvalidKey);
    assert key == Part(raw.key, InvalidKey);
    if key.Err? { return Err(key.error), p, b; }
    var val;
    val, p, b := ParseValue(query, p, b, raw);
    if val.Err? { return Err(val.error), p, b; }
    r := Ok(KeyVal(key.value, val.value));
  }

  /** The value after a key that ended at p0. */
  method ParseValue(query: string, p0: nat, b0: nat, ghost raw: Raw) returns (val: Result<string>, p: nat, b: nat)
    requires b0 <= p0 <= |query| && CutFrom(query, p0, raw)
    ensures val == Part(raw.val, InvalidValue) && p <= |query| && (p != |query| <==> raw.more)
    ensures p != |query| ==> b0 < b <= |query| && query[b..] == raw.rest
  {
    p, b := p0, b0;
    val := Ok([]);
    EmptyValue();
    hide FindFirst, Part;
    if p != |query| {
      if query[p] == '=' {
        b := p + 1;
        p := FindFirstOf(query, b, VAL_STOPS);
        val := ReadPart(query[b..p], InvalidValue);
      }
      b := p + 1;
    }
  }

  lemma EntryCases(raw: Raw)
    ensures (var k, v := Part(raw.key, InvalidKey), Part(raw.val, InvalidValue);
             && (k.Err? ==> Entry(raw) == Err(k.error))
             && (k.Ok? && v.Err? ==> Entry(raw) == Err(v.error))
             && (k.Ok? && v.Ok? ==> Entry(raw) == Ok(KeyVal(k.value, v.value))))
  {}

  method ReadPart(raw: string, error: Error) returns (r: Result<string>)
    ensures r == Part(raw, error)
  {
    if !IsChars(raw, 0x3F) { return Err(error); }
    r := DecodePlus(raw);
  }

  /** The query loop of `parse_url`. */
  method ParseQuery(query: string) returns (r: Result<seq<KeyVal>>)
    ensures r == Parsed(query)
  {
    var q: seq<KeyVal>, p: nat, b: nat := [], 0, 0;
    assert query[0..] == query;
    JoinedNone(Parsed(query));
    if query == [] { return Ok([]); }
    hide Entry, Cut, Parsed, Joined;
    while p != |query|
      invariant p <= |query| && (p != |query| ==> b <= |query|)
      invariant if p == |query| then Parsed(query) == Ok(q) else Parsed(query) == Joined(q, Entries(query[b..]))
      decreases if p == |query| then 0 else |query| - b + 1
    {
      ghost var b0 := b;
      var kv;
      kv, p, b := ParseEntry(query, b);
      if kv.Err? { JoinedError<KeyVal>(q, kv.error); return Err(kv.error); }
      JoinedOk(q, [kv.value]);
      if p != |query| { JoinedTwice(q, [kv.value], Entries(query[b..])); }
      q := q + [kv.value];
    }
    r := Ok(q);
  }

  lemma JoinedError<T>(a: seq<T>, e: Error)
    ensures Joined(a, Err(e)) == Err(e)
  {}

  lemma JoinedOk<T>(a: seq<T>, b: seq<T>)
    ensures Joined(a, Ok(b)) == Ok(a + b)
  {}

  lemma EmptyValue()
    ensures Part([], InvalidValue) == Ok([])
  {}

  // ----- printing then reading

  /** Text that may stand in a query part: accepted characters, no separator, no fragment mark. */
  predicate Inert(s: string, isKey: bool) {
    forall i :: 0 <= i < |s| ==> InertChar(s[i], isKey)
  }

  predicate InertChar(c: char, isKey: bool) {
    Accepted(c) && c != ';' && c != '&' && c != '#' && (isKey ==> c != '=')
  }

  lemma CharInert(c: char, isKey: bool)
    requires c < 128 as char
    ensures Inert(EncodedChar(c, isKey), isKey)
  {
    var e := EncodedChar(c, isKey);
    forall i | 0 <= i < |e| ensures InertChar(e[i], isKey) {
      Classes(c);
      Classes(e[i]);
    }
  }

  lemma CharDecodes(c: char, isKey: bool, t: string)
    requires c < 128 as char
    ensures Decoded(EncodedChar(c, isKey) + t) == Joined([c], Decoded(t))
  {
    var e := EncodedChar(c, isKey);
    var s := e + t;
    Classes(c);
    assert s[0] == e[0] && s[|e|..] == t;
    if |e| == 3 {
      assert s[1] == e[1] && s[2] == e[2];
      HexBack(c);
    }
    hide Class, IsPlain;
  }

  lemma HexBack(c: char)
    requires c < 128 as char
    ensures HexDigit(HexChar(c as int / 16)) == c as int / 16 && HexDigit(HexChar(c as int % 16)) == c as int % 16
  {}

  /** What is printed for a key or value is inert and decodes to it. */
  lemma {:induction false} EncodedDecodes(s: string, isKey: bool)
    requires Ascii(s)
    ensures Inert(Encoded(s, isKey), isKey) && Decoded(Encoded(s, isKey)) == Ok(s)
    decreases |s|
  {
    if s == [] {
    } else {
      hide EncodedChar, InertChar, Encoded, Decoded;
      CharInert(s[0], isKey);
      CharDecodes(s[0], isKey, Encoded(s[1..], isKey));
      EncodedDecodes(s[1..], isKey);
      assert [s[0]] + s[1..] == s;
    }
  }

  lemma InertParts(s: string, isKey: bool, error: Error)
    requires Ascii(s)
    ensures Part(Encoded(s, isKey), error) == Ok(s)
    ensures forall k :: 0 <= k < |Encoded(s, isKey)| ==>
      Encoded(s, isKey)[k] !in (if isKey then KEY_STOPS else VAL_STOPS)
  {
    EncodedDecodes(s, isKey);
    var e := Encoded(s, isKey);
    assert forall k :: 0 <= k < |e| ==> InertChar(e[k], isKey);
  }

  /** A printed entry is cut where it was joined. */
  lemma EntryCut(kv: KeyVal, tail: string)
    requires Ascii(kv.key) && Ascii(kv.val) && (tail != [] ==> tail[0] == '&')
    ensures Cut(PrintedEntry(kv) + tail)
         == Raw(Encoded(kv.key, true), Encoded(kv.val, false), tail != [], if tail != [] then tail[1..] else [])
  {
    InertParts(kv.key, true, InvalidKey);
    InertParts(kv.val, false, InvalidValue);
    PrintedEntryIs(kv, tail);
    hide *;
    if kv.val == "" {
      CutKey(Encoded(kv.key, true), tail);
    } else {
      CutKeyValue(Encoded(kv.key, true), Encoded(kv.val, false), tail);
    }
  }

  lemma PrintedEntryIs(kv: KeyVal, tail: string)
    requires Ascii(kv.key) && Ascii(kv.val)
    ensures kv.val == "" ==> PrintedEntry(kv) + tail == Encoded(kv.key, true) + tail && Encoded(kv.val, false) == ""
    ensures (kv.val != "" ==>
      PrintedEntry(kv) + tail == Encoded(kv.key, true) + ("=" + (Encoded(kv.val, false) + tail)))
  {
    var k, v := Encoded(kv.key, true), Encoded(kv.val, false);
    hide Encoded;
    if kv.val == "" {
      EncodedEmpty();
      assert k + "" == k;
    } else {
      assert k + ("=" + v) + tail == k + ("=" + (v + tail));
    }
  }

  lemma CutKey(k: string, tail: string)
    requires (forall i :: 0 <= i < |k| ==> k[i] !in KEY_STOPS) && (tail != [] ==> tail[0] == '&')
    ensures Cut(k + tail) == Raw(k, [], tail != [], if tail != [] then tail[1..] else [])
  {
    var s := k + tail;
    FoundFirst(k, tail, KEY_STOPS);
    assert s[..|k|] == k && (tail != [] ==> s[|k|] == tail[0] && s[|k| + 1..] == tail[1..]);
    hide FindFirst;
  }

  lemma CutKeyValue(k: string, v: string, tail: string)
    requires (forall i :: 0 <= i < |k| ==> k[i] !in KEY_STOPS) && (forall i :: 0 <= i < |v| ==> v[i] !in VAL_STOPS)
    requires tail != [] ==> tail[0] == '&'
    ensures Cut(k + ("=" + (v + tail))) == Raw(k, v, tail != [], if tail != [] then tail[1..] else [])
  {
    var t := v + tail;
    var s := k + ("=" + t);
    FoundFirst(k, "=" + t, KEY_STOPS);
    FoundFirst(v, tail, VAL_STOPS);
    hide FindFirst;
    assert s[..|k|] == k && s[|k|] == '=' && s[|k| + 1..] == t;
    assert t[..|v|] == v && (tail != [] ==> t[|v| + 1..] == tail[1..]);
  }

  lemma EncodedEmpty()
    ensures Encoded([], false) == []
  {}

  /** A printed entry is read back, and reading goes on behind its separator. */
  lemma EntryReadBack(kv: KeyVal, tail: string)
    requires Ascii(kv.key) && Ascii(kv.val) && (tail != [] ==> tail[0] == '&')
    ensures Entries(PrintedEntry(kv) + tail) == if tail == [] then Ok([kv]) else Joined([kv], Entries(tail[1..]))
  {
    EntryCut(kv, tail);
    InertParts(kv.key, true, InvalidKey);
    InertParts(kv.val, false, InvalidValue);
    hide Part, Cut, Encoded, PrintedEntry;
    EntryCases(Cut(PrintedEntry(kv) + tail));
  }

  /** Parsing the query that build_url prints gives back the same pairs. */
  lemma {:induction false} PrintThenParse(q: seq<KeyVal>)
    requires AllAscii(q) && !HasEmptyKey(q)
    ensures Parsed(Printed(q)) == Ok(q)
    decreases |q|
  {
    hide Entries, PrintedEntry, PrintedRest, Printed;
    PrintedIs(q);
    if q == [] {
    } else {
      var rest := q[1..];
      NotEmpty(q);
      RestIs(rest);
      EntryReadBack(q[0], PrintedRest(rest));
      if rest == [] {
        assert [q[0]] == q;
      } else {
        NotEmpty(rest);
        PrintThenParse(rest);
        assert [q[0]] + rest == q;
      }
    }
  }

  lemma PrintedIs(q: seq<KeyVal>)
    requires AllAscii(q)
    ensures Printed(q) == if q == [] then "" else PrintedEntry(q[0]) + PrintedRest(q[1..])
  {}

  lemma RestIs(q: seq<KeyVal>)
    requires AllAscii(q)
    ensures q == [] ==> PrintedRest(q) == ""
    ensures q != [] ==> PrintedRest(q) == "&" + Printed(q) && PrintedRest(q)[1..] == Printed(q)
  {}

  lemma NotEmpty(q: seq<KeyVal>)
    requires q != [] && !HasEmptyKey(q) && AllAscii(q)
    ensures Printed(q) != ""
  {
    assert q[0].key != "";
    assert Encoded(q[0].key, true) != "";
  }

  /** The printed query has no fragment mark, so parse_url finds its end where build_url put it. */
  lemma {:induction false} NoFragmentMark(q: seq<KeyVal>)
    requires AllAscii(q)
    ensures '#' !in Printed(q) && '#' !in PrintedRest(q)
    decreases |q|
  {
    if q == [] {
    } else {
      NoMarkInEntry(q[0]);
      NoFragmentMark(q[1..]);
      hide PrintedEntry;
    }
  }

  lemma NoMarkInEntry(kv: KeyVal)
    requires Ascii(kv.key) && Ascii(kv.val)
    ensures '#' !in PrintedEntry(kv)
  {
    EncodedDecodes(kv.key, true);
    EncodedDecodes(kv.val, false);
    hide Encoded;
    assert forall c :: c in Encoded(kv.key, true) ==> InertChar(c, true);
    assert forall c :: c in Encoded(kv.val, false) ==> InertChar(c, false);
  }
}
