/** translate(): the in-place general form, and the lookup table used when both maps are constants. */
module Translate {
  import opened Bytes

  /** First position of c in s, or |s|. */
  function IndexOf(s: bytes, c: byte): (p: nat)
    ensures p <= |s| && (p < |s| ==> s[p] == c) && c !in s[..p]
  {
    if s == [] then 0
    else if s[0] == c then 0
    else
      assert forall p :: 0 <= p < |s| ==> s[..p + 1] == [s[0]] + s[1..][..p];
      1 + IndexOf(s[1..], c)
  }

  /** What becomes of one character (section 4.2 of XPath 1.0). */
  function Mapped(c: byte, from: bytes, to: bytes): bytes {
    var p := IndexOf(from, c);
    if p == |from| then [c] else if p < |to| then [to[p]] else []
  }

  function Translated(s: bytes, from: bytes, to: bytes): (r: bytes)
    ensures |r| <= |s|
  {
    if s == [] then [] else Translated(s[..|s| - 1], from, to) + Mapped(s[|s| - 1], from, to)
  }

  /** A table entry of 128 drops the character. */
  type Table = t: seq<int> | |t| == 128 && forall c :: 0 <= c < 128 ==> 0 <= t[c] <= 128
    witness seq(128, i => 0)

  function Looked(c: byte, t: Table): bytes {
    if c >= 128 then [c] else if t[c] == 128 then [] else [t[c]]
  }

  function TableTranslated(s: bytes, t: Table): (r: bytes)
    ensures |r| <= |s|
  {
    if s == [] then [] else TableTranslated(s[..|s| - 1], t) + Looked(s[|s| - 1], t)
  }

  predicate Ascii(from: bytes, to: bytes) {
    forall i :: 0 <= i < |from| ==> from[i] < 128 && (i < |to| ==> to[i] < 128)
  }

  function Entry(c: int, from: bytes, to: bytes): (e: int)
    requires 0 <= c < 128 && Ascii(from, to)
    ensures 0 <= e <= 128
  {
    var p := IndexOf(from, c);
    if p == |from| then c else if p < |to| then to[p] else 128
  }

  /** The table for two ASCII maps. */
  function TableFor(from: bytes, to: bytes): Table
    requires Ascii(from, to)
  {
    seq(128, c requires 0 <= c < 128 => Entry(c, from, to))
  }

  /** `translate_table_generate`: a table exactly when every character that takes part is ASCII. */
  method Generate(from: bytes, to: bytes) returns (ok: bool, t: Table)
    requires 0 !in from && 0 !in to
    ensures ok == Ascii(from, to)
    ensures ok ==> t == TableFor(from, to)
  {
    var table := new int[128](_ => 0);
    t := seq(128, i => 0);
    var j := 0;
    for i := 0 to |from|
      invariant j == if i < |to| then i else |to|
      invariant forall k :: 0 <= k < i ==> from[k] < 128 && (k < |to| ==> to[k] < 128)
      invariant forall c :: 0 <= c < 128 ==> table[c] == Partial(c, from, to, i)
    {
      var fc, tc := from[i], At(to, j);
      if fc >= 128 || tc >= 128 {
        ok := false;
        return;
      }
      forall c | 0 <= c < 128 ensures Partial(c, from, to, i + 1) ==
        if c == fc && Partial(c, from, to, i) == 0 then (if tc != 0 then tc else 128) else Partial(c, from, to, i)
      {
        PartialStep(c, from, to, i);
      }
      if table[fc] == 0 {
        table[fc] := if tc != 0 then tc else 128;
      }
      if tc != 0 {
        j := j + 1;
      }
    }
    for c := 0 to 128
      invariant forall k :: 0 <= k < 128 ==>
        table[k] == if k < c then Entry(k, from, to) else Partial(k, from, to, |from|)
    {
      PartialEnd(c, from, to);
      if table[c] == 0 {
        table[c] := c;
      }
    }
    ok, t := true, table[..];
  }

  /** The table while only the first i characters of the map have been entered; 0 is "not set". */
  ghost function Partial(c: int, from: bytes, to: bytes, i: nat): int
    requires 0 <= c < 128 && i <= |from|
  {
    var p := IndexOf(from, c);
    if p >= i then 0 else if p < |to| then to[p] else 128
  }

  lemma PartialStep(c: int, from: bytes, to: bytes, i: nat)
    requires 0 <= c < 128 && i < |from| && 0 !in to
    ensures Partial(c, from, to, i + 1) ==
      if c == from[i] && Partial(c, from, to, i) == 0 then (if i < |to| then to[i] else 128)
      else Partial(c, from, to, i)
  {
    var p := IndexOf(from, c);
    if p > i {
      assert from[..p][i] == from[i];
    }
  }

  lemma PartialEnd(c: int, from: bytes, to: bytes)
    requires 0 <= c < 128 && Ascii(from, to) && 0 !in from && 0 !in to
    ensures Partial(c, from, to, |from|) == 0 <==> IndexOf(from, c) == |from|
    ensures Partial(c, from, to, |from|) != 0 ==> Partial(c, from, to, |from|) == Entry(c, from, to)
    ensures Partial(c, from, to, |from|) == 0 ==> Entry(c, from, to) == c
  {}

  /** The table form means the same as the general form on every string. */
  lemma {:induction false} TableAgrees(s: bytes, from: bytes, to: bytes)
    requires Ascii(from, to)
    ensures TableTranslated(s, TableFor(from, to)) == Translated(s, from, to)
    decreases |s|
  {
    hide Looked, Mapped, TableFor;
    if s == [] {
    } else {
      TableAgrees(s[..|s| - 1], from, to);
      CharacterAgrees(s[|s| - 1], from, to);
    }
  }

  lemma CharacterAgrees(c: byte, from: bytes, to: bytes)
    requires Ascii(from, to)
    ensures Looked(c, TableFor(from, to)) == Mapped(c, from, to)
  {
    assert IndexOf(from, c) < |from| ==> from[IndexOf(from, c)] == c;
  }

  lemma TranslatedNext(s: bytes, k: nat, from: bytes, to: bytes)
    requires k < |s|
    ensures Translated(s[..k + 1], from, to) == Translated(s[..k], from, to) + Mapped(s[k], from, to)
  {
    assert s[..k + 1][..k] == s[..k];
  }

  lemma NothingTranslated(from: bytes, to: bytes)
    ensures Translated([], from, to) == []
  {}

  /** `translate`: rewrites a NUL-terminated buffer in place; returns the new length. */
  method TranslateInPlace(buffer: array<byte>, n: nat, from: bytes, to: bytes) returns (write: nat)
    requires n < buffer.Length && buffer[n] == 0 && forall k :: 0 <= k < n ==> buffer[k] != 0
    modifies buffer
    ensures write <= n && buffer[write] == 0
    ensures buffer[..write] == Translated(old(buffer[..n]), from, to)
    ensures forall k :: n < k < buffer.Length ==> buffer[k] == old(buffer[k])
  {
    hide Translated;
    NothingTranslated(from, to);
    ghost var s := buffer[..n];
    var read := 0;
    write := 0;
    while buffer[read] != 0
      invariant write <= read <= n
      invariant buffer[..write] == Translated(s[..read], from, to)
      invariant forall k :: read <= k < buffer.Length ==> buffer[k] == old(buffer[k])
      decreases n - read
    {
      var ch := buffer[read];
      TranslatedNext(s, read, from, to);
      read := read + 1;
      var pos := IndexOf(from, ch);
      if pos == |from| {
        buffer[write] := ch;
        write := write + 1;
      } else if pos < |to| {
        buffer[write] := to[pos];
        write := write + 1;
      }
    }
    assert s[..read] == s;
    buffer[write] := 0;
  }

  lemma TableNext(s: bytes, k: nat, t: Table)
    requires k < |s|
    ensures TableTranslated(s[..k + 1], t) == TableTranslated(s[..k], t) + Looked(s[k], t)
  {
    assert s[..k + 1][..k] == s[..k];
  }

  lemma NothingLooked(t: Table)
    ensures TableTranslated([], t) == []
  {}

  /** `translate_table`: the same rewriting through the table, without branching on dropped characters. */
  method TranslateTableInPlace(buffer: array<byte>, n: nat, t: Table) returns (write: nat)
    requires n < buffer.Length && buffer[n] == 0 && forall k :: 0 <= k < n ==> buffer[k] != 0
    modifies buffer
    ensures write <= n && buffer[write] == 0
    ensures buffer[..write] == TableTranslated(old(buffer[..n]), t)
    ensures forall k :: n < k < buffer.Length ==> buffer[k] == old(buffer[k])
  {
    hide TableTranslated;
    NothingLooked(t);
    ghost var s := buffer[..n];
    var read := 0;
    write := 0;
    while buffer[read] != 0
      invariant write <= read <= n
      invariant buffer[..write] == TableTranslated(s[..read], t)
      invariant forall k :: read <= k < buffer.Length ==> buffer[k] == old(buffer[k])
      decreases n - read
    {
      var ch := buffer[read];
      TableNext(s, read, t);
      read := read + 1;
      if ch < 128 {
        var code := t[ch];
        buffer[write] := code;
        write := write + 1 - code / 128;
      } else {
        buffer[write] := ch;
        write := write + 1;
      }
    }
    assert s[..read] == s;
    buffer[write] := 0;
  }

  // ----- what translate() means

  /** Texts are translated piece by piece. */
  lemma {:induction false} TranslatedParts(s: bytes, t: bytes, from: bytes, to: bytes)
    ensures Translated(s + t, from, to) == Translated(s, from, to) + Translated(t, from, to)
    decreases |t|
  {
    hide Mapped;
    if t == [] {
      assert s + t == s;
    } else {
      var front, last := t[..|t| - 1], t[|t| - 1];
      TranslatedParts(s, front, from, to);
      assert (s + t)[..|s + t| - 1] == s + front;
      var a, b, c := Translated(s, from, to), Translated(front, from, to), Mapped(last, from, to);
      assert Translated(s + t, from, to) == (a + b) + c;
      assert (a + b) + c == a + (b + c);
    }
  }

  lemma FirstOnly(s: bytes, c: byte, p: nat, q: nat)
    requires p < |s| && s[p] == c && c !in s[..p] && q <= |s| && (q < |s| ==> s[q] == c) && c !in s[..q]
    ensures p == q
  {}

  /** A character outside the first map stays; one that is first at p becomes the one at p of the second, or goes. */
  lemma TranslatedCharacter(c: byte, from: bytes, to: bytes)
    ensures c !in from ==> Translated([c], from, to) == [c]
    ensures forall p :: 0 <= p < |from| && from[p] == c && c !in from[..p] ==>
      Translated([c], from, to) == if p < |to| then [to[p]] else []
  {
    assert [c][..0] == [] && Translated([], from, to) == [];
    forall p | 0 <= p < |from| && from[p] == c && c !in from[..p] ensures IndexOf(from, c) == p {
      FirstOnly(from, c, p, IndexOf(from, c));
    }
  }
}
