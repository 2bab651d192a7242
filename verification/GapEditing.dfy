/** Editing a text in place while reading it: a gap between what has been produced and what is still to be read. */
module GapEditing {
  import opened Bytes

  /**
    The gap of an in-place edit that began at `start`: the bytes in [end - size, end) are stale; end is -1 for no gap.
  */
  datatype View = View(end: int, size: nat)

  ghost predicate Sane(v: View, start: nat, s: nat) {
    if v.end < 0 then v.size == 0 && start <= s else start <= v.end - v.size && v.end <= s
  }

  /** What has been produced so far when reading has reached s. */
  ghost function Produced(text: bytes, v: View, start: nat, s: nat): bytes
    requires Sane(v, start, s) && s <= |text|
  {
    if v.end < 0 then text[start..s] else text[start..v.end - v.size] + text[v.end..s]
  }

  /** `memmove` to a lower address. */
  method MoveDown(buf: array<byte>, to: nat, from: nat, n: nat)
    requires to <= from && from + n <= buf.Length
    modifies buf
    ensures buf[to..to + n] == old(buf[from..from + n])
    ensures buf[..to] == old(buf[..to]) && buf[from + n..] == old(buf[from + n..])
  {
    ghost var was := buf[..];
    var i := 0;
    while i < n
      invariant 0 <= i <= n && Moving(was, buf[..], to, from, i)
    {
      buf[to + i] := buf[from + i];
      i := i + 1;
    }
    Moved(was, buf[..], to, from, n);
  }

  /** The first i bytes of a block have been moved. */
  ghost predicate Moving(was: bytes, t: bytes, to: nat, from: nat, i: nat) {
    && |t| == |was| && to <= from && from + i <= |t|
    && (forall k :: to <= k < to + i ==> t[k] == was[k + (from - to)])
    && (forall k :: 0 <= k < |t| && (k < to || to + i <= k) ==> t[k] == was[k])
  }

  lemma Moved(was: bytes, t: bytes, to: nat, from: nat, n: nat)
    requires Moving(was, t, to, from, n)
    ensures t[to..to + n] == was[from..from + n] && t[..to] == was[..to] && t[from + n..] == was[from + n..]
  {}

  lemma Slid(a: bytes, was: bytes, start: nat, end: nat, size: nat, s: nat)
    requires |a| == |was| && start <= end - size && end <= s <= |a|
    requires a[..end - size] == was[..end - size] && a[end - size..s - size] == was[end..s] && a[s..] == was[s..]
    ensures a[start..s - size] == was[start..end - size] + was[end..s]
  {
    assert a[start..s - size] == a[..end - size][start..] + a[end - size..s - size];
  }

  /** The text between the gap and s has been moved down to the end of what was produced before the gap. */
  ghost predicate Collapsed(t: bytes, t': bytes, v: View, s: nat)
    requires v.end >= 0 ==> v.size <= v.end <= s
  {
    && s <= |t| == |t'| && (v.end < 0 ==> t' == t)
    && (v.end >= 0 ==> t'[..v.end - v.size] == t[..v.end - v.size] && t'[v.end - v.size..s - v.size] == t[v.end..s])
    && t'[s..] == t[s..]
  }

  lemma Pushed(t: bytes, t': bytes, v: View, start: nat, s: nat, count: nat)
    requires Sane(v, start, s) && Collapsed(t, t', v, s) && s + count <= |t|
    ensures Sane(View(s + count, v.size + count), start, s + count)
    ensures Produced(t', View(s + count, v.size + count), start, s + count) == Produced(t, v, start, s)
    ensures t'[..start] == t[..start] && t'[s..] == t[s..]
  {
    NoTail(t', start, s - v.size, s + count);
    if v.end >= 0 {
      Slid(t', t, start, v.end, v.size, s);
      SameHead(t', t, start, v.end - v.size);
    }
  }

  lemma SameHead(a: bytes, was: bytes, start: nat, to: nat)
    requires start <= to <= |a| && to <= |was| && a[..to] == was[..to]
    ensures a[..start] == was[..start]
  {
    assert a[..start] == a[..to][..start] && was[..start] == was[..to][..start];
  }

  lemma NoTail(a: bytes, i: nat, j: nat, k: nat)
    requires i <= j <= |a| && k <= |a|
    ensures a[i..j] + a[k..k] == a[i..j]
  {}

  class Gap {
    var end: int
    var size: nat

    constructor ()
      ensures end == -1 && size == 0
    {
      end, size := -1, 0;
    }

    ghost function Now(): View
      reads this
    {
      View(end, size)
    }

    /** Starts a gap of count bytes at s, closing the previous one: what has been produced stays the same. */
    method Push(buf: array<byte>, s: nat, count: nat, ghost start: nat) returns (s': nat)
      requires Sane(Now(), start, s) && s + count <= buf.Length
      modifies this, buf
      ensures s' == s + count && Sane(Now(), start, s')
      ensures Produced(buf[..], Now(), start, s') == old(Produced(buf[..], Now(), start, s))
      ensures buf[..start] == old(buf[..start]) && buf[s..] == old(buf[s..])
      ensures end == s' && size == old(size) + count
    {
      hide Produced;
      ghost var t, v := buf[..], Now();
      if end >= 0 {
        MoveDown(buf, end - size, end, s - end);
      }
      s' := s + count;
      end := s';
      size := size + count;
      Pushed(t, buf[..], v, start, s, count);
    }

    /** Closes the gap for good; returns the end of what has been produced. */
    method Flush(buf: array<byte>, s: nat, ghost start: nat) returns (r: nat)
      requires Sane(Now(), start, s) && s <= buf.Length
      modifies buf
      ensures start <= r <= s && buf[start..r] == old(Produced(buf[..], Now(), start, s))
      ensures buf[..start] == old(buf[..start]) && buf[s..] == old(buf[s..])
    {
      if end >= 0 {
        MoveDown(buf, end - size, end, s - end);
        Slid(buf[..], old(buf[..]), start, end, size, s);
        SameHead(buf[..], old(buf[..]), start, end - size);
        return s - size;
      } else {
        return s;
      }
    }
  }
}
