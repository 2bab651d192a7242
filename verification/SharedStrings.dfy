/**
  The strings of nodes and attributes as memory: overwritten in place, allocated, or shared between a node and its copy.
  Sharing must never show.
*/
module SharedStrings {
  import opened Bytes

  /** The memory of one NUL-terminated string. */
  class Text {
    var chars: bytes
    const capacity: nat

    constructor (chars: bytes)
      ensures this.chars == chars && capacity == |chars|
    {
      this.chars, this.capacity := chars, |chars|;
    }
  }

  datatype Field = NameField | ValueField

  /** A node or an attribute, with the bits of its header that say where its strings are. */
  class Holder {
    var name: Text?
    var value: Text?
    var nameAllocated: bool
    var valueAllocated: bool
    var shared: bool

    constructor ()
      ensures name == null && value == null && !nameAllocated && !valueAllocated && !shared
    {
      name, value, nameAllocated, valueAllocated, shared := null, null, false, false, false;
    }

    function Slot(f: Field): Text?
      reads this
    {
      if f.NameField? then name else value
    }

    predicate Allocated(f: Field)
      reads this
    {
      if f.NameField? then nameAllocated else valueAllocated
    }

    method Put(f: Field, t: Text?, owned: bool)
      modifies this
      ensures Slot(f) == t && Allocated(f) == owned && shared == old(shared)
      ensures forall g :: g != f ==> Slot(g) == old(Slot(g)) && Allocated(g) == old(Allocated(g))
    {
      if f.NameField? {
        name, nameAllocated := t, owned;
      } else {
        value, valueAllocated := t, owned;
      }
    }

    method Mark()
      modifies this
      ensures shared && forall g :: Slot(g) == old(Slot(g)) && Allocated(g) == old(Allocated(g))
    {
      shared := true;
    }
  }

  function Chars(t: Text?): bytes
    reads t
  {
    if t == null then [] else t.chars
  }

  /** All strings of some nodes and attributes. */
  ghost function Texts(U: set<Holder>): set<Text>
    reads U
  {
    set h, f | h in U && h.Slot(f) != null :: h.Slot(f)
  }

  /** Every string fits its memory. */
  ghost predicate Fitting(U: set<Holder>)
    reads U, Texts(U)
  {
    forall h, f :: h in U && h.Slot(f) != null ==> |h.Slot(f).chars| <= h.Slot(f).capacity
  }

  /** The strings marked as allocated are those on the heap, so none is used after it has been given back. */
  ghost predicate Owned(U: set<Holder>, heap: set<Text>)
    reads U
  {
    forall h, f :: h in U ==> (h.Allocated(f) <==> h.Slot(f) != null && h.Slot(f) in heap)
  }

  /** A string with two owners is not on the heap, and both are marked. */
  ghost predicate Marked(U: set<Holder>)
    reads U
  {
    forall h, f, k, g ::
      h in U && k in U && (h != k || f != g) && h.Slot(f) != null && h.Slot(f) == k.Slot(g) ==>
        h.shared && k.shared && !h.Allocated(f)
  }

  ghost predicate Isolated(U: set<Holder>, heap: set<Text>)
    reads U, Texts(U)
  {
    Fitting(U) && Owned(U, heap) && Marked(U)
  }

  // ----- storing a string

  /** `strcpy_insitu_allow`. */
  method Allow(length: nat, h: Holder, f: Field, target: Text) returns (r: bool)
    ensures r ==> !h.shared && length <= |target.chars|
  {
    if h.shared { return false; }
    var targetLength := |target.chars|;
    if !h.Allocated(f) { return targetLength >= length; }
    return targetLength >= length && (targetLength < 32 || targetLength - length < targetLength / 2);
  }

  /** The string of a slot that nobody shares is overwritten. */
  method Overwrite(h: Holder, f: Field, dest: Text, source: bytes, ghost U: set<Holder>, ghost heap: set<Text>)
    requires h in U && Isolated(U, heap) && h.Slot(f) == dest && !h.shared && |source| <= |dest.chars|
    modifies dest
    ensures Isolated(U, heap) && dest.chars == source
    ensures forall k, g :: k in U && (k != h || g != f) ==> Chars(k.Slot(g)) == old(Chars(k.Slot(g)))
  {
    assert forall k, g :: k in U && (k != h || g != f) ==> k.Slot(g) != dest;
    dest.chars := source;
  }

  /** A slot gets a string of its own, or none; the old one goes back to the heap it came from. */
  method Replace(h: Holder, f: Field, buf: Text?, ghost U: set<Holder>, ghost heap: set<Text>)
    returns (ghost heap': set<Text>)
    requires h in U && Isolated(U, heap) && (buf != null ==> |buf.chars| <= buf.capacity && buf !in heap)
    requires buf != null ==> forall k, g :: k in U ==> k.Slot(g) != buf
    modifies h
    ensures Isolated(U, heap') && h.Slot(f) == buf && h.shared == old(h.shared)
    ensures forall g :: g != f ==> h.Slot(g) == old(h.Slot(g)) && h.Allocated(g) == old(h.Allocated(g))
    ensures forall t :: t in heap' ==> t in heap || t == buf
  {
    heap' := heap;
    if h.Allocated(f) { heap' := heap' - {h.Slot(f)}; }
    if buf != null { heap' := heap' + {buf}; }
    h.Put(f, buf, buf != null);
  }

  /**
    `strcpy_insitu`: the string of a slot becomes source, over the old one if that is allowed, in new memory otherwise.
    All other strings stay what they are.
  */
  method StrcpyInsitu(h: Holder, f: Field, source: bytes, ghost U: set<Holder>, ghost heap: set<Text>)
    returns (ghost heap': set<Text>)
    requires h in U && Isolated(U, heap)
    modifies h, h.Slot(f)
    ensures Isolated(U, heap') && Chars(h.Slot(f)) == source && h.shared == old(h.shared)
    ensures forall g :: g != f ==> h.Slot(g) == old(h.Slot(g)) && h.Allocated(g) == old(h.Allocated(g))
    ensures forall k, g :: k in U && (k != h || g != f) ==> Chars(k.Slot(g)) == old(Chars(k.Slot(g)))
    ensures forall t :: t in heap' && t !in heap ==> fresh(t)
  {
    heap' := heap;
    var dest := h.Slot(f);
    if |source| == 0 {
      heap' := Replace(h, f, null, U, heap);
    } else {
      var allowed := false;
      if dest != null { allowed := Allow(|source|, h, f, dest); }
      if allowed {
        Overwrite(h, f, dest, source, U, heap);
      } else {
        var buf := new Text(source);
        heap' := Replace(h, f, buf, U, heap);
      }
    }
  }

  // ----- copying strings

  /** Both slots refer to the same memory from now on, and say so. */
  method Share(h: Holder, f: Field, k: Holder, ghost U: set<Holder>, ghost heap: set<Text>)
    requires h in U && k in U && h != k && Isolated(U, heap) && h.Slot(f) == null && !h.Allocated(f)
    requires k.Slot(f) != null && !k.Allocated(f)
    modifies h, k
    ensures Isolated(U, heap) && h.Slot(f) == k.Slot(f) == old(k.Slot(f))
    ensures forall x, g :: x in U && (x != h || g != f) ==>
      x.Slot(g) == old(x.Slot(g)) && x.Allocated(g) == old(x.Allocated(g))
  {
    h.Put(f, k.Slot(f), false);
    h.Mark();
    k.Mark();
    assert forall x, g :: x in U && (x != h || g != f) ==>
      x.Slot(g) == old(x.Slot(g)) && x.Allocated(g) == old(x.Allocated(g));
  }

  /** `node_copy_string`: whether the string is shared or copied, the destination reads as the source did. */
  method CopyString(h: Holder, f: Field, k: Holder, share: bool, ghost U: set<Holder>, ghost heap: set<Text>)
    returns (ghost heap': set<Text>)
    requires h in U && k in U && h != k && Isolated(U, heap) && h.Slot(f) == null && !h.Allocated(f)
    modifies h, k
    ensures Isolated(U, heap') && Chars(h.Slot(f)) == old(Chars(k.Slot(f)))
    ensures forall x, g :: x in U && (x != h || g != f) ==> Chars(x.Slot(g)) == old(Chars(x.Slot(g)))
    ensures forall g :: k.Slot(g) == old(k.Slot(g)) && (g != f ==> h.Slot(g) == old(h.Slot(g)))
    ensures forall g :: g != f ==> h.Allocated(g) == old(h.Allocated(g))
    ensures forall t :: t in heap' && t !in heap ==> fresh(t)
  {
    heap' := heap;
    var source := k.Slot(f);
    if source != null {
      if share && !k.Allocated(f) {
        Share(h, f, k, U, heap);
      } else {
        heap' := StrcpyInsitu(h, f, source.chars, U, heap);
      }
    }
  }

  /** How the two strings of a node or an attribute read. */
  function Strings(h: Holder): (bytes, bytes)
    reads h, h.Slot(NameField), h.Slot(ValueField)
  {
    (Chars(h.Slot(NameField)), Chars(h.Slot(ValueField)))
  }

  ghost predicate Blank(h: Holder)
    reads h
  {
    forall f :: h.Slot(f) == null && !h.Allocated(f)
  }

  /** Both strings of a node or an attribute. */
  method CopyBoth(h: Holder, k: Holder, share: bool, ghost U: set<Holder>, ghost heap: set<Text>)
    returns (ghost heap': set<Text>)
    requires h in U && k in U && h != k && Isolated(U, heap) && Blank(h)
    modifies h, k
    ensures Isolated(U, heap') && Strings(h) == old(Strings(k))
    ensures forall x :: x in U && x != h ==> Strings(x) == old(Strings(x))
  {
    hide Isolated, Chars;
    heap' := CopyString(h, NameField, k, share, U, heap);
    heap' := CopyString(h, ValueField, k, share, U, heap');
  }

  /** One attribute more: a new one that reads as sa. */
  method CopyAttribute(sa: Holder, share: bool, ghost U: set<Holder>, ghost heap: set<Text>)
    returns (da: Holder, ghost heap': set<Text>)
    requires sa in U && Isolated(U, heap)
    modifies sa
    ensures fresh(da) && da !in U && Isolated(U + {da}, heap') && Strings(da) == old(Strings(sa))
    ensures forall x :: x in U ==> Strings(x) == old(Strings(x))
  {
    hide Isolated, Strings, Blank;
    da := NewHolder(U, heap);
    heap' := CopyBoth(da, sa, share, U + {da}, heap);
  }

  method NewHolder(ghost U: set<Holder>, ghost heap: set<Text>) returns (h: Holder)
    requires Isolated(U, heap)
    ensures fresh(h) && h !in U && Blank(h) && Isolated(U + {h}, heap)
    ensures forall x :: x in U ==> Strings(x) == old(Strings(x))
  {
    h := new Holder();
  }

  /**
    The strings of `node_copy_contents`: the new node and its new attributes read as the source and its attributes do,
    and all that was there before reads as before.
  */
  method CopyContents(dn: Holder, sn: Holder, sas: seq<Holder>, share: bool, ghost U: set<Holder>,
      ghost heap: set<Text>) returns (das: seq<Holder>, ghost U': set<Holder>, ghost heap': set<Text>)
    requires dn in U && sn in U && dn != sn && Blank(dn) && dn !in sas && (forall a :: a in sas ==> a in U)
    requires Isolated(U, heap)
    modifies U
    ensures Isolated(U', heap') && U <= U' && |das| == |sas| && forall i :: 0 <= i < |das| ==> das[i] in U' - U
    ensures Strings(dn) == old(Strings(sn)) && forall i :: 0 <= i < |das| ==> Strings(das[i]) == old(Strings(sas[i]))
    ensures forall x :: x in U && x != dn ==> Strings(x) == old(Strings(x))
  {
    hide Isolated, Strings, Blank;
    heap' := CopyBoth(dn, sn, share, U, heap);
    das, U' := [], U;
    var i := 0;
    while i < |sas|
      invariant 0 <= i <= |sas| && |das| == i && Isolated(U', heap') && U <= U'
      invariant forall j :: 0 <= j < i ==> das[j] in U' && das[j] !in U
      invariant Strings(dn) == old(Strings(sn)) && forall j :: 0 <= j < i ==> Strings(das[j]) == old(Strings(sas[j]))
      invariant forall x :: x in U && x != dn ==> Strings(x) == old(Strings(x))
    {
      assert sas[i] in U;
      var da;
      da, heap' := CopyAttribute(sas[i], share, U', heap');
      U' := U' + {da};
      das := das + [da];
      i := i + 1;
    }
  }
}
