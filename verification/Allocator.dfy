/**
  The page allocator of a document: pages in a linked list, each with a busy and a freed ledger, and strings that find
  their page and size again through a compressed header. Sizes are those of a 64-bit platform.
*/
module Allocator {
  import opened Basics

  const PAGE_HEADER: nat := 40

  const PAGE_SIZE: nat := 32768 - PAGE_HEADER

  const LARGE: nat := PAGE_SIZE / 4

  const ALIGNMENT: nat := 8

  const STRING_HEADER: nat := 4

  /** What the document object sets aside for its sentinel page: 192 bytes, header included. */
  const SENTINEL: nat := 192 - PAGE_HEADER

  const MAX_ENCODED: nat := 65536 * ALIGNMENT

  /** A live block, by its place in the data area of a page. */
  datatype Block = Block(offset: nat, size: nat)

  /** The total size of some blocks. */
  function Total(s: seq<Block>): nat {
    if s == [] then 0 else Total(s[..|s| - 1]) + s[|s| - 1].size
  }

  predicate Apart(a: Block, b: Block) {
    a.offset + a.size <= b.offset || b.offset + b.size <= a.offset
  }

  /** Blocks of positive, aligned size, inside the first `busy` bytes, no two overlapping. */
  ghost predicate Laid(s: seq<Block>, busy: nat) {
    && busy % ALIGNMENT == 0
    && (forall i :: 0 <= i < |s| ==> s[i].size > 0 && s[i].offset + s[i].size <= busy)
    && (forall i :: 0 <= i < |s| ==> s[i].offset % ALIGNMENT == 0 && s[i].size % ALIGNMENT == 0)
    && (forall i, j :: 0 <= i < j < |s| ==> Apart(s[i], s[j]))
  }

  function Without(s: seq<Block>, i: nat): seq<Block>
    requires i < |s|
  {
    s[..i] + s[i + 1..]
  }

  lemma {:induction false} TotalConcat(a: seq<Block>, b: seq<Block>)
    ensures Total(a + b) == Total(a) + Total(b)
    decreases |b|
  {
    if b == [] {
      assert a + b == a;
    } else {
      assert (a + b)[..|a + b| - 1] == a + b[..|b| - 1];
      TotalConcat(a, b[..|b| - 1]);
    }
  }

  lemma OneTotal(b: Block)
    ensures Total([b]) == b.size
  {
    assert [b][..0] == [];
  }

  lemma TotalSplit(a: seq<Block>, b: Block, c: seq<Block>)
    ensures Total(a + ([b] + c)) == Total(a) + b.size + Total(c) && Total(a + c) == Total(a) + Total(c)
  {
    OneTotal(b);
    hide Total;
    TotalConcat(a, [b] + c);
    TotalConcat([b], c);
    TotalConcat(a, c);
  }

  lemma TotalWithout(s: seq<Block>, i: nat)
    requires i < |s|
    ensures Total(Without(s, i)) == Total(s) - s[i].size
  {
    hide Total;
    assert s == s[..i] + ([s[i]] + s[i + 1..]);
    TotalSplit(s[..i], s[i], s[i + 1..]);
  }

  lemma NoBlocks(s: seq<Block>, busy: nat)
    requires Laid(s, busy) && Total(s) == 0
    ensures s == []
  {}

  lemma LaidNext(s: seq<Block>, busy: nat, size: nat)
    requires Laid(s, busy) && size > 0 && size % ALIGNMENT == 0
    ensures Laid(s + [Block(busy, size)], busy + size)
    ensures Total(s + [Block(busy, size)]) == Total(s) + size
  {
    var t := s + [Block(busy, size)];
    assert t[..|t| - 1] == s;
  }

  lemma LaidWithout(s: seq<Block>, busy: nat, i: nat)
    requires Laid(s, busy) && i < |s|
    ensures Laid(Without(s, i), busy)
  {}

  // ----- pages

  class Page {
    const base: nat
    const capacity: nat
    const extent: nat
    var prev: Page?
    var next: Page?
    var busySize: nat
    var freedSize: nat
    ghost var live: seq<Block>

    /** `xml_memory_page::construct` in memory at base, with extent bytes behind the header. */
    constructor (base: nat, capacity: nat, extent: nat)
      ensures this.base == base && this.capacity == capacity && this.extent == extent
      ensures prev == null && next == null && busySize == 0 && freedSize == 0 && live == []
    {
      this.base, this.capacity, this.extent := base, capacity, extent;
      prev, next, busySize, freedSize, live := null, null, 0, 0, [];
    }
  }

  /** What the fields of a page say, as a value. */
  datatype Ledger = Ledger(busy: nat, freed: nat, live: seq<Block>)

  /** The ledgers add up: what is busy and not freed is what the live blocks take. */
  ghost predicate Balanced(l: Ledger, capacity: nat) {
    && l.freed <= l.busy <= capacity && Total(l.live) == l.busy - l.freed && Laid(l.live, l.busy)
  }

  /** A page beyond the normal size holds one block that is all of it. */
  ghost predicate OneBlock(l: Ledger, capacity: nat) {
    capacity > PAGE_SIZE ==> l.busy == capacity && l.live == [Block(0, capacity)]
  }

  /** Two pages take different memory. */
  predicate MemoryApart(p: Page, q: Page) {
    Free(p, q.base, q.extent)
  }

  /** The memory of a page does not meet the memory of a page with the given extent at base. */
  predicate Free(p: Page, base: nat, extent: nat) {
    p.base + PAGE_HEADER + p.extent <= base || base + PAGE_HEADER + extent <= p.base
  }

  /** A page of the list as a value. */
  datatype View = View(self: Page, prev: Page?, next: Page?, ledger: Ledger)

  ghost function ViewOf(p: Page): View
    reads p
  {
    View(p, p.prev, p.next, Ledger(p.busySize, p.freedSize, p.live))
  }

  ghost function Views(pages: seq<Page>): (v: seq<View>)
    reads pages
    ensures |v| == |pages| && forall i :: 0 <= i < |v| ==> v[i] == ViewOf(pages[i])
  {
    seq(|pages|, i requires 0 <= i < |pages| reads pages => ViewOf(pages[i]))
  }

  /** The ledger that counts for a page: the allocator itself keeps the busy size of the top one. */
  ghost function Counted(v: View, root: Page, busy: nat): Ledger {
    if v.self == root then v.ledger.(busy := busy) else v.ledger
  }

  ghost predicate PageOk(v: View, root: Page, busy: nat) {
    && Balanced(Counted(v, root, busy), v.self.capacity)
    && (v.self == root ==> v.ledger.live == [] ==> busy == 0)
    && (v.self != root ==> v.ledger.live != [] && OneBlock(v.ledger, v.self.capacity))
  }

  ghost predicate Linked(v: seq<View>, i: int)
    requires 0 <= i < |v|
  {
    && v[i].prev == (if i > 0 then v[i - 1].self else null)
    && v[i].next == (if i + 1 < |v| then v[i + 1].self else null)
  }

  ghost predicate Separate(v: seq<View>) {
    forall i, j :: 0 <= i < j < |v| ==> v[i].self != v[j].self && MemoryApart(v[i].self, v[j].self)
  }

  /**
    What holds of the pages after every operation: one list, sound ledgers, separate memory, and in front the sentinel,
    which counts as full though it has less memory than a page.
  */
  ghost predicate Sound(v: seq<View>, root: Page, busy: nat) {
    && |v| > 0 && v[|v| - 1].self == root && root.capacity == PAGE_SIZE
    && Separate(v)
    && (forall i :: 0 <= i < |v| ==> Linked(v, i))
    && (forall i :: 0 <= i < |v| ==> PageOk(v[i], root, busy))
    && v[0].ledger.live == [Block(0, PAGE_SIZE)] && v[0].self.capacity == PAGE_SIZE
    && (forall i :: 0 < i < |v| ==> v[i].self.extent == v[i].self.capacity)
  }

  /** The pages and the two fields of the allocator that go with them. */
  datatype State = State(views: seq<View>, root: Page, busy: nat)

  ghost predicate SoundState(s: State) {
    Sound(s.views, s.root, s.busy)
  }

  /** The address of a block. */
  function Address(p: Page, b: Block): nat {
    p.base + PAGE_HEADER + b.offset
  }

  /**
    On every page busy less freed is what the live blocks take; no two live blocks, of one page or of two, overlap. The
    sentinel has none.
  */
  lemma LiveBlocks(v: seq<View>, root: Page, busy: nat, k: nat, i: nat, l: nat, j: nat)
    requires Sound(v, root, busy) && 0 < k < |v| && i < |v[k].ledger.live| && 0 < l < |v| && j < |v[l].ledger.live|
    ensures (var c := Counted(v[k], root, busy); c.busy - c.freed == Total(v[k].ledger.live))
    ensures (var a, b := v[k].ledger.live[i], v[l].ledger.live[j];
             (k != l || i != j) ==> Address(v[k].self, a) + a.size <= Address(v[l].self, b)
                                    || Address(v[l].self, b) + b.size <= Address(v[k].self, a))
  {
    assert PageOk(v[k], root, busy) && PageOk(v[l], root, busy);
    var a, b := v[k].ledger.live[i], v[l].ledger.live[j];
    if k != l {
      assert MemoryApart(v[if k < l then k else l].self, v[if k < l then l else k].self);
    } else if i != j {
      assert Apart(v[k].ledger.live[if i < j then i else j], v[k].ledger.live[if i < j then j else i]);
    }
  }

  // ----- allocation, on values

  lemma SentinelFull(l: Ledger)
    requires Balanced(l, PAGE_SIZE) && l.live == [Block(0, PAGE_SIZE)]
    ensures l.busy == PAGE_SIZE && l.freed == 0
  {
    assert l.live[..0] == [];
  }

  lemma SentinelAlone(v: seq<View>, root: Page, busy: nat)
    requires Sound(v, root, busy)
    ensures |v| == 1 ==> busy == PAGE_SIZE
  {
    assert PageOk(v[0], root, busy);
    if |v| == 1 { SentinelFull(Counted(v[0], root, busy)); }
  }

  ghost function WithBlock(v: seq<View>, offset: nat, size: nat): seq<View>
    requires |v| > 0
  {
    var n := |v| - 1;
    v[n := v[n].(ledger := v[n].ledger.(live := v[n].ledger.live + [Block(offset, size)]))]
  }

  lemma SoundHere(v: seq<View>, root: Page, busy: nat, size: nat)
    requires Sound(v, root, busy) && size > 0 && size % ALIGNMENT == 0 && busy + size <= PAGE_SIZE
    ensures Sound(WithBlock(v, busy, size), root, busy + size)
  {
    hide Balanced, OneBlock, MemoryApart;
    var n, w := |v| - 1, WithBlock(v, busy, size);
    assert PageOk(v[n], root, busy);
    SentinelAlone(v, root, busy);
    forall i | 0 <= i < |w| ensures Linked(w, i) {
      assert Linked(v, i);
    }
    forall i | 0 <= i < |w| ensures PageOk(w[i], root, busy + size) {
      assert PageOk(v[i], root, busy);
      if i == n { BlockAdded(Counted(v[n], root, busy), PAGE_SIZE, size); }
    }
  }

  lemma BlockAdded(l: Ledger, capacity: nat, size: nat)
    requires Balanced(l, capacity) && size > 0 && size % ALIGNMENT == 0 && l.busy + size <= capacity
    ensures Balanced(Ledger(l.busy + size, l.freed, l.live + [Block(l.busy, size)]), capacity)
  {
    LaidNext(l.live, l.busy, size);
  }

  lemma FreshLedger(size: nat, capacity: nat)
    requires 0 < size <= capacity && size % ALIGNMENT == 0
    ensures Balanced(Ledger(size, 0, [Block(0, size)]), capacity)
  {
    assert [Block(0, size)][..0] == [];
  }

  ghost function OnTop(v: seq<View>, root: Page, busy: nat, page: Page, size: nat): seq<View>
    requires |v| > 0
  {
    var n := |v| - 1;
    v[n := v[n].(next := page, ledger := v[n].ledger.(busy := busy))] +
      [View(page, root, null, Ledger(0, 0, [Block(0, size)]))]
  }

  lemma SoundOnTop(v: seq<View>, root: Page, busy: nat, page: Page, size: nat)
    requires Sound(v, root, busy) && 0 < size <= LARGE && size % ALIGNMENT == 0 && busy + size > PAGE_SIZE
    requires page.capacity == page.extent == PAGE_SIZE &&
      forall i :: 0 <= i < |v| ==> v[i].self != page && MemoryApart(v[i].self, page)
    ensures Sound(OnTop(v, root, busy, page, size), page, size)
  {
    var n, w := |v| - 1, OnTop(v, root, busy, page, size);
    hide Balanced, MemoryApart, OneBlock;
    forall i | 0 <= i < |w| ensures Linked(w, i) {
      if i < |v| { assert Linked(v, i); }
    }
    forall i | 0 <= i < |w| ensures PageOk(w[i], page, size) {
      if i < |v| { assert PageOk(v[i], root, busy); }
      if i == n { NoLongerTop(v[n], root, busy); }
      if i == |v| { FreshLedger(size, PAGE_SIZE); }
    }
  }

  lemma NoLongerTop(v: View, root: Page, busy: nat)
    requires v.self == root && PageOk(v, root, busy) && root.capacity == PAGE_SIZE && busy > 0
    ensures Balanced(v.ledger.(busy := busy), PAGE_SIZE) && v.ledger.live != [] &&
      OneBlock(v.ledger.(busy := busy), PAGE_SIZE)
  {}

  ghost function BelowTop(v: seq<View>, root: Page, page: Page, size: nat): seq<View>
    requires |v| >= 2
  {
    var n := |v| - 1;
    v[..n - 1] + [v[n - 1].(next := page), View(page, v[n - 1].self, root, Ledger(size, 0, [Block(0, size)])),
      v[n].(prev := page)]
  }

  lemma SoundBelowTop(v: seq<View>, root: Page, busy: nat, page: Page, size: nat)
    requires Sound(v, root, busy) && |v| >= 2 && size > 0 && size % ALIGNMENT == 0
    requires page.capacity == page.extent == size
    requires forall i :: 0 <= i < |v| ==> v[i].self != page && MemoryApart(v[i].self, page)
    ensures Sound(BelowTop(v, root, page, size), root, busy)
  {
    hide Balanced, MemoryApart, OneBlock;
    var n, w := |v| - 1, BelowTop(v, root, page, size);
    assert v[n].self == root;
    forall i | 0 <= i < |w| ensures Linked(w, i) {
      if i < n { assert Linked(v, i); }
      assert Linked(v, n);
    }
    forall i | 0 <= i < |w| ensures PageOk(w[i], root, busy) {
      if i < n {
        assert PageOk(v[i], root, busy);
      } else if i == n {
        FreshLedger(size, size);
        FreshOneBlock(size);
      } else {
        assert PageOk(v[n], root, busy);
      }
    }
    ApartBelowTop(v, root, page, size);
  }

  lemma FreshOneBlock(size: nat)
    ensures OneBlock(Ledger(size, 0, [Block(0, size)]), size)
  {}

  lemma ApartBelowTop(v: seq<View>, root: Page, page: Page, size: nat)
    requires |v| >= 2 && v[|v| - 1].self == root
    requires Separate(v) && forall i :: 0 <= i < |v| ==> v[i].self != page && MemoryApart(v[i].self, page)
    ensures Separate(BelowTop(v, root, page, size))
  {
    var n, w := |v| - 1, BelowTop(v, root, page, size);
    forall i, j | 0 <= i < j < |w| ensures w[i].self != w[j].self && MemoryApart(w[i].self, w[j].self) {
      assert i < n ==> w[i].self == v[i].self;
      assert j < n ==> w[j].self == v[j].self;
    }
  }

  // ----- deallocation, on values

  /** The ledger after block i is given back. */
  ghost function GivenBack(l: Ledger, i: nat): Ledger
    requires i < |l.live|
  {
    Ledger(l.busy, l.freed + l.live[i].size, Without(l.live, i))
  }

  lemma GivenBackBalanced(l: Ledger, capacity: nat, i: nat)
    requires Balanced(l, capacity) && i < |l.live|
    ensures Balanced(GivenBack(l, i), capacity)
    ensures GivenBack(l, i).freed == l.busy <==> l.live == [l.live[i]]
  {
    TotalWithout(l.live, i);
    LaidWithout(l.live, l.busy, i);
    if Total(Without(l.live, i)) == 0 { NoBlocks(Without(l.live, i), l.busy); }
    assert Without(l.live, i) == [] ==> l.live == [l.live[i]];
    if l.live == [l.live[i]] { assert i == 0 && Without(l.live, i) == []; }
  }

  ghost function Kept(v: seq<View>, root: Page, busy: nat, k: nat, i: nat): seq<View>
    requires k < |v| && i < |v[k].ledger.live|
  {
    v[k := v[k].(ledger := GivenBack(Counted(v[k], root, busy), i))]
  }

  ghost function Reset(v: seq<View>): seq<View>
    requires |v| > 0
  {
    var n := |v| - 1;
    v[n := v[n].(ledger := Ledger(0, 0, []))]
  }

  ghost function Released(v: seq<View>, k: nat): seq<View>
    requires 0 < k < |v| - 1
  {
    v[..k - 1] + [v[k - 1].(next := v[k + 1].self), v[k + 1].(prev := v[k - 1].self)] + v[k + 2..]
  }

  /** The same pages in the same order are as separate as before. */
  lemma SameSelves(v: seq<View>, w: seq<View>)
    requires Separate(v) && |w| == |v| && forall j :: 0 <= j < |v| ==> w[j].self == v[j].self
    ensures Separate(w)
  {}

  /** Some live block remains on the page. */
  lemma SoundKept(v: seq<View>, root: Page, busy: nat, k: nat, i: nat)
    requires Sound(v, root, busy) && 0 < k < |v| && i < |v[k].ledger.live| && |v[k].ledger.live| > 1
    ensures Sound(Kept(v, root, busy, k, i), root, busy)
  {
    hide Separate, MemoryApart, Balanced, OneBlock, GivenBack;
    var w := Kept(v, root, busy, k, i);
    SameSelves(v, w);
    forall j | 0 <= j < |w| ensures Linked(w, j) {
      assert Linked(v, j);
    }
    forall j | 0 <= j < |w| ensures PageOk(w[j], root, busy) {
      assert PageOk(v[j], root, busy);
      if j == k { KeptOk(v[k], root, busy, i); }
    }
  }

  lemma KeptOk(v: View, root: Page, busy: nat, i: nat)
    requires PageOk(v, root, busy) && i < |v.ledger.live| && |v.ledger.live| > 1
    ensures PageOk(v.(ledger := GivenBack(Counted(v, root, busy), i)), root, busy)
  {
    GivenBackBalanced(Counted(v, root, busy), v.self.capacity, i);
    hide Balanced;
  }

  /** The top page lost its last live block and starts again. */
  lemma SoundReset(v: seq<View>, root: Page, busy: nat)
    requires Sound(v, root, busy) && |v| > 1
    ensures Sound(Reset(v), root, 0)
  {
    var w := Reset(v);
    SameSelves(v, w);
    forall j | 0 <= j < |w| ensures Linked(w, j) {
      assert Linked(v, j);
    }
    assert v[|v| - 1].self == root;
    forall j | 0 <= j < |w| ensures PageOk(w[j], root, 0) {
      assert PageOk(v[j], root, busy);
      assert j < |v| - 1 ==> v[j].self != root;
    }
  }

  /** Where page j of the shortened list was before. */
  function Before(j: int, k: int): int {
    if j < k then j else j + 1
  }

  lemma ReleasedAt(v: seq<View>, k: nat, j: nat)
    requires 0 < k < |v| - 1 && j < |v| - 1
    ensures |Released(v, k)| == |v| - 1
    ensures (var x := v[Before(j, k)];
             Released(v, k)[j] == if j == k - 1 then x.(next := v[k + 1].self)
               else if j == k then x.(prev := v[k - 1].self) else x)
  {}

  lemma ReleasedLinked(v: seq<View>, k: nat, j: nat)
    requires 0 < k < |v| - 1 && j < |v| - 1 && Linked(v, Before(j, k))
    ensures |Released(v, k)| == |v| - 1 && Linked(Released(v, k), j)
  {
    ReleasedAt(v, k, j);
    if j > 0 { ReleasedAt(v, k, j - 1); }
    if j + 1 < |v| - 1 { ReleasedAt(v, k, j + 1); }
    hide Released;
  }

  lemma ReleasedOk(v: seq<View>, root: Page, busy: nat, k: nat, j: nat)
    requires 0 < k < |v| - 1 && j < |v| - 1 && PageOk(v[Before(j, k)], root, busy)
    ensures |Released(v, k)| == |v| - 1 && PageOk(Released(v, k)[j], root, busy)
  {
    ReleasedAt(v, k, j);
    hide Released, Balanced;
  }

  /** Another page lost its last live block and leaves the list. */
  lemma SoundReleased(v: seq<View>, root: Page, busy: nat, k: nat)
    requires Sound(v, root, busy) && 0 < k < |v| - 1
    ensures Sound(Released(v, k), root, busy)
  {
    hide Balanced, OneBlock, Separate, Released, Linked, PageOk;
    SeparateReleased(v, k);
    ReleasedAt(v, k, 0);
    ReleasedAt(v, k, |v| - 2);
    forall j | 0 <= j < |v| - 1 ensures Linked(Released(v, k), j) {
      ReleasedLinked(v, k, j);
    }
    forall j | 0 <= j < |v| - 1 ensures PageOk(Released(v, k)[j], root, busy) {
      ReleasedOk(v, root, busy, k, j);
    }
    forall j | 0 < j < |v| - 1 ensures Released(v, k)[j].self.extent == Released(v, k)[j].self.capacity {
      ReleasedAt(v, k, j);
    }
  }

  lemma SeparateReleased(v: seq<View>, k: nat)
    requires Separate(v) && 0 < k < |v| - 1
    ensures Separate(Released(v, k))
  {
    forall i, j | 0 <= i < j < |v| - 1
      ensures Released(v, k)[i].self != Released(v, k)[j].self &&
        MemoryApart(Released(v, k)[i].self, Released(v, k)[j].self)
    {
      ReleasedAt(v, k, i);
      ReleasedAt(v, k, j);
    }
  }

  // ----- strings, on values

  /** `xml_memory_string_header`: offset and size in blocks; size 0 says that the string is the whole page. */
  datatype Header = Header(pageOffset: nat, fullSize: nat)

  function HeaderOf(b: Block): Header {
    Header(b.offset / ALIGNMENT, if b.size < MAX_ENCODED then b.size / ALIGNMENT else 0)
  }

  /** Header and characters, rounded up to a whole number of blocks. */
  function FullSize(length: nat): (r: nat)
    ensures r % ALIGNMENT == 0 && STRING_HEADER + length <= r < STRING_HEADER + length + ALIGNMENT && r > 0
  {
    (STRING_HEADER + length + (ALIGNMENT - 1)) / ALIGNMENT * ALIGNMENT
  }

  ghost predicate LiveAt(v: seq<View>, p: Page, b: Block) {
    exists k, i :: IsBlock(v, k, i, p, b)
  }

  ghost predicate IsBlock(v: seq<View>, k: int, i: int, p: Page, b: Block) {
    0 <= k < |v| && 0 <= i < |v[k].ledger.live| && v[k].self == p && v[k].ledger.live[i] == b
  }

  ghost predicate StringOk(v: seq<View>, headers: map<nat, Header>, a: nat, p: Page, b: Block) {
    && a in headers && headers[a] == HeaderOf(b) && a == p.base + PAGE_HEADER + b.offset && LiveAt(v, p, b)
  }

  ghost predicate StringsOk(v: seq<View>, headers: map<nat, Header>, strings: map<nat, (Page, Block)>,
        memory: map<nat, Page>) {
    && (forall a :: a in strings ==> StringOk(v, headers, a, strings[a].0, strings[a].1))
    && (forall a :: a in strings ==> |v| > 0 && strings[a].0 != v[0].self)
    && (forall i :: 0 <= i < |v| ==> v[i].self.base in memory && memory[v[i].self.base] == v[i].self)
  }

  /** What a header says is enough to find the page and the size again. */
  lemma HeaderRecovers(v: seq<View>, root: Page, busy: nat, k: nat, i: nat)
    requires Sound(v, root, busy) && k < |v| && i < |v[k].ledger.live|
    ensures (var b := v[k].ledger.live[i]; var h := HeaderOf(b);
             && h.pageOffset < 65536 && h.fullSize < 65536
             && h.pageOffset * ALIGNMENT == b.offset
             && b.size == (if h.fullSize == 0 then v[k].ledger.busy else h.fullSize * ALIGNMENT))
  {
    assert PageOk(v[k], root, busy);
    var b := v[k].ledger.live[i];
    assert b.offset % ALIGNMENT == 0 && b.size % ALIGNMENT == 0 && b.size > 0;
    assert b.size >= MAX_ENCODED ==> v[k].self != root;
  }

  lemma StillLive(v: seq<View>, root: Page, busy: nat, w: seq<View>, root': Page, busy': nat, page: Page, offset: nat,
        size: nat, p: Page, b: Block)
    requires Sound(v, root, busy) && Allocated(v, root, busy, w, root', busy', page, offset, size) && LiveAt(v, p, b)
    ensures LiveAt(w, p, b)
  {
    hide Sound;
    var k, i :| IsBlock(v, k, i, p, b);
    if busy + size > PAGE_SIZE && size > LARGE && k == |v| - 1 {
      assert IsBlock(w, k + 1, i, p, b);
    } else {
      assert IsBlock(w, k, i, p, b);
    }
  }

  /** The block of a request that was served is live, was not live before, and is not on the sentinel page. */
  lemma NowLive(v: seq<View>, root: Page, busy: nat, w: seq<View>, root': Page, busy': nat, page: Page, offset: nat,
        size: nat)
    requires Sound(v, root, busy) && Allocated(v, root, busy, w, root', busy', page, offset, size) && size > 0
    requires busy + size > PAGE_SIZE ==> forall i :: 0 <= i < |v| ==> v[i].self != page
    ensures LiveAt(w, page, Block(offset, size)) && !LiveAt(v, page, Block(offset, size))
    ensures |w| > 0 && w[0].self == v[0].self != page
  {
    SentinelAlone(v, root, busy);
    var n, m := |v| - 1, |v[|v| - 1].ledger.live|;
    assert v[n].self == root && PageOk(v[n], root, busy) && (n > 0 ==> v[0].self != v[n].self);
    if busy + size <= PAGE_SIZE {
      assert IsBlock(w, n, m, page, Block(offset, size));
    } else if size <= LARGE {
      assert IsBlock(w, n + 1, 0, page, Block(offset, size));
    } else {
      assert IsBlock(w, n, 0, page, Block(offset, size));
    }
  }

  /** Serving a request disturbs no string; a new page becomes known by its address. */
  lemma StringsKept(s: State, t: State, headers: map<nat, Header>, strings: map<nat, (Page, Block)>,
        memory: map<nat, Page>, page: Page, offset: nat, size: nat)
    requires SoundState(s) && SoundState(t) && StringsOk(s.views, headers, strings, memory) && size > 0
    requires Served(s, t, page, offset, size) && (s.busy + size > PAGE_SIZE ==> NewTo(s.views, page))
    ensures StringsOk(t.views, headers, strings, memory[page.base := page])
  {
    var v, root, busy, w, root', busy' := s.views, s.root, s.busy, t.views, t.root, t.busy;
    NowLive(v, root, busy, w, root', busy', page, offset, size);
    SelvesServed(v, root, busy, w, root', busy', page, offset, size);
    StringsLive(v, headers, strings, memory);
    forall x | x in strings ensures LiveAt(w, strings[x].0, strings[x].1) {
      hide Sound, LiveAt, Allocated, StringsOk;
      StillLive(v, root, busy, w, root', busy', page, offset, size, strings[x].0, strings[x].1);
    }
    hide Sound, LiveAt, Allocated;
    PagesKnown(v, w, root', busy', headers, strings, memory, page, Block(offset, size));
  }

  lemma PagesKnown(v: seq<View>, w: seq<View>, root: Page, busy: nat, headers: map<nat, Header>,
      strings: map<nat, (Page, Block)>, memory: map<nat, Page>, page: Page, b: Block)
    requires StringsOk(v, headers, strings, memory) && Sound(w, root, busy) && LiveAt(w, page, b)
    requires |v| > 0 && |w| > 0 && w[0].self == v[0].self
    requires forall x :: x in strings ==> LiveAt(w, strings[x].0, strings[x].1)
    requires forall i :: 0 <= i < |w| && w[i].self != page ==> exists j :: 0 <= j < |v| && v[j].self == w[i].self
    ensures StringsOk(w, headers, strings, memory[page.base := page])
  {
    hide Sound, LiveAt;
    forall x | x in strings ensures StringOk(w, headers, x, strings[x].0, strings[x].1) {
      assert StringOk(v, headers, x, strings[x].0, strings[x].1);
    }
    var memory' := memory[page.base := page];
    forall i | 0 <= i < |w| ensures w[i].self.base in memory' && memory'[w[i].self.base] == w[i].self {
      if w[i].self != page {
        var j :| 0 <= j < |v| && v[j].self == w[i].self;
        OtherBase(w, root, busy, page, b, i);
      }
    }
  }

  /** A page that has served a request on the spot was known before. */
  lemma KnownPage(v: seq<View>, headers: map<nat, Header>, strings: map<nat, (Page, Block)>, memory: map<nat, Page>,
        page: Page)
    requires StringsOk(v, headers, strings, memory) && exists i :: 0 <= i < |v| && v[i].self == page
    ensures memory[page.base := page] == memory
  {
    var i :| 0 <= i < |v| && v[i].self == page;
    assert v[i].self.base in memory && memory[v[i].self.base] == page;
  }

  /** A new live block with a header in front is one more string, at an address that no other string has. */
  lemma StringAdded(v: seq<View>, t: State, headers: map<nat, Header>, strings: map<nat, (Page, Block)>,
      memory: map<nat, Page>, page: Page, b: Block)
    requires StringsOk(t.views, headers, strings, memory) && SoundState(t) && LiveAt(t.views, page, b) &&
      !LiveAt(v, page, b)
    requires |t.views| > 0 && t.views[0].self != page &&
      forall x :: x in strings ==> LiveAt(v, strings[x].0, strings[x].1)
    ensures Address(page, b) !in strings
    ensures StringsOk(t.views, headers[Address(page, b) := HeaderOf(b)], strings[Address(page, b) := (page, b)], memory)
  {
    var w, a := t.views, Address(page, b);
    if a in strings {
      assert StringOk(w, headers, a, strings[a].0, strings[a].1);
      SameAddress(w, t.root, t.busy, page, b, strings[a].0, strings[a].1);
    }
    hide LiveAt, SoundState, HeaderOf;
    var headers', strings' := headers[a := HeaderOf(b)], strings[a := (page, b)];
    forall x | x in strings' ensures StringOk(w, headers', x, strings'[x].0, strings'[x].1) {
      if x != a { assert StringOk(w, headers, x, strings[x].0, strings[x].1); }
    }
  }

  /** A request that was served becomes a string. */
  lemma NewString(s: State, t: State, headers: map<nat, Header>, strings: map<nat, (Page, Block)>,
        memory0: map<nat, Page>, memory: map<nat, Page>, page: Page, b: Block)
    requires SoundState(s) && SoundState(t) && b.size > 0 && StringsOk(s.views, headers, strings, memory0)
    requires Served(s, t, page, b.offset, b.size) && (s.busy + b.size > PAGE_SIZE ==> NewTo(s.views, page))
    requires StringsOk(t.views, headers, strings, memory)
    ensures Address(page, b) !in strings
    ensures StringsOk(t.views, headers[Address(page, b) := HeaderOf(b)], strings[Address(page, b) := (page, b)], memory)
  {
    ServedLive(s, t, page, b);
    StringsLive(s.views, headers, strings, memory0);
    hide SoundState, StringsOk, Served, LiveAt, NewTo;
    StringAdded(s.views, t, headers, strings, memory, page, b);
  }

  lemma ServedLive(s: State, t: State, page: Page, b: Block)
    requires SoundState(s) && b.size > 0
    requires Served(s, t, page, b.offset, b.size) && (s.busy + b.size > PAGE_SIZE ==> NewTo(s.views, page))
    ensures LiveAt(t.views, page, b) && !LiveAt(s.views, page, b)
    ensures |t.views| > 0 && |s.views| > 0 && t.views[0].self == s.views[0].self != page
  {
    NowLive(s.views, s.root, s.busy, t.views, t.root, t.busy, page, b.offset, b.size);
  }

  ghost predicate NewTo(v: seq<View>, page: Page) {
    forall i :: 0 <= i < |v| ==> v[i].self != page
  }

  /** A live block outside the sentinel is known by its address. */
  lemma SameAddress(w: seq<View>, root: Page, busy: nat, p: Page, b: Block, q: Page, c: Block)
    requires Sound(w, root, busy) && LiveAt(w, p, b) && LiveAt(w, q, c) && Address(p, b) == Address(q, c)
    requires w[0].self != p && w[0].self != q
    ensures p == q && b == c
  {
    var k, i :| IsBlock(w, k, i, p, b);
    var l, j :| IsBlock(w, l, j, q, c);
    assert PageOk(w[k], root, busy) && PageOk(w[l], root, busy);
    if k != l || i != j {
      LiveBlocks(w, root, busy, k, i, l, j);
    }
  }

  lemma SelvesServed(v: seq<View>, root: Page, busy: nat, w: seq<View>, root': Page, busy': nat, page: Page,
        offset: nat, size: nat)
    requires Allocated(v, root, busy, w, root', busy', page, offset, size)
    ensures forall i :: 0 <= i < |w| && w[i].self != page ==> exists j :: 0 <= j < |v| && v[j].self == w[i].self
  {
    forall i | 0 <= i < |w| && w[i].self != page ensures exists j :: 0 <= j < |v| && v[j].self == w[i].self {
      assert v[if i < |v| then i else |v| - 1].self == w[i].self;
    }
  }

  lemma OtherBase(w: seq<View>, root: Page, busy: nat, page: Page, b: Block, i: nat)
    requires Sound(w, root, busy) && LiveAt(w, page, b) && i < |w| && w[i].self != page
    ensures w[i].self.base != page.base
  {
    var k, j :| IsBlock(w, k, j, page, b);
    assert MemoryApart(w[if i < k then i else k].self, w[if i < k then k else i].self);
  }

  lemma StringsLive(v: seq<View>, headers: map<nat, Header>, strings: map<nat, (Page, Block)>, memory: map<nat, Page>)
    requires StringsOk(v, headers, strings, memory)
    ensures forall x :: x in strings ==> LiveAt(v, strings[x].0, strings[x].1)
  {
    forall x | x in strings ensures LiveAt(v, strings[x].0, strings[x].1) {
      assert StringOk(v, headers, x, strings[x].0, strings[x].1);
    }
  }

  /** Where the block of a live string is. */
  lemma Whereabouts(v: seq<View>, headers: map<nat, Header>, strings: map<nat, (Page, Block)>, memory: map<nat, Page>,
        a: nat)
    returns (k: nat, i: nat)
    requires StringsOk(v, headers, strings, memory) && a in strings
    ensures 0 < k && IsBlock(v, k, i, strings[a].0, strings[a].1) && StringOk(v, headers, a, strings[a].0, strings[a].1)
    ensures strings[a].0.base in memory && memory[strings[a].0.base] == strings[a].0
  {
    assert StringOk(v, headers, a, strings[a].0, strings[a].1);
    var x, y :| IsBlock(v, x, y, strings[a].0, strings[a].1);
    k, i := x, y;
  }

  /** Giving back one block leaves every other one live. */
  lemma OthersLive(v: seq<View>, root: Page, busy: nat, w: seq<View>, busy': nat, k: nat, i: nat, p: Page, b: Block)
    requires Sound(v, root, busy) && Deallocated(v, root, busy, w, root, busy', k, i) && LiveAt(v, p, b)
    requires !IsBlock(v, k, i, p, b)
    ensures LiveAt(w, p, b)
  {
    hide Sound;
    var x, y :| IsBlock(v, x, y, p, b);
    if |v[k].ledger.live| > 1 {
      if x == k {
        assert IsBlock(w, x, if y < i then y else y - 1, p, b);
      } else {
        assert IsBlock(w, x, y, p, b);
      }
    } else if k == |v| - 1 {
      assert IsBlock(w, x, y, p, b);
    } else {
      var z := if x < k then x else x - 1;
      ReleasedAt(v, k, z);
      assert IsBlock(w, z, y, p, b);
    }
  }

  /** The strings that do not lie in the given block. */
  ghost function Outside(strings: map<nat, (Page, Block)>, page: Page, b: Block): map<nat, (Page, Block)> {
    map a | a in strings && strings[a] != (page, b) :: strings[a]
  }

  /** Giving back a block takes away the string in it, if it holds one, and disturbs no other. */
  lemma StringsLeft(s: State, t: State, k: nat, i: nat, headers: map<nat, Header>, strings: map<nat, (Page, Block)>,
      memory: map<nat, Page>, page: Page, b: Block)
    requires StringsOk(s.views, headers, strings, memory) && SoundState(s)
    requires Returned(s, t, k, i) && IsBlock(s.views, k, i, page, b)
    ensures StringsOk(t.views, headers, Outside(strings, page, b), memory)
  {
    var v, root, busy, w, busy' := s.views, s.root, s.busy, t.views, t.busy;
    SelvesRemain(v, root, busy, w, busy', k, i);
    hide Sound, LiveAt, Deallocated;
    forall x | x in Outside(strings, page, b)
      ensures StringOk(w, headers, x, strings[x].0, strings[x].1) && strings[x].0 != w[0].self
    {
      assert StringOk(v, headers, x, strings[x].0, strings[x].1);
      OthersLive(v, root, busy, w, busy', k, i, strings[x].0, strings[x].1);
    }
  }

  /** Two strings never share a block. */
  lemma OnlyThat(v: seq<View>, headers: map<nat, Header>, strings: map<nat, (Page, Block)>, memory: map<nat, Page>,
        a: nat)
    requires StringsOk(v, headers, strings, memory) && a in strings
    ensures Outside(strings, strings[a].0, strings[a].1) == strings - {a}
  {
    hide LiveAt;
    forall x | x in strings && strings[x] == strings[a] ensures x == a {
      assert StringOk(v, headers, x, strings[x].0, strings[x].1) && StringOk(v, headers, a, strings[a].0, strings[a].1);
    }
  }

  lemma SelvesRemain(v: seq<View>, root: Page, busy: nat, w: seq<View>, busy': nat, k: nat, i: nat)
    requires Sound(v, root, busy) && Deallocated(v, root, busy, w, root, busy', k, i)
    ensures |w| > 0 && w[0].self == v[0].self
    ensures forall j :: 0 <= j < |w| ==> exists x :: 0 <= x < |v| && v[x].self == w[j].self
  {
    hide Sound;
    if |v[k].ledger.live| > 1 || k == |v| - 1 {
      assert forall j :: 0 <= j < |w| ==> w[j].self == v[j].self;
    } else {
      forall j | 0 <= j < |w| ensures exists x :: 0 <= x < |v| && v[x].self == w[j].self {
        ReleasedAt(v, k, j);
        assert v[Before(j, k)].self == w[j].self;
      }
      ReleasedAt(v, k, 0);
    }
  }

  // ----- the allocator

  class Allocator {
    var root: Page
    var busySize: nat
    ghost var pages: seq<Page>
    var headers: map<nat, Header>
    var memory: map<nat, Page>
    ghost var strings: map<nat, (Page, Block)>

    ghost function Now(): State
      reads this, pages
    {
      State(Views(pages), root, busySize)
    }

    ghost predicate Valid()
      reads this, pages
    {
      SoundState(Now())
    }

    /** A document's sentinel page: static memory that counts as full and is never given back. */
    constructor (base: nat)
      ensures Valid() && |pages| == 1 && root == pages[0] && fresh(root) && root.base == base && root.extent == SENTINEL
      ensures ValidStrings() && strings == map[]
    {
      var page := new Page(base, PAGE_SIZE, SENTINEL);
      page.busySize := PAGE_SIZE;
      page.live := [Block(0, PAGE_SIZE)];
      root, busySize, pages := page, PAGE_SIZE, [page];
      headers, strings, memory := map[], map[], map[base := page];
      new;
      FreshLedger(PAGE_SIZE, PAGE_SIZE);
    }

    /**
      `allocate_memory`: a block at the end of the current page, or on a new page in the memory at base. The first
      request of a document must not be a large one. Strings stay what they are.
    */
    method AllocateMemory(size: nat, base: nat) returns (page: Page, offset: nat)
      requires Valid() && ValidStrings() && size > 0 && size % ALIGNMENT == 0
      requires size <= LARGE || |pages| > 1 || busySize + size <= PAGE_SIZE
      requires AllFree(pages, base, NewCapacity(size))
      modifies this`root, this`busySize, this`pages, this`memory, pages
      ensures Valid() && ValidStrings() && page in pages && strings == old(strings) && headers == old(headers)
      ensures Served(old(Now()), Now(), page, offset, size)
      ensures if old(busySize) + size > PAGE_SIZE then fresh(page) && page.base == base else page in old(pages)
      ensures old(busySize) + size > PAGE_SIZE ==> NewTo(old(Now()).views, page)
      ensures forall j :: 0 <= j < |pages| ==>
        pages[j] in old(pages) || (fresh(pages[j]) && pages[j].base == base && pages[j].extent == NewCapacity(size))
    {
      ghost var s := Now();
      hide SoundState, Served, AllFree, StringsOk;
      if busySize + size > PAGE_SIZE {
        page := AllocateOutOfBand(size, base);
        offset := 0;
      } else {
        page, offset := AllocateHere(size);
        KnownPage(s.views, headers, strings, memory, page);
      }
      StringsKept(s, Now(), headers, strings, old(memory), page, offset, size);
    }

    /** The current page has room. */
    method AllocateHere(size: nat) returns (page: Page, offset: nat)
      requires Valid() && size > 0 && size % ALIGNMENT == 0 && busySize + size <= PAGE_SIZE
      modifies this`busySize, pages
      ensures Valid() && page in pages && pages == old(pages)
      ensures Served(old(Now()), Now(), page, offset, size)
    {
      ghost var s := Now();
      ServedHere(s, pages, size);
      hide SoundState, Served, WithBlock, Separate;
      offset := busySize;
      page := root;
      PutHere(size);
      assert Now() == State(WithBlock(s.views, s.busy, size), s.root, s.busy + size);
    }

    /** The ledger of the current page grows by one block. */
    method PutHere(size: nat)
      requires NoRepeats(pages) && |pages| > 0 && root == pages[|pages| - 1]
      modifies this`busySize, root`live
      ensures busySize == old(busySize) + size && Views(pages) == WithBlock(old(Views(pages)), old(busySize), size)
    {
      root.live := root.live + [Block(busySize, size)];
      busySize := busySize + size;
      assert Views(pages) == WithBlock(old(Views(pages)), old(busySize), size);
    }

    /** `allocate_memory_oob`. */
    method AllocateOutOfBand(size: nat, base: nat) returns (page: Page)
      requires OutOfBand(Now(), pages, size, base)
      modifies this`root, this`busySize, this`pages, this`memory, pages
      ensures Valid() && fresh(page) && page in pages && page.base == base && memory == old(memory)[base := page]
      ensures page.extent == NewCapacity(size)
      ensures forall j :: 0 <= j < |pages| ==> pages[j] in old(pages) || pages[j] == page
      ensures Served(old(Now()), Now(), page, 0, size)
    {
      hide SoundState, Served, WithPage, OutOfBand, NoRepeats, AllFree;
      ghost var s, before := Now(), pages;
      ShapeOutOfBand(s, pages, size, base);
      page := Insert(size, base);
      memory := memory[base := page];
      ServedOutOfBand(s, before, page, size);
    }

    /** The new page goes on top, or below the top if it is a page for one large block. */
    method Insert(size: nat, base: nat) returns (page: Page)
      requires NoRepeats(pages) && |pages| > 0 && root == pages[|pages| - 1]
      requires size > LARGE ==> |pages| > 1 && root.prev == pages[|pages| - 2]
      modifies this`root, this`busySize, this`pages, pages
      ensures fresh(page) && page.base == base && page.capacity == page.extent == NewCapacity(size) && page in pages
      ensures forall j :: 0 <= j < |pages| ==> pages[j] in old(pages) || pages[j] == page
      ensures Now() == WithPage(old(Now()), page, size)
    {
      page := AllocatePage(size, base);
      hide OnTop, BelowTop;
      if size <= LARGE {
        AddOnTop(page, size);
      } else {
        AddBelowTop(page, size);
      }
    }

    /** `allocate_page`: a page that knows of the one block it is made for. */
    method AllocatePage(size: nat, base: nat) returns (page: Page)
      ensures fresh(page) && page.base == base && page.capacity == page.extent == NewCapacity(size)
      ensures ViewOf(page) == View(page, null, null, Ledger(0, 0, [Block(0, size)]))
    {
      page := new Page(base, NewCapacity(size), NewCapacity(size));
      page.live := [Block(0, size)];
    }

    /**
      `deallocate_memory`: the block is added to the freed ledger of its page; a page that is left without a live block
      is reset if it is the top one, and released otherwise. A string in that block is gone, all others stay.
    */
    method DeallocateMemory(size: nat, page: Page, ghost k: nat, ghost i: nat, ghost block: Block)
      requires Valid() && ValidStrings() && k > 0 && IsBlock(Now().views, k, i, page, block) && block.size == size
      modifies this`busySize, this`pages, this`strings, pages
      ensures Valid() && Returned(old(Now()), Now(), k, i)
      ensures ValidStrings() && strings == Outside(old(strings), page, block)
      ensures forall j :: 0 <= j < |pages| ==> pages[j] in old(pages)
    {
      ghost var s := Now();
      hide SoundState, StringsOk, Returned, Outside, IsBlock;
      FreeBlock(size, page, k, i, block);
      StringsLeft(s, Now(), k, i, headers, strings, memory, page, block);
      strings := Outside(strings, page, block);
    }

    /** The pages alone. */
    method FreeBlock(size: nat, page: Page, ghost k: nat, ghost i: nat, ghost block: Block)
      requires Valid() && k > 0 && IsBlock(Now().views, k, i, page, block) && block.size == size
      modifies this`busySize, this`pages, pages
      ensures Valid() && Returned(old(Now()), Now(), k, i)
      ensures forall j :: 0 <= j < |pages| ==> pages[j] in old(pages)
    {
      hide SoundState, Separate, Kept, Settled;
      ghost var s := Now();
      AboutToFree(s, pages, k, i);
      GiveBack(size, page, k, i);
      KeptAt(s, k, i);
      Settle(page, k);
      SettledState(s, k, i);
    }

    /** A page without a live block is reset or released. */
    method Settle(page: Page, ghost k: nat)
      requires NoRepeats(pages) && 0 < k < |pages| && page == pages[k] && root == pages[|pages| - 1]
      requires page.next == (if k + 1 < |pages| then pages[k + 1] else null) && page.prev == pages[k - 1]
      requires page.freedSize == page.busySize <==> page.live == []
      modifies this`busySize, this`pages, pages
      ensures root == old(root) && Now() == Settled(old(Now()), k)
      ensures forall j :: 0 <= j < |pages| ==> pages[j] in old(pages)
    {
      hide Reset, Released;
      if page.freedSize == page.busySize {
        if page.next == null {
          ResetTop(page);
        } else {
          Unlink(page, k);
        }
      }
    }

    method GiveBack(size: nat, page: Page, ghost k: nat, ghost i: nat)
      requires NoRepeats(pages) && k < |pages| && pages[k] == page && i < |page.live| && page.live[i].size == size
      modifies page`busySize, page`freedSize, page`live
      ensures Views(pages) == Kept(old(Views(pages)), root, busySize, k, i)
    {
      if page == root { page.busySize := busySize; }
      page.freedSize := page.freedSize + size;
      page.live := Without(page.live, i);
      assert Views(pages) == Kept(old(Views(pages)), root, busySize, k, i);
    }

    method ResetTop(page: Page)
      requires NoRepeats(pages) && |pages| > 0 && page == root == pages[|pages| - 1] && page.live == []
      modifies this`busySize, page`busySize, page`freedSize
      ensures Views(pages) == Reset(old(Views(pages))) && busySize == 0
    {
      page.busySize := 0;
      page.freedSize := 0;
      busySize := 0;
      assert Views(pages) == Reset(old(Views(pages)));
    }

    /** Removal from the linked list. */
    method Unlink(page: Page, ghost k: nat)
      requires NoRepeats(pages) && 0 < k < |pages| - 1 && page == pages[k]
      requires page.prev == pages[k - 1] && page.next == pages[k + 1]
      modifies this`pages, page.prev`next, page.next`prev
      ensures Views(pages) == Released(old(Views(pages)), k) && pages == old(pages[..k] + pages[k + 1..])
    {
      page.prev.next := page.next;
      page.next.prev := page.prev;
      pages := pages[..k] + pages[k + 1..];
      assert Views(pages) == Released(old(Views(pages)), k);
    }

    // ----- strings

    /** The live strings are known by their headers, and every page is known by its address. */
    ghost predicate ValidStrings()
      reads this, pages
    {
      StringsOk(Views(pages), headers, strings, memory)
    }

    /** `allocate_string`: a block with a header in front; the address of the first character is returned. */
    method AllocateString(length: nat, base: nat) returns (text: nat, ghost page: Page, ghost block: Block)
      requires Valid() && ValidStrings()
      requires FullSize(length) <= LARGE || |pages| > 1 || busySize + FullSize(length) <= PAGE_SIZE
      requires AllFree(pages, base, NewCapacity(FullSize(length)))
      modifies this, pages
      ensures Valid() && ValidStrings() && block.size == FullSize(length)
      ensures text == page.base + PAGE_HEADER + block.offset + STRING_HEADER
      ensures text - STRING_HEADER !in old(strings) && strings == old(strings)[text - STRING_HEADER := (page, block)]
      ensures Served(old(Now()), Now(), page, block.offset, block.size)
      ensures old(busySize) + block.size > PAGE_SIZE ==> NewTo(old(Now()).views, page)
      ensures forall j :: 0 <= j < |pages| ==>
        pages[j] in old(pages) ||
        (fresh(pages[j]) && pages[j].base == base && pages[j].extent == NewCapacity(FullSize(length)))
    {
      hide SoundState, StringsOk, Served, AllFree, Views, ViewOf, NewTo;
      var fullSize := FullSize(length);
      ghost var s := Now();
      var at, offset := AllocateMemory(fullSize, base);
      page, block := at, Block(offset, fullSize);
      NewString(s, Now(), headers, strings, old(memory), memory, at, block);
      var header := at.base + PAGE_HEADER + offset;
      headers := headers[header := Header(offset / ALIGNMENT, if fullSize < MAX_ENCODED then fullSize / ALIGNMENT
        else 0)];
      strings := strings[header := (at, block)];
      text := header + STRING_HEADER;
    }

    /** `deallocate_string`: the header leads back to the page and to the size that were allocated. */
    method DeallocateString(text: nat) returns (ghost k: nat, ghost i: nat)
      requires Valid() && ValidStrings() && text >= STRING_HEADER && text - STRING_HEADER in strings
      modifies this`busySize, this`pages, this`strings, pages
      ensures Valid() && ValidStrings() && strings == old(strings) - {text - STRING_HEADER}
      ensures (var (page, block) := old(strings)[text - STRING_HEADER]; IsBlock(old(Now()).views, k, i, page, block))
      ensures Returned(old(Now()), Now(), k, i) && forall j :: 0 <= j < |pages| ==> pages[j] in old(pages)
    {
      hide SoundState, StringsOk, Returned, StringOk, LiveAt, HeaderOf, Outside;
      var address := text - STRING_HEADER;
      ghost var v := Views(pages);
      OnlyThat(v, headers, strings, memory, address);
      k, i := Whereabouts(v, headers, strings, memory, address);
      var page, fullSize := Recover(address, k, i);
      DeallocateMemory(fullSize, page, k, i, strings[address].1);
    }

    /** The page and the size of a live string, computed from its header alone. */
    method Recover(address: nat, ghost k: nat, ghost i: nat) returns (page: Page, fullSize: nat)
      requires Valid() && ValidStrings() && address in strings
      requires IsBlock(Views(pages), k, i, strings[address].0, strings[address].1)
      requires strings[address].0.base in memory && memory[strings[address].0.base] == strings[address].0
      requires StringOk(Views(pages), headers, address, strings[address].0, strings[address].1)
      ensures page == strings[address].0 && fullSize == strings[address].1.size
    {
      hide Sound, StringsOk;
      HeaderRecovers(Views(pages), root, busySize, k, i);
      var header := headers[address];
      var pageOffset := PAGE_HEADER + header.pageOffset * ALIGNMENT;
      page := memory[address - pageOffset];
      fullSize := if header.fullSize == 0 then page.busySize else header.fullSize * ALIGNMENT;
    }

    /** Insertion at the end of the linked list. */
    method AddOnTop(page: Page, size: nat)
      requires NoRepeats(pages) && |pages| > 0 && root == pages[|pages| - 1] && page !in pages
      requires ViewOf(page) == View(page, null, null, Ledger(0, 0, [Block(0, size)]))
      modifies this`root, this`busySize, this`pages, root`busySize, root`next, page`prev
      ensures Views(pages) == OnTop(old(Views(pages)), old(root), old(busySize), page, size)
      ensures root == page && busySize == size && pages == old(pages) + [page]
    {
      root.busySize := busySize;
      page.prev := root;
      root.next := page;
      root := page;
      busySize := size;
      pages := pages + [page];
      assert Views(pages) == OnTop(old(Views(pages)), old(root), old(busySize), page, size);
    }

    /** Insertion before the end of the linked list. */
    method AddBelowTop(page: Page, size: nat)
      requires NoRepeats(pages) && |pages| > 1 && root == pages[|pages| - 1] && page !in pages
      requires root.prev == pages[|pages| - 2]
      requires ViewOf(page) == View(page, null, null, Ledger(0, 0, [Block(0, size)]))
      modifies this`pages, root`prev, root.prev`next, page`prev, page`next, page`busySize
      ensures Views(pages) == BelowTop(old(Views(pages)), root, page, size)
      ensures pages == old(pages[..|pages| - 1]) + [page, root]
    {
      page.prev := root.prev;
      page.next := root;
      root.prev.next := page;
      root.prev := page;
      page.busySize := size;
      pages := pages[..|pages| - 1] + [page, root];
      assert Views(pages) == BelowTop(old(Views(pages)), root, page, size);
    }
  }

  // ----- deallocation

  /**
    What giving back block i of page k does: the page keeps other blocks, starts again as the top one, or is released.
  */
  ghost predicate Deallocated(v: seq<View>, root: Page, busy: nat, v': seq<View>, root': Page, busy': nat, k: nat,
        i: nat) {
    && root' == root && 0 < k < |v| && i < |v[k].ledger.live|
    && if |v[k].ledger.live| > 1 then v' == Kept(v, root, busy, k, i) && busy' == busy
       else if k == |v| - 1 then v' == Reset(v) && busy' == 0
       else v' == Released(v, k) && busy' == busy
  }

  ghost predicate Served(s: State, t: State, page: Page, offset: nat, size: nat) {
    Allocated(s.views, s.root, s.busy, t.views, t.root, t.busy, page, offset, size)
  }

  ghost predicate Returned(s: State, t: State, k: nat, i: nat) {
    Deallocated(s.views, s.root, s.busy, t.views, t.root, t.busy, k, i)
  }

  lemma SoundDeallocated(v: seq<View>, root: Page, busy: nat, v': seq<View>, busy': nat, k: nat, i: nat)
    requires Sound(v, root, busy) && Deallocated(v, root, busy, v', root, busy', k, i)
    ensures Sound(v', root, busy')
  {
    hide Sound, Kept, Reset, Released;
    if |v[k].ledger.live| > 1 {
      SoundKept(v, root, busy, k, i);
    } else if k == |v| - 1 {
      SoundReset(v, root, busy);
    } else {
      SoundReleased(v, root, busy, k);
    }
  }

  lemma SoundReturned(s: State, t: State, k: nat, i: nat)
    requires SoundState(s) && Returned(s, t, k, i)
    ensures SoundState(t)
  {
    SoundDeallocated(s.views, s.root, s.busy, t.views, t.busy, k, i);
  }

  ghost function Settled(s: State, k: nat): State
    requires 0 < k < |s.views|
  {
    if s.views[k].ledger.live != [] then s
    else if k == |s.views| - 1 then State(Reset(s.views), s.root, 0)
    else State(Released(s.views, k), s.root, s.busy)
  }

  lemma KeptAt(s: State, k: nat, i: nat)
    requires k < |s.views| && i < |s.views[k].ledger.live|
    ensures |Kept(s.views, s.root, s.busy, k, i)| == |s.views|
    ensures Kept(s.views, s.root, s.busy, k, i)[k] ==
      s.views[k].(ledger := GivenBack(Counted(s.views[k], s.root, s.busy), i))
    ensures forall j :: 0 <= j < |s.views| ==>
      (var x, y := Kept(s.views, s.root, s.busy, k, i)[j], s.views[j];
       x.self == y.self && x.prev == y.prev && x.next == y.next)
  {}

  /** Giving back the block and then settling the page is what deallocation amounts to. */
  lemma SettledState(s: State, k: nat, i: nat)
    requires SoundState(s) && 0 < k < |s.views| && i < |s.views[k].ledger.live|
    ensures |Kept(s.views, s.root, s.busy, k, i)| == |s.views|
    ensures (var t := Settled(State(Kept(s.views, s.root, s.busy, k, i), s.root, s.busy), k);
             SoundState(t) && Returned(s, t, k, i))
  {
    hide SoundState;
    var w := Kept(s.views, s.root, s.busy, k, i);
    var t := Settled(State(w, s.root, s.busy), k);
    assert |GivenBack(Counted(s.views[k], s.root, s.busy), i).live| == |s.views[k].ledger.live| - 1;
    if |s.views[k].ledger.live| == 1 {
      if k == |s.views| - 1 {
        assert Reset(w) == Reset(s.views);
      } else {
        assert Released(w, k) == Released(s.views, k);
      }
    }
    SoundReturned(s, t, k, i);
  }

  lemma AboutToFree(s: State, pages: seq<Page>, k: nat, i: nat)
    requires SoundState(s) && ViewsOf(s, pages) && 0 < k < |pages| && i < |s.views[k].ledger.live|
    ensures NoRepeats(pages) && s.root == pages[|pages| - 1]
    ensures (var l := Counted(s.views[k], s.root, s.busy);
             l.freed + l.live[i].size <= l.busy && (l.freed + l.live[i].size == l.busy <==> |l.live| == 1))
    ensures pages[k] == s.root <==> k == |pages| - 1
    ensures s.views[k].next == (if k + 1 < |pages| then pages[k + 1] else null) && s.views[k].prev == pages[k - 1]
  {
    WhenEmpty(s.views, s.root, s.busy, k, i);
    ValidShape(s.views, pages, s.root, s.busy);
  }

  /** When the freed ledger of page k reaches the busy one. */
  lemma WhenEmpty(v: seq<View>, root: Page, busy: nat, k: nat, i: nat)
    requires Sound(v, root, busy) && 0 < k < |v| && i < |v[k].ledger.live|
    ensures (var l := Counted(v[k], root, busy);
             l.freed + l.live[i].size <= l.busy && (l.freed + l.live[i].size == l.busy <==> |l.live| == 1))
    ensures v[k].self == root <==> k == |v| - 1
    ensures v[k].next == (if k + 1 < |v| then v[k + 1].self else null) && v[k].prev == v[k - 1].self
  {
    assert PageOk(v[k], root, busy) && Linked(v, k);
    GivenBackBalanced(Counted(v[k], root, busy), v[k].self.capacity, i);
    hide Balanced;
    assert k < |v| - 1 ==> v[k].self != v[|v| - 1].self;
  }

  ghost predicate AllFree(pages: seq<Page>, base: nat, extent: nat) {
    forall i :: 0 <= i < |pages| ==> Free(pages[i], base, extent)
  }

  /** The three ways a request is served. */
  ghost predicate Allocated(v: seq<View>, root: Page, busy: nat, v': seq<View>, root': Page, busy': nat, page: Page,
        offset: nat, size: nat)
  {
    |v| > 0 &&
    if busy + size <= PAGE_SIZE then
      v' == WithBlock(v, busy, size) && root' == root && busy' == busy + size && page == root && offset == busy
    else if size <= LARGE then
      v' == OnTop(v, root, busy, page, size) && root' == page && busy' == size && offset == 0
    else
      |v| > 1 && v' == BelowTop(v, root, page, size) && root' == root && busy' == busy && offset == 0
  }

  /** Serving a request on the current page. */
  lemma ServedHere(s: State, pages: seq<Page>, size: nat)
    requires SoundState(s) && ViewsOf(s, pages) && size > 0 && size % ALIGNMENT == 0 && s.busy + size <= PAGE_SIZE
    ensures NoRepeats(pages) && |pages| > 0 && s.root == pages[|pages| - 1]
    ensures (var t := State(WithBlock(s.views, s.busy, size), s.root, s.busy + size);
             SoundState(t) && Served(s, t, s.root, s.busy, size))
  {
    hide Sound, WithBlock;
    SoundHere(s.views, s.root, s.busy, size);
    ValidShape(s.views, pages, s.root, s.busy);
  }

  /** A request that the current page has no room for, and memory for a new page. */
  ghost predicate OutOfBand(s: State, pages: seq<Page>, size: nat, base: nat) {
    && SoundState(s) && ViewsOf(s, pages) && size > 0 && size % ALIGNMENT == 0 && s.busy + size > PAGE_SIZE
    && (size <= LARGE || |pages| > 1) && AllFree(pages, base, NewCapacity(size))
  }

  ghost function WithPage(s: State, page: Page, size: nat): State
    requires |s.views| > (if size <= LARGE then 0 else 1)
  {
    if size <= LARGE then State(OnTop(s.views, s.root, s.busy, page, size), page, size)
    else State(BelowTop(s.views, s.root, page, size), s.root, s.busy)
  }

  lemma ShapeOutOfBand(s: State, pages: seq<Page>, size: nat, base: nat)
    requires OutOfBand(s, pages, size, base)
    ensures NoRepeats(pages) && |pages| > 0 && s.root == pages[|pages| - 1]
    ensures size > LARGE ==> |pages| > 1 && s.views[|pages| - 1].prev == pages[|pages| - 2]
  {
    ValidShape(s.views, pages, s.root, s.busy);
  }

  /** Both ways of serving a request on a new page. */
  lemma ServedOutOfBand(s: State, pages: seq<Page>, page: Page, size: nat)
    requires OutOfBand(s, pages, size, page.base) && page.capacity == page.extent == NewCapacity(size) &&
      page !in pages
    ensures SoundState(WithPage(s, page, size)) && Served(s, WithPage(s, page, size), page, 0, size)
  {
    FreeSelves(s.views, pages, page);
    if size <= LARGE {
      SoundOnTop(s.views, s.root, s.busy, page, size);
    } else {
      SoundBelowTop(s.views, s.root, s.busy, page, size);
    }
  }

  ghost predicate ViewsOf(s: State, pages: seq<Page>) {
    |s.views| == |pages| && forall i :: 0 <= i < |pages| ==> s.views[i].self == pages[i]
  }

  lemma ValidShape(v: seq<View>, pages: seq<Page>, root: Page, busy: nat)
    requires Sound(v, root, busy) && |v| == |pages| && forall i :: 0 <= i < |v| ==> v[i].self == pages[i]
    ensures NoRepeats(pages) && |pages| > 0 && root == pages[|pages| - 1]
    ensures |pages| > 1 ==> v[|v| - 1].prev == pages[|pages| - 2]
  {
    assert Linked(v, |v| - 1);
    forall i, j | 0 <= i < j < |pages| ensures pages[i] != pages[j] {
      assert v[i].self != v[j].self;
    }
  }

  lemma FreeSelves(v: seq<View>, pages: seq<Page>, page: Page)
    requires AllFree(pages, page.base, page.extent) && |v| == |pages|
    requires forall i :: 0 <= i < |v| ==> v[i].self == pages[i]
    ensures forall i :: 0 <= i < |v| ==> MemoryApart(v[i].self, page)
  {}

  function NewCapacity(size: nat): nat {
    if size <= LARGE then PAGE_SIZE else size
  }
}
