/** Where the allocator puts its blocks, byte by byte, with the sizes of a 64-bit platform as numbers. */
module AllocatorPlaces {
  import opened Pages = Allocator

  lemma PageSizes(size: nat)
    ensures NewCapacity(size) == if size <= 8182 then 32728 else size
    ensures PAGE_SIZE == 32728 && LARGE == 8182
  {}

  /** A string takes its characters and four bytes, rounded up to a multiple of eight. */
  lemma StringSizes(length: nat)
    ensures FullSize(length) % 8 == 0 && length + 4 <= FullSize(length) < length + 12
  {}

  /** Offset and size in units of eight, in sixteen bits each; no size if it is too large for that. */
  lemma HeaderFields(b: Block)
    ensures HeaderOf(b) == Header(b.offset / 8, if b.size / 8 < 65536 then b.size / 8 else 0)
  {}

  /** The byte at address x is one of block b of page p. */
  predicate Holds(p: Page, b: Block, x: nat) {
    p.base + 40 + b.offset <= x < p.base + 40 + b.offset + b.size
  }

  /** No byte is in two live blocks; each is in the memory behind the header of its page; all blocks are aligned. */
  lemma OneBlockAByte(v: seq<View>, root: Page, busy: nat, k: nat, i: nat, l: nat, j: nat, x: nat)
    requires Sound(v, root, busy) && 0 < k < |v| && i < |v[k].ledger.live| && 0 < l < |v| && j < |v[l].ledger.live|
    ensures Holds(v[k].self, v[k].ledger.live[i], x) && Holds(v[l].self, v[l].ledger.live[j], x) ==> k == l && i == j
    ensures Holds(v[k].self, v[k].ledger.live[i], x) ==> x < v[k].self.base + 40 + v[k].self.extent
    ensures v[k].ledger.live[i].offset % 8 == 0 && v[k].ledger.live[i].size % 8 == 0
  {
    LiveBlocks(v, root, busy, k, i, l, j);
    assert PageOk(v[k], root, busy);
    assert v[k].self.extent == v[k].self.capacity;
  }

  /** Headers of pages are outside every block of every page. */
  lemma HeadersApart(v: seq<View>, root: Page, busy: nat, k: nat, i: nat, l: nat, x: nat)
    requires Sound(v, root, busy) && 0 < k < |v| && i < |v[k].ledger.live| && l < |v|
    requires v[l].self.base <= x < v[l].self.base + 40
    ensures !Holds(v[k].self, v[k].ledger.live[i], x)
  {
    assert PageOk(v[k], root, busy);
    assert v[k].self.extent == v[k].self.capacity;
    if k != l { assert MemoryApart(v[if k < l then k else l].self, v[if k < l then l else k].self); }
  }

  ghost function PagesOf(s: State): (p: seq<Page>)
    ensures |p| == |s.views| && forall i :: 0 <= i < |p| ==> p[i] == s.views[i].self
  {
    seq(|s.views|, i requires 0 <= i < |s.views| => s.views[i].self)
  }

  /** Room on the current page is used; else a new page goes on top, or below the top for a large block. */
  lemma ServedPlace(s: State, t: State, page: Page, offset: nat, size: nat)
    requires SoundState(s) && Served(s, t, page, offset, size)
    ensures s.busy + size <= 32728 ==>
      page == s.root == t.root && offset == s.busy && t.busy == s.busy + size && PagesOf(t) == PagesOf(s)
    ensures s.busy + size > 32728 && size <= 8182 ==>
      offset == 0 && t.root == page && t.busy == size && PagesOf(t) == PagesOf(s) + [page]
    ensures s.busy + size > 32728 && size > 8182 ==>
      offset == 0 && t.root == s.root && t.busy == s.busy && |PagesOf(s)| > 1 &&
      PagesOf(t) == PagesOf(s)[..|PagesOf(s)| - 1] + [page, s.root]
  {
    TopIsRoot(s);
    hide SoundState, PagesOf, WithBlock, OnTop, BelowTop;
    ServedCases(s, t, page, offset, size);
    if s.busy + size <= 32728 {
      HerePages(s, t, size);
    } else if size <= 8182 {
      TopPages(s, t, page, size);
    } else {
      BelowPages(s, t, page, size);
    }
  }

  lemma ServedCases(s: State, t: State, page: Page, offset: nat, size: nat)
    requires Served(s, t, page, offset, size)
    ensures |s.views| > 0
    ensures s.busy + size <= 32728 ==> page == s.root == t.root && offset == s.busy && t.busy == s.busy + size
    ensures s.busy + size <= 32728 ==> t.views == WithBlock(s.views, s.busy, size)
    ensures s.busy + size > 32728 && size <= 8182 ==> offset == 0 && t.root == page && t.busy == size
    ensures s.busy + size > 32728 && size <= 8182 ==> t.views == OnTop(s.views, s.root, s.busy, page, size)
    ensures s.busy + size > 32728 && size > 8182 ==> offset == 0 && t.root == s.root && t.busy == s.busy
    ensures s.busy + size > 32728 && size > 8182 ==>
      |s.views| > 1 && t.views == BelowTop(s.views, s.root, page, size)
  {
    hide WithBlock, OnTop, BelowTop;
  }

  lemma HerePages(s: State, t: State, size: nat)
    requires |s.views| > 0 && t.views == WithBlock(s.views, s.busy, size)
    ensures PagesOf(t) == PagesOf(s)
  {}

  lemma TopPages(s: State, t: State, page: Page, size: nat)
    requires |s.views| > 0 && t.views == OnTop(s.views, s.root, s.busy, page, size)
    ensures PagesOf(t) == PagesOf(s) + [page]
  {}

  lemma BelowPages(s: State, t: State, page: Page, size: nat)
    requires |s.views| > 1 && t.views == BelowTop(s.views, s.root, page, size)
    requires s.views[|s.views| - 1].self == s.root
    ensures PagesOf(t) == PagesOf(s)[..|PagesOf(s)| - 1] + [page, s.root]
  {}

  lemma TopIsRoot(s: State)
    requires SoundState(s)
    ensures |s.views| > 0 && s.views[|s.views| - 1].self == s.root
  {}

  /** A page goes with its last block, unless it is the top one, which is blank then; else it stays. */
  lemma ReturnedPlace(s: State, t: State, k: nat, i: nat)
    requires Returned(s, t, k, i)
    ensures t.root == s.root && 0 < k < |s.views| && i < |s.views[k].ledger.live|
    ensures |s.views[k].ledger.live| > 1 ==> PagesOf(t) == PagesOf(s) && t.busy == s.busy
    ensures |s.views[k].ledger.live| > 1 ==>
      t.views[k].ledger.freed == s.views[k].ledger.freed + s.views[k].ledger.live[i].size
    ensures |s.views[k].ledger.live| == 1 && k == |s.views| - 1 ==>
      PagesOf(t) == PagesOf(s) && t.busy == 0 && t.views[k].ledger == Ledger(0, 0, [])
    ensures |s.views[k].ledger.live| == 1 && k < |s.views| - 1 ==>
      PagesOf(t) == PagesOf(s)[..k] + PagesOf(s)[k + 1..] && t.busy == s.busy
  {
    hide PagesOf;
    if |s.views[k].ledger.live| > 1 {
      assert PagesOf(t) == PagesOf(s);
    } else if k == |s.views| - 1 {
      assert PagesOf(t) == PagesOf(s);
    } else {
      assert PagesOf(t) == PagesOf(s)[..k] + PagesOf(s)[k + 1..];
    }
  }
}
