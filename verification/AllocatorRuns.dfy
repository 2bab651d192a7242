/** Runs of the allocator as its callers see them: nodes and strings are taken and given back in any order. */
module AllocatorRuns {
  import opened Basics
  import opened Pages = Allocator

  /** What a caller asks for. A new page, if one is needed, goes to the memory at base. */
  datatype Request = NewNode(size: nat, base: nat) | NewString(length: nat, base: nat) | GiveBack(n: nat)

  /** What a caller holds: the memory of a node, whose page its header names, or a string. */
  datatype Handle = Node(page: Page, offset: nat, size: nat) | Text(address: nat)

  type Spot = (Page, Block)

  /** The size of the block that serves a request. */
  function BlockSize(r: Request): nat
    requires !r.GiveBack?
  {
    if r.NewNode? then r.size else FullSize(r.length)
  }

  ghost predicate Stands(h: Handle, spot: Spot, strings: map<nat, Spot>) {
    match h
    case Node(page, offset, size) => spot == (page, Block(offset, size)) && spot !in strings.Values
    case Text(address) =>
      address >= STRING_HEADER && address - STRING_HEADER in strings && strings[address - STRING_HEADER] == spot
  }

  /** The live blocks outside the sentinel are exactly the blocks of the handles, one each. */
  ghost predicate Held(v: seq<View>, strings: map<nat, Spot>, handles: seq<Handle>, spots: seq<Spot>) {
    && |v| > 0 && |handles| == |spots| && NoRepeats(spots)
    && (forall i :: 0 <= i < |handles| ==> Stands(handles[i], spots[i], strings))
    && (forall i :: 0 <= i < |spots| ==> LiveAt(v, spots[i].0, spots[i].1) && spots[i].0 != v[0].self)
    && (forall k, i :: 0 < k < |v| && 0 <= i < |v[k].ledger.live| ==> (v[k].self, v[k].ledger.live[i]) in spots)
  }

  function Except<T>(s: seq<T>, n: nat): seq<T>
    requires n < |s|
  {
    s[..n] + s[n + 1..]
  }

  // ----- what one operation does to the live blocks

  /** Serving a request makes one more block live. */
  lemma LiveAfterServed(s: State, t: State, page: Page, b: Block, q: Page, c: Block)
    requires SoundState(s) && b.size > 0
    requires Served(s, t, page, b.offset, b.size) && (s.busy + b.size > PAGE_SIZE ==> NewTo(s.views, page))
    ensures LiveAt(t.views, q, c) <==> LiveAt(s.views, q, c) || (q, c) == (page, b)
  {
    ServedLive(s, t, page, b);
    if LiveAt(s.views, q, c) {
      StillLive(s.views, s.root, s.busy, t.views, t.root, t.busy, page, b.offset, b.size, q, c);
    } else if LiveAt(t.views, q, c) {
      NoOtherBlock(s, t, page, b, q, c);
    }
  }

  lemma NoOtherBlock(s: State, t: State, page: Page, b: Block, q: Page, c: Block)
    requires Served(s, t, page, b.offset, b.size) && LiveAt(t.views, q, c) && !LiveAt(s.views, q, c)
    requires |s.views| > 0 && s.views[|s.views| - 1].self == s.root
    ensures (q, c) == (page, b)
  {
    var v, w := s.views, t.views;
    var n := |v| - 1;
    var x, y :| IsBlock(w, x, y, q, c);
    NotThere(v, q, c, x, y);
    NotThere(v, q, c, n, y);
  }

  lemma NotThere(v: seq<View>, q: Page, c: Block, x: nat, y: nat)
    requires !LiveAt(v, q, c)
    ensures !IsBlock(v, x, y, q, c)
  {}

  /** Giving back a block ends that block's life and no other's. */
  lemma LiveAfterReturned(s: State, t: State, k: nat, i: nat, page: Page, b: Block, q: Page, c: Block)
    requires SoundState(s) && Returned(s, t, k, i) && IsBlock(s.views, k, i, page, b)
    ensures LiveAt(t.views, q, c) <==> LiveAt(s.views, q, c) && (q, c) != (page, b)
  {
    if LiveAt(t.views, q, c) {
      var x, y := Ancestor(s, t, k, i, q, c);
      if (q, c) == (page, b) {
        OnePlace(s, k, i, x, y, page, b);
      }
    } else if LiveAt(s.views, q, c) && (q, c) != (page, b) {
      OthersLive(s.views, s.root, s.busy, t.views, t.busy, k, i, q, c);
    }
  }

  /** Where a block that is live afterwards was before. */
  lemma Ancestor(s: State, t: State, k: nat, i: nat, q: Page, c: Block) returns (x: nat, y: nat)
    requires Returned(s, t, k, i) && LiveAt(t.views, q, c)
    ensures IsBlock(s.views, x, y, q, c) && (x != k || y != i)
  {
    var v, w := s.views, t.views;
    var z, u :| IsBlock(w, z, u, q, c);
    if |v[k].ledger.live| > 1 {
      x, y := z, if z == k && u >= i then u + 1 else u;
    } else if k == |v| - 1 {
      x, y := z, u;
    } else {
      ReleasedAt(v, k, z);
      x, y := Before(z, k), u;
    }
  }

  lemma OnePlace(s: State, k: nat, i: nat, x: nat, y: nat, p: Page, b: Block)
    requires SoundState(s) && IsBlock(s.views, k, i, p, b) && IsBlock(s.views, x, y, p, b)
    ensures x == k && y == i
  {
    assert PageOk(s.views[k], s.root, s.busy);
  }

  // ----- what is held after one operation

  ghost predicate AllStand(handles: seq<Handle>, spots: seq<Spot>, strings: map<nat, Spot>) {
    |handles| == |spots| && forall i :: 0 <= i < |handles| ==> Stands(handles[i], spots[i], strings)
  }

  lemma LiveBlock(s: State, k: nat, i: nat)
    requires SoundState(s) && 0 < k < |s.views| && i < |s.views[k].ledger.live|
    ensures LiveAt(s.views, s.views[k].self, s.views[k].ledger.live[i]) && s.views[k].self != s.views[0].self
  {
    assert IsBlock(s.views, k, i, s.views[k].self, s.views[k].ledger.live[i]);
  }

  lemma LiveHeld(v: seq<View>, strings: map<nat, Spot>, handles: seq<Handle>, spots: seq<Spot>, q: Page, c: Block)
    requires Held(v, strings, handles, spots) && LiveAt(v, q, c) && q != v[0].self
    ensures (q, c) in spots
  {
    var k, i :| IsBlock(v, k, i, q, c);
    assert (v[k].self, v[k].ledger.live[i]) in spots;
  }

  lemma HeldMore(s: State, t: State, strings: map<nat, Spot>, strings': map<nat, Spot>, handles: seq<Handle>,
      spots: seq<Spot>, h: Handle, page: Page, b: Block)
    requires SoundState(s) && SoundState(t) && b.size > 0 && Held(s.views, strings, handles, spots)
    requires Served(s, t, page, b.offset, b.size) && (s.busy + b.size > PAGE_SIZE ==> NewTo(s.views, page))
    requires AllStand(handles, spots, strings') && Stands(h, (page, b), strings')
    ensures Held(t.views, strings', handles + [h], spots + [(page, b)])
  {
    hide SoundState, Served, LiveAt, Stands, NewTo;
    ServedLive(s, t, page, b);
    var spots' := spots + [(page, b)];
    forall i | 0 <= i < |spots'| ensures LiveAt(t.views, spots'[i].0, spots'[i].1) {
      LiveAfterServed(s, t, page, b, spots'[i].0, spots'[i].1);
    }
    forall k, i | 0 < k < |t.views| && 0 <= i < |t.views[k].ledger.live|
      ensures (t.views[k].self, t.views[k].ledger.live[i]) in spots'
    {
      var q, c := t.views[k].self, t.views[k].ledger.live[i];
      LiveBlock(t, k, i);
      LiveAfterServed(s, t, page, b, q, c);
      if LiveAt(s.views, q, c) { LiveHeld(s.views, strings, handles, spots, q, c); }
    }
  }

  lemma HeldLess(s: State, t: State, k: nat, i: nat, strings: map<nat, Spot>, strings': map<nat, Spot>,
      handles: seq<Handle>, spots: seq<Spot>, n: nat)
    requires SoundState(s) && SoundState(t) && Held(s.views, strings, handles, spots) && n < |handles|
    requires Returned(s, t, k, i) && IsBlock(s.views, k, i, spots[n].0, spots[n].1)
    requires AllStand(Except(handles, n), Except(spots, n), strings')
    ensures Held(t.views, strings', Except(handles, n), Except(spots, n))
  {
    hide SoundState, Returned, LiveAt, Stands, IsBlock;
    SentinelStays(s, t, k, i);
    var page, b, spots' := spots[n].0, spots[n].1, Except(spots, n);
    forall j | 0 <= j < |spots'| ensures LiveAt(t.views, spots'[j].0, spots'[j].1) {
      LiveAfterReturned(s, t, k, i, page, b, spots'[j].0, spots'[j].1);
    }
    forall x, y | 0 < x < |t.views| && 0 <= y < |t.views[x].ledger.live|
      ensures (t.views[x].self, t.views[x].ledger.live[y]) in spots'
    {
      var q, c := t.views[x].self, t.views[x].ledger.live[y];
      LiveBlock(t, x, y);
      LiveAfterReturned(s, t, k, i, page, b, q, c);
      LiveHeld(s.views, strings, handles, spots, q, c);
      StillThere(spots, n, (q, c));
    }
  }

  lemma StillThere<T>(s: seq<T>, n: nat, x: T)
    requires n < |s| && x in s && x != s[n]
    ensures x in Except(s, n)
  {
    var i :| 0 <= i < |s| && s[i] == x;
    assert Except(s, n)[if i < n then i else i - 1] == x;
  }

  lemma SentinelStays(s: State, t: State, k: nat, i: nat)
    requires SoundState(s) && Returned(s, t, k, i)
    ensures |t.views| > 0 && |s.views| > 0 && t.views[0].self == s.views[0].self
    ensures |s.views| > 1 ==> |t.views| > 1
  {
    SelvesRemain(s.views, s.root, s.busy, t.views, t.busy, k, i);
  }

  /** Any two things held at the same time lie in separate memory. */
  lemma HeldApart(v: seq<View>, root: Page, busy: nat, strings: map<nat, Spot>, handles: seq<Handle>, spots: seq<Spot>,
      i: nat, j: nat)
    requires Sound(v, root, busy) && Held(v, strings, handles, spots) && i < j < |spots|
    ensures Address(spots[i].0, spots[i].1) + spots[i].1.size <= Address(spots[j].0, spots[j].1) ||
      Address(spots[j].0, spots[j].1) + spots[j].1.size <= Address(spots[i].0, spots[i].1)
  {
    hide Sound, LiveAt;
    var k, x := Place(v, spots[i].0, spots[i].1);
    var l, y := Place(v, spots[j].0, spots[j].1);
    LiveBlocks(v, root, busy, k, x, l, y);
  }

  /** When nothing is held, every page but the sentinel and the top one has been released, and the top one is blank. */
  lemma NothingLeft(v: seq<View>, root: Page, busy: nat, strings: map<nat, Spot>)
    requires Sound(v, root, busy) && Held(v, strings, [], [])
    ensures |v| <= 2 && (|v| == 2 ==> busy == 0 && Counted(v[1], root, busy) == Ledger(0, 0, []))
  {
    InTheMiddle(v, root, busy);
    forall x | 0 < x < |v| ensures v[x].ledger.live == [] {
      BlockHeld(v, strings, [], [], x);
    }
    assert forall x :: 0 < x < |v| ==> PageOk(v[x], root, busy);
  }

  lemma InTheMiddle(v: seq<View>, root: Page, busy: nat)
    requires Sound(v, root, busy)
    ensures |v| > 2 ==> v[1].ledger.live != []
  {
    if |v| > 2 {
      assert PageOk(v[1], root, busy) && v[1].self != v[|v| - 1].self;
    }
  }

  lemma BlockHeld(v: seq<View>, strings: map<nat, Spot>, handles: seq<Handle>, spots: seq<Spot>, x: nat)
    requires Held(v, strings, handles, spots) && 0 < x < |v|
    ensures v[x].ledger.live != [] ==> spots != []
  {
    if v[x].ledger.live != [] {
      assert (v[x].self, v[x].ledger.live[0]) in spots;
    }
  }

  // ----- operations and runs

  /** A request as callers make them; GiveBack names one of the things held. */
  ghost predicate Servable(r: Request, pages: seq<Page>) {
    !r.GiveBack? ==>
      && BlockSize(r) > 0 && BlockSize(r) % ALIGNMENT == 0 && (BlockSize(r) <= LARGE || |pages| > 1)
      && AllFree(pages, r.base, NewCapacity(BlockSize(r)))
  }

  /** What is held after a request: one thing more at the end, or without the one that was given back. */
  ghost predicate Outcome(r: Request, handles: seq<Handle>, spots: seq<Spot>, handles': seq<Handle>,
        spots': seq<Spot>) {
    match r
    case GiveBack(n) =>
      if n < |handles| && |handles| == |spots| then handles' == Except(handles, n) && spots' == Except(spots, n)
      else handles' == handles && spots' == spots
    case _ =>
      && handles' != [] && spots' != [] && handles' == handles + [handles'[|handles'| - 1]]
      && spots' == spots + [spots'[|spots'| - 1]] && spots'[|spots'| - 1].1.size == BlockSize(r)
      && (handles'[|handles'| - 1].Node? <==> r.NewNode?)
  }

  /** Pages come only from the memory the request names. */
  ghost predicate From(p: Page, r: Request) {
    !r.GiveBack? && p.base == r.base && p.extent == NewCapacity(BlockSize(r))
  }

  ghost predicate Ready(a: Allocator, handles: seq<Handle>, spots: seq<Spot>)
    reads a, a.pages
  {
    a.Valid() && a.ValidStrings() && Held(a.Now().views, a.strings, handles, spots)
  }

  /** There is a page besides the sentinel once a request has been served. */
  lemma SecondPage(s: State, t: State, page: Page, b: Block)
    requires SoundState(s) && Served(s, t, page, b.offset, b.size) && b.size > 0
    ensures |t.views| > 1
  {
    SentinelAlone(s.views, s.root, s.busy);
  }

  method TakeNode(a: Allocator, handles: seq<Handle>, ghost spots: seq<Spot>, r: Request)
    returns (handles': seq<Handle>, ghost spots': seq<Spot>)
    requires Ready(a, handles, spots) && r.NewNode? && Servable(r, a.pages)
    modifies a, a.pages
    ensures Ready(a, handles', spots') && Outcome(r, handles, spots, handles', spots') && |a.pages| > 1
    ensures forall j :: 0 <= j < |a.pages| ==>
      a.pages[j] in old(a.pages) || (fresh(a.pages[j]) && From(a.pages[j], r))
  {
    hide SoundState, StringsOk, Served, AllFree, Views, ViewOf, NewTo, LiveAt;
    ghost var s := a.Now();
    var page, offset := a.AllocateMemory(r.size, r.base);
    ghost var b := Block(offset, r.size);
    handles', spots' := handles + [Node(page, offset, r.size)], spots + [(page, b)];
    ServedLive(s, a.Now(), page, b);
    SecondPage(s, a.Now(), page, b);
    StringsLive(s.views, a.headers, a.strings, old(a.memory));
    HeldMore(s, a.Now(), a.strings, a.strings, handles, spots, Node(page, offset, r.size), page, b);
  }

  method TakeString(a: Allocator, handles: seq<Handle>, ghost spots: seq<Spot>, r: Request)
    returns (handles': seq<Handle>, ghost spots': seq<Spot>)
    requires Ready(a, handles, spots) && r.NewString? && Servable(r, a.pages)
    modifies a, a.pages
    ensures Ready(a, handles', spots') && Outcome(r, handles, spots, handles', spots') && |a.pages| > 1
    ensures forall j :: 0 <= j < |a.pages| ==>
      a.pages[j] in old(a.pages) || (fresh(a.pages[j]) && From(a.pages[j], r))
  {
    hide SoundState, StringsOk, Served, AllFree, Views, ViewOf, NewTo, LiveAt;
    ghost var s := a.Now();
    var text, page, b := a.AllocateString(r.length, r.base);
    handles', spots' := handles + [Text(text)], spots + [(page, b)];
    ServedLive(s, a.Now(), page, b);
    SecondPage(s, a.Now(), page, b);
    HeldMore(s, a.Now(), old(a.strings), a.strings, handles, spots, Text(text), page, b);
  }

  lemma Place(v: seq<View>, p: Page, b: Block) returns (k: nat, i: nat)
    requires |v| > 0 && LiveAt(v, p, b) && p != v[0].self
    ensures k > 0 && IsBlock(v, k, i, p, b)
  {
    var x, y :| IsBlock(v, x, y, p, b);
    k, i := x, y;
  }

  /** What stands in the other blocks still stands when the block of handle n is gone. */
  lemma OthersStand(handles: seq<Handle>, spots: seq<Spot>, strings: map<nat, Spot>, strings': map<nat, Spot>, n: nat)
    requires AllStand(handles, spots, strings) && n < |handles| && NoRepeats(spots)
    requires forall a :: a in strings && strings[a] != spots[n] ==> a in strings' && strings'[a] == strings[a]
    requires forall a :: a in strings' ==> a in strings && strings'[a] == strings[a]
    ensures AllStand(Except(handles, n), Except(spots, n), strings')
  {
    forall i | 0 <= i < |handles| && i != n ensures Stands(handles[i], spots[i], strings') {
      assert Stands(handles[i], spots[i], strings);
    }
  }

  method Drop(a: Allocator, handles: seq<Handle>, ghost spots: seq<Spot>, n: nat)
    returns (handles': seq<Handle>, ghost spots': seq<Spot>)
    requires Ready(a, handles, spots) && n < |handles|
    modifies a, a.pages
    ensures Ready(a, handles', spots') && handles' == Except(handles, n) && spots' == Except(spots, n)
    ensures forall j :: 0 <= j < |a.pages| ==> a.pages[j] in old(a.pages)
    ensures |old(a.pages)| > 1 ==> |a.pages| > 1
  {
    hide SoundState, StringsOk, Returned, Views, ViewOf, LiveAt, IsBlock;
    ghost var s, strings := a.Now(), a.strings;
    ghost var k, i;
    assert Stands(handles[n], spots[n], strings);
    match handles[n] {
      case Node(page, offset, size) =>
        k, i := Place(s.views, page, Block(offset, size));
        a.DeallocateMemory(size, page, k, i, Block(offset, size));
      case Text(address) =>
        k, i := a.DeallocateString(address);
    }
    handles', spots' := Except(handles, n), Except(spots, n);
    OthersStand(handles, spots, strings, a.strings, n);
    SentinelStays(s, a.Now(), k, i);
    HeldLess(s, a.Now(), k, i, strings, a.strings, handles, spots, n);
  }

  /** One request; one that gives back what is not held does nothing. */
  method Serve(a: Allocator, handles: seq<Handle>, ghost spots: seq<Spot>, r: Request)
    returns (handles': seq<Handle>, ghost spots': seq<Spot>)
    requires Ready(a, handles, spots) && Servable(r, a.pages)
    modifies a, a.pages
    ensures Ready(a, handles', spots') && Outcome(r, handles, spots, handles', spots')
    ensures forall j :: 0 <= j < |a.pages| ==>
      a.pages[j] in old(a.pages) || (fresh(a.pages[j]) && From(a.pages[j], r))
    ensures |old(a.pages)| > 1 || !r.GiveBack? ==> |a.pages| > 1
  {
    hide SoundState, StringsOk, Views, ViewOf, AllFree, LiveAt, From;
    handles', spots' := handles, spots;
    match r {
      case NewNode(_, _) => handles', spots' := TakeNode(a, handles, spots, r);
      case NewString(_, _) => handles', spots' := TakeString(a, handles, spots, r);
      case GiveBack(n) => if n < |handles| { handles', spots' := Drop(a, handles, spots, n); }
    }
  }

  /** The memory for the new pages of two requests does not overlap. */
  ghost predicate BasesApart(r: Request, q: Request) {
    !r.GiveBack? && !q.GiveBack? ==>
      r.base + PAGE_HEADER + NewCapacity(BlockSize(r)) <= q.base ||
      q.base + PAGE_HEADER + NewCapacity(BlockSize(q)) <= r.base
  }

  /** The requests of a run, each with memory of its own; the first request of a document is a small one. */
  ghost predicate Provided(requests: seq<Request>, pages: seq<Page>) {
    && (forall i :: 0 <= i < |requests| && !requests[i].GiveBack? ==>
          && BlockSize(requests[i]) > 0 && BlockSize(requests[i]) % ALIGNMENT == 0
          && AllFree(pages, requests[i].base, NewCapacity(BlockSize(requests[i]))))
    && (forall i, j :: 0 <= i < j < |requests| ==> BasesApart(requests[i], requests[j]))
    && (requests != [] && |pages| <= 1 ==> !requests[0].GiveBack? && BlockSize(requests[0]) <= LARGE)
  }

  /** What is held, by kind and size. */
  function Kinds(handles: seq<Handle>, spots: seq<Spot>): seq<(bool, nat)>
    requires |handles| == |spots|
  {
    seq(|handles|, i requires 0 <= i < |handles| => (handles[i].Node?, spots[i].1.size))
  }

  /** The same after a run. */
  function After(kinds: seq<(bool, nat)>, requests: seq<Request>): seq<(bool, nat)> {
    if requests == [] then kinds
    else
      var before := After(kinds, requests[..|requests| - 1]);
      match requests[|requests| - 1]
      case GiveBack(n) => if n < |before| then Except(before, n) else before
      case r => before + [(r.NewNode?, BlockSize(r))]
  }

  lemma StillProvided(requests: seq<Request>, pages: seq<Page>, pages': seq<Page>)
    requires Provided(requests, pages) && requests != []
    requires forall j :: 0 <= j < |pages'| ==> pages'[j] in pages || From(pages'[j], requests[0])
    requires |pages| > 1 || !requests[0].GiveBack? ==> |pages'| > 1
    ensures Provided(requests[1..], pages')
  {
    forall i | 0 < i < |requests| && !requests[i].GiveBack?
      ensures AllFree(pages', requests[i].base, NewCapacity(BlockSize(requests[i])))
    {
      assert BasesApart(requests[0], requests[i]);
      StillFree(requests[0], requests[i], pages, pages');
    }
  }

  lemma StillFree(r: Request, q: Request, pages: seq<Page>, pages': seq<Page>)
    requires !q.GiveBack? && AllFree(pages, q.base, NewCapacity(BlockSize(q))) && BasesApart(r, q)
    requires forall j :: 0 <= j < |pages'| ==> pages'[j] in pages || From(pages'[j], r)
    ensures AllFree(pages', q.base, NewCapacity(BlockSize(q)))
  {
    forall i | 0 <= i < |pages'| ensures Free(pages'[i], q.base, NewCapacity(BlockSize(q))) {
      assert pages'[i] in pages || From(pages'[i], r);
    }
  }

  lemma NoneYet(kinds: seq<(bool, nat)>, requests: seq<Request>)
    ensures After(kinds, requests[..0]) == kinds && requests[0..] == requests && requests[..|requests|] == requests
  {}

  lemma NextRequest(requests: seq<Request>, i: nat, pages: seq<Page>)
    requires i < |requests| && Provided(requests[i..], pages)
    ensures requests[i..][0] == requests[i] && requests[i..][1..] == requests[i + 1..] && Servable(requests[i], pages)
  {}

  /** What holding nothing says of the pages. */
  lemma Finished(a: Allocator, handles: seq<Handle>, spots: seq<Spot>)
    requires Ready(a, handles, spots)
    ensures |handles| == |spots|
    ensures handles == [] ==> |a.pages| <= 2 && (|a.pages| == 2 ==> a.busySize == 0)
  {
    if handles == [] {
      NothingLeft(a.Now().views, a.root, a.busySize, a.strings);
    }
  }

  lemma OneMore(kinds: seq<(bool, nat)>, requests: seq<Request>, i: nat, handles: seq<Handle>, spots: seq<Spot>,
      handles': seq<Handle>, spots': seq<Spot>)
    requires i < |requests| && |handles| == |spots| && |handles'| == |spots'|
    requires Outcome(requests[i], handles, spots, handles', spots')
    requires Kinds(handles, spots) == After(kinds, requests[..i])
    ensures Kinds(handles', spots') == After(kinds, requests[..i + 1])
  {
    assert requests[..i + 1][..i] == requests[..i];
  }

  /** The run up to the next request. */
  ghost predicate RunTo(a: Allocator, kinds: seq<(bool, nat)>, requests: seq<Request>, i: nat, handles: seq<Handle>,
        spots: seq<Spot>)
    requires i <= |requests|
    reads a, a.pages
  {
    && Ready(a, handles, spots) && Provided(requests[i..], a.pages) && |handles| == |spots|
    && Kinds(handles, spots) == After(kinds, requests[..i])
  }

  method ServeNext(a: Allocator, ghost kinds: seq<(bool, nat)>, requests: seq<Request>, i: nat, handles: seq<Handle>,
      ghost spots: seq<Spot>) returns (handles': seq<Handle>, ghost spots': seq<Spot>)
    requires i < |requests| && RunTo(a, kinds, requests, i, handles, spots)
    modifies a, a.pages
    ensures RunTo(a, kinds, requests, i + 1, handles', spots')
    ensures forall j :: 0 <= j < |a.pages| ==> a.pages[j] in old(a.pages) || fresh(a.pages[j])
  {
    hide Ready, Provided, Outcome, From, Servable, Kinds, After;
    NextRequest(requests, i, a.pages);
    ghost var pages := a.pages;
    handles', spots' := Serve(a, handles, spots, requests[i]);
    StillProvided(requests[i..], pages, a.pages);
    Finished(a, handles', spots');
    OneMore(kinds, requests, i, handles, spots, handles', spots');
  }

  /**
    A run: requests in any order and number. What is held at the end is what the requests say; if nothing is held, all
    pages but the sentinel and one blank page have been released.
  */
  method Run(a: Allocator, handles0: seq<Handle>, ghost spots0: seq<Spot>, requests: seq<Request>)
    returns (handles: seq<Handle>, ghost spots: seq<Spot>)
    requires Ready(a, handles0, spots0) && Provided(requests, a.pages)
    modifies a, a.pages
    ensures Ready(a, handles, spots) && |handles0| == |spots0| && |handles| == |spots|
    ensures Kinds(handles, spots) == After(Kinds(handles0, spots0), requests)
    ensures handles == [] ==> |a.pages| <= 2 && (|a.pages| == 2 ==> a.busySize == 0)
  {
    hide Ready, Provided, Kinds, After;
    Finished(a, handles0, spots0);
    ghost var kinds := Kinds(handles0, spots0);
    NoneYet(kinds, requests);
    handles, spots := handles0, spots0;
    var i := 0;
    while i < |requests|
      invariant 0 <= i <= |requests| && RunTo(a, kinds, requests, i, handles, spots)
      invariant forall j :: 0 <= j < |a.pages| ==> a.pages[j] in old(a.pages) || fresh(a.pages[j])
    {
      hide RunTo;
      handles, spots := ServeNext(a, kinds, requests, i, handles, spots);
      i := i + 1;
    }
    Finished(a, handles, spots);
  }
}
