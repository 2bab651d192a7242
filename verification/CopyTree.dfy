/**
  The non-recursive deep copy of a subtree. The walk moves a source cursor and a destination cursor together; the
  destination may lie inside the source, in which case it is skipped.
*/
module CopyTree {
  import opened Basics
  import opened Document
  import opened Dom
  import opened DomMoves

  /** s without the occurrences of x. */
  ghost function Without(s: seq<XmlNode>, x: XmlNode?): (r: seq<XmlNode>)
    ensures (forall c :: c in r ==> c in s && c != x) && (forall c :: c in s && c != x ==> c in r)
  {
    if s == [] then []
    else
      assert s == s[..|s| - 1] + [s[|s| - 1]];
      Without(s[..|s| - 1], x) + (if s[|s| - 1] == x then [] else [s[|s| - 1]])
  }

  /** The nodes that s stands for. */
  ghost function Names(orig: map<XmlNode, XmlNode>, s: seq<XmlNode>): (r: seq<XmlNode>)
    requires forall c :: c in s ==> c in orig
    ensures |r| == |s| && forall i :: 0 <= i < |s| ==> r[i] == orig[s[i]]
  {
    seq(|s|, i requires 0 <= i < |s| => assert s[i] in s; orig[s[i]])
  }

  ghost predicate Injective(orig: map<XmlNode, XmlNode>) {
    forall c, d :: c in orig && d in orig && orig[c] == orig[d] ==> c == d
  }

  /** Bookkeeping of the walk: what each copy stands for, and how many children of that node are dealt with. */
  datatype Progress = Progress(kids: Kids, orig: map<XmlNode, XmlNode>, done: map<XmlNode, nat>, path: seq<XmlNode>)

  /** The domains fit together, and only the list of dn has changed among the old nodes. */
  ghost predicate Domains(kids0: Kids, dn: XmlNode, sn: XmlNode, g: Progress) {
    && g.orig.Keys == g.done.Keys && dn in g.orig && g.orig[dn] == sn && dn in kids0 && sn in kids0
    && g.kids.Keys == kids0.Keys + g.orig.Keys
    && (forall d :: d in g.orig && d in kids0 ==> d == dn)
    && (forall d :: d in g.orig ==> g.orig[d] in kids0 && g.orig[d] != dn)
    && (forall n :: n in kids0 && n != dn ==> g.kids[n] == kids0[n])
    && Injective(g.orig)
  }

  /** The children copied so far under d are the copies of the first done[d] source children, dn left out. */
  ghost predicate ListCopied(kids0: Kids, g: Progress, dn: XmlNode, d: XmlNode) {
    && d in g.orig && d in g.done && d in g.kids && g.orig[d] in kids0
    && g.done[d] <= |kids0[g.orig[d]]|
    && (forall c :: c in g.kids[d] ==> c in g.orig && c != dn)
    && Names(g.orig, g.kids[d]) == Without(kids0[g.orig[d]][..g.done[d]], dn)
  }

  ghost predicate Lists(kids0: Kids, dn: XmlNode, g: Progress) {
    forall d :: d in g.orig ==> ListCopied(kids0, g, dn, d)
  }

  /** Every copy but the root hangs under a copy. */
  ghost predicate Owned(dn: XmlNode, g: Progress) {
    forall d :: d in g.orig && d != dn ==> HasOwner(g, d)
  }

  ghost predicate HasOwner(g: Progress, d: XmlNode) {
    exists e :: e in g.orig && e in g.kids && d in g.kids[e]
  }

  /** The path runs from dn to the destination cursor along last-copied children. */
  ghost predicate OnPath(kids0: Kids, g: Progress, k: int)
    requires 0 <= k < |g.path|
  {
    && g.path[k] in g.orig && g.path[k] in g.done && g.path[k] in g.kids && g.orig[g.path[k]] in kids0
    && (k + 1 < |g.path| ==>
         && g.path[k + 1] in g.orig && g.path[k + 1] in g.kids[g.path[k]]
         && 0 < g.done[g.path[k]] <= |kids0[g.orig[g.path[k]]]|
         && g.orig[g.path[k + 1]] == kids0[g.orig[g.path[k]]][g.done[g.path[k]] - 1])
  }

  ghost predicate Path(kids0: Kids, dn: XmlNode, g: Progress) {
    && |g.path| > 0 && g.path[0] == dn && NoRepeats(g.path)
    && (forall k :: 0 <= k < |g.path| ==> OnPath(kids0, g, k))
  }

  /** A copy that the path has left is complete. */
  ghost predicate OffPathFull(kids0: Kids, g: Progress) {
    forall d :: d in g.orig && d !in g.path ==> d in g.done && g.orig[d] in kids0 && g.done[d] == |kids0[g.orig[d]]|
  }

  ghost predicate Walk(kids0: Kids, dn: XmlNode, sn: XmlNode, g: Progress) {
    Domains(kids0, dn, sn, g) && Lists(kids0, dn, g) && Owned(dn, g) && Path(kids0, dn, g) && OffPathFull(kids0, g)
  }

  ghost function Dit(g: Progress): XmlNode
    requires |g.path| > 0
  {
    g.path[|g.path| - 1]
  }

  /** sit is child number i of the source node that the destination cursor stands for. */
  ghost predicate Child(kids0: Kids, g: Progress, sit: XmlNode?, i: int) {
    && |g.path| > 0 && Dit(g) in g.orig && Dit(g) in g.done && g.orig[Dit(g)] in kids0
    && 0 <= i < |kids0[g.orig[Dit(g)]]| && sit == kids0[g.orig[Dit(g)]][i]
  }

  /** The source child that comes next under the destination cursor. */
  ghost predicate Pending(kids0: Kids, g: Progress, sit: XmlNode?) {
    |g.path| > 0 && Dit(g) in g.done && Child(kids0, g, sit, g.done[Dit(g)])
  }

  /** The source child dealt with last under the destination cursor. */
  ghost predicate JustDone(kids0: Kids, g: Progress, sit: XmlNode?) {
    |g.path| > 0 && Dit(g) in g.done && (var i: int := g.done[Dit(g)]; Child(kids0, g, sit, i - 1))
  }

  ghost function Started(kids0: Kids, dn: XmlNode, sn: XmlNode): Progress {
    Progress(kids0, map[dn := sn], map[dn := 0], [dn])
  }

  lemma StartWalk(kids0: Kids, dn: XmlNode, sn: XmlNode)
    requires dn in kids0 && sn in kids0 && dn != sn && kids0[dn] == []
    ensures Walk(kids0, dn, sn, Started(kids0, dn, sn))
  {
    var g := Started(kids0, dn, sn);
    assert ListCopied(kids0, g, dn, dn) by {
      assert kids0[sn][..0] == [];
    }
    assert OnPath(kids0, g, 0);
  }

  // ----- one new copy

  ghost function Copied(g: Progress, c: XmlNode, sit: XmlNode): Progress
    requires |g.path| > 0 && Dit(g) in g.kids && Dit(g) in g.done
  {
    Progress(g.kids[c := []][Dit(g) := g.kids[Dit(g)] + [c]], g.orig[c := sit],
             g.done[c := 0][Dit(g) := g.done[Dit(g)] + 1], g.path + [c])
  }

  /** Each source node is met at most once, so no copy stands for sit yet. */
  lemma NotYetCopied(m0: Shape, kids0: Kids, dn: XmlNode, sn: XmlNode, g: Progress, sit: XmlNode, d: XmlNode)
    requires Describes(m0, kids0) && Walk(kids0, dn, sn, g) && Pending(kids0, g, sit)
    requires d in g.orig && d != dn
    ensures g.orig[d] != sit
  {
    hide Describes;
    assert HasOwner(g, d);
    var e :| e in g.orig && e in g.kids && d in g.kids[e];
    assert ListCopied(kids0, g, dn, e);
    OnlyOnce(m0, kids0, dn, sn, g, sit, e, d);
  }

  lemma OnlyOnce(m0: Shape, kids0: Kids, dn: XmlNode, sn: XmlNode, g: Progress, sit: XmlNode, e: XmlNode, d: XmlNode)
    requires Describes(m0, kids0) && Domains(kids0, dn, sn, g) && Pending(kids0, g, sit)
    requires e in g.orig && ListCopied(kids0, g, dn, e) && d in g.kids[e]
    ensures d in g.orig && g.orig[d] != sit
  {
    hide Describes;
    var i :| 0 <= i < |g.kids[e]| && g.kids[e][i] == d;
    assert Names(g.orig, g.kids[e])[i] == g.orig[d];
    assert g.orig[d] in Without(kids0[g.orig[e]][..g.done[e]], dn);
    NotAmongDone(m0, kids0, dn, sn, g, sit, e);
  }

  /** A pending source child is not among the children dealt with under any copy. */
  lemma NotAmongDone(m0: Shape, kids0: Kids, dn: XmlNode, sn: XmlNode, g: Progress, sit: XmlNode, e: XmlNode)
    requires Describes(m0, kids0) && Domains(kids0, dn, sn, g) && Pending(kids0, g, sit)
    requires e in g.orig && e in g.done && g.done[e] <= |kids0[g.orig[e]]|
    ensures sit !in kids0[g.orig[e]][..g.done[e]]
  {
    hide Describes, IsList;
    KidsKeys(m0, kids0);
    var a, b := g.orig[e], g.orig[Dit(g)];
    ListParents(m0, kids0, a);
    ListParents(m0, kids0, b);
    ListMembers(m0, a, kids0[a]);
    ListMembers(m0, b, kids0[b]);
    ListNoRepeats(m0, b, kids0[b]);
    assert sit in kids0[b];
    assert sit in kids0[a] ==> a == b;
    assert a == b ==> e == Dit(g);
  }

  lemma StepCopy(m0: Shape, kids0: Kids, dn: XmlNode, sn: XmlNode, g: Progress, sit: XmlNode, c: XmlNode)
    requires Describes(m0, kids0) && Walk(kids0, dn, sn, g) && Pending(kids0, g, sit) && sit != dn && sit != sn &&
      sit in kids0
    requires c !in g.kids && Dit(g) in g.kids
    ensures Walk(kids0, dn, sn, Copied(g, c, sit))
  {
    NeverCopied(m0, kids0, dn, sn, g, sit);
    hide Describes, Domains, Lists, Owned, Path, OffPathFull, Pending, Copied;
    CopyDomains(kids0, dn, sn, g, sit, c);
    CopyLists(kids0, dn, sn, g, sit, c);
    CopyOwned(kids0, dn, sn, g, sit, c);
    CopyPath(kids0, dn, sn, g, sit, c);
  }

  lemma NeverCopied(m0: Shape, kids0: Kids, dn: XmlNode, sn: XmlNode, g: Progress, sit: XmlNode)
    requires Describes(m0, kids0) && Walk(kids0, dn, sn, g) && Pending(kids0, g, sit) && sit != sn
    ensures forall d :: d in g.orig ==> g.orig[d] != sit
  {
    RootIsSource(kids0, dn, sn, g);
    hide Walk, Pending, Describes;
    forall d | d in g.orig ensures g.orig[d] != sit {
      if d != dn { NotYetCopied(m0, kids0, dn, sn, g, sit, d); }
    }
  }

  lemma RootIsSource(kids0: Kids, dn: XmlNode, sn: XmlNode, g: Progress)
    requires Walk(kids0, dn, sn, g)
    ensures dn in g.orig && g.orig[dn] == sn
  {}

  lemma CopyDomains(kids0: Kids, dn: XmlNode, sn: XmlNode, g: Progress, sit: XmlNode, c: XmlNode)
    requires Domains(kids0, dn, sn, g) && Pending(kids0, g, sit) && sit != dn && sit in kids0
    requires c !in g.kids && Dit(g) in g.kids && forall d :: d in g.orig ==> g.orig[d] != sit
    ensures Domains(kids0, dn, sn, Copied(g, c, sit))
  {}

  lemma CopyLists(kids0: Kids, dn: XmlNode, sn: XmlNode, g: Progress, sit: XmlNode, c: XmlNode)
    requires Domains(kids0, dn, sn, g) && Lists(kids0, dn, g) && Pending(kids0, g, sit)
    requires c !in g.kids && Dit(g) in g.kids && sit != dn && sit in kids0
    ensures Lists(kids0, dn, Copied(g, c, sit))
  {
    var g' := Copied(g, c, sit);
    forall d | d in g'.orig ensures ListCopied(kids0, g', dn, d) {
      if d == c {
        assert kids0[sit][..0] == [];
      } else {
        assert ListCopied(kids0, g, dn, d) && c !in g.orig;
        hide Domains, Lists;
        CopyList(kids0, dn, g, sit, c, d);
      }
    }
  }

  lemma CopyList(kids0: Kids, dn: XmlNode, g: Progress, sit: XmlNode, c: XmlNode, d: XmlNode)
    requires ListCopied(kids0, g, dn, d) && Pending(kids0, g, sit) && c !in g.kids && c !in g.orig &&
      Dit(g) in g.kids && sit != dn
    requires c != dn
    ensures ListCopied(kids0, Copied(g, c, sit), dn, d)
  {
    var g' := Copied(g, c, sit);
    assert forall x :: x in g.kids[d] ==> x != c;
    assert Names(g'.orig, g.kids[d]) == Names(g.orig, g.kids[d]);
    if d == Dit(g) {
      var s, i := kids0[g.orig[d]], g.done[d];
      assert s[..i + 1][..i] == s[..i];
      assert Names(g'.orig, g.kids[d] + [c]) == Names(g.orig, g.kids[d]) + [sit];
    }
  }

  lemma CopyOwned(kids0: Kids, dn: XmlNode, sn: XmlNode, g: Progress, sit: XmlNode, c: XmlNode)
    requires Domains(kids0, dn, sn, g) && Owned(dn, g) && Pending(kids0, g, sit) && c !in g.kids && Dit(g) in g.kids
    ensures Owned(dn, Copied(g, c, sit))
  {
    var g' := Copied(g, c, sit);
    forall d | d in g'.orig && d != dn ensures HasOwner(g', d) {
      if d == c {
        assert Dit(g) in g'.orig && c in g'.kids[Dit(g)];
      } else {
        assert HasOwner(g, d);
        var e :| e in g.orig && e in g.kids && d in g.kids[e];
        assert e in g'.orig && d in g'.kids[e];
      }
    }
  }

  lemma CopyPath(kids0: Kids, dn: XmlNode, sn: XmlNode, g: Progress, sit: XmlNode, c: XmlNode)
    requires Domains(kids0, dn, sn, g) && Path(kids0, dn, g) && OffPathFull(kids0, g) && Pending(kids0, g, sit)
    requires c !in g.kids && Dit(g) in g.kids && sit in kids0
    ensures Path(kids0, dn, Copied(g, c, sit)) && OffPathFull(kids0, Copied(g, c, sit))
  {
    hide OnPath, OffPathFull, Domains;
    var g' := Copied(g, c, sit);
    assert g'.path == g.path + [c];
    forall k | 0 <= k < |g'.path| ensures OnPath(kids0, g', k) {
      CopyOnPath(kids0, dn, sn, g, sit, c, k);
    }
    CopyOffPath(kids0, dn, sn, g, sit, c);
  }

  lemma CopyOnPath(kids0: Kids, dn: XmlNode, sn: XmlNode, g: Progress, sit: XmlNode, c: XmlNode, k: int)
    requires Domains(kids0, dn, sn, g) && Path(kids0, dn, g) && Pending(kids0, g, sit)
    requires c !in g.kids && Dit(g) in g.kids && sit in kids0 && 0 <= k <= |g.path|
    ensures OnPath(kids0, Copied(g, c, sit), k)
  {
    hide OffPathFull;
    var g' := Copied(g, c, sit);
    assert g'.path == g.path + [c];
    if k < |g.path| {
      assert OnPath(kids0, g, k) && g'.path[k] == g.path[k];
      assert k < |g.path| - 1 ==> OnPath(kids0, g, k + 1) && g'.path[k + 1] == g.path[k + 1];
      assert OnPath(kids0, g, |g.path| - 1);
    }
  }

  /** No node of the old path is new, and all of it is still there. */
  lemma CopyOffPath(kids0: Kids, dn: XmlNode, sn: XmlNode, g: Progress, sit: XmlNode, c: XmlNode)
    requires Domains(kids0, dn, sn, g) && Path(kids0, dn, g) && OffPathFull(kids0, g) && Pending(kids0, g, sit)
    requires c !in g.kids && Dit(g) in g.kids && sit in kids0
    ensures OffPathFull(kids0, Copied(g, c, sit)) && NoRepeats(Copied(g, c, sit).path)
  {
    var g' := Copied(g, c, sit);
    assert g'.path == g.path + [c];
    forall k | 0 <= k < |g.path| ensures g.path[k] != c {
      assert OnPath(kids0, g, k);
    }
    forall d ensures d in g'.path <==> d in g.path || d == c {
      assert d in g.path + [c] <==> d in g.path || d in [c];
    }
  }

  // ----- leaving dn out, and climbing

  ghost function Skipped(g: Progress): Progress
    requires |g.path| > 0 && Dit(g) in g.done
  {
    g.(done := g.done[Dit(g) := g.done[Dit(g)] + 1])
  }

  lemma StepSkip(kids0: Kids, dn: XmlNode, sn: XmlNode, g: Progress)
    requires Walk(kids0, dn, sn, g) && Pending(kids0, g, dn)
    ensures Walk(kids0, dn, sn, Skipped(g)) && JustDone(kids0, Skipped(g), dn)
  {
    hide Lists, Owned, Path, OffPathFull;
    SkipLists(kids0, dn, sn, g);
    SameOwners(dn, g, Skipped(g));
    SkipPath(kids0, dn, sn, g);
  }

  lemma SkipLists(kids0: Kids, dn: XmlNode, sn: XmlNode, g: Progress)
    requires Domains(kids0, dn, sn, g) && Lists(kids0, dn, g) && Pending(kids0, g, dn)
    ensures Lists(kids0, dn, Skipped(g))
  {
    var g' := Skipped(g);
    hide Domains;
    forall d | d in g'.orig ensures ListCopied(kids0, g', dn, d) {
      assert ListCopied(kids0, g, dn, d);
      hide Lists, ListCopied;
      SkipList(kids0, dn, g, d);
    }
  }

  lemma SkipList(kids0: Kids, dn: XmlNode, g: Progress, d: XmlNode)
    requires ListCopied(kids0, g, dn, d) && Pending(kids0, g, dn)
    ensures ListCopied(kids0, Skipped(g), dn, d)
  {
    if d == Dit(g) {
      var s, i := kids0[g.orig[d]], g.done[d];
      assert s[..i + 1][..i] == s[..i];
    }
  }

  lemma SkipPath(kids0: Kids, dn: XmlNode, sn: XmlNode, g: Progress)
    requires Path(kids0, dn, g) && OffPathFull(kids0, g) && Pending(kids0, g, dn)
    ensures Path(kids0, dn, Skipped(g)) && OffPathFull(kids0, Skipped(g))
  {
    forall k | 0 <= k < |g.path| ensures OnPath(kids0, Skipped(g), k) {
      assert OnPath(kids0, g, k);
    }
  }

  lemma SameOwners(dn: XmlNode, g: Progress, g': Progress)
    requires Owned(dn, g) && g'.orig == g.orig && g'.kids == g.kids
    ensures Owned(dn, g')
  {
    forall d | d in g'.orig && d != dn ensures HasOwner(g', d) {
      assert HasOwner(g, d);
    }
  }

  ghost function Popped(g: Progress): Progress
    requires |g.path| > 0
  {
    g.(path := g.path[..|g.path| - 1])
  }

  lemma StepPop(kids0: Kids, dn: XmlNode, sn: XmlNode, g: Progress)
    requires Walk(kids0, dn, sn, g) && |g.path| > 1
    requires Dit(g) in g.orig && g.orig[Dit(g)] in kids0 && Dit(g) in g.done
    requires g.done[Dit(g)] == |kids0[g.orig[Dit(g)]]|
    ensures Walk(kids0, dn, sn, Popped(g)) && JustDone(kids0, Popped(g), g.orig[Dit(g)])
    ensures Dit(Popped(g)) in g.kids && Dit(g) in g.kids[Dit(Popped(g))] && g.orig[Dit(g)] != sn
  {
    hide Owned, Lists, OffPathFull;
    SameOwners(dn, g, Popped(g));
    SameLists(kids0, dn, g, Popped(g));
    PopPath(kids0, dn, g);
    assert Domains(kids0, dn, sn, Popped(g));
    assert OnPath(kids0, g, |g.path| - 2);
  }

  lemma SameLists(kids0: Kids, dn: XmlNode, g: Progress, g': Progress)
    requires Lists(kids0, dn, g) && g'.orig == g.orig && g'.kids == g.kids && g'.done == g.done
    ensures Lists(kids0, dn, g')
  {
    forall d | d in g'.orig ensures ListCopied(kids0, g', dn, d) {
      assert ListCopied(kids0, g, dn, d);
    }
  }

  lemma PopPath(kids0: Kids, dn: XmlNode, g: Progress)
    requires Path(kids0, dn, g) && OffPathFull(kids0, g) && |g.path| > 1
    requires Dit(g) in g.orig && g.orig[Dit(g)] in kids0 && Dit(g) in g.done
    requires g.done[Dit(g)] == |kids0[g.orig[Dit(g)]]|
    ensures Path(kids0, dn, Popped(g)) && OffPathFull(kids0, Popped(g))
  {
    forall k | 0 <= k < |g.path| - 1 ensures OnPath(kids0, Popped(g), k) {
      assert OnPath(kids0, g, k);
    }
    assert g.path == Popped(g).path + [Dit(g)];
  }

  /** A walk that is back at its root has dealt with every child of every copied node. */
  ghost predicate Complete(kids0: Kids, dn: XmlNode, g: Progress) {
    forall d :: d in g.orig ==> ListComplete(kids0, dn, g, d)
  }

  ghost predicate ListComplete(kids0: Kids, dn: XmlNode, g: Progress, d: XmlNode)
    requires d in g.orig
  {
    && d in g.kids && g.orig[d] in kids0
    && (forall c :: c in g.kids[d] ==> c in g.orig && c != dn)
    && Names(g.orig, g.kids[d]) == Without(kids0[g.orig[d]], dn)
  }

  lemma WalkDone(kids0: Kids, dn: XmlNode, sn: XmlNode, g: Progress)
    requires Walk(kids0, dn, sn, g) && |g.path| == 1
    requires dn in g.done && sn in kids0 && g.done[dn] == |kids0[sn]|
    ensures Complete(kids0, dn, g)
  {
    hide Owned, Lists;
    forall d | d in g.orig
      ensures d in g.done && g.orig[d] in kids0 && g.done[d] == |kids0[g.orig[d]]|
    {
      assert d in g.path <==> d == dn;
    }
    hide Domains, Path, OffPathFull;
    FullComplete(kids0, dn, g);
  }

  lemma FullComplete(kids0: Kids, dn: XmlNode, g: Progress)
    requires Lists(kids0, dn, g)
    requires forall d :: d in g.orig ==> d in g.done && g.orig[d] in kids0 && g.done[d] == |kids0[g.orig[d]]|
    ensures Complete(kids0, dn, g)
  {
    forall d | d in g.orig ensures ListComplete(kids0, dn, g, d) {
      assert ListCopied(kids0, g, dn, d);
      assert kids0[g.orig[d]][..g.done[d]] == kids0[g.orig[d]];
    }
  }

  // ----- ranks of the source nodes stay below the source root

  ghost predicate Under(rank: map<XmlNode, nat>, dn: XmlNode, sn: XmlNode, g: Progress) {
    sn in rank && forall d :: d in g.orig && d != dn ==> g.orig[d] in rank && rank[g.orig[d]] < rank[sn]
  }

  lemma PendingUnder(kids0: Kids, rank: map<XmlNode, nat>, dn: XmlNode, sn: XmlNode, g: Progress, sit: XmlNode?)
    requires Ranked(kids0, rank) && Under(rank, dn, sn, g) && Pending(kids0, g, sit) && dn in g.orig && g.orig[dn] == sn
    ensures sit != null && sit in kids0 && rank[sit] < rank[sn] && sit != sn
  {
    assert sit in kids0[g.orig[Dit(g)]];
  }

  /** dn has been met as a source child. */
  ghost predicate MetDn(kids0: Kids, dn: XmlNode, g: Progress) {
    exists e :: e in g.orig && e in g.done && g.orig[e] in kids0 && g.done[e] <= |kids0[g.orig[e]]|
                && dn in kids0[g.orig[e]][..g.done[e]]
  }

  lemma MeetsDn(kids0: Kids, dn: XmlNode, g: Progress)
    requires Pending(kids0, g, dn)
    ensures MetDn(kids0, dn, Skipped(g))
  {
    var g', e := Skipped(g), Dit(g);
    assert kids0[g.orig[e]][..g'.done[e]][g.done[e]] == dn;
  }

  lemma StillMet(kids0: Kids, dn: XmlNode, sn: XmlNode, g: Progress, sit: XmlNode, c: XmlNode)
    requires Domains(kids0, dn, sn, g) && MetDn(kids0, dn, g) && Pending(kids0, g, sit) && c !in g.kids &&
      Dit(g) in g.kids
    ensures MetDn(kids0, dn, Copied(g, c, sit))
  {
    var e :| e in g.orig && e in g.done && g.orig[e] in kids0 && g.done[e] <= |kids0[g.orig[e]]|
             && dn in kids0[g.orig[e]][..g.done[e]];
    var g' := Copied(g, c, sit);
    var k :| 0 <= k < g.done[e] && kids0[g.orig[e]][k] == dn;
    assert kids0[g.orig[e]][..g'.done[e]][k] == dn;
  }

  lemma MetOnce(m0: Shape, kids0: Kids, dn: XmlNode, sn: XmlNode, g: Progress)
    requires Describes(m0, kids0) && Walk(kids0, dn, sn, g) && Pending(kids0, g, dn)
    ensures !MetDn(kids0, dn, g)
  {
    hide Describes;
    forall e | e in g.orig && e in g.done && g.orig[e] in kids0 && g.done[e] <= |kids0[g.orig[e]]|
      ensures dn !in kids0[g.orig[e]][..g.done[e]]
    {
      NotAmongDone(m0, kids0, dn, sn, g, dn, e);
    }
  }

  // ----- contents

  /** Each copy holds what its original held, and apart from dn no old node has changed. */
  ghost predicate Contents(orig: map<XmlNode, XmlNode>, info: map<XmlNode, Data>, info0: map<XmlNode, Data>,
        dn: XmlNode) {
    && (forall d :: d in orig ==>
      orig[d] in info0 && d in info && info[d] == info0[orig[d]] && (d != dn ==> d.kind == orig[d].kind))
    && (forall n :: n in info0 && n != dn ==> n in info && info[n] == info0[n])
  }

  lemma ContentsGrow(orig: map<XmlNode, XmlNode>, info: map<XmlNode, Data>, info0: map<XmlNode, Data>, dn: XmlNode,
        c: XmlNode, sit: XmlNode)
    requires Contents(orig, info, info0, dn) && c !in info && sit in info0 && c.kind == sit.kind && sit != dn
    ensures sit in info && Contents(orig[c := sit], info[c := info[sit]], info0, dn)
  {}

  ghost function DataOf(U: set<XmlNode>): (r: map<XmlNode, Data>)
    reads U
    ensures r.Keys == U && forall n :: n in U ==> r[n] == n.data
  {
    map n | n in U :: n.data
  }

  /** `node_copy_contents` on a new node: name and value, then the attributes one by one. */
  method NodeCopyContents(dn: XmlNode, sn: XmlNode)
    requires dn != sn && dn.data == Data([], [], [])
    modifies dn`data
    ensures dn.data == sn.data
  {
    dn.data := dn.data.(name := sn.data.name, value := sn.data.value);
    var i := 0;
    while i < |sn.data.attrs|
      invariant 0 <= i <= |sn.data.attrs| && dn.data == sn.data.(attrs := sn.data.attrs[..i])
    {
      dn.data := dn.data.(attrs := dn.data.attrs + [sn.data.attrs[i]]);
      i := i + 1;
    }
  }

  /** A new node on its own extends the forest by one empty list. */
  lemma NewNode(U: set<XmlNode>, kids: Kids, c: XmlNode)
    requires Linked(U, kids) && c !in U && LinksOf(c) == Links(null, null, null, null)
    ensures Linked(U + {c}, kids[c := []])
  {
    var m, m', kids' := ShapeOf(U), ShapeOf(U + {c}), kids[c := []];
    KidsKeys(m, kids);
    assert forall n :: n in U ==> m'[n] == m[n];
    forall n | n in kids' ensures IsList(m', n, kids'[n]) {
      if n != c {
        ListParents(m, kids, n);
        WiderList(m, m', n, kids[n]);
      }
    }
    forall n | n in m'
      ensures m'[n].parent != null ==> m'[n].parent in m' && n in kids'[m'[n].parent]
      ensures m'[n].parent == null ==> m'[n].next == null
    {
      if n != c { RootFacts(m, kids, n); }
    }
    hide Describes, IsList, Linked;
    DescribesIntro(m', kids');
    ShapeLinked(U + {c}, kids');
  }

  lemma WiderList(m: Shape, m': Shape, n: XmlNode, s: seq<XmlNode>)
    requires IsList(m, n, s) && forall x :: x in m ==> x in m' && m'[x] == m[x]
    ensures IsList(m', n, s)
  {
    forall i | 0 <= i < |s| ensures Sibling(m', n, s, i) {
      assert Sibling(m, n, s, i);
    }
  }

  method AppendNewNode(node: XmlNode, kind: Kind, ghost U: set<XmlNode>, ghost kids: Kids) returns (c: XmlNode)
    requires Linked(U, kids) && node in U
    modifies U`parent, U`firstChild, U`prevSiblingC, U`nextSibling
    ensures fresh(c) && c !in U && c.kind == kind && c.data == Data([], [], []) && node in kids && c !in kids
    ensures Linked(U + {c}, kids[c := []][node := kids[node] + [c]])
  {
    KidsKeys(ShapeOf(U), kids);
    hide Linked;
    c := new XmlNode(kind, node.document);
    NewNode(U, kids, c);
    AppendNode(c, node, U + {c}, kids[c := []]);
  }

  /** A new last child of node with the contents of source. */
  method AppendCopy(node: XmlNode, source: XmlNode, ghost U: set<XmlNode>, ghost kids: Kids) returns (c: XmlNode)
    requires Linked(U, kids) && node in U && source in U
    modifies U`parent, U`firstChild, U`prevSiblingC, U`nextSibling
    ensures fresh(c) && c !in U && c.kind == source.kind && node in kids && c !in kids
    ensures DataOf(U + {c}) == old(DataOf(U))[c := old(source.data)]
    ensures Linked(U + {c}, kids[c := []][node := kids[node] + [c]])
  {
    hide Linked, DataOf;
    c := AppendNewNode(node, source.kind, U, kids);
    DataOfNew(U, c);
    FillCopy(c, source, U + {c}, kids[c := []][node := kids[node] + [c]]);
  }

  twostate lemma DataOfNew(U: set<XmlNode>, new c: XmlNode)
    requires forall n :: n in U ==> n.data == old(n.data)
    ensures DataOf(U + {c}) == old(DataOf(U))[c := c.data]
  {}

  /** Filling in the contents changes no link. */
  method FillCopy(c: XmlNode, source: XmlNode, ghost U: set<XmlNode>, ghost kids: Kids)
    requires Linked(U, kids) && c in U && source in U && c != source && c.data == Data([], [], [])
    modifies c`data
    ensures Linked(U, kids) && DataOf(U) == old(DataOf(U))[c := old(source.data)]
  {
    hide Describes;
    ghost var m := ShapeOf(U);
    LinkedShape(U, kids);
    NodeCopyContents(c, source);
    assert ShapeOf(U) == m;
    ShapeLinked(U, kids);
  }

  lemma LinkedShape(U: set<XmlNode>, kids: Kids)
    requires Linked(U, kids)
    ensures Describes(ShapeOf(U), kids)
  {}

  // ----- the cursors

  /** Where the source cursor can go from a child that has been dealt with. */
  lemma SourceNext(U: set<XmlNode>, kids0: Kids, dn: XmlNode, sn: XmlNode, g: Progress, sit: XmlNode)
    requires Linked(U, g.kids) && Domains(kids0, dn, sn, g) && JustDone(kids0, g, sit)
    ensures sit in U && sit.parent == g.orig[Dit(g)]
    ensures (sit.nextSibling == if g.done[Dit(g)] < |kids0[g.orig[Dit(g)]]| then kids0[g.orig[Dit(g)]][g.done[Dit(g)]]
      else null)
  {
    var p, i := g.orig[Dit(g)], g.done[Dit(g)];
    assert g.kids[p] == kids0[p];
    KidsKeys(ShapeOf(U), g.kids);
    ListOf(U, g.kids, p);
    assert Sibling(ShapeOf(U), p, kids0[p], i - 1);
  }

  ghost predicate AtEnd(kids0: Kids, dn: XmlNode, sn: XmlNode, g: Progress) {
    |g.path| == 1 && dn in g.done && sn in kids0 && g.done[dn] == |kids0[sn]|
  }

  /** From a source child that has been dealt with to the next one, climbing out of exhausted lists. */
  method NextSource(dit0: XmlNode, sit0: XmlNode, dn: XmlNode, sn: XmlNode, ghost U: set<XmlNode>, ghost kids0: Kids,
      ghost g0: Progress) returns (dit: XmlNode?, sit: XmlNode, ghost g: Progress)
    requires Linked(U, g0.kids) && Walk(kids0, dn, sn, g0) && JustDone(kids0, g0, sit0) && dit0 == Dit(g0) && sit0 != sn
    ensures Walk(kids0, dn, sn, g) && g.kids == g0.kids && g.orig == g0.orig && g.done == g0.done
    ensures (sit == sn && AtEnd(kids0, dn, sn, g)) || (Pending(kids0, g, sit) && dit == Dit(g))
  {
    hide Linked, Lists, Owned, OffPathFull;
    dit, sit, g := dit0, sit0, g0;
    while true
      invariant Walk(kids0, dn, sn, g) && JustDone(kids0, g, sit) && dit == Dit(g) && sit != sn
      invariant g.kids == g0.kids && g.orig == g0.orig && g.done == g0.done
      decreases |g.path|
    {
      SourceNext(U, kids0, dn, sn, g, sit);
      if sit.nextSibling != null {
        sit := sit.nextSibling;
        break;
      }
      ghost var out := dit;
      sit := sit.parent;
      if |g.path| > 1 {
        StepPop(kids0, dn, sn, g);
        g := Popped(g);
        ParentOf(U, g.kids, out, Dit(g));
      }
      dit := dit.parent;
      if sit == sn { break; }
    }
  }

  lemma ParentOf(U: set<XmlNode>, kids: Kids, c: XmlNode, p: XmlNode)
    requires Linked(U, kids) && p in kids && c in kids[p]
    ensures c in U && c.parent == p
  {
    KidsKeys(ShapeOf(U), kids);
    ListOf(U, kids, p);
  }

  /** What one step of the walk keeps. */
  ghost predicate Kept(U: set<XmlNode>, kids0: Kids, rank: map<XmlNode, nat>, dn: XmlNode, sn: XmlNode, g: Progress) {
    Walk(kids0, dn, sn, g) && Under(rank, dn, sn, g) && g.kids.Keys == U && g.orig.Values <= kids0.Keys
  }

  lemma KeptByCopy(U: set<XmlNode>, m0: Shape, kids0: Kids, rank: map<XmlNode, nat>, dn: XmlNode, sn: XmlNode,
        g: Progress, sit: XmlNode, c: XmlNode)
    requires Describes(m0, kids0) && Ranked(kids0, rank) && Kept(U, kids0, rank, dn, sn, g) && Pending(kids0, g, sit)
    requires sit != dn && c !in U && Dit(g) in U && Dit(g) in g.done
    ensures Kept(U + {c}, kids0, rank, dn, sn, Copied(g, c, sit)) && Dit(Copied(g, c, sit)) == c
    ensures sit in kids0 && sit != sn && sit !in g.orig.Values && Copied(g, c, sit).orig.Values == g.orig.Values + {sit}
  {
    RootIsSource(kids0, dn, sn, g);
    OrigInKids(kids0, dn, sn, g, c);
    PendingUnder(kids0, rank, dn, sn, g, sit);
    hide Describes, Walk, Ranked, Pending, Under, Copied;
    StepCopy(m0, kids0, dn, sn, g, sit, c);
    NeverCopied(m0, kids0, dn, sn, g, sit);
    CopyGrows(U, rank, dn, sn, g, sit, c);
  }

  lemma CopyGrows(U: set<XmlNode>, rank: map<XmlNode, nat>, dn: XmlNode, sn: XmlNode, g: Progress, sit: XmlNode,
        c: XmlNode)
    requires g.kids.Keys == U && |g.path| > 0 && Dit(g) in U && Dit(g) in g.done && c !in U && c !in g.orig
    requires Under(rank, dn, sn, g) && sit in rank && rank[sit] < rank[sn] &&
      forall d :: d in g.orig ==> g.orig[d] != sit
    ensures Copied(g, c, sit).kids.Keys == U + {c} && Dit(Copied(g, c, sit)) == c
    ensures Under(rank, dn, sn, Copied(g, c, sit))
    ensures sit !in g.orig.Values && Copied(g, c, sit).orig.Values == g.orig.Values + {sit}
  {
    ValuesGrow(g.orig, c, sit);
  }

  lemma OrigInKids(kids0: Kids, dn: XmlNode, sn: XmlNode, g: Progress, c: XmlNode)
    requires Walk(kids0, dn, sn, g) && c !in g.kids
    ensures c !in g.orig
  {}

  lemma ValuesGrow(orig: map<XmlNode, XmlNode>, c: XmlNode, x: XmlNode)
    requires c !in orig
    ensures orig[c := x].Values == orig.Values + {x}
  {
    var r := orig[c := x];
    assert r[c] == x;
    forall y | y in orig.Values ensures y in r.Values {
      var d: XmlNode :| d in orig && orig[d] == y;
      assert r[d] == y;
    }
  }

  /** After copying sit: down to its first child, or done with it when it has none. */
  lemma AfterCopy(m0: Shape, kids0: Kids, dn: XmlNode, sn: XmlNode, g: Progress, sit: XmlNode, c: XmlNode)
    requires Walk(kids0, dn, sn, g) && Pending(kids0, g, sit) && c !in g.kids && Dit(g) in g.kids && sit in kids0
    requires Walk(kids0, dn, sn, Copied(g, c, sit)) && sit != dn && sit != sn
    ensures kids0[sit] != [] ==> Pending(kids0, Copied(g, c, sit), kids0[sit][0])
    ensures kids0[sit] == [] ==> Walk(kids0, dn, sn, Popped(Copied(g, c, sit)))
    ensures kids0[sit] == [] ==>
      JustDone(kids0, Popped(Copied(g, c, sit)), sit) && Dit(Popped(Copied(g, c, sit))) == Dit(g)
  {
    hide Walk, Lists, Domains, Path;
    var g' := Copied(g, c, sit);
    assert g'.orig[c] == sit && g'.done[c] == 0;
    if kids0[sit] == [] {
      StepPop(kids0, dn, sn, g');
    }
  }

  lemma SourceChildren(U: set<XmlNode>, kids0: Kids, dn: XmlNode, sn: XmlNode, g: Progress, n: XmlNode)
    requires Linked(U, g.kids) && Walk(kids0, dn, sn, g) && n in kids0 && n != dn
    ensures n in U && n.firstChild == (if kids0[n] == [] then null else kids0[n][0])
  {
    KidsKeys(ShapeOf(U), g.kids);
    ListOf(U, g.kids, n);
  }

  lemma StartKept(U: set<XmlNode>, kids0: Kids, rank: map<XmlNode, nat>, dn: XmlNode, sn: XmlNode)
    requires kids0.Keys == U && Ranked(kids0, rank) && dn in U && sn in U && dn != sn && kids0[dn] == []
    ensures Kept(U, kids0, rank, dn, sn, Started(kids0, dn, sn))
    ensures kids0[sn] != [] ==> Pending(kids0, Started(kids0, dn, sn), kids0[sn][0])
    ensures kids0[sn] == [] ==> AtEnd(kids0, dn, sn, Started(kids0, dn, sn))
    ensures !MetDn(kids0, dn, Started(kids0, dn, sn))
    ensures (var g := Started(kids0, dn, sn); g.kids == kids0 && g.orig == map[dn := sn] && g.path == [dn])
  {
    StartWalk(kids0, dn, sn);
    assert Started(kids0, dn, sn).orig.Values == {sn};
  }

  lemma KeptBySkip(U: set<XmlNode>, m0: Shape, kids0: Kids, rank: map<XmlNode, nat>, dn: XmlNode, sn: XmlNode,
        g: Progress)
    requires Describes(m0, kids0) && Kept(U, kids0, rank, dn, sn, g) && Pending(kids0, g, dn)
    ensures Kept(U, kids0, rank, dn, sn, Skipped(g)) && JustDone(kids0, Skipped(g), dn)
    ensures !MetDn(kids0, dn, g) && MetDn(kids0, dn, Skipped(g))
  {
    hide Walk, Describes;
    StepSkip(kids0, dn, sn, g);
    MetOnce(m0, kids0, dn, sn, g);
    MeetsDn(kids0, dn, g);
  }

  /** One source node copied. */
  method CopyOne(dit: XmlNode, sit: XmlNode, dn: XmlNode, sn: XmlNode, ghost U0: set<XmlNode>, ghost m0: Shape,
      ghost kids0: Kids, ghost rank: map<XmlNode, nat>, ghost info0: map<XmlNode, Data>, ghost U: set<XmlNode>,
      ghost g0: Progress) returns (c: XmlNode, ghost U': set<XmlNode>, ghost g: Progress)
    requires U0 <= U && Linked(U, g0.kids) && Describes(m0, kids0) && Ranked(kids0, rank) && kids0.Keys == U0
    requires Kept(U, kids0, rank, dn, sn, g0) && Pending(kids0, g0, sit) && dit == Dit(g0) && dn in U0 && sit != dn
    requires info0.Keys == U0 && Contents(g0.orig, DataOf(U), info0, dn)
    modifies U`parent, U`firstChild, U`prevSiblingC, U`nextSibling
    ensures fresh(c) && U' == U + {c} && g == Copied(g0, c, sit) && Linked(U', g.kids)
    ensures Kept(U', kids0, rank, dn, sn, g) && Contents(g.orig, DataOf(U'), info0, dn)
    ensures sit in U0 && sit in U' && sit != sn && sit.firstChild == (if kids0[sit] == [] then null else kids0[sit][0])
    ensures kids0[sit] != [] ==> Pending(kids0, g, kids0[sit][0]) && c == Dit(g)
    ensures kids0[sit] == [] ==> Walk(kids0, dn, sn, Popped(g))
    ensures kids0[sit] == [] ==> JustDone(kids0, Popped(g), sit) && Dit(Popped(g)) == dit
    ensures sit !in g0.orig.Values && g.orig.Values == g0.orig.Values + {sit}
    ensures MetDn(kids0, dn, g0) ==> MetDn(kids0, dn, g)
  {
    hide Linked, Describes, Walk, Ranked, MetDn, Contents;
    ghost var info := DataOf(U);
    SitFacts(U, kids0, rank, dn, sn, g0, sit);
    c := AppendCopy(dit, sit, U, g0.kids);
    KeptByCopy(U, m0, kids0, rank, dn, sn, g0, sit, c);
    StillMetKept(U, kids0, rank, dn, sn, g0, sit, c);
    AfterCopy(m0, kids0, dn, sn, g0, sit, c);
    ContentsGrow(g0.orig, info, info0, dn, c, sit);
    U', g := U + {c}, Copied(g0, c, sit);
    SourceChildren(U', kids0, dn, sn, g, sit);
  }

  /** The destination cursor copies the pending source node and moves on; dn itself is only passed over. */
  method CopyStep(dit0: XmlNode, sit0: XmlNode, dn: XmlNode, sn: XmlNode, ghost U0: set<XmlNode>, ghost m0: Shape,
      ghost kids0: Kids, ghost rank: map<XmlNode, nat>, ghost info0: map<XmlNode, Data>, ghost U: set<XmlNode>,
      ghost g0: Progress) returns (dit: XmlNode?, sit: XmlNode, ghost U': set<XmlNode>, ghost g: Progress)
    requires U0 <= U && Linked(U, g0.kids) && Describes(m0, kids0) && Ranked(kids0, rank) && kids0.Keys == U0
    requires Kept(U, kids0, rank, dn, sn, g0) && Pending(kids0, g0, sit0) && dit0 == Dit(g0) && dn in U0
    requires info0.Keys == U0 && Contents(g0.orig, DataOf(U), info0, dn)
    modifies U`parent, U`firstChild, U`prevSiblingC, U`nextSibling
    ensures U <= U' && (forall o :: o in U' && o !in U ==> fresh(o)) && Linked(U', g.kids) &&
      Kept(U', kids0, rank, dn, sn, g)
    ensures Contents(g.orig, DataOf(U'), info0, dn)
    ensures (sit == sn && AtEnd(kids0, dn, sn, g)) || (Pending(kids0, g, sit) && dit == Dit(g))
    ensures (if sit0 == dn then g.orig == g0.orig && !MetDn(kids0, dn, g0) && MetDn(kids0, dn, g)
             else sit0 in U0 && sit0 !in g0.orig.Values && g.orig.Values == g0.orig.Values + {sit0}
                  && (MetDn(kids0, dn, g0) ==> MetDn(kids0, dn, g)))
  {
    hide Linked, Describes, Walk, Ranked, MetDn, Contents, Kept, Pending, AtEnd, JustDone;
    dit, sit, U', g := dit0, sit0, U, g0;
    SitFacts(U, kids0, rank, dn, sn, g, sit);
    if sit != dn {
      var c;
      c, U', g := CopyOne(dit, sit, dn, sn, U0, m0, kids0, rank, info0, U, g);
      if sit.firstChild != null {
        dit := c;
        sit := sit.firstChild;
        return;
      }
      SameMet(kids0, dn, g, Popped(g));
      KeptMoved(U', kids0, rank, dn, sn, g, Popped(g));
      g := Popped(g);
    } else {
      KeptBySkip(U, m0, kids0, rank, dn, sn, g);
      g := Skipped(g);
    }
    ghost var before := g;
    KeptWalks(U', kids0, rank, dn, sn, g);
    dit, sit, g := NextSource(dit, sit, dn, sn, U', kids0, g);
    SameMet(kids0, dn, before, g);
    KeptMoved(U', kids0, rank, dn, sn, before, g);
  }

  lemma KeptWalks(U: set<XmlNode>, kids0: Kids, rank: map<XmlNode, nat>, dn: XmlNode, sn: XmlNode, g: Progress)
    requires Kept(U, kids0, rank, dn, sn, g)
    ensures Walk(kids0, dn, sn, g)
  {}

  /** The cursors have moved, and nothing else has changed. */
  lemma KeptMoved(U: set<XmlNode>, kids0: Kids, rank: map<XmlNode, nat>, dn: XmlNode, sn: XmlNode, g: Progress,
        g': Progress)
    requires Kept(U, kids0, rank, dn, sn, g) && Walk(kids0, dn, sn, g')
    requires g'.kids == g.kids && g'.orig == g.orig && g'.done == g.done
    ensures Kept(U, kids0, rank, dn, sn, g')
  {
    hide Walk;
  }

  lemma SameMet(kids0: Kids, dn: XmlNode, g: Progress, g': Progress)
    requires g'.orig == g.orig && g'.done == g.done
    ensures MetDn(kids0, dn, g) <==> MetDn(kids0, dn, g')
  {}

  lemma SitFacts(U: set<XmlNode>, kids0: Kids, rank: map<XmlNode, nat>, dn: XmlNode, sn: XmlNode, g: Progress,
        sit: XmlNode)
    requires Ranked(kids0, rank) && Kept(U, kids0, rank, dn, sn, g) && Pending(kids0, g, sit)
    ensures |g.path| > 0 && sit in kids0 && sit != sn && Dit(g) in g.kids && Dit(g) in U && Dit(g) in g.done
  {
    RootIsSource(kids0, dn, sn, g);
    PendingUnder(kids0, rank, dn, sn, g, sit);
    assert OnPath(kids0, g, |g.path| - 1);
  }

  lemma StillMetKept(U: set<XmlNode>, kids0: Kids, rank: map<XmlNode, nat>, dn: XmlNode, sn: XmlNode, g: Progress,
        sit: XmlNode, c: XmlNode)
    requires Kept(U, kids0, rank, dn, sn, g) && Pending(kids0, g, sit) && c !in g.kids && Dit(g) in g.kids
    ensures MetDn(kids0, dn, g) ==> MetDn(kids0, dn, Copied(g, c, sit))
  {
    if MetDn(kids0, dn, g) { StillMet(kids0, dn, sn, g, sit, c); }
  }

  // ----- the whole copy

  /** The subtree under n as a value, without the subtree of skip. */
  datatype XTree = XTree(kind: Kind, data: Data, kids: seq<XTree>)

  ghost function TreeOf(kids: Kids, rank: map<XmlNode, nat>, info: map<XmlNode, Data>, n: XmlNode,
        skip: XmlNode?): XTree
    requires Ranked(kids, rank) && n in kids && info.Keys == kids.Keys
    decreases rank[n]
  {
    var s := Without(kids[n], skip);
    XTree(n.kind, info[n], seq(|s|, i requires 0 <= i < |s| => assert s[i] in s; TreeOf(kids, rank, info, s[i], skip)))
  }

  lemma {:induction false} WithoutNull(s: seq<XmlNode>)
    ensures Without(s, null) == s
  {
    if s == [] {
    } else {
      WithoutNull(s[..|s| - 1]);
      assert s == s[..|s| - 1] + [s[|s| - 1]];
    }
  }

  /** Copies rank like their originals, old nodes above all copies. */
  ghost function NewRank(kids0: Kids, rank: map<XmlNode, nat>, dn: XmlNode, sn: XmlNode,
        g: Progress): (r: map<XmlNode, nat>)
    requires sn in rank
    ensures r.Keys == g.kids.Keys
  {
    map n | n in g.kids ::
      if n in kids0 && n in rank then rank[n] + rank[sn] + 1
          else if n in g.orig && g.orig[n] in rank then rank[g.orig[n]] else 0
  }

  lemma CopyRanked(kids0: Kids, rank: map<XmlNode, nat>, dn: XmlNode, sn: XmlNode, g: Progress)
    requires Ranked(kids0, rank) && Domains(kids0, dn, sn, g) && Complete(kids0, dn, g) && Under(rank, dn, sn, g)
    ensures Ranked(g.kids, NewRank(kids0, rank, dn, sn, g))
  {
    hide Ranked, Complete, NewRank, Lower, Under;
    RankThere(kids0, rank, dn, sn, g);
    hide Domains;
    var rank' := NewRank(kids0, rank, dn, sn, g);
    forall n, c | n in g.kids && c in g.kids[n] ensures c in g.kids && Lower(rank', c, n) {
      EdgeRanked(kids0, rank, dn, sn, g, n, c);
    }
    RankedIntro(g.kids, rank');
  }

  lemma RankThere(kids0: Kids, rank: map<XmlNode, nat>, dn: XmlNode, sn: XmlNode, g: Progress)
    requires Ranked(kids0, rank) && Domains(kids0, dn, sn, g) && Under(rank, dn, sn, g)
    ensures sn in rank
  {}

  lemma RankedIntro(kids: Kids, rank: map<XmlNode, nat>)
    requires rank.Keys == kids.Keys && forall n, c :: n in kids && c in kids[n] ==> c in kids && Lower(rank, c, n)
    ensures Ranked(kids, rank)
  {}

  lemma EdgeRanked(kids0: Kids, rank: map<XmlNode, nat>, dn: XmlNode, sn: XmlNode, g: Progress, n: XmlNode, c: XmlNode)
    requires Ranked(kids0, rank) && Domains(kids0, dn, sn, g) && Complete(kids0, dn, g) && Under(rank, dn, sn, g)
    requires n in g.kids && c in g.kids[n]
    ensures c in g.kids && Lower(NewRank(kids0, rank, dn, sn, g), c, n)
  {
    hide Complete;
    if n in g.orig {
      CopiedEdge(kids0, dn, g, n, c);
    }
  }

  lemma CopiedEdge(kids0: Kids, dn: XmlNode, g: Progress, d: XmlNode, c: XmlNode)
    requires Complete(kids0, dn, g) && d in g.orig && d in g.kids && c in g.kids[d]
    ensures c in g.orig && c != dn && g.orig[d] in kids0 && g.orig[c] in kids0[g.orig[d]]
  {
    assert ListComplete(kids0, dn, g, d);
    var i :| 0 <= i < |g.kids[d]| && g.kids[d][i] == c;
    assert Names(g.orig, g.kids[d])[i] == g.orig[c];
    assert g.orig[c] in Without(kids0[g.orig[d]], dn);
  }

  lemma RankedEdge(kids: Kids, rank: map<XmlNode, nat>, n: XmlNode, c: XmlNode)
    requires Ranked(kids, rank) && n in kids && c in kids[n]
    ensures n in rank && c in kids && c in rank && rank[c] < rank[n]
  {}

  lemma ContentsAt(orig: map<XmlNode, XmlNode>, info: map<XmlNode, Data>, info0: map<XmlNode, Data>, dn: XmlNode,
        d: XmlNode)
    requires Contents(orig, info, info0, dn) && d in orig
    ensures orig[d] in info0 && d in info && info[d] == info0[orig[d]] && (d != dn ==> d.kind == orig[d].kind)
  {}

  /** Under every copy hangs exactly the tree that hung under its original, dn left out. */
  lemma {:induction false} CopyIsTree(kids0: Kids, rank: map<XmlNode, nat>, info0: map<XmlNode, Data>, dn: XmlNode,
        g: Progress, rank': map<XmlNode, nat>, info: map<XmlNode, Data>, d: XmlNode)
    requires Ranked(kids0, rank) && Ranked(g.kids, rank') && info0.Keys == kids0.Keys && info.Keys == g.kids.Keys
    requires Complete(kids0, dn, g) && Contents(g.orig, info, info0, dn) && d in g.orig && d in g.kids &&
      g.orig[d] in kids0
    ensures TreeOf(g.kids, rank', info, d, null) == TreeOf(kids0, rank, info0, g.orig[d], dn).(kind := d.kind)
    decreases rank[g.orig[d]]
  {
    var o := g.orig[d];
    var s, t := g.kids[d], Without(kids0[o], dn);
    CompleteAt(kids0, dn, g, d);
    WithoutNull(s);
    hide Complete, Contents, Ranked;
    ContentsAt(g.orig, info, info0, dn, d);
    forall i | 0 <= i < |s|
      ensures s[i] in g.kids && t[i] in kids0
      ensures TreeOf(g.kids, rank', info, s[i], null) == TreeOf(kids0, rank, info0, t[i], dn)
    {
      assert t[i] in t && s[i] in s;
      CompleteAt(kids0, dn, g, d);
      RankedEdge(kids0, rank, o, t[i]);
      RankedEdge(g.kids, rank', d, s[i]);
      CopyIsTree(kids0, rank, info0, dn, g, rank', info, s[i]);
      ContentsAt(g.orig, info, info0, dn, s[i]);
    }
    TreesAlike(g.kids, rank', info, d, kids0, rank, info0, o, dn);
  }

  lemma CompleteAt(kids0: Kids, dn: XmlNode, g: Progress, d: XmlNode)
    requires Complete(kids0, dn, g) && d in g.orig
    ensures d in g.kids && g.orig[d] in kids0 && |Without(kids0[g.orig[d]], dn)| == |g.kids[d]|
    ensures forall i :: 0 <= i < |g.kids[d]| ==>
      g.kids[d][i] in g.orig && g.kids[d][i] != dn && g.orig[g.kids[d][i]] == Without(kids0[g.orig[d]], dn)[i]
  {
    assert ListComplete(kids0, dn, g, d);
    var s := g.kids[d];
    assert forall i :: 0 <= i < |s| ==> s[i] in s && Names(g.orig, s)[i] == g.orig[s[i]];
  }

  /** Equal contents and pairwise equal subtrees make equal trees. */
  lemma TreesAlike(kids1: Kids, rank1: map<XmlNode, nat>, info1: map<XmlNode, Data>, d: XmlNode, kids0: Kids,
      rank0: map<XmlNode, nat>, info0: map<XmlNode, Data>, o: XmlNode, dn: XmlNode)
    requires Ranked(kids1, rank1) && Ranked(kids0, rank0) && info1.Keys == kids1.Keys && info0.Keys == kids0.Keys
    requires d in kids1 && o in kids0 && info1[d] == info0[o] && |kids1[d]| == |Without(kids0[o], dn)|
    requires forall i :: 0 <= i < |kids1[d]| ==> (
      && kids1[d][i] in kids1 && Without(kids0[o], dn)[i] in kids0
      && TreeOf(kids1, rank1, info1, kids1[d][i], null) == TreeOf(kids0, rank0, info0, Without(kids0[o], dn)[i], dn))
    ensures TreeOf(kids1, rank1, info1, d, null) == TreeOf(kids0, rank0, info0, o, dn).(kind := d.kind)
  {
    hide Ranked, Without, TreeOf;
    WithoutNull(kids1[d]);
    TreeParts(kids1, rank1, info1, d, null);
    TreeParts(kids0, rank0, info0, o, dn);
    var t, u := TreeOf(kids1, rank1, info1, d, null), TreeOf(kids0, rank0, info0, o, dn);
    assert |t.kids| == |u.kids|;
    forall i | 0 <= i < |t.kids| ensures t.kids[i] == u.kids[i] {
      assert t.kids[i] == TreeOf(kids1, rank1, info1, kids1[d][i], null);
    }
    assert t.kids == u.kids;
  }

  lemma TreeParts(kids: Kids, rank: map<XmlNode, nat>, info: map<XmlNode, Data>, n: XmlNode, skip: XmlNode?)
    requires Ranked(kids, rank) && n in kids && info.Keys == kids.Keys
    ensures (var t, s := TreeOf(kids, rank, info, n, skip), Without(kids[n], skip);
             t.kind == n.kind && t.data == info[n] && |t.kids| == |s|)
    ensures forall i :: 0 <= i < |Without(kids[n], skip)| ==> (
      Without(kids[n], skip)[i] in kids
      && TreeOf(kids, rank, info, n, skip).kids[i] == TreeOf(kids, rank, info, Without(kids[n], skip)[i], skip))
  {
    assert forall i :: 0 <= i < |Without(kids[n], skip)| ==> Without(kids[n], skip)[i] in Without(kids[n], skip);
  }

  /**
    `node_copy_tree`: a new child-less node dn becomes the root of a copy of the subtree of sn as it was, dn left out.
  */
  method NodeCopyTree(dn: XmlNode, sn: XmlNode, ghost U0: set<XmlNode>, ghost kids0: Kids,
        ghost rank: map<XmlNode, nat>)
    returns (ghost U: set<XmlNode>, ghost g: Progress, ghost rank': map<XmlNode, nat>)
    requires Linked(U0, kids0) && Ranked(kids0, rank) && dn in U0 && sn in U0 && dn != sn
    requires dn in kids0 && kids0[dn] == [] && dn.data == Data([], [], []) && sn in kids0
    modifies U0`parent, U0`firstChild, U0`prevSiblingC, U0`nextSibling, dn`data
    ensures U0 <= U && (forall o :: o in U && o !in U0 ==> fresh(o)) && Linked(U, g.kids) && g.kids.Keys == U &&
      Ranked(g.kids, rank')
    ensures kids0.Keys == U0 && forall n :: n in kids0 && n != dn ==> n in g.kids && g.kids[n] == kids0[n]
    ensures forall n :: n in U0 && n != dn ==> DataOf(U)[n] == old(DataOf(U0))[n]
    ensures TreeOf(g.kids, rank', DataOf(U), dn, null) == TreeOf(kids0, rank, old(DataOf(U0)), sn, dn).(kind := dn.kind)
  {
    LinkedKeys(U0, kids0);
    ghost var m0, info0 := ShapeOf(U0), DataOf(U0);
    ListOf(U0, kids0, sn);
    hide Linked, Describes, IsList, Ranked, Contents, Kept, AtEnd;
    CopyRoot(dn, sn, U0, kids0);
    g, U := CopyLoop(dn, sn, U0, m0, kids0, rank, info0);
    rank' := CopyFinished(U, kids0, rank, info0, dn, sn, g, DataOf(U));
  }

  method CopyRoot(dn: XmlNode, sn: XmlNode, ghost U0: set<XmlNode>, ghost kids0: Kids)
    requires Linked(U0, kids0) && dn in U0 && sn in U0 && dn != sn && dn.data == Data([], [], [])
    modifies dn`data
    ensures Linked(U0, kids0) && ShapeOf(U0) == old(ShapeOf(U0))
    ensures Contents(Started(kids0, dn, sn).orig, DataOf(U0), old(DataOf(U0)), dn)
  {
    hide Describes;
    NodeCopyContents(dn, sn);
    assert ShapeOf(U0) == old(ShapeOf(U0));
  }

  lemma CopyFinished(U: set<XmlNode>, kids0: Kids, rank: map<XmlNode, nat>, info0: map<XmlNode, Data>, dn: XmlNode,
        sn: XmlNode, g: Progress, info: map<XmlNode, Data>) returns (rank': map<XmlNode, nat>)
    requires Ranked(kids0, rank) && Kept(U, kids0, rank, dn, sn, g) && AtEnd(kids0, dn, sn, g)
    requires info0.Keys == kids0.Keys && info.Keys == U && Contents(g.orig, info, info0, dn)
    ensures g.kids.Keys == U && Ranked(g.kids, rank') && dn in U && sn in kids0
    ensures forall n :: n in kids0 && n != dn ==> n in g.kids && g.kids[n] == kids0[n] && info[n] == info0[n]
    ensures TreeOf(g.kids, rank', info, dn, null) == TreeOf(kids0, rank, info0, sn, dn).(kind := dn.kind)
  {
    RootIsSource(kids0, dn, sn, g);
    WalkDone(kids0, dn, sn, g);
    hide Lists, Owned, Path, OffPathFull, Complete, Ranked;
    CopyRanked(kids0, rank, dn, sn, g);
    rank' := NewRank(kids0, rank, dn, sn, g);
    CopyIsTree(kids0, rank, info0, dn, g, rank', info, dn);
  }

  lemma LinkedKeys(U: set<XmlNode>, kids: Kids)
    requires Linked(U, kids)
    ensures kids.Keys == U && Describes(ShapeOf(U), kids)
  {}

  /** Between two steps the cursors are at the next source child, or the source subtree is used up. */
  ghost predicate Ready(kids0: Kids, dn: XmlNode, sn: XmlNode, g: Progress, dit: XmlNode?, sit: XmlNode?) {
    if sit == null || sit == sn then AtEnd(kids0, dn, sn, g)
    else Pending(kids0, g, sit) && |g.path| > 0 && dit == Dit(g)
  }

  /** What is left to do: source nodes without a copy, then passing over dn. */
  ghost function ToDo(kids0: Kids, dn: XmlNode, g: Progress): nat {
    2 * |kids0.Keys - g.orig.Values| + if MetDn(kids0, dn, g) then 0 else 1
  }

  lemma LessToDo(kids0: Kids, dn: XmlNode, g0: Progress, g: Progress, sit: XmlNode)
    requires if sit == dn then g.orig == g0.orig && !MetDn(kids0, dn, g0) && MetDn(kids0, dn, g)
             else sit in kids0 && sit !in g0.orig.Values && g.orig.Values == g0.orig.Values + {sit}
                  && (MetDn(kids0, dn, g0) ==> MetDn(kids0, dn, g))
    ensures ToDo(kids0, dn, g) < ToDo(kids0, dn, g0)
  {
    hide MetDn;
    if sit != dn {
      OneFewer(kids0.Keys, g0.orig.Values, g.orig.Values, sit);
    }
  }

  lemma OneFewer(all: set<XmlNode>, was: set<XmlNode>, now: set<XmlNode>, x: XmlNode)
    requires x in all && x !in was && now == was + {x}
    ensures |all - now| + 1 == |all - was|
  {
    assert all - now == (all - was) - {x};
  }

  lemma StartReady(U0: set<XmlNode>, kids0: Kids, rank: map<XmlNode, nat>, dn: XmlNode, sn: XmlNode)
    requires Ranked(kids0, rank) && kids0.Keys == U0 && dn in U0 && sn in U0 && dn != sn && kids0[dn] == []
    requires sn.firstChild == if kids0[sn] == [] then null else kids0[sn][0]
    ensures Kept(U0, kids0, rank, dn, sn, Started(kids0, dn, sn))
    ensures Ready(kids0, dn, sn, Started(kids0, dn, sn), dn, sn.firstChild)
    ensures (var g := Started(kids0, dn, sn); g.kids == kids0 && g.orig == map[dn := sn])
  {
    StartKept(U0, kids0, rank, dn, sn);
    hide Kept, Started;
    if sn.firstChild != null { EndOrPending(U0, kids0, rank, dn, sn, Started(kids0, dn, sn), sn.firstChild); }
  }

  /** The loop of `node_copy_tree`. Every source node is copied at most once and dn is passed over at most once. */
  method CopyLoop(dn: XmlNode, sn: XmlNode, ghost U0: set<XmlNode>, ghost m0: Shape, ghost kids0: Kids,
      ghost rank: map<XmlNode, nat>, ghost info0: map<XmlNode, Data>) returns (ghost g: Progress, ghost U: set<XmlNode>)
    requires Linked(U0, kids0) && Describes(m0, kids0) && Ranked(kids0, rank) && kids0.Keys == U0 && info0.Keys == U0
    requires dn in U0 && sn in U0 && dn != sn && kids0[dn] == []
    requires sn.firstChild == if kids0[sn] == [] then null else kids0[sn][0]
    requires Contents(Started(kids0, dn, sn).orig, DataOf(U0), info0, dn)
    modifies U0`parent, U0`firstChild, U0`prevSiblingC, U0`nextSibling
    ensures U0 <= U && (forall o :: o in U && o !in U0 ==> fresh(o)) && Linked(U, g.kids)
    ensures Kept(U, kids0, rank, dn, sn, g) && AtEnd(kids0, dn, sn, g) && Contents(g.orig, DataOf(U), info0, dn)
  {
    hide *;
    StartReady(U0, kids0, rank, dn, sn);
    U, g := U0, Started(kids0, dn, sn);
    var dit: XmlNode?, sit: XmlNode? := dn, sn.firstChild;
    while sit != null && sit != sn
      invariant U0 <= U && (forall o :: o in U && o !in U0 ==> fresh(o)) && Linked(U, g.kids) &&
        Kept(U, kids0, rank, dn, sn, g)
      invariant Contents(g.orig, DataOf(U), info0, dn) && Ready(kids0, dn, sn, g, dit, sit)
      decreases ToDo(kids0, dn, g)
    {
      dit, sit, U, g := CopyOnce(dit, sit, dn, sn, U0, m0, kids0, rank, info0, U, g);
    }
    ReadyMeans(kids0, dn, sn, g, dit, sit);
  }

  /** One round of the loop brings the copy closer to its end. */
  method CopyOnce(dit0: XmlNode?, sit0: XmlNode, dn: XmlNode, sn: XmlNode, ghost U0: set<XmlNode>, ghost m0: Shape,
      ghost kids0: Kids, ghost rank: map<XmlNode, nat>, ghost info0: map<XmlNode, Data>, ghost U: set<XmlNode>,
      ghost g0: Progress) returns (dit: XmlNode?, sit: XmlNode, ghost U': set<XmlNode>, ghost g: Progress)
    requires U0 <= U && Linked(U, g0.kids) && Describes(m0, kids0) && Ranked(kids0, rank) && kids0.Keys == U0
    requires Kept(U, kids0, rank, dn, sn, g0) && Ready(kids0, dn, sn, g0, dit0, sit0) && sit0 != sn && dn in U0
    requires info0.Keys == U0 && Contents(g0.orig, DataOf(U), info0, dn)
    modifies U`parent, U`firstChild, U`prevSiblingC, U`nextSibling
    ensures U <= U' && (forall o :: o in U' && o !in U ==> fresh(o)) && Linked(U', g.kids) &&
      Kept(U', kids0, rank, dn, sn, g)
    ensures Contents(g.orig, DataOf(U'), info0, dn) && Ready(kids0, dn, sn, g, dit, sit)
    ensures ToDo(kids0, dn, g) < ToDo(kids0, dn, g0)
  {
    hide Linked, Describes, Ranked, Kept, Contents, MetDn, Pending, AtEnd, ToDo;
    ReadyMeans(kids0, dn, sn, g0, dit0, sit0);
    dit, sit, U', g := CopyStep(dit0, sit0, dn, sn, U0, m0, kids0, rank, info0, U, g0);
    EndOrPending(U', kids0, rank, dn, sn, g, sit);
    LessToDo(kids0, dn, g0, g, sit0);
  }

  lemma ReadyMeans(kids0: Kids, dn: XmlNode, sn: XmlNode, g: Progress, dit: XmlNode?, sit: XmlNode?)
    requires Ready(kids0, dn, sn, g, dit, sit)
    ensures sit == null || sit == sn ==> AtEnd(kids0, dn, sn, g)
    ensures sit != null && sit != sn ==> Pending(kids0, g, sit) && |g.path| > 0 && dit == Dit(g)
  {}

  lemma EndOrPending(U: set<XmlNode>, kids0: Kids, rank: map<XmlNode, nat>, dn: XmlNode, sn: XmlNode, g: Progress,
        sit: XmlNode)
    requires Ranked(kids0, rank) && Kept(U, kids0, rank, dn, sn, g)
    requires (sit == sn && AtEnd(kids0, dn, sn, g)) || Pending(kids0, g, sit)
    ensures sit == sn ==> AtEnd(kids0, dn, sn, g)
    ensures sit != sn ==> Pending(kids0, g, sit) && |g.path| > 0
  {
    if Pending(kids0, g, sit) { SitFacts(U, kids0, rank, dn, sn, g, sit); }
  }
}
