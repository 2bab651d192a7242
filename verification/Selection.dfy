/** Ascending and descending selections of the integers of an interval that satisfy a predicate. */
module Selection {

  /** The members of [lo, hi) satisfying p, smallest first. */
  function Up(p: int -> bool, lo: int, hi: int): (s: seq<int>)
    decreases hi - lo
  {
    if hi <= lo then [] else Up(p, lo, hi - 1) + (if p(hi - 1) then [hi - 1] else [])
  }

  /** The members of [lo, hi) satisfying p, largest first. */
  function Down(p: int -> bool, lo: int, hi: int): (s: seq<int>)
    decreases hi - lo
  {
    if hi <= lo then [] else Down(p, lo + 1, hi) + (if p(lo) then [lo] else [])
  }

  /** One more candidate. */
  lemma UpNext(p: int -> bool, lo: int, k: int)
    requires lo <= k
    ensures Up(p, lo, k + 1) == Up(p, lo, k) + if p(k) then [k] else []
  {}

  lemma DownNext(p: int -> bool, k: int, hi: int)
    requires k < hi
    ensures Down(p, k, hi) == Down(p, k + 1, hi) + if p(k) then [k] else []
  {}

  lemma {:induction false} UpMembers(p: int -> bool, lo: int, hi: int)
    ensures forall k :: k in Up(p, lo, hi) <==> lo <= k < hi && p(k)
    ensures forall i, j :: 0 <= i < j < |Up(p, lo, hi)| ==> Up(p, lo, hi)[i] < Up(p, lo, hi)[j]
    decreases hi - lo
  {
    if hi <= lo {
    } else {
      UpMembers(p, lo, hi - 1);
      var prefix := Up(p, lo, hi - 1);
      forall i | 0 <= i < |prefix| ensures prefix[i] < hi - 1 {
        assert prefix[i] in prefix;
      }
    }
  }

  lemma {:induction false} DownMembers(p: int -> bool, lo: int, hi: int)
    ensures forall k :: k in Down(p, lo, hi) <==> lo <= k < hi && p(k)
    ensures forall i, j :: 0 <= i < j < |Down(p, lo, hi)| ==> Down(p, lo, hi)[i] > Down(p, lo, hi)[j]
    decreases hi - lo
  {
    if hi <= lo {
    } else {
      DownMembers(p, lo + 1, hi);
      var prefix := Down(p, lo + 1, hi);
      forall i | 0 <= i < |prefix| ensures prefix[i] > lo {
        assert prefix[i] in prefix;
      }
    }
  }

  lemma {:induction false} UpSplit(p: int -> bool, lo: int, mid: int, hi: int)
    requires lo <= mid <= hi
    ensures Up(p, lo, hi) == Up(p, lo, mid) + Up(p, mid, hi)
    decreases hi - mid
  {
    if hi == mid {
    } else {
      UpSplit(p, lo, mid, hi - 1);
    }
  }

  lemma {:induction false} DownSplit(p: int -> bool, lo: int, mid: int, hi: int)
    requires lo <= mid <= hi
    ensures Down(p, lo, hi) == Down(p, mid, hi) + Down(p, lo, mid)
    decreases mid - lo
  {
    if lo == mid {
    } else {
      DownSplit(p, lo + 1, mid, hi);
    }
  }

  lemma {:induction false} UpNone(p: int -> bool, lo: int, hi: int)
    requires forall k :: lo <= k < hi ==> !p(k)
    ensures Up(p, lo, hi) == []
    decreases hi - lo
  {
    if hi <= lo {
    } else {
      UpNone(p, lo, hi - 1);
    }
  }

  lemma {:induction false} DownNone(p: int -> bool, lo: int, hi: int)
    requires forall k :: lo <= k < hi ==> !p(k)
    ensures Down(p, lo, hi) == []
    decreases hi - lo
  {
    if hi <= lo {
    } else {
      DownNone(p, lo + 1, hi);
    }
  }

  lemma {:induction false} UpAgree(p: int -> bool, q: int -> bool, lo: int, hi: int)
    requires forall k :: lo <= k < hi ==> p(k) == q(k)
    ensures Up(p, lo, hi) == Up(q, lo, hi)
    decreases hi - lo
  {
    if hi <= lo {
    } else {
      UpAgree(p, q, lo, hi - 1);
    }
  }

  lemma {:induction false} DownAgree(p: int -> bool, q: int -> bool, lo: int, hi: int)
    requires forall k :: lo <= k < hi ==> p(k) == q(k)
    ensures Down(p, lo, hi) == Down(q, lo, hi)
    decreases hi - lo
  {
    if hi <= lo {
    } else {
      DownAgree(p, q, lo + 1, hi);
    }
  }
}
