/** The open-addressing table from object addresses to addresses: triangular probing over a power-of-two capacity. */
module HashTable {
  import opened Basics
  import Integers

  /** Address 0 is null: a free slot has a null key and a null value. */
  datatype Item = Item(key: nat, value: nat)

  // ----- triangular probing

  ghost predicate IsPow2(c: nat) {
    exists n: nat :: c == Pow2(n)
  }

  /** The sum of the first p steps of the probe sequence. */
  function Triangular(p: nat): nat {
    if p == 0 then 0 else Triangular(p - 1) + p
  }

  /** The bucket of probe p. */
  function Probe(h: nat, p: nat, c: nat): (b: nat)
    requires c > 0
    ensures b < c
  {
    (h + Triangular(p)) % c
  }

  lemma {:induction false} TwiceTriangular(p: nat)
    ensures 2 * Triangular(p) == p * (p + 1)
    decreases p
  {
    if p == 0 {
    } else {
      TwiceTriangular(p - 1);
    }
  }

  /** m divides x. */
  ghost predicate Divides(m: nat, x: nat) {
    exists k: nat :: x == m * k
  }

  /** A power of two that divides a product with an odd factor divides the other factor. */
  lemma {:induction false} OddFactor(n: nat, a: nat, b: nat)
    requires Divides(Pow2(n), a * b) && a % 2 == 1
    ensures Divides(Pow2(n), b)
    decreases n
  {
    if n == 0 {
      assert b == Pow2(0) * b;
    } else {
      assert Pow2(n) == 2 * Pow2(n - 1);
      var k :| a * b == Pow2(n) * k;
      var m, c := Pow2(n - 1), b / 2;
      hide Pow2;
      HalfProduct(a, b, m, k);
      OddFactor(n - 1, a, c);
      var j :| c == m * j;
      Doubled2(m, j);
      assert b == (2 * m) * j;
    }
  }

  lemma HalfProduct(a: nat, b: nat, m: nat, k: nat)
    requires a * b == (2 * m) * k && a % 2 == 1
    ensures b % 2 == 0 && a * (b / 2) == m * k
  {
    assert (2 * m) * k == 2 * (m * k);
    OddTimes(a, b);
    var c := b / 2;
    assert a * (2 * c) == 2 * (a * c);
  }

  lemma Doubled2(m: nat, j: nat)
    ensures 2 * (m * j) == (2 * m) * j
  {}

  lemma OddTimes(a: nat, b: nat)
    requires a % 2 == 1 && (a * b) % 2 == 0
    ensures b % 2 == 0
  {
    var q := a / 2;
    assert a * b == 2 * (q * b) + b;
  }

  /** A positive number below a power of two is not divisible by it. */
  lemma TooSmall(m: nat, x: nat)
    requires 0 < x < m
    ensures !Divides(m, x)
  {
    forall k: nat | x == m * k ensures false {
      if k >= 1 { Integers.MulAtLeast(k, m); }
    }
  }

  /** Twice d is the product of a and b. */
  ghost predicate HalfOf(d: nat, a: nat, b: nat) {
    2 * d == a * b
  }

  /** The steps between two probes of one round do not add up to a multiple of the capacity. */
  lemma GapNotDivisible(n: nat, i: nat, j: nat)
    requires i < j < Pow2(n)
    ensures Triangular(i) < Triangular(j) && !Divides(Pow2(n), Triangular(j) - Triangular(i))
  {
    GapFactors(i, j);
    FactorsSmall(n, i, j);
    OneIsOdd(i, j);
    hide *;
    var a, b := j - i, i + j + 1;
    if IsOdd(a) {
      TooSmall(Pow2(n + 1), b);
      OddCase(n, Triangular(j) - Triangular(i), a, b);
    } else {
      TooSmall(Pow2(n + 1), a);
      OddCase(n, Triangular(j) - Triangular(i), b, a);
    }
  }

  predicate IsOdd(x: nat) {
    x % 2 == 1
  }

  lemma OneIsOdd(i: nat, j: nat)
    requires i < j
    ensures IsOdd(j - i) || IsOdd(i + j + 1)
  {}

  lemma FactorsSmall(n: nat, i: nat, j: nat)
    requires i < j < Pow2(n)
    ensures 0 < j - i < Pow2(n + 1) && 0 < i + j + 1 < Pow2(n + 1)
  {}

  lemma OddCase(n: nat, d: nat, a: nat, b: nat)
    requires HalfOf(d, a, b) && IsOdd(a) && !Divides(Pow2(n + 1), b)
    ensures !Divides(Pow2(n), d)
  {
    if Divides(Pow2(n), d) {
      var k :| d == Pow2(n) * k;
      Doubled2(Pow2(n), k);
      assert a * b == Pow2(n + 1) * k;
      hide Pow2;
      OddFactor(n + 1, a, b);
    }
  }

  lemma GapFactors(i: nat, j: nat)
    requires i < j
    ensures Triangular(i) < Triangular(j)
    ensures HalfOf(Triangular(j) - Triangular(i), j - i, i + j + 1) &&
      HalfOf(Triangular(j) - Triangular(i), i + j + 1, j - i)
  {
    TwiceTriangular(i);
    TwiceTriangular(j);
    SquareGap(i, j);
  }

  lemma SquareGap(i: nat, j: nat)
    requires i < j
    ensures (j - i) * (i + j + 1) == j * (j + 1) - i * (i + 1) == (i + j + 1) * (j - i) && j * (j + 1) > i * (i + 1)
  {
    Integers.MulAtLeast(i + j + 1, j - i);
  }

  /** Two different probes of one round never meet. */
  lemma ProbesDiffer(h: nat, n: nat, i: nat, j: nat)
    requires i < j < Pow2(n)
    ensures Probe(h, i, Pow2(n)) != Probe(h, j, Pow2(n))
  {
    GapNotDivisible(n, i, j);
    if Probe(h, i, Pow2(n)) == Probe(h, j, Pow2(n)) {
      SameRemainder(h + Triangular(i), h + Triangular(j), Pow2(n));
    }
  }

  lemma SameRemainder(x: nat, y: nat, c: nat)
    requires c > 0 && x <= y && x % c == y % c
    ensures Divides(c, y - x)
  {
    var q, r := x / c, y / c;
    assert y - x == c * r - c * q == c * (r - q);
    assert c * (q - r) == (q - r) * c == -(c * (r - q));
    if r < q {
      Integers.MulAtLeast(q - r, c);
    }
  }

  // ----- counting

  /** Distinct members of a set are at most as many as the set has; if as many, they are all of it. */
  lemma {:induction false} Pigeonhole<T>(s: seq<T>, all: set<T>)
    requires NoRepeats(s) && forall i :: 0 <= i < |s| ==> s[i] in all
    ensures |s| <= |all| && (|s| == |all| ==> forall x :: x in all ==> x in s)
    decreases |s|
  {
    if s == [] {
      assert |all| == 0 ==> all == {};
    } else {
      var n := |s| - 1;
      Pigeonhole(s[..n], all - {s[n]});
      assert forall x :: x in s[..n] ==> x in s;
    }
  }

  function Buckets(n: nat): set<nat> {
    if n == 0 then {} else Buckets(n - 1) + {n - 1}
  }

  lemma {:induction false} BucketCount(n: nat)
    ensures |Buckets(n)| == n && forall b: nat :: b in Buckets(n) <==> b < n
    decreases n
  {
    if n == 0 {
    } else {
      BucketCount(n - 1);
    }
  }

  /** Triangular probing reaches every bucket of a power-of-two table. */
  lemma ProbesVisitAll(h: nat, c: nat, b: nat)
    requires IsPow2(c) && b < c
    ensures exists p: nat :: p < c && Probe(h, p, c) == b
  {
    var n: nat :| c == Pow2(n);
    hide Probe, Pow2;
    var s: seq<nat> := seq(c, p requires 0 <= p < c => Probe(h, p, c));
    forall i, j | 0 <= i < j < |s| ensures s[i] != s[j] {
      ProbesDiffer(h, n, i, j);
    }
    BucketCount(c);
    Pigeonhole(s, Buckets(c));
    assert b in s;
    var p :| 0 <= p < |s| && s[p] == b;
    assert Probe(h, p, c) == b;
  }

  // ----- the contents of a table

  /** A probe for key stops at this item. */
  predicate Stops(i: Item, key: nat) {
    i.key == key || i.key == 0
  }

  /** Probing for a key with hash h stops at probe p. */
  ghost predicate FoundAt(items: seq<Item>, h: nat, key: nat, p: nat) {
    && p < |items| && Stops(items[Probe(h, p, |items|)], key)
    && forall q: nat :: q < p ==> !Stops(items[Probe(h, q, |items|)], key)
  }

  ghost predicate LandsOn(items: seq<Item>, h: nat, key: nat, b: nat) {
    b < |items| && exists p: nat :: FoundAt(items, h, key, p) && Probe(h, p, |items|) == b
  }

  /** Probing for key leads to its value. */
  ghost predicate Maps(items: seq<Item>, h: nat, key: nat, value: nat) {
    exists b: nat :: LandsOn(items, h, key, b) && items[b] == Item(key, value)
  }

  /** Free slots are blank, and no key stands twice. */
  ghost predicate Tidy(items: seq<Item>) {
    && (forall b :: 0 <= b < |items| && items[b].key == 0 ==> items[b].value == 0)
    && (forall b, c :: 0 <= b < c < |items| && items[b].key != 0 ==> items[b].key != items[c].key)
  }

  ghost predicate Represents(items: seq<Item>, hash: nat -> nat, contents: map<nat, nat>) {
    && Tidy(items) && 0 !in contents
    && (forall b :: 0 <= b < |items| && items[b].key != 0 ==> items[b].key in contents)
    && (forall k :: k in contents ==> Maps(items, hash(k), k, contents[k]))
  }

  /** Probing for a key stops in one place only. */
  lemma LandsOnce(items: seq<Item>, h: nat, key: nat, b: nat, c: nat)
    requires LandsOn(items, h, key, b) && LandsOn(items, h, key, c)
    ensures b == c
  {
    var p: nat :| FoundAt(items, h, key, p) && Probe(h, p, |items|) == b;
    var q: nat :| FoundAt(items, h, key, q) && Probe(h, q, |items|) == c;
    SameProbe(items, h, key, p, q);
    SameProbe(items, h, key, q, p);
  }

  lemma SameProbe(items: seq<Item>, h: nat, key: nat, p: nat, q: nat)
    requires FoundAt(items, h, key, p) && FoundAt(items, h, key, q)
    ensures p >= q
  {
    assert Stops(items[Probe(h, p, |items|)], key);
  }

  /** The slot where a probe stops holds what the table maps the key to. */
  lemma SlotMeans(items: seq<Item>, hash: nat -> nat, contents: map<nat, nat>, key: nat, b: nat)
    requires Represents(items, hash, contents) && LandsOn(items, hash(key), key, b) && key != 0
    ensures Stops(items[b], key) && (items[b].key == 0 ==> items[b].value == 0)
    ensures key in contents <==> items[b].key == key
    ensures key in contents ==> items[b].value == contents[key]
  {
    if key in contents {
      assert Maps(items, hash(key), key, contents[key]);
      var c: nat :| LandsOn(items, hash(key), key, c) && items[c] == Item(key, contents[key]);
      LandsOnce(items, hash(key), key, b, c);
    }
  }

  /** Fewer keys than slots leave a slot free. */
  lemma HasFreeSlot(items: seq<Item>, hash: nat -> nat, contents: map<nat, nat>)
    requires Represents(items, hash, contents) && |contents| < |items|
    ensures exists b :: 0 <= b < |items| && items[b].key == 0
  {
    assert |contents.Keys| == |contents|;
    var s := seq(|items|, b requires 0 <= b < |items| => items[b].key);
    if forall b :: 0 <= b < |items| ==> items[b].key != 0 {
      Pigeonhole(s, contents.Keys);
    }
  }

  lemma OtherKeyStays(items: seq<Item>, items': seq<Item>, h: nat, k: nat, v: nat, b: nat, key: nat, value: nat)
    requires Maps(items, h, k, v) && b < |items| && Stops(items[b], key) && k != key && key != 0 && k != 0
    requires items' == items[b := Item(key, value)]
    ensures Maps(items', h, k, v)
  {
    var c: nat :| LandsOn(items, h, k, c) && items[c] == Item(k, v);
    var p: nat :| FoundAt(items, h, k, p) && Probe(h, p, |items|) == c;
    assert c != b;
    forall q: nat | q < p ensures !Stops(items'[Probe(h, q, |items'|)], k) {
      assert !Stops(items[Probe(h, q, |items|)], k);
    }
    assert FoundAt(items', h, k, p);
    assert LandsOn(items', h, k, c);
  }

  lemma NewKeyThere(items: seq<Item>, items': seq<Item>, h: nat, b: nat, key: nat, value: nat)
    requires LandsOn(items, h, key, b) && items' == items[b := Item(key, value)] && key != 0
    ensures Maps(items', h, key, value)
  {
    var p: nat :| FoundAt(items, h, key, p) && Probe(h, p, |items|) == b;
    forall q: nat | q < p ensures !Stops(items'[Probe(h, q, |items'|)], key) {
      assert !Stops(items[Probe(h, q, |items|)], key);
    }
    assert FoundAt(items', h, key, p);
    assert LandsOn(items', h, key, b);
  }

  /** Writing a key and value where the probe for the key stops adds or replaces exactly that pair. */
  lemma StoreMeans(items: seq<Item>, hash: nat -> nat, contents: map<nat, nat>, key: nat, value: nat, b: nat)
    requires Represents(items, hash, contents) && LandsOn(items, hash(key), key, b) && key != 0
    ensures Represents(items[b := Item(key, value)], hash, contents[key := value])
  {
    var items', contents' := items[b := Item(key, value)], contents[key := value];
    SlotMeans(items, hash, contents, key, b);
    forall k | k in contents' ensures Maps(items', hash(k), k, contents'[k]) {
      if k == key {
        NewKeyThere(items, items', hash(key), b, key, value);
      } else {
        OtherKeyStays(items, items', hash(k), k, contents[k], b, key, value);
      }
    }
    StillTidy(items, items', hash, contents, key, value, b);
  }

  lemma StillTidy(items: seq<Item>, items': seq<Item>, hash: nat -> nat, contents: map<nat, nat>, key: nat, value: nat,
        b: nat)
    requires Represents(items, hash, contents) && LandsOn(items, hash(key), key, b) && key != 0
    requires items' == items[b := Item(key, value)]
    ensures Tidy(items')
  {
    forall c | 0 <= c < |items| && c != b ensures items[c].key != key {
      if items[c].key == key {
        SlotMeans(items, hash, contents, key, b);
      }
    }
  }

  lemma ProbeNext(h: nat, p: nat, c: nat)
    requires c > 0
    ensures (Probe(h, p, c) + p + 1) % c == Probe(h, p + 1, c)
  {
    var x := h + Triangular(p);
    var y := x % c + p + 1;
    assert x + p + 1 == c * (x / c) + y;
    assert c * (x / c) + y == (x / c + y / c) * c + y % c;
    Integers.Remainder(x + p + 1, c, x / c + y / c, y % c);
  }

  lemma FirstProbe(h: nat, c: nat)
    requires c > 0
    ensures Probe(h, 0, c) == h % c
  {}

  /** Some probe stops, since a free slot exists and is reached. */
  lemma SomeProbeStops(items: seq<Item>, h: nat, key: nat)
    requires IsPow2(|items|) && exists b :: 0 <= b < |items| && items[b].key == 0
    ensures exists p: nat :: p < |items| && Stops(items[Probe(h, p, |items|)], key)
  {
    var b :| 0 <= b < |items| && items[b].key == 0;
    ProbesVisitAll(h, |items|, b);
    var p: nat :| p < |items| && Probe(h, p, |items|) == b;
    assert Stops(items[Probe(h, p, |items|)], key);
  }

  // ----- the table

  /** `compact_hash_table`, for an arbitrary hash function. */
  class Table {
    const hash: nat -> nat
    var items: array<Item>
    var count: nat
    ghost var contents: map<nat, nat>

    ghost predicate Valid()
      reads this, items
    {
      && (items.Length == 0 || (IsPow2(items.Length) && items.Length >= 32))
      && Represents(items[..], hash, contents)
      && count == |contents| && count <= items.Length - items.Length / 4
    }

    constructor (hash: nat -> nat)
      ensures Valid() && contents == map[] && items.Length == 0 && fresh(items) && this.hash == hash
    {
      this.hash := hash;
      items := new Item[0];
      count, contents := 0, map[];
    }

    /** `get_item`: the slot of key, or the free slot where it belongs. The end of the loop is never reached. */
    method GetItem(key: nat) returns (b: nat)
      requires key != 0 && IsPow2(items.Length)
      requires exists b :: 0 <= b < items.Length && items[b].key == 0
      ensures LandsOn(items[..], hash(key), key, b)
    {
      var hashmod := items.Length - 1;
      var h := hash(key);
      assert exists b :: 0 <= b < |items[..]| && items[..][b].key == 0;
      SomeProbeStops(items[..], h, key);
      hide IsPow2, Probe;
      var bucket := h % items.Length;
      FirstProbe(h, items.Length);
      var probe := 0;
      while probe <= hashmod
        invariant 0 <= probe <= items.Length && bucket == Probe(h, probe, items.Length) < items.Length
        invariant forall q: nat :: q < probe ==> !Stops(items[..][Probe(h, q, items.Length)], key)
      {
        if items[bucket].key == key || items[bucket].key == 0 {
          assert FoundAt(items[..], h, key, probe);
          return bucket;
        }
        ProbeNext(h, probe, items.Length);
        bucket := (bucket + probe + 1) % items.Length;
        probe := probe + 1;
      }
      assert false;
    }

    method Find(key: nat) returns (value: nat)
      requires Valid() && key != 0
      ensures value == if key in contents then contents[key] else 0
    {
      if items.Length == 0 { return 0; }
      hide Represents, IsPow2;
      HasFreeSlot(items[..], hash, contents);
      var b := GetItem(key);
      SlotMeans(items[..], hash, contents, key, b);
      value := items[b].value;
    }

    method Insert(key: nat, value: nat)
      requires Valid() && key != 0 && items.Length != 0 && count < items.Length - items.Length / 4
      modifies this, items
      ensures Valid() && contents == old(contents)[key := value] && items == old(items) && count <= old(count) + 1
    {
      hide Represents, IsPow2;
      HasFreeSlot(items[..], hash, contents);
      var b := GetItem(key);
      SlotMeans(items[..], hash, contents, key, b);
      StoreMeans(items[..], hash, contents, key, value, b);
      ghost var was := items[..];
      if items[b].key == 0 {
        count := count + 1;
      }
      assert |contents[key := value]| == if key in contents then |contents| else |contents| + 1;
      items[b] := Item(key, value);
      assert items[..] == was[b := Item(key, value)];
      contents := contents[key := value];
    }

    /** One slot, if it is occupied. */
    method CopySlot(rt: Table, i: nat)
      requires Valid() && rt.Valid() && rt != this && rt.items != items && i < items.Length
      requires rt.items.Length == 2 * items.Length && CopiedUpTo(items[..], i, contents, rt.contents)
      modifies rt, rt.items
      ensures rt.Valid() && rt.items == old(rt.items) && CopiedUpTo(items[..], i + 1, contents, rt.contents)
    {
      hide Represents, IsPow2, CopiedUpTo;
      if items[i].key != 0 {
        Fewer(items[..], hash, i, contents, rt.contents);
        rt.Insert(items[i].key, items[i].value);
      } else {
        FreeCopied(items[..], i, contents, rt.contents);
      }
    }

    method CopyAll(rt: Table)
      requires Valid() && rt.Valid() && rt != this && rt.items != items &&
        CopiedUpTo(items[..], 0, contents, rt.contents)
      requires items.Length > 0 ==> rt.items.Length == 2 * items.Length
      modifies rt, rt.items
      ensures rt.Valid() && rt.items == old(rt.items) && CopiedUpTo(items[..], items.Length, contents, rt.contents)
    {
      hide Valid, CopiedUpTo;
      ghost var was, slots := items[..], rt.items;
      var i := 0;
      while i < items.Length
        invariant 0 <= i <= items.Length && items[..] == was && rt.items == slots && Valid()
        invariant rt.Valid() && CopiedUpTo(was, i, contents, rt.contents)
      {
        CopySlot(rt, i);
        i := i + 1;
      }
    }

    /** The loop of `rehash`: every pair is inserted again. */
    method CopyInto(rt: Table)
      requires Valid() && rt.Valid() && rt != this && rt.items != items && rt.contents == map[]
      requires rt.items.Length == (if items.Length == 0 then 32 else 2 * items.Length)
      modifies rt, rt.items
      ensures rt.Valid() && rt.contents == contents && rt.items == old(rt.items)
    {
      hide Represents, IsPow2, CopiedUpTo;
      NothingCopied(items[..], contents);
      CopyAll(rt);
      AllCopied(items[..], hash, contents, rt.contents);
    }

    /** `rehash`: a table of twice the capacity (32 at first) takes the place of this one. */
    method Rehash()
      requires Valid()
      modifies this
      ensures Valid() && contents == old(contents) && count == old(count) && fresh(items)
      ensures items.Length == if old(items.Length) == 0 then 32 else 2 * old(items.Length)
    {
      var capacity := if items.Length == 0 then 32 else items.Length * 2;
      Doubled(items.Length);
      var rt := new Table(hash);
      rt.items := new Item[capacity](_ => Item(0, 0));
      hide IsPow2;
      BlankTable(rt.items[..], hash);
      hide Represents;
      CopyInto(rt);
      items := rt.items;
    }

    /** `reserve`: afterwards sixteen insertions fit without looking at the load again. */
    method Reserve()
      requires Valid()
      modifies this
      ensures Valid() && contents == old(contents) && count == old(count)
      ensures count + 16 < items.Length - items.Length / 4
      ensures items == old(items) || fresh(items)
    {
      hide Represents;
      if count + 16 >= items.Length - items.Length / 4 {
        Rehash();
      }
    }

    /** A caller's view of reserving: up to sixteen pairs go in without another look at the load. */
    method InsertReserved(pairs: seq<Item>)
      requires Valid() && |pairs| <= 16 && forall i :: 0 <= i < |pairs| ==> pairs[i].key != 0
      modifies this, items
      ensures Valid() && contents == Updated(old(contents), pairs)
      ensures items == old(items) || fresh(items)
    {
      hide Valid;
      Reserve();
      ghost var count0 := count;
      var i := 0;
      while i < |pairs|
        invariant 0 <= i <= |pairs| && Valid() && contents == Updated(old(contents), pairs[..i])
        invariant items == old(items) || fresh(items)
        invariant count <= count0 + i && count0 + 16 < items.Length - items.Length / 4
      {
        assert pairs[..i + 1][..i] == pairs[..i];
        Insert(pairs[i].key, pairs[i].value);
        i := i + 1;
      }
      assert pairs[..i] == pairs;
    }
  }

  /** A map after some pairs have been put in, one after the other. */
  function Updated(contents: map<nat, nat>, pairs: seq<Item>): map<nat, nat> {
    if pairs == [] then contents
    else var last := pairs[|pairs| - 1]; Updated(contents, pairs[..|pairs| - 1])[last.key := last.value]
  }

  lemma Doubled(c: nat)
    requires c == 0 || (IsPow2(c) && c >= 32)
    ensures IsPow2(if c == 0 then 32 else c * 2)
  {
    if c == 0 {
      assert Pow2(5) == 32;
    } else {
      var n: nat :| c == Pow2(n);
      assert c * 2 == Pow2(n + 1);
    }
  }

  lemma BlankTable(items: seq<Item>, hash: nat -> nat)
    requires forall b :: 0 <= b < |items| ==> items[b] == Item(0, 0)
    ensures Represents(items, hash, map[])
  {}

  /** done holds the pairs of the first i slots. */
  ghost predicate CopiedUpTo(items: seq<Item>, i: nat, contents: map<nat, nat>, done: map<nat, nat>)
    requires i <= |items|
  {
    && (forall k :: k in done ==> k in contents && done[k] == contents[k])
    && (forall b :: 0 <= b < i && items[b].key != 0 ==> items[b].key in done)
  }

  lemma NothingCopied(items: seq<Item>, contents: map<nat, nat>)
    ensures CopiedUpTo(items, 0, contents, map[])
  {}

  lemma FreeCopied(items: seq<Item>, i: nat, contents: map<nat, nat>, done: map<nat, nat>)
    requires i < |items| && CopiedUpTo(items, i, contents, done) && items[i].key == 0
    ensures CopiedUpTo(items, i + 1, contents, done)
  {}

  /** The pair in a slot is the one the table holds for its key. */
  lemma SlotPair(items: seq<Item>, hash: nat -> nat, i: nat, contents: map<nat, nat>)
    requires i < |items| && Represents(items, hash, contents) && items[i].key != 0
    ensures items[i].key in contents && contents[items[i].key] == items[i].value
  {
    var k := items[i].key;
    assert Maps(items, hash(k), k, contents[k]);
    hide LandsOn;
    var b: nat :| LandsOn(items, hash(k), k, b) && items[b] == Item(k, contents[k]);
    LandsInside(items, hash(k), k, b);
    assert items[b].key == items[i].key && b == i;
  }

  lemma LandsInside(items: seq<Item>, h: nat, key: nat, b: nat)
    requires LandsOn(items, h, key, b)
    ensures b < |items|
  {}

  /** The pair in slot i is one of the table, and no more pairs have been copied than there are. */
  lemma Fewer(items: seq<Item>, hash: nat -> nat, i: nat, contents: map<nat, nat>, done: map<nat, nat>)
    requires i < |items| && Represents(items, hash, contents) && CopiedUpTo(items, i, contents, done) &&
      items[i].key != 0
    ensures |done| <= |contents|
    ensures CopiedUpTo(items, i + 1, contents, done[items[i].key := items[i].value])
  {
    hide Represents;
    SlotPair(items, hash, i, contents);
    SubsetSize(done.Keys, contents.Keys);
    assert |done.Keys| == |done| && |contents.Keys| == |contents|;
  }

  lemma {:induction false} SubsetSize(a: set<nat>, b: set<nat>)
    requires a <= b
    ensures |a| <= |b|
    decreases |a|
  {
    if a == {} {
    } else {
      var x :| x in a;
      SubsetSize(a - {x}, b - {x});
    }
  }

  lemma AllCopied(items: seq<Item>, hash: nat -> nat, contents: map<nat, nat>, done: map<nat, nat>)
    requires Represents(items, hash, contents) && CopiedUpTo(items, |items|, contents, done)
    ensures done == contents
  {
    forall k | k in contents ensures k in done {
      assert Maps(items, hash(k), k, contents[k]);
      var b: nat :| LandsOn(items, hash(k), k, b) && items[b] == Item(k, contents[k]);
      LandsInside(items, hash(k), k, b);
      assert items[b].key in done || k == 0;
    }
  }
}
