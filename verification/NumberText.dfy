/** Integers in text by the codes of their characters and by the places of their digits. */
module NumberText {
  import opened Basics
  import opened Bytes
  import opened Integers

  /** The values of the digits: 0 to 9 from code 48, A to F from 65, a to f from 97. */
  lemma DigitCodes(c: byte)
    ensures InBase(Ten, c) <==> 48 <= c < 58
    ensures InBase(Sixteen, c) <==> 48 <= c < 58 || 65 <= c < 71 || 97 <= c < 103
    ensures 48 <= c < 58 ==> DigitOf(Ten, c) == c - 48 && DigitOf(Sixteen, c) == c - 48
    ensures 65 <= c < 71 ==> DigitOf(Sixteen, c) == 10 + (c - 65)
    ensures 97 <= c < 103 ==> DigitOf(Sixteen, c) == 10 + (c - 97)
  {}

  /** Place k of the value, counted from the end, holds the digit there, and nothing lies beyond the digits. */
  lemma {:induction false} DigitPlaces(b: Base, d: bytes, k: nat)
    requires AllIn(b, d)
    ensures (var n := if b.Ten? then 10 else 16;
             Pow(n, |d|) > 0 && Value(b, d) < Pow(n, |d|) && Pow(n, k) > 0 &&
             (k < |d| ==> Value(b, d) / Pow(n, k) % n == DigitOf(b, d[|d| - 1 - k])))
    decreases |d|
  {
    var n := if b.Ten? then 10 else 16;
    PowMono(n, 0, k);
    PowMono(n, 0, |d|);
    if d == [] {
    } else {
      var front, last := d[..|d| - 1], DigitOf(b, d[|d| - 1]);
      DigitPlaces(b, front, if k == 0 then 0 else k - 1);
      MulMono(Value(b, front) + 1, Pow(n, |d| - 1), n);
      if k == 0 {
        LastPlace(Value(b, front), n, last);
      } else {
        PowMono(n, 0, k - 1);
        NextPlace(Value(b, front), n, last, Pow(n, k - 1));
        assert k < |d| ==> front[|front| - 1 - (k - 1)] == d[|d| - 1 - k];
      }
    }
  }

  lemma LastPlace(v: nat, n: nat, last: nat)
    requires last < n
    ensures (v * n + last) / 1 % n == last
  {
    assert n * v == v * n;
    Quotient(v * n + last, n, v, last);
  }

  lemma NextPlace(v: nat, n: nat, last: nat, p: nat)
    requires last < n && p > 0
    ensures n * p > 0 && (v * n + last) / (n * p) == v / p
  {
    var q, r := v / p, v % p;
    Times(n, 1, p);
    Times(n, r + 1, p);
    Spread(n, p, q, r);
    Quotient(v * n + last, n * p, q, n * r + last);
  }

  lemma Spread(n: nat, p: nat, q: nat, r: nat)
    ensures (p * q + r) * n == (n * p) * q + n * r && n * (r + 1) == n * r + n
  {}

  // ----- what a text means

  predicate White(s: bytes) {
    forall i :: 0 <= i < |s| ==> s[i] == 9 || s[i] == 10 || s[i] == 13 || s[i] == 32
  }

  lemma {:induction false} WhiteSkipped(s: bytes, i: nat, e: nat)
    requires i <= e <= |s| && White(s[i..e]) && (e < |s| ==> s[e] !in {9, 10, 13, 32})
    ensures AfterSpaces(s, i) == e
    decreases e - i
  {
    if i == e {
    } else {
      assert s[i] == s[i..e][0] && s[i + 1..e] == s[i..e][1..];
      WhiteSkipped(s, i + 1, e);
    }
  }

  lemma {:induction false} DigitsTaken(b: Base, s: bytes, i: nat, e: nat)
    requires i <= e <= |s| && AllIn(b, s[i..e]) && (e < |s| ==> !InBase(b, s[e]))
    ensures RunEnd(b, s, i) == e
    decreases e - i
  {
    if i == e {
    } else {
      assert s[i] == s[i..e][0] && s[i + 1..e] == s[i..e][1..];
      DigitsTaken(b, s, i + 1, e);
    }
  }

  /** White space, a sign or none, decimal digits, and whatever does not go on with a digit. */
  lemma DecimalRead(white: bytes, sign: bytes, d: bytes, rest: bytes)
    requires White(white) && (sign == [] || sign == [43] || sign == [45])
    requires d != [] && (forall i :: 0 <= i < |d| ==> 48 <= d[i] <= 57) && (rest != [] ==> !(48 <= rest[0] <= 57))
    requires rest != [] && d == [48] ==> rest[0] != 120 && rest[0] != 88
    ensures AllIn(Ten, d) && Meaning(white + sign + d + rest) == if sign == [45] then -(Value(Ten, d) as int)
                                                               else Value(Ten, d)
  {
    hide Value, Read, AfterSpaces, RunEnd;
    var s, i := white + sign + d + rest, |white|;
    var j, k := i + |sign|, i + |sign| + |d|;
    Cut(white, sign, d, rest);
    WhiteSkipped(s, 0, i);
    DigitsTaken(Ten, s, j, k);
    ReadDecimalAt(s, i, j, k);
  }

  lemma ReadDecimalAt(s: bytes, i: nat, j: nat, k: nat)
    requires i <= j <= k <= |s| && AfterSpaces(s, 0) == i && RunEnd(Ten, s, j) == k
    requires if At(s, i) == 43 || At(s, i) == 45 then j == i + 1 else j == i
    requires At(s, j) == 48 ==> At(s, j + 1) != 120 && At(s, j + 1) != 88
    ensures Read(s) == Literal(At(s, i) == 45, Ten, s[j..k])
  {}

  /** The same with 0x or 0X in front of hexadecimal digits, of which there may be none. */
  lemma HexRead(white: bytes, sign: bytes, x: byte, d: bytes, rest: bytes)
    requires White(white) && (sign == [] || sign == [43] || sign == [45]) && (x == 120 || x == 88)
    requires AllIn(Sixteen, d) && (rest != [] ==> !InBase(Sixteen, rest[0]))
    ensures Meaning(white + sign + ([48, x] + d) + rest) == if sign == [45] then -(Value(Sixteen, d) as int)
                                                         else Value(Sixteen, d)
  {
    hide Value, Read, AfterSpaces, RunEnd;
    var s, i := white + sign + ([48, x] + d) + rest, |white|;
    var j, k := i + |sign|, i + |sign| + 2 + |d|;
    Cut(white, sign, [48, x] + d, rest);
    WhiteSkipped(s, 0, i);
    assert s[j + 2..k] == s[j..k][2..];
    DigitsTaken(Sixteen, s, j + 2, k);
    ReadHexAt(s, i, j, k);
  }

  lemma ReadHexAt(s: bytes, i: nat, j: nat, k: nat)
    requires i <= j && j + 2 <= k <= |s| && AfterSpaces(s, 0) == i && RunEnd(Sixteen, s, j + 2) == k
    requires if At(s, i) == 43 || At(s, i) == 45 then j == i + 1 else j == i
    requires At(s, j) == 48 && (At(s, j + 1) == 120 || At(s, j + 1) == 88)
    ensures Read(s) == Literal(At(s, i) == 45, Sixteen, s[j + 2..k])
  {}

  lemma Cut(a: bytes, b: bytes, c: bytes, d: bytes)
    ensures (var s := a + b + c + d;
             s[0..|a|] == a && s[|a|..|a| + |b|] == b && s[|a| + |b|..|a| + |b| + |c|] == c)
    ensures (var s, k := a + b + c + d, |a| + |b| + |c|;
             (d != [] ==> s[k] == d[0]) && (b != [] ==> s[|a|] == b[0]) && (c != [] ==> s[|a| + |b|] == c[0]) &&
             (|c| > 1 ==> s[|a| + |b| + 1] == c[1]) && (|c| == 1 && d != [] ==> s[|a| + |b| + 1] == d[0]))
  {}

  /** Text without a digit where one could begin means zero. */
  lemma NothingRead(white: bytes, rest: bytes)
    requires White(white) && (rest != [] ==> rest[0] !in {9, 10, 13, 32, 43, 45} && !(48 <= rest[0] <= 57))
    ensures Meaning(white + rest) == 0
  {
    var s, i := white + rest, |white|;
    assert s[0..i] == white && s[i..i] == [];
    WhiteSkipped(s, 0, i);
    DigitsTaken(Ten, s, i, i);
  }

  // ----- the ranges

  lemma WordSizes()
    ensures Modulus(2) == 65536 && Modulus(4) == 4294967296 && Modulus(8) == 18446744073709551616
  {}

  /** The nearest number of the range. */
  lemma ClampNearest(v: int, min: int, max: int, x: int)
    requires min <= x <= max
    ensures min <= Clamp(v, min, max) <= max && Apart(v, Clamp(v, min, max)) <= Apart(v, x)
  {}

  function Apart(a: int, b: int): nat {
    if a < b then b - a else a - b
  }

  // ----- printing

  /** Decimal digits without a leading zero, with a minus sign in front of the digits of a negative number. */
  lemma {:induction false} DecimalForm(n: nat)
    ensures forall i :: 0 <= i < |Decimal(n)| ==> 48 <= Decimal(n)[i] <= 57
    ensures n > 0 ==> Decimal(n)[0] != 48
    ensures n == 0 ==> Decimal(n) == [48]
    ensures n > 0 ==> Printed(n) == Decimal(n) && Printed(0 - n as int) == [45] + Decimal(n)
  {
    if n < 10 {
    } else {
      DecimalForm(n / 10);
    }
  }
}
