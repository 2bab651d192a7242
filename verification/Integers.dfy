/** Reading integers with modular arithmetic and clamping, and printing them. */
module Integers {
  import opened Bytes

  /** Width of the unsigned type U in bytes. */
  type width = w: nat | w == 2 || w == 4 || w == 8 witness 4

  function Modulus(w: width): nat {
    if w == 2 then 0x1_0000 else if w == 4 then 0x1_0000_0000 else 0x1_0000_0000_0000_0000
  }

  predicate IsSpace(c: byte) {
    c == 9 || c == 10 || c == 13 || c == 32
  }

  predicate IsDigit(c: byte) {
    48 <= c <= 57
  }

  predicate IsHexDigit(c: byte) {
    IsDigit(c) || 65 <= c <= 70 || 97 <= c <= 102
  }

  datatype Base = Ten | Sixteen

  function Radix(b: Base): nat {
    if b.Ten? then 10 else 16
  }

  predicate InBase(b: Base, c: byte) {
    if b.Ten? then IsDigit(c) else IsHexDigit(c)
  }

  function DigitOf(b: Base, c: byte): (r: nat)
    requires InBase(b, c)
    ensures r < Radix(b)
  {
    if IsDigit(c) then c - 48 else if c <= 70 then c - 55 else c - 87
  }

  predicate AllIn(b: Base, d: bytes) {
    forall i :: 0 <= i < |d| ==> InBase(b, d[i])
  }

  /** The number a string of digits stands for. */
  function Value(b: Base, d: bytes): nat
    requires AllIn(b, d)
  {
    if d == [] then 0 else Value(b, d[..|d| - 1]) * Radix(b) + DigitOf(b, d[|d| - 1])
  }

  /** First position from i on whose character is not a space. */
  function AfterSpaces(s: bytes, i: nat): (j: nat)
    requires i <= |s|
    ensures i <= j <= |s|
    decreases |s| - i
  {
    if IsSpace(At(s, i)) then AfterSpaces(s, i + 1) else i
  }

  /** End of the digits that start at i. */
  function RunEnd(b: Base, s: bytes, i: nat): (j: nat)
    requires i <= |s|
    ensures i <= j <= |s| && AllIn(b, s[i..j]) && !InBase(b, At(s, j))
    decreases |s| - i
  {
    if InBase(b, At(s, i)) then
      assert forall j :: i < j <= |s| ==> s[i..j] == [s[i]] + s[i + 1..j];
      RunEnd(b, s, i + 1)
    else i
  }

  /** What a text means as an integer: optional space, optional sign, optional 0x, then as many digits as follow. */
  datatype Literal = Literal(negative: bool, base: Base, digits: bytes)

  function Read(s: bytes): (r: Literal)
    ensures AllIn(r.base, r.digits)
  {
    var i := AfterSpaces(s, 0);
    var j := if At(s, i) == '+' as int || At(s, i) == '-' as int then i + 1 else i;
    var hex := At(s, j) == '0' as int && (At(s, j + 1) == 'x' as int || At(s, j + 1) == 'X' as int);
    var k := if hex then j + 2 else j;
    var b := if hex then Sixteen else Ten;
    Literal(At(s, i) == '-' as int, b, s[k..RunEnd(b, s, k)])
  }

  function Meaning(s: bytes): int {
    var r := Read(s);
    var v: int := Value(r.base, r.digits);
    if r.negative then -v else v
  }

  function Clamp(v: int, min: int, max: int): int {
    if v < min then min else if v > max then max else v
  }

  // ----- digit strings

  function Pow(b: nat, n: nat): nat {
    if n == 0 then 1 else b * Pow(b, n - 1)
  }

  lemma {:induction false} LeadingZeros(b: Base, z: bytes, d: bytes)
    requires AllIn(b, z + d) && forall i :: 0 <= i < |z| ==> z[i] == '0' as int
    ensures AllIn(b, d) && Value(b, z + d) == Value(b, d)
    decreases |z| + |d|
  {
    assert forall i :: 0 <= i < |d| ==> d[i] == (z + d)[|z| + i];
    if d != [] {
      assert (z + d)[..|z + d| - 1] == z + d[..|d| - 1];
      LeadingZeros(b, z, d[..|d| - 1]);
    } else if z != [] {
      assert (z + d)[..|z + d| - 1] == z[..|z| - 1] + d;
      LeadingZeros(b, z[..|z| - 1], d);
    }
  }

  /** The leading digit and the length bound the value. */
  lemma {:induction false} ValueBounds(b: Base, d: bytes)
    requires AllIn(b, d) && d != []
    ensures DigitOf(b, d[0]) * Pow(Radix(b), |d| - 1) <= Value(b, d) < (DigitOf(b, d[0]) + 1) * Pow(Radix(b), |d| - 1)
    decreases |d|
  {
    var r, n, lead := Radix(b), |d| - 1, DigitOf(b, d[0]);
    if n > 0 {
      ValueBounds(b, d[..n]);
      var p, v := Pow(r, n - 1), Value(b, d[..n]);
      assert v * r <= Value(b, d) < (v + 1) * r;
      MulThrough(lead, p, r, v);
    } else {
      assert d[..0] == [];
    }
  }

  lemma MulThrough(lead: nat, p: nat, r: nat, v: nat)
    requires lead * p <= v < (lead + 1) * p
    ensures lead * (r * p) <= v * r && (v + 1) * r <= (lead + 1) * (r * p)
  {
    assert lead * (r * p) == (lead * p) * r;
    assert (lead + 1) * (r * p) == ((lead + 1) * p) * r;
    MulMono(lead * p, v, r);
    MulMono(v + 1, (lead + 1) * p, r);
  }

  lemma MulMono(a: nat, b: nat, r: nat)
    requires a <= b
    ensures a * r <= b * r
  {}

  lemma {:induction false} PowMono(b: nat, m: nat, n: nat)
    requires m <= n && b >= 1
    ensures 1 <= Pow(b, m) <= Pow(b, n)
    decreases n
  {
    if n == 0 {
    } else {
      if m < n {
        PowMono(b, m, n - 1);
        MulMono(1, b, Pow(b, n - 1));
      } else {
        PowMono(b, n - 1, n - 1);
        MulMono(1, b, Pow(b, n - 1));
      }
    }
  }

  lemma Powers()
    ensures Pow(10, 4) == 10000 && Pow(10, 5) == 100000
    ensures Pow(10, 9) == 10_0000_0000 && Pow(10, 10) == 100_0000_0000
    ensures Pow(10, 19) == 1000_0000_0000_0000_0000 && Pow(10, 20) == 1_0000_0000_0000_0000_0000
    ensures Pow(16, 4) == 0x1_0000 && Pow(16, 8) == 0x1_0000_0000 && Pow(16, 16) == 0x1_0000_0000_0000_0000
  {
    assert Pow(10, 2) == 100 && Pow(16, 2) == 256;
    assert Pow(10, 7) == 1000_0000;
    assert Pow(10, 12) == 1_0000_0000_0000;
    assert Pow(10, 15) == 1000_0000_0000_0000;
    assert Pow(10, 18) == 100_0000_0000_0000_0000;
    assert Pow(16, 6) == 0x100_0000;
    assert Pow(16, 10) == 0x100_0000_0000;
    assert Pow(16, 13) == 0x10_0000_0000_0000;
  }

  function MaxDigits10(w: width): nat {
    if w == 8 then 20 else if w == 4 then 10 else 5
  }

  function MaxLead(w: width): byte {
    if w == 8 then '1' as int else if w == 4 then '4' as int else '6' as int
  }

  /** The number of digits, the first digit and the top bit of the wrapped result tell whether it wrapped. */
  predicate DecimalOverflow(w: width, digits: nat, first: byte, wrapped: nat) {
    digits >= MaxDigits10(w) &&
    !(digits == MaxDigits10(w) && (first < MaxLead(w) || (first == MaxLead(w) && wrapped >= Modulus(w) / 2)))
  }

  lemma DecimalOverflowExact(w: width, d: bytes)
    requires AllIn(Ten, d) && (d != [] ==> d[0] != '0' as int)
    ensures DecimalOverflow(w, |d|, At(d, 0), Value(Ten, d) % Modulus(w)) <==> Value(Ten, d) >= Modulus(w)
  {
    hide Value, Pow;
    if |d| < MaxDigits10(w) {
      ShortFits(w, d);
    } else if |d| > MaxDigits10(w) {
      LongOverflows(w, d);
    } else {
      ValueBounds(Ten, d);
      var v, m := Value(Ten, d), Modulus(w);
      LeadCases(w, DigitOf(Ten, d[0]), v);
      Wrapped(v, w);
    }
  }

  lemma Wrapped(v: nat, w: width)
    ensures v < Modulus(w) ==> v % Modulus(w) == v
    ensures Modulus(w) <= v < 2 * Modulus(w) ==> v % Modulus(w) == v - Modulus(w)
  {}

  lemma ShortFits(w: width, d: bytes)
    requires AllIn(Ten, d) && |d| < MaxDigits10(w)
    ensures Value(Ten, d) < Modulus(w)
  {
    Powers();
    if d != [] {
      ValueBounds(Ten, d);
      PowMono(10, |d| - 1, MaxDigits10(w) - 2);
      LeadBelow(DigitOf(Ten, d[0]), 9, Pow(10, |d| - 1), Pow(10, MaxDigits10(w) - 2));
      assert 10 * Pow(10, MaxDigits10(w) - 2) == Pow(10, MaxDigits10(w) - 1);
    } else {
      assert Value(Ten, d) == 0;
    }
  }

  lemma LongOverflows(w: width, d: bytes)
    requires AllIn(Ten, d) && |d| > MaxDigits10(w) && d[0] != '0' as int
    ensures Value(Ten, d) >= Modulus(w)
  {
    Powers();
    ValueBounds(Ten, d);
    PowMono(10, MaxDigits10(w), |d| - 1);
    MulMono(1, DigitOf(Ten, d[0]), Pow(10, |d| - 1));
  }

  lemma LeadBelow(lead: nat, top: nat, p: nat, q: nat)
    requires lead <= top && p <= q
    ensures (lead + 1) * p <= (top + 1) * q
  {
    MulMono(lead + 1, top + 1, p);
    assert (top + 1) * p <= (top + 1) * q by { MulMono(p, q, top + 1); }
  }

  lemma LeadCases(w: width, lead: nat, v: nat)
    requires 1 <= lead <= 9
    requires lead * Pow(10, MaxDigits10(w) - 1) <= v < (lead + 1) * Pow(10, MaxDigits10(w) - 1)
    ensures lead + 48 < MaxLead(w) ==> v < Modulus(w)
    ensures lead + 48 > MaxLead(w) ==> v >= Modulus(w)
    ensures lead + 48 == MaxLead(w) ==> v < 2 * Modulus(w)
    ensures lead + 48 == MaxLead(w) ==> if v < Modulus(w) then v >= Modulus(w) / 2 else v - Modulus(w) < Modulus(w) / 2
  {
    Powers();
  }

  /** With leading zeros gone, more than two hexadecimal digits a byte is too much. */
  lemma HexOverflowExact(w: width, d: bytes)
    requires AllIn(Sixteen, d) && (d != [] ==> d[0] != '0' as int)
    ensures |d| > 2 * w <==> Value(Sixteen, d) >= Modulus(w)
  {
    if d != [] {
      var k, lead := |d|, DigitOf(Sixteen, d[0]);
      ValueBounds(Sixteen, d);
      Powers();
      assert Pow(16, 2 * w) == Modulus(w);
      if k > 2 * w {
        PowMono(16, 2 * w, k - 1);
        MulMono(1, lead, Pow(16, k - 1));
      } else {
        PowMono(16, k, 2 * w);
        MulMono(lead + 1, 16, Pow(16, k - 1));
      }
    }
  }

  // ----- reading

  lemma AddMultiple(w: width, x: nat, t: nat)
    ensures (x + t * Modulus(w)) % Modulus(w) == x % Modulus(w)
  {
    var m := Modulus(w);
    hide Modulus;
    ModulusPositive(w);
    Regroup(x / m, t, m);
    Remainder(x + t * m, m, x / m + t, x % m);
  }

  lemma Regroup(a: nat, b: nat, m: nat)
    ensures a * m + b * m == (a + b) * m && a * m == m * a
  {}

  /** Unsigned arithmetic of width w. */
  function Wrap(w: width, v: nat): nat {
    v % Modulus(w)
  }

  /** The value accumulated modulo the word size. */
  lemma ModStep(w: width, v: nat, b: Base, c: nat)
    ensures Wrap(w, Wrap(w, v) * Radix(b) + c) == Wrap(w, v * Radix(b) + c)
  {
    var m, q, r, k := Modulus(w), v / Modulus(w), v % Modulus(w), Radix(b);
    hide Modulus, Radix;
    AddMultiple(w, r * k + c, q * k);
    Distribute(q, m, r, k);
  }

  lemma Distribute(q: nat, m: nat, r: nat, k: nat)
    ensures (q * m + r) * k == r * k + (q * k) * m
  {
    assert (q * m + r) * k == (q * m) * k + r * k;
    assert (q * m) * k == (q * k) * m;
  }

  lemma ValueGrows(b: Base, s: bytes, start: nat, i: nat)
    requires start <= i < |s| && AllIn(b, s[start..i]) && InBase(b, s[i])
    ensures AllIn(b, s[start..i + 1])
    ensures Value(b, s[start..i + 1]) == Value(b, s[start..i]) * Radix(b) + DigitOf(b, s[i])
  {
    var t := s[start..i + 1];
    assert t[..|t| - 1] == s[start..i] && t[|t| - 1] == s[i];
    hide Radix, DigitOf, InBase;
  }

  /** `result = result * base + digit` in the unsigned type. */
  function Push(w: width, b: Base, result: nat, digit: nat): nat {
    Wrap(w, result * Radix(b) + digit)
  }

  /** One digit more. */
  lemma DigitStep(w: width, b: Base, s: bytes, start: nat, i: nat)
    requires start <= i < |s| && AllIn(b, s[start..i]) && InBase(b, s[i])
    ensures AllIn(b, s[start..i + 1])
    ensures Push(w, b, Wrap(w, Value(b, s[start..i])), DigitOf(b, s[i])) == Wrap(w, Value(b, s[start..i + 1]))
  {
    ValueGrows(b, s, start, i);
    ModStep(w, Value(b, s[start..i]), b, DigitOf(b, s[i]));
    hide Wrap, Radix, DigitOf, Value;
  }

  /** Bit 5 set, as in `c | ' '`. */
  function WithBit5(c: byte): byte {
    if c / 32 % 2 == 0 then c + 32 else c
  }

  /** The two character tests of the digit loop; -1 for a character that is no digit. */
  function DigitHere(b: Base, c: byte): int {
    if 48 <= c < 58 then c - 48
    else if b.Sixteen? && 97 <= WithBit5(c) < 103 then WithBit5(c) - 97 + 10
    else -1
  }

  lemma RunStep(b: Base, s: bytes, i: nat)
    requires i <= |s|
    ensures (var d := DigitHere(b, At(s, i));
             if d < 0 then RunEnd(b, s, i) == i
             else i < |s| && RunEnd(b, s, i) == RunEnd(b, s, i + 1) && InBase(b, s[i]) && d == DigitOf(b, s[i]))
  {}

  lemma ModulusPositive(w: width)
    ensures Modulus(w) >= 0x1_0000 && Modulus(w) % 2 == 0 && 0 % Modulus(w) == 0
  {}

  /** The loop over the digits of one base: the value modulo the word size, and where the digits end. */
  method Accumulate(w: width, b: Base, s: bytes, start: nat) returns (result: nat, end: nat)
    requires start <= |s|
    ensures end == RunEnd(b, s, start) && AllIn(b, s[start..end]) && result == Wrap(w, Value(b, s[start..end]))
  {
    result, end := 0, start;
    EmptyValue(w, b, s, start);
    hide *;
    while true
      invariant start <= end <= |s| && AllIn(b, s[start..end]) && RunEnd(b, s, start) == RunEnd(b, s, end)
      invariant result == Wrap(w, Value(b, s[start..end]))
      decreases |s| - end
    {
      var digit := DigitHere(b, At(s, end));
      RunStep(b, s, end);
      if digit < 0 { break; }
      DigitStep(w, b, s, start, end);
      result := Push(w, b, result, digit);
      end := end + 1;
    }
  }

  lemma EmptyValue(w: width, b: Base, s: bytes, start: nat)
    requires start <= |s|
    ensures AllIn(b, s[start..start]) && Wrap(w, Value(b, s[start..start])) == 0
  {
    ModulusPositive(w);
  }

  /** The lower bound that minv stands for. */
  function MinOf(w: width, minv: nat): int {
    if minv == 0 then 0 else minv - Modulus(w)
  }

  method SkipZeros(s: bytes, b: Base, i: nat) returns (j: nat)
    requires i <= |s|
    ensures i <= j <= |s| && At(s, j) != '0' as int && RunEnd(b, s, i) == RunEnd(b, s, j)
    ensures forall k :: i <= k < j ==> s[k] == '0' as int
  {
    j := i;
    while At(s, j) == '0' as int
      invariant i <= j <= |s| && RunEnd(b, s, i) == RunEnd(b, s, j) && forall k :: i <= k < j ==> s[k] == '0' as int
      decreases |s| - j
    {
      j := j + 1;
    }
  }

  lemma DroppedZeros(b: Base, s: bytes, i: nat, j: nat, e: nat)
    requires i <= j <= e <= |s| && AllIn(b, s[i..e]) && forall k :: i <= k < j ==> s[k] == '0' as int
    ensures AllIn(b, s[j..e]) && Value(b, s[i..e]) == Value(b, s[j..e])
    ensures At(s[j..e], 0) == if j < e then s[j] else 0
  {
    assert s[i..e] == s[i..j] + s[j..e];
    LeadingZeros(b, s[i..j], s[j..e]);
  }

  /** The hexadecimal branch: digits after the prefix. */
  method ReadHex(w: width, value: bytes, s: nat) returns (result: nat, overflow: bool)
    requires s <= |value|
    ensures (var v := Value(Sixteen, value[s..RunEnd(Sixteen, value, s)]);
             result == v % Modulus(w) && (overflow <==> v >= Modulus(w)))
  {
    var start := SkipZeros(value, Sixteen, s);
    ghost var e := RunEnd(Sixteen, value, s);
    DroppedZeros(Sixteen, value, s, start, e);
    HexOverflowExact(w, value[start..e]);
    hide Value;
    var end;
    result, end := Accumulate(w, Sixteen, value, start);
    overflow := end - start > w * 2;
  }

  /** The decimal branch. */
  method ReadDecimal(w: width, value: bytes, s: nat) returns (result: nat, overflow: bool)
    requires s <= |value|
    ensures (var v := Value(Ten, value[s..RunEnd(Ten, value, s)]);
             result == v % Modulus(w) && (overflow <==> v >= Modulus(w)))
  {
    var start := SkipZeros(value, Ten, s);
    ghost var e := RunEnd(Ten, value, s);
    DroppedZeros(Ten, value, s, start, e);
    assert e < |value| ==> At(value, e) == value[e];
    DecimalOverflowExact(w, value[start..e]);
    hide Value;
    var end;
    result, end := Accumulate(w, Ten, value, start);
    var digits := end - start;
    overflow := digits >= MaxDigits10(w) &&
      !(digits == MaxDigits10(w) &&
        (At(value, start) < MaxLead(w) || (At(value, start) == MaxLead(w) && result / (Modulus(w) / 2) != 0)));
    TopBit(w, result);
  }

  lemma TopBit(w: width, r: nat)
    ensures r / (Modulus(w) / 2) != 0 <==> r >= Modulus(w) / 2
  {}

  /** The exact integer clamped to the range, as a value of U. */
  function Clamped(w: width, value: bytes, minv: nat, maxv: nat): nat {
    ModulusPositive(w);
    Clamp(Meaning(value), MinOf(w, minv), maxv) % Modulus(w)
  }

  /** A comparison in U is made in int if U is narrower than int, and then a lower bound other than zero is misread. */
  function Outcome(w: width, intWidth: width, value: bytes, minv: nat, maxv: nat): nat {
    if w < intWidth && minv != 0 && Read(value).negative then minv else Clamped(w, value, minv, maxv)
  }

  /** Every text is read right if and only if U is as wide as int or has no negative values. */
  lemma PromotionExact(w: width, intWidth: width, minv: nat, maxv: nat)
    requires minv < Modulus(w) && maxv < Modulus(w)
    ensures (forall value :: Outcome(w, intWidth, value, minv, maxv) == Clamped(w, value, minv, maxv)) <==>
      (intWidth <= w || minv == 0)
  {
    if w < intWidth && minv != 0 {
      MinusAlone();
      assert Outcome(w, intWidth, ['-' as int], minv, maxv) != Clamped(w, ['-' as int], minv, maxv);
    }
  }

  lemma MinusAlone()
    ensures Read(['-' as int]) == Literal(true, Ten, []) && Meaning(['-' as int]) == 0
  {
    var s := ['-' as int];
    assert AfterSpaces(s, 0) == 0 && RunEnd(Ten, s, 1) == 1;
    assert s[1..1] == [];
  }

  /** With a 16-bit U and a 32-bit int, "-5" is read as the least value. */
  lemma NarrowMisread()
    ensures Outcome(2, 4, ['-' as int, '5' as int], 0x8000, 0x7FFF) == 0x8000
    ensures Clamped(2, ['-' as int, '5' as int], 0x8000, 0x7FFF) == 0xFFFB
  {
    var s := ['-' as int, '5' as int];
    assert AfterSpaces(s, 0) == 0 && RunEnd(Ten, s, 1) == RunEnd(Ten, s, 2) == 2;
    assert s[1..2] == ['5' as int];
    var five := ['5' as int];
    assert five[..0] == [] && Value(Ten, five) == 5;
    assert Meaning(s) == -5;
  }

  /** The first half of `string_to_integer<U>`: sign, wrapped magnitude, and whether it wrapped. */
  method ReadMagnitude(w: width, value: bytes) returns (negative: bool, result: nat, overflow: bool)
    ensures (var l := Read(value); var v := Value(l.base, l.digits);
             negative == l.negative && result == v % Modulus(w) && (overflow <==> v >= Modulus(w)))
  {
    hide Value, Modulus, RunEnd;
    var s := 0;
    while IsSpace(At(value, s))
      invariant 0 <= s <= |value| && AfterSpaces(value, 0) == AfterSpaces(value, s)
      decreases |value| - s
    {
      s := s + 1;
    }
    negative := At(value, s) == '-' as int;
    s := s + if At(value, s) == '+' as int || At(value, s) == '-' as int then 1 else 0;
    if At(value, s) == '0' as int && WithBit5(At(value, s + 1)) == 'x' as int {
      s := s + 2;
      result, overflow := ReadHex(w, value, s);
    } else {
      result, overflow := ReadDecimal(w, value, s);
    }
  }

  /** `string_to_integer<U>`, for an int of the given width. */
  method StringToInteger(w: width, intWidth: width, value: bytes, minv: nat, maxv: nat) returns (r: nat)
    requires minv < Modulus(w) && maxv < Modulus(w)
    ensures r == Outcome(w, intWidth, value, minv, maxv)
  {
    hide *;
    var negative, result, overflow := ReadMagnitude(w, value);
    InRange(w, Value(Read(value).base, Read(value).digits), minv, maxv);
    OutcomeCases(w, intWidth, value, minv, maxv);
    if negative {
      var bound := if w < intWidth then 0 - minv else (0 - minv) % Modulus(w);
      r := if overflow || result > bound then minv else (0 - result) % Modulus(w);
    } else {
      r := if overflow || result > maxv then maxv else result;
    }
  }

  lemma OutcomeCases(w: width, intWidth: width, value: bytes, minv: nat, maxv: nat)
    requires minv < Modulus(w) && maxv < Modulus(w)
    ensures (var l := Read(value); var v: int := Value(l.base, l.digits);
             Outcome(w, intWidth, value, minv, maxv)
             == if w < intWidth && minv != 0 && l.negative then minv
                else Clamp(if l.negative then -v else v, MinOf(w, minv), maxv) % Modulus(w))
  {
    hide Value, Clamp, MinOf, Modulus, Read;
  }

  lemma InRange(w: width, v: nat, minv: nat, maxv: nat)
    requires minv < Modulus(w) && maxv < Modulus(w)
    ensures Modulus(w) > 0 && (v < Modulus(w) ==> v % Modulus(w) == v)
    ensures Clamp(v, MinOf(w, minv), maxv) % Modulus(w) == if v >= Modulus(w) || v > maxv then maxv else v
    ensures Clamp(-(v as int), MinOf(w, minv), maxv) % Modulus(w)
         == if v >= Modulus(w) || v > (0 - minv) % Modulus(w) then minv else (0 - v) % Modulus(w)
  {
    var m := Modulus(w);
    hide Modulus;
    ModulusPositive(w);
    Small(w, maxv);
    Small(w, minv);
    if v < m { Small(w, v); }
  }

  /** Reduction of a number and of its negative, within the range. */
  lemma Small(w: width, v: nat)
    requires v < Modulus(w)
    ensures v % Modulus(w) == v
    ensures (0 - v) % Modulus(w) == if v == 0 then 0 else Modulus(w) - v
    ensures (v - Modulus(w)) % Modulus(w) == v
  {
    Below(v, Modulus(w));
  }

  lemma Below(v: nat, m: nat)
    requires v < m
    ensures v % m == v && (v - m) % m == v && (0 - v) % m == if v == 0 then 0 else m - v
  {
    Remainder(v, m, 0, v);
    Remainder(v - m, m, -1, v);
    if v > 0 { Remainder(0 - v, m, -1, m - v); }
  }

  lemma Remainder(x: int, m: nat, q: int, r: nat)
    requires r < m && x == q * m + r
    ensures x % m == r
  {
    var k := x / m - q;
    assert x == (q + k) * m + x % m;
    assert (q + k) * m == q * m + k * m;
    assert (-k) * m == -(k * m);
    if k >= 1 {
      MulAtLeast(k, m);
    } else if k <= -1 {
      MulAtLeast(-k, m);
    }
  }

  lemma MulAtLeast(k: int, m: nat)
    requires k >= 1
    ensures k * m >= m
  {
    assert k * m == (k - 1) * m + m;
  }

  // ----- the typed readers

  /** A U read as its signed counterpart. */
  function Signed(w: width, u: nat): int {
    if u >= Modulus(w) / 2 then u - Modulus(w) else u
  }

  lemma SignedBack(w: width, v: int)
    requires -(Modulus(w) / 2) <= v < Modulus(w) / 2
    ensures Modulus(w) > 0 && Signed(w, v % Modulus(w)) == v
  {
    if v < 0 { assert v % Modulus(w) == v + Modulus(w); }
  }

  /** `get_value_int` and `get_value_llong`; no type they read is narrower than int. */
  method GetValueInt(w: width, intWidth: width, value: bytes) returns (r: int)
    requires intWidth <= w
    ensures r == Clamp(Meaning(value), -(Modulus(w) / 2), Modulus(w) / 2 - 1)
  {
    hide Meaning, Signed;
    var u := StringToInteger(w, intWidth, value, Modulus(w) / 2, Modulus(w) / 2 - 1);
    SignedBack(w, Clamp(Meaning(value), -(Modulus(w) / 2), Modulus(w) / 2 - 1));
    r := Signed(w, u);
  }

  /** `get_value_uint` and `get_value_ullong`. */
  method GetValueUint(w: width, intWidth: width, value: bytes) returns (r: nat)
    requires intWidth <= w
    ensures r == Clamp(Meaning(value), 0, Modulus(w) - 1)
  {
    hide Meaning;
    r := StringToInteger(w, intWidth, value, 0, Modulus(w) - 1);
  }

  // ----- printing

  function Decimal(n: nat): (r: bytes)
    ensures |r| >= 1
  {
    if n < 10 then [48 + n] else Decimal(n / 10) + [48 + n % 10]
  }

  /** The decimal form of an integer. */
  function Printed(v: int): bytes {
    if v < 0 then ['-' as int] + Decimal(-v) else Decimal(v)
  }

  lemma {:induction false} DecimalLength(n: nat, k: nat)
    requires n < Pow(10, k) && k >= 1
    ensures |Decimal(n)| <= k
    decreases k
  {
    if n < 10 {
    } else {
      assert k > 1 by { assert Pow(10, 1) == 10; }
      DecimalLength(n / 10, k - 1);
    }
  }

  /** The digits that are still to come. */
  ghost function Ahead(rest: nat): bytes {
    if rest == 0 then [] else Decimal(rest)
  }

  function DigitChar(n: nat): byte {
    48 + n % 10
  }

  lemma LastDigit(rest: nat)
    ensures Decimal(rest) == Ahead(rest / 10) + [DigitChar(rest)] && (rest > 0 ==> rest / 10 < rest)
  {}

  /** `0 - value` in the unsigned type. */
  function Negate(w: width, u: nat): (r: nat)
    ensures r < Modulus(w)
  {
    (0 - u) % Modulus(w)
  }

  /** The digits of n fill the end of the buffer from position i on, but for those still ahead. */
  ghost predicate Filled(text: bytes, i: int, n: nat, rest: nat) {
    0 <= i < |text| && Decimal(n) == Ahead(rest) + text[i + 1..]
  }

  /** One digit more in front. */
  lemma FilledNext(text: bytes, i: nat, n: nat, rest: nat, text': bytes)
    requires Filled(text, i, n, rest) && rest != 0 && |Decimal(n)| <= 20 && |text| == 64
    requires text' == text[i := DigitChar(rest)]
    ensures rest / 10 < rest && i > 0 && Filled(text', i - 1, n, rest / 10)
  {
    AheadOf(rest);
    LastDigit(rest);
    hide Decimal, Ahead, DigitChar;
    assert text'[i..] == [DigitChar(rest)] + text[i + 1..];
  }

  lemma FilledFirst(text: bytes, n: nat)
    requires |text| == 64 && text[63] == DigitChar(n)
    ensures Filled(text, 62, n, n / 10)
  {
    LastDigit(n);
  }

  /** `integer_to_string`: digits from the last to the first, then the sign, from the end of the buffer backwards. */
  method IntegerToString(w: width, buf: array<byte>, value: nat, negative: bool) returns (start: nat)
    requires value < Modulus(w) && buf.Length == 64
    modifies buf
    ensures start < 64 && buf[start..] == (if negative then ['-' as int] else []) +
      Decimal(if negative then Negate(w, value) else value)
  {
    var result := 63;
    var rest: nat := if negative then Negate(w, value) else value;
    ghost var n := rest;
    DigitsFit(w, n);
    hide Decimal, Ahead, Modulus, Negate, DigitChar, Filled;
    buf[result] := DigitChar(rest);
    FilledFirst(buf[..], n);
    result := result - 1;
    rest := rest / 10;
    while rest != 0
      invariant 0 <= result <= 62 && Filled(buf[..], result, n, rest)
      decreases rest
    {
      ghost var was := buf[..];
      buf[result] := DigitChar(rest);
      FilledNext(was, result, n, rest, buf[..]);
      result := result - 1;
      rest := rest / 10;
    }
    ghost var was := buf[..];
    buf[result] := '-' as int;
    FilledAll(was, result, n, buf[..]);
    start := if negative then result else result + 1;
  }

  lemma FilledAll(text: bytes, i: nat, n: nat, text': bytes)
    requires Filled(text, i, n, 0) && text' == text[i := '-' as int]
    ensures i < |text'| && text'[i..] == ['-' as int] + Decimal(n) && text'[i + 1..] == [] + Decimal(n) &&
      i + 1 < |text'|
  {
    assert text'[i..] == ['-' as int] + text[i + 1..];
  }

  lemma AheadOf(rest: nat)
    ensures Ahead(rest) == if rest == 0 then [] else Decimal(rest)
  {}

  lemma DigitsFit(w: width, n: nat)
    requires n < Modulus(w)
    ensures |Decimal(n)| <= 20
  {
    Powers();
    DecimalLength(n, 20);
  }

  /** `set_value_integer`: the text of a signed value. */
  method SetValueInt(w: width, v: int) returns (text: bytes)
    requires -(Modulus(w) / 2) <= v < Modulus(w) / 2
    ensures text == Printed(v)
  {
    var buf := new byte[64];
    AsUnsigned(w, v);
    var start := IntegerToString(w, buf, v % Modulus(w), v < 0);
    text := buf[start..];
  }

  /** The magnitude survives the cast to the unsigned type, for the minimum too. */
  lemma AsUnsigned(w: width, v: int)
    requires -(Modulus(w) / 2) <= v < Modulus(w) / 2
    ensures Modulus(w) > 0 && 0 <= v % Modulus(w) < Modulus(w)
    ensures if v < 0 then Negate(w, v % Modulus(w)) == -v else v % Modulus(w) == v
  {
    hide Modulus;
    ModulusPositive(w);
    if v < 0 {
      Remainder(v, Modulus(w), -1, v + Modulus(w));
      Below(v + Modulus(w), Modulus(w));
    } else {
      Below(v, Modulus(w));
    }
  }

  // ----- printing then reading

  lemma {:induction false} DecimalValue(n: nat)
    ensures AllIn(Ten, Decimal(n)) && Value(Ten, Decimal(n)) == n
  {
    var d := Decimal(n);
    if n < 10 {
      assert d[..0] == [];
    } else {
      DecimalValue(n / 10);
      assert d[..|d| - 1] == Decimal(n / 10);
    }
  }

  lemma {:induction false} RunToEnd(b: Base, s: bytes, i: nat)
    requires i <= |s| && AllIn(b, s[i..])
    ensures RunEnd(b, s, i) == |s|
    decreases |s| - i
  {
    if i == |s| {
    } else {
      assert s[i] == s[i..][0];
      assert s[i + 1..] == s[i..][1..];
      RunToEnd(b, s, i + 1);
    }
  }

  /** Reading inverts printing on every value, the minimum included. */
  lemma PrintThenRead(w: width, v: int)
    requires -(Modulus(w) / 2) <= v < Modulus(w)
    ensures Meaning(Printed(v)) == v
  {
    var n := if v < 0 then -v else v;
    var s, k := Printed(v), if v < 0 then 1 else 0;
    DecimalValue(n);
    assert s[k..] == Decimal(n);
    RunToEnd(Ten, s, k);
    assert s[k] == Decimal(n)[0];
    assert k + 1 < |s| ==> s[k + 1] == Decimal(n)[1];
    assert AfterSpaces(s, 0) == 0;
    assert s[k..RunEnd(Ten, s, k)] == Decimal(n);
  }
}
