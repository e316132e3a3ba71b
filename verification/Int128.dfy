/** 128-bit division by restoring long division, a bit at a time, and the four entry points over it. */
module Int128 {
  import opened Wrappers
  import opened Arithmetic

  function Shr(n: nat, k: nat): nat {
    if k == 0 then n else Shr(n, k - 1) / 2
  }

  const TWO127: int := 0x8000_0000_0000_0000_0000_0000_0000_0000
  const TWO128: int := 0x1_0000_0000_0000_0000_0000_0000_0000_0000

  predicate IsU128(x: int) {
    0 <= x < TWO128
  }

  predicate IsS128(x: int) {
    -TWO127 <= x < TWO127
  }

  // x | 1 << k
  function SetBit(x: nat, k: nat): nat {
    if Shr(x, k) % 2 == 1 then x else x + Pow2(k)
  }

  lemma {:induction false} ShrOfMultiple(a: nat, k: nat)
    ensures Shr(a * Pow2(k), k) == a
    decreases k
  {
    if k > 0 {
      Regroup(a, 2, Pow2(k - 1));
      ShrOfMultiple(a * 2, k - 1);
    }
  }

  lemma Regroup(a: nat, b: nat, c: nat)
    ensures a * (b * c) == (a * b) * c
  {
  }

  lemma {:induction false} ShrBelow(n: nat, k: nat, j: nat)
    requires j <= k && n < Pow2(k)
    ensures Shr(n, j) < Pow2(k - j)
  {
    if j > 0 {
      ShrBelow(n, k, j - 1);
      assert Pow2(k - (j - 1)) == 2 * Pow2(k - j);
    }
  }

  // One step: the next bit of n comes down into the remainder, and d is taken off where it goes.
  lemma StepKeeps(n: nat, d: nat, i: nat, high: nat, r: nat, bit: nat, taken: bool, r1: nat)
    requires Shr(n, i + 1) == high * d + r && r < d
    requires bit == Shr(n, i) % 2
    requires taken == (2 * r + bit >= d)
    requires r1 == if taken then 2 * r + bit - d else 2 * r + bit
    ensures Shr(n, i) == (2 * high + if taken then 1 else 0) * d + r1
    ensures r1 < d
  {
    var more := if taken then 1 else 0;
    assert Shr(n, i) == 2 * Shr(n, i + 1) + bit;
    Distribute(2 * high, more, d);
    assert (2 * high) * d == 2 * (high * d) by { Regroup(2, high, d); }
  }

  lemma Distribute(a: nat, b: nat, d: nat)
    ensures (a + b) * d == a * d + b * d
  {
  }

  // The quotient's bits stand above the place of the step; its own is clear.
  lemma QuotientBit(high: nat, i: nat)
    ensures high * Pow2(i + 1) == (2 * high) * Pow2(i)
    ensures SetBit(high * Pow2(i + 1), i) == (2 * high + 1) * Pow2(i)
  {
    assert Pow2(i + 1) == 2 * Pow2(i);
    Regroup(high, 2, Pow2(i));
    ShrOfMultiple(2 * high, i);
    Distribute(2 * high, 1, Pow2(i));
  }

  // None where it traps. Every value the loop computes is one of 128 bits.
  method UDivMod(n: nat, d: nat) returns (r: Option<(nat, nat)>)
    requires IsU128(n) && IsU128(d)
    ensures r.None? <==> d == 0
    ensures r.Some? ==> n == r.value.0 * d + r.value.1 && r.value.1 < d
  {
    hide Pow2, Shr, SetBit;
    if d == 0 {
      return None;
    }
    var q, rem: nat := 0, 0;
    ghost var high: nat := 0;
    ShrToNothing(n);
    assert 0 * d == 0 && 0 * Pow2(128) == 0;
    var i := 128;
    while i > 0
      invariant 0 <= i <= 128
      invariant Shr(n, i) == high * d + rem && rem < d
      invariant q == high * Pow2(i)
    {
      i := i - 1;
      var carry := rem / TWO127;
      var bit := Shr(n, i) % 2;
      var wrapped := (rem * 2) % TWO128 + bit;
      ghost var whole := 2 * rem + bit;
      WrapOnce(rem, d, bit);
      var taken := carry != 0 || wrapped >= d;
      assert taken == (whole >= d);
      if taken {
        SubtractWraps(rem, d, bit);
        StepKeeps(n, d, i, high, rem, bit, true, whole - d);
        rem := (wrapped - d) % TWO128;
        QuotientBit(high, i);
        q := SetBit(q, i);
        high := 2 * high + 1;
      } else {
        StepKeeps(n, d, i, high, rem, bit, false, whole);
        rem := wrapped;
        QuotientBit(high, i);
        high := 2 * high;
      }
    }
    AtZero(n);
    assert high * 1 == high;
    return Some((q, rem));
  }

  lemma AtZero(n: nat)
    ensures Shr(n, 0) == n && Pow2(0) == 1
  {
  }

  lemma Powers()
    ensures Pow2(128) == TWO128
  {
    hide Pow2;
    assert Pow2(4) == 16 by { Sixteen(); }
    Square(4, 0x10);
    Square(8, 0x100);
    Square(16, 0x1_0000);
    Square(32, 0x1_0000_0000);
    Square(64, 0x1_0000_0000_0000_0000);
  }

  lemma Sixteen()
    ensures Pow2(4) == 16
  {
  }

  lemma Square(a: nat, v: nat)
    requires Pow2(a) == v
    ensures Pow2(2 * a) == v * v
  {
    Product(a, a);
  }

  lemma {:induction false} Product(a: nat, b: nat)
    ensures Pow2(a + b) == Pow2(a) * Pow2(b)
  {
    if a > 0 {
      Product(a - 1, b);
      Regroup(2, Pow2(a - 1), Pow2(b));
    }
  }

  lemma ShrToNothing(n: nat)
    requires IsU128(n)
    ensures Shr(n, 128) == 0 && Pow2(128) == TWO128
  {
    Powers();
    ShrBelow(n, 128, 128);
  }

  // The shifted remainder loses its top bit exactly where there is a carry, and then it is above any divisor.
  lemma WrapOnce(rem: nat, d: nat, bit: nat)
    requires rem < d && IsU128(d) && bit < 2
    ensures rem / TWO127 == 0 <==> rem < TWO127
    ensures (rem * 2) % TWO128 + bit == 2 * rem + bit - if rem < TWO127 then 0 else TWO128
    ensures rem >= TWO127 ==> 2 * rem + bit >= d
  {
    var p := TWO127;
    assert TWO128 == 2 * p;
    DivSmall(rem, p);
    if rem < p {
      Unique(rem * 2, 2 * p, 0, rem * 2 - 0 * (2 * p));
    } else {
      Unique(rem * 2, 2 * p, 1, rem * 2 - 1 * (2 * p));
    }
  }

  lemma DivSmall(a: nat, p: nat)
    requires p > 0
    ensures a / p == 0 <==> a < p
  {
  }

  lemma SubtractWraps(rem: nat, d: nat, bit: nat)
    requires rem < d && IsU128(d) && bit < 2 && 2 * rem + bit >= d
    ensures var wrapped := 2 * rem + bit - if rem < TWO127 then 0 else TWO128;
            (wrapped - d) % TWO128 == 2 * rem + bit - d
  {
    var p := TWO128;
    assert p == 2 * TWO127;
    if rem < TWO127 {
      Unique(2 * rem + bit - d, p, 0, 2 * rem + bit - d - 0 * (p));
    } else {
      Unique(2 * rem + bit - p - d, p, -1, 2 * rem + bit - p - d - -1 * (p));
    }
  }

  // --- the entry points ---

  // There is one way to write n as a multiple of d and a remainder below it.
  lemma DivisionIsOne(n: nat, d: nat, q: nat, r: nat)
    requires n == q * d + r && r < d
    ensures q == n / d && r == n % d
  {
    Unique(n, d, q, r);
  }

  method UDiv(n: nat, d: nat) returns (q: Option<nat>)
    requires IsU128(n) && IsU128(d)
    ensures q == if d == 0 then None else Some(n / d)
  {
    var r := UDivMod(n, d);
    if r.None? {
      return None;
    }
    DivisionIsOne(n, d, r.value.0, r.value.1);
    return Some(r.value.0);
  }

  method UMod(n: nat, d: nat) returns (m: Option<nat>)
    requires IsU128(n) && IsU128(d)
    ensures m == if d == 0 then None else Some(n % d)
  {
    var r := UDivMod(n, d);
    if r.None? {
      return None;
    }
    DivisionIsOne(n, d, r.value.0, r.value.1);
    return Some(r.value.1);
  }

  function Unsigned(x: int): int {
    if x < 0 then x + TWO128 else x
  }

  function Signed(u: int): int {
    if u >= TWO127 then u - TWO128 else u
  }

  function Negated(u: int): int {
    if u == 0 then 0 else TWO128 - u
  }

  function Magnitude(x: int): (m: nat)
    ensures m == x || m == -x
  {
    if x < 0 then -x else x
  }

  // Toward zero; the remainder has the sign of the dividend.
  function Quotient(n: int, d: int): int
    requires d != 0
  {
    var q := Magnitude(n) / Magnitude(d);
    if (n < 0) != (d < 0) then -q else q
  }

  function Remainder(n: int, d: int): int
    requires d != 0
  {
    var r := Magnitude(n) % Magnitude(d);
    if n < 0 then -r else r
  }

  lemma WordsOf(x: int)
    requires IsS128(x)
    ensures (if x < 0 then Negated(Unsigned(x)) else x) == Magnitude(x) && IsU128(Magnitude(x))
    ensures Magnitude(x) <= TWO127 && TWO128 == 2 * TWO127
  {
  }

  // The truncating quotient, but for the one the host cannot hold: the least number by minus one, which wraps to itself.
  method Div(n: int, d: int) returns (q: Option<int>)
    requires IsS128(n) && IsS128(d)
    ensures q.None? <==> d == 0
    ensures q.Some? ==> IsS128(q.value) && (q.value == Quotient(n, d) <==> !(n == -TWO127 && d == -1))
    ensures n == -TWO127 && d == -1 ==> q == Some(n)
  {
    var negative := (n < 0) != (d < 0);
    WordsOf(n);
    WordsOf(d);
    var u := UDiv(if n < 0 then Negated(Unsigned(n)) else n, if d < 0 then Negated(Unsigned(d)) else d);
    if u.None? {
      return None;
    }
    QuotientFits(n, d);
    q := Some(if negative then Signed(Negated(u.value)) else Signed(u.value));
  }

  lemma QuotientFits(n: int, d: int)
    requires IsS128(n) && IsS128(d) && d != 0
    ensures Magnitude(n) / Magnitude(d) <= TWO127
    ensures Magnitude(n) / Magnitude(d) == TWO127 ==> n == -TWO127 && (d == 1 || d == -1)
    ensures n == -TWO127 && d == -1 ==> Magnitude(n) / Magnitude(d) == TWO127
  {
    WordsOf(n);
    WordsOf(d);
    var a, b := Magnitude(n), Magnitude(d);
    QuotientBelow(a, b);
  }

  lemma QuotientBelow(a: nat, b: nat)
    requires b > 0
    ensures a / b <= a && (b > 1 && a > 0 ==> a / b < a) && (b == 1 ==> a / b == a)
  {
    var q := a / b;
    assert a == q * b + a % b;
    if b == 1 {
      Unique(a, 1, a, 0);
    } else {
      assert q * b == q * 2 + q * (b - 2);
      NotBelow(q, b - 2);
    }
  }

  lemma NotBelow(a: nat, b: nat)
    ensures a * b >= 0
  {
  }

  method Mod(n: int, d: int) returns (r: Option<int>)
    requires IsS128(n) && IsS128(d)
    ensures r == if d == 0 then None else Some(Remainder(n, d))
  {
    WordsOf(n);
    WordsOf(d);
    var u := UMod(if n < 0 then Negated(Unsigned(n)) else n, if d < 0 then Negated(Unsigned(d)) else d);
    if u.None? {
      return None;
    }
    r := Some(if n < 0 then Signed(Negated(u.value)) else Signed(u.value));
    RemainderFits(n, d);
  }

  lemma RemainderFits(n: int, d: int)
    requires IsS128(n) && IsS128(d) && d != 0
    ensures Magnitude(n) % Magnitude(d) < TWO127 && TWO128 == 2 * TWO127
  {
    WordsOf(d);
  }

  // With the signs taken off, dividing n by d is dividing their magnitudes.
  lemma SignsOff(n: int, d: int, q: int, r: int)
    requires d != 0
    ensures n == q * d + r <==>
            Magnitude(n) == (if (n < 0) != (d < 0) then -q else q) * Magnitude(d) + (if n < 0 then -r else r)
  {
    Signs(q, d);
  }

  // Quotient and remainder are the only pair with these signs and sizes.
  lemma TruncatedIsOne(n: int, d: int, q: int, r: int)
    requires d != 0
    ensures q == Quotient(n, d) && r == Remainder(n, d) <==>
            n == q * d + r && Magnitude(r) < Magnitude(d) && (r == 0 || (r < 0) == (n < 0))
  {
    var a, b := Magnitude(n), Magnitude(d);
    var s, t := if (n < 0) != (d < 0) then -q else q, if n < 0 then -r else r;
    hide Quotient, Remainder;
    SignsOff(n, d, q, r);
    SignsOfQuotient(n, d, q, r);
    DivisionExactly(a, b, s, t);
  }

  lemma SignsOfQuotient(n: int, d: int, q: int, r: int)
    requires d != 0
    ensures q == Quotient(n, d) && r == Remainder(n, d) <==>
            (if (n < 0) != (d < 0) then -q else q) == Magnitude(n) / Magnitude(d)
            && (if n < 0 then -r else r) == Magnitude(n) % Magnitude(d)
  {
  }

  lemma DivisionExactly(a: nat, b: nat, s: int, t: int)
    requires b > 0
    ensures s == a / b && t == a % b <==> a == s * b + t && 0 <= t < b
  {
    assert a == (a / b) * b + a % b;
    if a == s * b + t && 0 <= t < b {
      NotNegative(a, b, s, t);
      DivisionIsOne(a, b, s, t);
    }
  }

  lemma Signs(q: int, d: int)
    ensures (-q) * d == -(q * d) && q * (-d) == -(q * d) && (-q) * (-d) == q * d
  {
  }

  lemma NotNegative(a: nat, b: nat, s: int, t: int)
    requires a == s * b + t && 0 <= t < b
    ensures s >= 0
  {
    var k := -s - 1;
    assert s * b == -(k * b) - b;
    if k >= 0 {
      NotBelow(k, b);
    }
  }
}
