/**
 Counters that wrap, and ring slots that are computed from them.
 */
module Words {

  const WORD32: nat := 0x1_0000_0000
  const WORD64: nat := 0x1_0000_0000_0000_0000

  function Pow2(n: nat): (r: nat)
    ensures r > 0
  {
    if n == 0 then 1 else 2 * Pow2(n - 1)
  }

  lemma {:induction false} Pow2Add(a: nat, b: nat)
    ensures Pow2(a) * Pow2(b) == Pow2(a + b)
  {
    if a > 0 {
      Pow2Add(a - 1, b);
      assert Pow2(a) * Pow2(b) == 2 * (Pow2(a - 1) * Pow2(b));
    }
  }

  lemma MulAtLeast(d: int, n: nat)
    requires d >= 1
    ensures d * n >= n
  {
  }

  lemma MulDistributes(p: int, q: int, n: int)
    ensures (p - q) * n == p * n - q * n
  {
  }

  lemma DivMod(a: int, n: nat)
    requires n > 0
    ensures a == (a / n) * n + a % n && 0 <= a % n < n
  {
  }

  /** Quotient and remainder are unique. */
  lemma ModUnique(a: int, q: int, n: nat, r: nat)
    requires n > 0 && a == q * n + r && r < n
    ensures a % n == r
  {
    var p := a / n;
    DivMod(a, n);
    MulDistributes(p, q, n);
    MulDistributes(q, p, n);
    if p > q {
      MulAtLeast(p - q, n);
    } else if q > p {
      MulAtLeast(q - p, n);
    }
  }

  lemma ModOfMod(a: nat, m: nat, n: nat)
    requires m > 0 && n > 0
    ensures m * n > 0 && a % (m * n) % n == a % n
  {
    MulAtLeast(m, n);
    var q, r := a / (m * n), a % (m * n);
    DivMod(a, m * n);
    DivMod(r, n);
    MulGroups(q, m, n);
    MulSum(q * m, r / n, n);
    ModUnique(a, q * m + r / n, n, r % n);
  }

  lemma MulGroups(p: int, q: int, n: int)
    ensures p * (q * n) == p * q * n
  {
  }

  lemma MulSum(p: int, q: int, n: int)
    ensures (p + q) * n == p * n + q * n
  {
  }

  /** The slot of position `k` in a ring of `c` slots: the remainder, counted down. */
  function Slot(k: nat, c: nat): (r: nat)
    requires c > 0
    ensures r < c
  {
    if k < c then k else Slot(k - c, c)
  }

  lemma {:induction false} SlotIsMod(k: nat, c: nat)
    requires c > 0
    ensures Slot(k, c) == k % c
    decreases k
  {
    if k >= c {
      var m := k - c;
      SlotIsMod(m, c);
      DivMod(m, c);
      MulSum(m / c, 1, c);
      ModUnique(k, m / c + 1, c, m % c);
    }
  }

  /** Reducing to a word first does not change the slot of a ring whose size divides the word. */
  lemma SlotOfWord(x: nat, c: nat)
    requires 0 < c && Slot(WORD64, c) == 0
    ensures Slot(x % WORD64, c) == Slot(x, c)
  {
    SlotIsMod(WORD64, c);
    SlotIsMod(x, c);
    SlotIsMod(x % WORD64, c);
    ModOfWord(x, c);
  }

  lemma ModOfWord(x: nat, c: nat)
    requires 0 < c && WORD64 % c == 0
    ensures (x % WORD64) % c == x % c
  {
    var k, q, m := WORD64 / c, x / WORD64, x % WORD64;
    assert WORD64 == k * c;
    assert x == q * WORD64 + m;
    var j, r := m / c, m % c;
    assert m == j * c + r;
    assert q * (k * c) == (q * k) * c;
    assert x == (q * k + j) * c + r;
    ModUnique(x, q * k + j, c, r);
  }

  /** Positions less than one ring apart have different slots. */
  lemma SlotsApart(j: nat, k: nat, c: nat)
    requires 0 < c && j < k < j + c
    ensures Slot(j, c) != Slot(k, c)
  {
    SlotIsMod(j, c);
    SlotIsMod(k, c);
    var p, q := j / c, k / c;
    DivMod(j, c);
    DivMod(k, c);
    MulDistributes(q, p, c);
    MulDistributes(p, q, c);
    if q > p {
      MulAtLeast(q - p, c);
    } else if p > q {
      MulAtLeast(p - q, c);
    }
  }

  /** The difference of two wrapped counters is their distance, when that is less than a word. */
  lemma WrappedDistance(hi: nat, lo: nat)
    requires lo <= hi < lo + WORD64
    ensures (hi % WORD64 - lo % WORD64) % WORD64 == hi - lo
  {
  }

  lemma WrappedNext(x: nat)
    ensures (x % WORD64 + 1) % WORD64 == (x + 1) % WORD64
  {
  }

  lemma WrappedEqual(hi: nat, lo: nat)
    requires lo <= hi < lo + WORD64
    ensures hi % WORD64 == lo % WORD64 <==> hi == lo
  {
  }
}
