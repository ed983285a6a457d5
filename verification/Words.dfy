/** 64-bit machine words: wrapping arithmetic and the bitwise operations the coroutine runtime uses. */
module Words {

  const MODULUS: nat := 0x1_0000_0000_0000_0000
  const SIZE_MAX: nat := 0xFFFF_FFFF_FFFF_FFFF

  type Word = x: int | 0 <= x <= SIZE_MAX

  function Add(x: Word, y: Word): Word {
    (x + y) % MODULUS
  }

  function Sub(x: Word, y: Word): Word {
    (x - y) % MODULUS
  }

  function Complement(x: Word): Word {
    SIZE_MAX - x
  }

  /** Bitwise conjunction. */
  function BitAnd(x: nat, y: nat): (r: nat)
    ensures r <= x && r <= y
  {
    if x == 0 || y == 0 then 0 else (if x % 2 == 1 && y % 2 == 1 then 1 else 0) + 2 * BitAnd(x / 2, y / 2)
  }

  function Power(k: nat): (r: nat)
    ensures r > 0
  {
    if k == 0 then 1 else 2 * Power(k - 1)
  }

  lemma {:induction false} PowerSum(i: nat, j: nat)
    ensures Power(i + j) == Power(i) * Power(j)
  {
    if i > 0 {
      PowerSum(i - 1, j);
      assert Power(i + j) == 2 * (Power(i - 1) * Power(j));
    }
  }

  lemma {:induction false} BitAndSelf(x: nat)
    ensures BitAnd(x, x) == x
  {
    if x > 0 { BitAndSelf(x / 2); }
  }

  ghost predicate PowerOfTwo(n: nat) {
    exists k: nat :: Power(k) == n
  }

  lemma PowerIsPowerOfTwo(k: nat)
    ensures PowerOfTwo(Power(k))
  {
  }

  lemma DoubledPower(m: nat)
    ensures PowerOfTwo(2 * m) <==> PowerOfTwo(m)
  {
    if PowerOfTwo(m) {
      var k: nat :| Power(k) == m;
      PowerIsPowerOfTwo(k + 1);
    }
    if PowerOfTwo(2 * m) {
      var k: nat :| Power(k) == 2 * m;
      PowerIsPowerOfTwo(k - 1);
    }
  }

  lemma OddPower(n: nat)
    requires n % 2 == 1
    ensures PowerOfTwo(n) <==> n == 1
  {
    PowerIsPowerOfTwo(0);
    if PowerOfTwo(n) {
      var k: nat :| Power(k) == n;
      assert k == 0;
    }
  }

  /** Clearing the lowest set bit leaves nothing exactly for the powers of two. */
  lemma {:induction false} PowerOfTwoTest(n: nat)
    requires n > 0
    ensures BitAnd(n, n - 1) == 0 <==> PowerOfTwo(n)
  {
    if n % 2 == 0 {
      var m := n / 2;
      assert (n - 1) / 2 == m - 1 && BitAnd(n, n - 1) == 2 * BitAnd(m, m - 1);
      PowerOfTwoTest(m);
      DoubledPower(m);
    } else {
      OddPower(n);
      BitAndSelf(n / 2);
      assert n > 1 ==> (n - 1) / 2 == n / 2 && BitAnd(n, n - 1) == 2 * BitAnd(n / 2, n / 2);
    }
  }

  lemma {:induction false} BitAndOnes(x: nat, w: nat)
    requires x < Power(w)
    ensures BitAnd(x, Power(w) - 1) == x
  {
    if x > 0 {
      assert Power(0) == 1 && w != 0;
      assert (Power(w) - 1) / 2 == Power(w - 1) - 1;
      BitAndOnes(x / 2, w - 1);
    }
  }

  lemma AtLeastOnce(d: nat, z: int)
    requires z >= 1
    ensures d * z >= d
  {
  }

  lemma QuotientUnique(x: int, d: nat, q: int, r: nat)
    requires d > 0 && x == d * q + r && r < d
    ensures x % d == r
  {
    var z := x / d - q;
    assert d * z == d * (x / d) - d * q == r - x % d;
    if z >= 1 { AtLeastOnce(d, z); }
    if z <= -1 { AtLeastOnce(d, -z); }
  }

  lemma RemainderHalves(x: nat, p: nat)
    requires p > 0
    ensures x % (2 * p) == 2 * ((x / 2) % p) + x % 2
  {
    var q, r := (x / 2) / p, (x / 2) % p;
    assert x / 2 == p * q + r;
    assert 2 * p * q == 2 * (p * q);
    QuotientUnique(x, 2 * p, q, 2 * r + x % 2);
  }

  lemma MaskHalves(k: nat, w: nat)
    requires 0 < k <= w && Power(k - 1) <= Power(w - 1)
    ensures Power(w) - Power(k) == 2 * (Power(w - 1) - Power(k - 1)) >= 0
  {
  }

  lemma EvenMask(x: nat, half: nat)
    ensures BitAnd(x, 2 * half) == 2 * BitAnd(x / 2, half)
  {
    assert (2 * half) % 2 == 0 && (2 * half) / 2 == half;
  }

  /** Masking off the low bits rounds down to a multiple of the power of two. */
  lemma {:induction false} MaskRoundsDown(x: nat, k: nat, w: nat)
    requires x < Power(w) && k <= w
    ensures Power(k) <= Power(w)
    ensures BitAnd(x, Power(w) - Power(k)) == x - x % Power(k)
    decreases k
  {
    hide BitAnd;
    PowerMonotone(k, w);
    if k == 0 {
      BitAndOnes(x, w);
    } else {
      MaskRoundsDown(x / 2, k - 1, w - 1);
      MaskHalves(k, w);
      EvenMask(x, Power(w - 1) - Power(k - 1));
      RemainderHalves(x, Power(k - 1));
      assert Power(k) == 2 * Power(k - 1);
      hide Power;
    }
  }

  lemma {:induction false} PowerMonotone(k: nat, w: nat)
    requires k <= w
    ensures Power(k) <= Power(w)
  {
    if k > 0 { PowerMonotone(k - 1, w - 1); }
    else if w > 0 { PowerMonotone(0, w - 1); }
  }
}
