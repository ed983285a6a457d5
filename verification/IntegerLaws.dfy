/**
 What the integer operations mean, each against a reference of its own: exact results stay in range,
 wrapping is congruence, saturating is the nearest value, division truncates, bits are pointwise,
 rotations cancel, and checked operations agree with trapping ones.
 */
module IntegerLaws {
  import opened Wrappers
  import opened Words
  import opened IntegerArithmetic

  // ---------------------------------------------------------------------------
  // Residues
  // ---------------------------------------------------------------------------

  /** The two numbers differ by a multiple of the modulus. */
  ghost predicate Congruent(x: int, y: int, modulus: nat)
    requires modulus > 0
  {
    exists k: int :: x == y + modulus * k
  }

  lemma CongruentBy(x: int, y: int, modulus: nat, k: int)
    requires modulus > 0 && x == y + modulus * k
    ensures Congruent(x, y, modulus)
  {
  }

  lemma RemainderCongruent(x: int, modulus: nat)
    requires modulus > 0
    ensures 0 <= x % modulus < modulus && Congruent(x % modulus, x, modulus)
  {
    CongruentBy(x % modulus, x, modulus, -(x / modulus));
  }

  /** One residue class has one member in each window of the modulus. */
  lemma ResidueUnique(x: int, y: int, low: int, modulus: nat)
    requires modulus > 0 && Congruent(x, y, modulus) && low <= x < low + modulus && low <= y < low + modulus
    ensures x == y
  {
    var k: int :| x == y + modulus * k;
    if k >= 1 { AtLeastOnce(modulus, k); }
    if k <= -1 { AtLeastOnce(modulus, -k); }
  }

  lemma CongruentTransitive(x: int, y: int, z: int, modulus: nat)
    requires modulus > 0 && Congruent(x, y, modulus) && Congruent(y, z, modulus)
    ensures Congruent(x, z, modulus)
  {
    var j: int :| x == y + modulus * j;
    var k: int :| y == z + modulus * k;
    CongruentBy(x, z, modulus, j + k);
  }

  lemma CongruentSymmetric(x: int, y: int, modulus: nat)
    requires modulus > 0 && Congruent(x, y, modulus)
    ensures Congruent(y, x, modulus)
  {
    var k: int :| x == y + modulus * k;
    CongruentBy(y, x, modulus, -k);
  }

  lemma WidthSplits(s: Scalar)
    requires s.Valid()
    ensures Power(s.width) == 2 * Power(s.width - 1) && Maximum(s) == Minimum(s) + Power(s.width) - 1
    ensures Minimum(s) <= 0 <= Maximum(s)
  {
  }

  /** Reading a bit pattern yields the one number of the type in its residue class. */
  lemma FromBitsMeans(s: Scalar, x: int)
    requires s.Valid()
    ensures InRange(s, FromBits(s, x)) && Congruent(FromBits(s, x), x, Power(s.width))
  {
    WidthSplits(s);
    if s.signed {
      var half := Power(s.width - 1);
      RemainderCongruent(x + half, Power(s.width));
      var k: int :| (x + half) % Power(s.width) == x + half + Power(s.width) * k;
      CongruentBy(FromBits(s, x), x, Power(s.width), k);
    } else {
      RemainderCongruent(x, Power(s.width));
    }
  }

  lemma FromBitsUnique(s: Scalar, x: int, v: int)
    requires s.Valid() && InRange(s, v) && Congruent(v, x, Power(s.width))
    ensures FromBits(s, x) == v
  {
    FromBitsMeans(s, x);
    WidthSplits(s);
    CongruentSymmetric(v, x, Power(s.width));
    CongruentTransitive(FromBits(s, x), x, v, Power(s.width));
    ResidueUnique(FromBits(s, x), v, Minimum(s), Power(s.width));
  }

  /** A bit pattern survives being read as a number and written back. */
  lemma UnsignedOfFromBits(s: Scalar, x: nat)
    requires s.Valid() && x < Power(s.width)
    ensures AsUnsigned(s.width, FromBits(s, x)) == x
  {
    var v := FromBits(s, x);
    FromBitsMeans(s, x);
    RemainderCongruent(v, Power(s.width));
    CongruentTransitive(AsUnsigned(s.width, v), v, x, Power(s.width));
    ResidueUnique(AsUnsigned(s.width, v), x, 0, Power(s.width));
  }

  // ---------------------------------------------------------------------------
  // Division
  // ---------------------------------------------------------------------------

  function Magnitude(x: int): nat {
    if x < 0 then -x else x
  }

  lemma Factored(d: nat, q: nat, r: nat, n: nat)
    requires d > 0 && n == d * q + r
    ensures q <= n && (d >= 2 && n > 0 ==> q < n)
  {
    if q > 0 {
      AtLeastOnce(q, d);
      if d >= 2 { AtLeastTwice(d, q); }
    }
  }

  lemma AtLeastTwice(b: nat, q: nat)
    requires b >= 2
    ensures b * q >= 2 * q
  {
  }

  /** The quotient is the quotient of the magnitudes, with the sign of the operands. */
  lemma QuotientOfMagnitudes(x: int, y: int) returns (q: nat, r: nat)
    requires y != 0
    ensures Magnitude(x) == Magnitude(y) * q + r && r < Magnitude(y)
    ensures var whole: int := q; Quotient(x, y) == if (x < 0) == (y < 0) then whole else -whole
  {
    q, r := WholePart(Magnitude(x), Magnitude(y)), Magnitude(x) % Magnitude(y);
  }

  lemma SignedProduct(b: int, q: int)
    ensures (-b) * q == -(b * q) && b * (-q) == -(b * q) && (-b) * (-q) == b * q
  {
  }

  /** Division truncates: the remainder is smaller than the divisor and never opposes the dividend. */
  lemma QuotientTruncates(x: int, y: int)
    requires y != 0
    ensures var q := Quotient(x, y);
            var r := x - y * q;
            Magnitude(r) < Magnitude(y) && (r == 0 || (r < 0) == (x < 0))
  {
    var q, r := QuotientOfMagnitudes(x, y);
    SignedProduct(Magnitude(y), q);
    hide Quotient;
    var product := Magnitude(y) * q;
    if y < 0 { assert y * Quotient(x, y) == if x < 0 then -product else product; }
    else { assert y * Quotient(x, y) == if x < 0 then -product else product; }
  }

  lemma QuotientShrinks(x: int, y: int)
    requires y != 0
    ensures Magnitude(Quotient(x, y)) <= Magnitude(x)
    ensures y != 1 && y != -1 && x != 0 ==> Magnitude(Quotient(x, y)) < Magnitude(x)
  {
    var q, r := QuotientOfMagnitudes(x, y);
    Factored(Magnitude(y), q, r, Magnitude(x));
  }

  lemma OneQuotient(x: int)
    ensures Quotient(x, -1) == -x && Quotient(x, 1) == x
  {
  }

  /** Of in-range operands only the least value over minus one divides out of range. */
  lemma DivisionOverflows(s: Scalar, x: int, y: int)
    requires s.Valid() && InRange(s, x) && InRange(s, y) && y != 0
    ensures InRange(s, Quotient(x, y)) <==> !(s.signed && x == Minimum(s) && y == -1)
    ensures InRange(s, x - y * Quotient(x, y))
  {
    WidthSplits(s);
    QuotientTruncates(x, y);
    QuotientShrinks(x, y);
    OneQuotient(x);
    if !s.signed { var q, r := QuotientOfMagnitudes(x, y); }
    hide Quotient;
    var rest := x - y * Quotient(x, y);
    assert Magnitude(rest) < Magnitude(y);
  }

  // ---------------------------------------------------------------------------
  // Bits
  // ---------------------------------------------------------------------------

  /** The bit at a position of a pattern. */
  predicate Bit(x: nat, i: nat) {
    if i == 0 then x % 2 == 1 else Bit(x / 2, i - 1)
  }

  lemma {:induction false} ZeroBits(i: nat)
    ensures !Bit(0, i)
  {
    if i > 0 { ZeroBits(i - 1); }
  }

  lemma {:induction false} BitAndBits(x: nat, y: nat, i: nat)
    ensures Bit(Words.BitAnd(x, y), i) <==> Bit(x, i) && Bit(y, i)
    decreases i
  {
    ZeroBits(i);
    if x > 0 && y > 0 && i > 0 { BitAndBits(x / 2, y / 2, i - 1); }
  }

  lemma {:induction false} OrBitsBits(x: nat, y: nat, i: nat)
    ensures Bit(OrBits(x, y), i) <==> Bit(x, i) || Bit(y, i)
    decreases i
  {
    ZeroBits(i);
    if (x > 0 || y > 0) && i > 0 { OrBitsBits(x / 2, y / 2, i - 1); }
  }

  lemma {:induction false} XorBitsBits(x: nat, y: nat, i: nat)
    ensures Bit(XorBits(x, y), i) <==> Bit(x, i) != Bit(y, i)
    decreases i
  {
    ZeroBits(i);
    if (x > 0 || y > 0) && i > 0 { XorBitsBits(x / 2, y / 2, i - 1); }
  }

  lemma {:induction false} OrBitsBounded(x: nat, y: nat, w: nat)
    requires x < Power(w) && y < Power(w)
    ensures OrBits(x, y) < Power(w) && XorBits(x, y) < Power(w)
    decreases w
  {
    if w > 0 { OrBitsBounded(x / 2, y / 2, w - 1); }
  }

  // ---------------------------------------------------------------------------
  // Rotation
  // ---------------------------------------------------------------------------

  lemma {:induction false} OrBitsZero(x: nat)
    ensures OrBits(x, 0) == x && OrBits(0, x) == x
  {
    if x > 0 { OrBitsZero(x / 2); }
  }

  /** Joining patterns that share no position adds them. */
  lemma {:induction false} OrBitsDisjoint(high: nat, low: nat, k: nat)
    requires low < Power(k)
    ensures OrBits(Up(high, k), low) == Up(high, k) + low && OrBits(low, Up(high, k)) == Up(high, k) + low
    decreases k
  {
    if k == 0 {
      OrBitsZero(high);
    } else {
      UpHalves(high, k);
      OrBitsDisjoint(high, low / 2, k - 1);
      if Up(high, k) == 0 && low == 0 { OrBitsZero(0); }
    }
  }

  lemma UpHalves(high: nat, k: nat)
    requires k > 0
    ensures Up(high, k) == 2 * Up(high, k - 1)
  {
  }

  /** A pattern is its high part above its low part. */
  lemma Splits(x: nat, k: nat, w: nat)
    requires k <= w && x < Power(w)
    ensures var high, low := Down(x, k), x % Power(k); x == Up(high, k) + low && low < Power(k) && high < Power(w - k)
  {
    PowerSum(k, w - k);
    var high := Down(x, k);
    assert x == Power(k) * high + x % Power(k);
    if high >= Power(w - k) { ProductMonotone(Power(k), Power(w - k), high); }
  }

  lemma ProductMonotone(a: nat, b: nat, c: nat)
    requires b <= c
    ensures a * b <= a * c
  {
  }

  lemma Rejoined(high: nat, low: nat, k: nat)
    requires low < Power(k)
    ensures Down(Up(high, k) + low, k) == high && (Up(high, k) + low) % Power(k) == low
  {
    var x := Up(high, k) + low;
    assert x == Power(k) * high + low;
    QuotientUnique(x, Power(k), high, low);
    assert Power(k) * (x / Power(k)) + x % Power(k) == x;
    SameFactor(Power(k), x / Power(k), high);
  }

  lemma SameFactor(d: nat, a: int, b: int)
    requires d > 0 && d * a == d * b
    ensures a == b
  {
    if a > b { AtLeastOnce(d, a - b); }
    if b > a { AtLeastOnce(d, b - a); }
  }

  /** The rotated pattern: the two parts trade places. */
  function Traded(width: nat, bits: nat, k: nat): nat
    requires k <= width
  {
    Up(bits % Power(width - k), k) + Down(bits, width - k)
  }

  lemma UpAdds(a: nat, b: nat, j: nat, k: nat)
    ensures Up(Up(a, j) + b, k) == Power(j + k) * a + Up(b, k)
  {
    PowerSum(j, k);
    assert Up(Up(a, j) + b, k) == (a * Power(j)) * Power(k) + b * Power(k);
    assert (a * Power(j)) * Power(k) == a * (Power(j) * Power(k));
  }

  lemma TradedBounded(width: nat, low: nat, high: nat, k: nat)
    requires k <= width && low < Power(width - k) && high < Power(k)
    ensures Up(low, k) + high < Power(width)
  {
    PowerSum(width - k, k);
    ProductMonotone(Power(k), low + 1, Power(width - k));
  }

  /** Shifting up and joining what fell off below trades the two parts. */
  lemma PartsTrade(width: nat, bits: nat, high: nat, low: nat, k: nat)
    requires k <= width && bits == Up(high, width - k) + low && low < Power(width - k) && high < Power(k)
    ensures (Up(bits, k) + high) % Power(width) == Up(low, k) + high
  {
    UpAdds(high, low, width - k, k);
    TradedBounded(width, low, high, k);
    hide Up, Power;
    QuotientUnique(Up(bits, k) + high, Power(width), high, Up(low, k) + high);
  }

  lemma JoinsTraded(width: nat, bits: nat, k: nat)
    requires 0 < k < width && bits < Power(width)
    ensures AsUnsigned(width, Up(bits, k) + Down(bits, width - k)) == Traded(width, bits, k)
    ensures Down(bits, width - k) < Power(k)
  {
    hide Up, Down, Power;
    Splits(bits, width - k, width);
    PartsTrade(width, bits, Down(bits, width - k), bits % Power(width - k), k);
  }

  lemma RotatedLeftTrades(width: nat, bits: nat, k: nat)
    requires k < width && bits < Power(width)
    ensures RotatedLeft(width, bits, k) == Traded(width, bits, k)
  {
    if k == 0 {
      Splits(bits, width, width);
    } else {
      JoinsTraded(width, bits, k);
      OrBitsDisjoint(bits, Down(bits, width - k), k);
    }
  }

  lemma RotatedRightTrades(width: nat, bits: nat, k: nat)
    requires k < width && bits < Power(width)
    ensures RotatedRight(width, bits, k) == Traded(width, bits, width - k)
  {
    if k == 0 {
      assert Power(0) == 1;
    } else {
      JoinsTraded(width, bits, width - k);
      OrBitsDisjoint(bits, Down(bits, k), width - k);
    }
  }

  /** Trading the parts back restores the pattern. */
  lemma TradedBack(width: nat, bits: nat, k: nat)
    requires k <= width && bits < Power(width)
    ensures Traded(width, bits, k) < Power(width)
    ensures Traded(width, Traded(width, bits, k), width - k) == bits
  {
    Splits(bits, width - k, width);
    var high, low := Down(bits, width - k), bits % Power(width - k);
    TradedBounded(width, low, high, k);
    Rejoined(low, high, k);
  }

  // ---------------------------------------------------------------------------
  // What each operation means
  // ---------------------------------------------------------------------------

  /** No number of the type is closer. */
  ghost predicate Nearest(s: Scalar, exact: int, v: int)
    requires s.Valid()
  {
    forall u :: InRange(s, u) ==> Magnitude(v - exact) <= Magnitude(u - exact)
  }

  ghost predicate Bitwise(s: Scalar, x: int, y: int, v: int, op: Operation) {
    forall i :: 0 <= i < s.width ==>
      var a, b, c := Bit(AsUnsigned(s.width, x), i), Bit(AsUnsigned(s.width, y), i), Bit(AsUnsigned(s.width, v), i);
      c == if op.BitAnd? then a && b else if op.BitOr? then a || b else a != b
  }

  /** When the operation has no result. */
  ghost predicate Fails(op: Operation, s: Scalar, x: int, y: int)
    requires s.Valid()
  {
    match op
    case Add => !InRange(s, x + y)
    case Subtract => !InRange(s, x - y)
    case Multiply => !InRange(s, x * y)
    case Divide => y == 0 || (s.signed && x == Minimum(s) && y == -1)
    case Remainder => y == 0
    case ShiftLeft => y < 0 || y >= s.width
    case ShiftRight => y < 0 || y >= s.width
    case _ => false
  }

  /** How many top bits a rotation moves to the bottom. */
  function Turn(op: Operation, s: Scalar, y: nat): (k: nat)
    requires s.Valid()
    ensures k <= s.width
  {
    if op.RotateLeft? then y % s.width else s.width - y % s.width
  }

  /** What its result is, without saying how it is computed. */
  ghost predicate Means(op: Operation, s: Scalar, x: int, y: int, v: int)
    requires s.Valid()
  {
    match op
    case Add => v == x + y
    case Subtract => v == x - y
    case Multiply => v == x * y
    case Divide => Magnitude(x - y * v) < Magnitude(y) && (x == y * v || (x - y * v < 0) == (x < 0))
    case Remainder => Magnitude(v) < Magnitude(y) && (v == 0 || (v < 0) == (x < 0)) && exists q: int :: x == y * q + v
    case WrappingAdd => Congruent(v, x + y, Power(s.width))
    case WrappingSubtract => Congruent(v, x - y, Power(s.width))
    case WrappingMultiply => Congruent(v, x * y, Power(s.width))
    case SaturatingAdd => Nearest(s, x + y, v)
    case SaturatingSubtract => Nearest(s, x - y, v)
    case SaturatingMultiply => Nearest(s, x * y, v)
    case BitAnd => Bitwise(s, x, y, v, op)
    case BitOr => Bitwise(s, x, y, v, op)
    case BitXor => Bitwise(s, x, y, v, op)
    case ShiftLeft => y >= 0 && Congruent(v, x * Power(y), Power(s.width))
    case ShiftRight => y >= 0 && v * Power(y) <= x < (v + 1) * Power(y)
    case RotateLeft => y >= 0 && AsUnsigned(s.width, v) == Traded(s.width, AsUnsigned(s.width, x), Turn(op, s, y))
    case RotateRight => y >= 0 && AsUnsigned(s.width, v) == Traded(s.width, AsUnsigned(s.width, x), Turn(op, s, y))
    case _ => false
  }

  predicate Arithmetic(op: Operation) {
    Compare(op, 0, 0).None?
  }

  lemma UnsignedPattern(s: Scalar, x: int)
    requires s.Valid()
    ensures AsUnsigned(s.width, x) < Power(s.width) && Congruent(AsUnsigned(s.width, x), x, Power(s.width))
  {
    RemainderCongruent(x, Power(s.width));
  }

  lemma Scaled(b: int, x: int, m: int, k: int, p: int)
    requires b == x + m * k
    ensures b * p == x * p + m * (k * p)
  {
    assert (m * k) * p == m * (k * p);
  }

  lemma ShiftLeftMeans(s: Scalar, x: int, y: nat)
    requires s.Valid()
    ensures Congruent(FromBits(s, Up(AsUnsigned(s.width, x), y)), x * Power(y), Power(s.width))
  {
    var m, bits := Power(s.width), AsUnsigned(s.width, x);
    UnsignedPattern(s, x);
    var k: int :| bits == x + m * k;
    Scaled(bits, x, m, k, Power(y));
    CongruentBy(Up(bits, y), x * Power(y), m, k * Power(y));
    FromBitsMeans(s, Up(bits, y));
    CongruentTransitive(FromBits(s, Up(bits, y)), Up(bits, y), x * Power(y), m);
  }

  lemma FlooredProduct(x: int, p: nat, q: int, r: nat)
    requires p > 0 && x == p * q + r && r < p
    ensures q * p <= x < (q + 1) * p
  {
    assert (q + 1) * p == p * q + p;
  }

  lemma FlooredBounds(x: int, p: nat, q: int, r: nat)
    requires p > 0 && x == p * q + r && r < p
    ensures if x >= 0 then 0 <= q <= x else x <= q < 0
  {
    if q >= 0 {
      ScaledUp(q, p);
    } else {
      ScaledUp(-q - 1, p);
      assert p * q == -(p * (-q - 1)) - p;
    }
  }

  lemma ScaledUp(m: nat, p: nat)
    requires p > 0
    ensures m <= p * m
  {
    if m > 0 { AtLeastOnce(m, p); }
  }

  lemma FlooredByPower(x: int, p: nat)
    requires p > 0
    ensures (x / p) * p <= x < (x / p + 1) * p
    ensures if x >= 0 then 0 <= x / p <= x else x <= x / p < 0
  {
    FlooredProduct(x, p, x / p, x % p);
    FlooredBounds(x, p, x / p, x % p);
  }

  lemma ShiftRightMeans(s: Scalar, x: int, y: nat)
    requires s.Valid() && InRange(s, x)
    ensures var v := if s.signed then x / Power(y) else FromBits(s, Down(AsUnsigned(s.width, x), y));
            InRange(s, v) && v == x / Power(y) && v * Power(y) <= x < (v + 1) * Power(y)
  {
    FlooredByPower(x, Power(y));
    WidthSplits(s);
    if !s.signed {
      UnsignedPattern(s, x);
      ResidueUnique(AsUnsigned(s.width, x), x, 0, Power(s.width));
      CongruentBy(x / Power(y), Down(x, y), Power(s.width), 0);
      FromBitsUnique(s, Down(x, y), x / Power(y));
    }
  }

  lemma BitwiseMeans(s: Scalar, x: int, y: int, op: Operation)
    requires s.Valid() && (op.BitAnd? || op.BitOr? || op.BitXor?)
    ensures Bitwise(s, x, y, Exact(op, s, x, y), op) && InRange(s, Exact(op, s, x, y))
  {
    var a, b := AsUnsigned(s.width, x), AsUnsigned(s.width, y);
    UnsignedPattern(s, x);
    UnsignedPattern(s, y);
    OrBitsBounded(a, b, s.width);
    var joined := if op.BitAnd? then Words.BitAnd(a, b) else if op.BitOr? then OrBits(a, b) else XorBits(a, b);
    UnsignedOfFromBits(s, joined);
    FromBitsMeans(s, joined);
    forall i | 0 <= i < s.width
      ensures Bit(joined, i) == if op.BitAnd? then Bit(a, i) && Bit(b, i) else if op.BitOr? then Bit(a, i) || Bit(b, i) else Bit(a, i) != Bit(b, i)
    {
      BitAndBits(a, b, i);
      OrBitsBits(a, b, i);
      XorBitsBits(a, b, i);
    }
  }

  lemma RotationMeans(s: Scalar, x: int, y: nat, op: Operation)
    requires s.Valid() && (op.RotateLeft? || op.RotateRight?)
    ensures InRange(s, Exact(op, s, x, y)) && Means(op, s, x, y, Exact(op, s, x, y))
  {
    var bits, k := AsUnsigned(s.width, x), y % s.width;
    UnsignedPattern(s, x);
    RotatedLeftTrades(s.width, bits, k);
    RotatedRightTrades(s.width, bits, k);
    TradedBack(s.width, bits, k);
    TradedBack(s.width, bits, s.width - k);
    hide Traded, RotatedLeft, RotatedRight, Power, FromBits, AsUnsigned;
    var rotated := if op.RotateLeft? then Traded(s.width, bits, k) else Traded(s.width, bits, s.width - k);
    UnsignedOfFromBits(s, rotated);
    FromBitsMeans(s, rotated);
  }

  /** What the exact value of every operation is, and which exact values leave the range. */
  lemma ExactMeans(op: Operation, s: Scalar, x: int, y: int)
    requires s.Valid() && InRange(s, x) && InRange(s, y) && Arithmetic(op) && Countable(op, s, y)
    ensures var e := Exact(op, s, x, y);
            && (!Wraps(op) && !Saturates(op) ==> (InRange(s, e) <==> !Fails(op, s, x, y)) && Means(op, s, x, y, e))
            && (op.WrappingAdd? || op.SaturatingAdd? ==> e == x + y)
            && (op.WrappingSubtract? || op.SaturatingSubtract? ==> e == x - y)
            && (op.WrappingMultiply? || op.SaturatingMultiply? ==> e == x * y)
  {
    hide Power, FromBits, AsUnsigned, Quotient, Traded, Bitwise, Congruent;
    match op
    case Divide => QuotientTruncates(x, y); DivisionOverflows(s, x, y);
    case Remainder => QuotientTruncates(x, y); DivisionOverflows(s, x, y);
    case BitAnd => BitwiseMeans(s, x, y, op);
    case BitOr => BitwiseMeans(s, x, y, op);
    case BitXor => BitwiseMeans(s, x, y, op);
    case ShiftLeft => ShiftLeftMeans(s, x, y); FromBitsMeans(s, Up(AsUnsigned(s.width, x), y));
    case ShiftRight => ShiftRightMeans(s, x, y);
    case RotateLeft => RotationMeans(s, x, y, op);
    case RotateRight => RotationMeans(s, x, y, op);
    case _ =>
  }

  lemma ClampIsNearest(s: Scalar, exact: int)
    requires s.Valid()
    ensures var v := if exact < Minimum(s) then Minimum(s) else if exact > Maximum(s) then Maximum(s) else exact;
            InRange(s, v) && Nearest(s, exact, v)
  {
    WidthSplits(s);
  }

  /**
   Every operation on in-range operands, at every width and signedness: it traps exactly when it has
   no result, and otherwise yields an in-range number with the operation's meaning.
   */
  lemma OperationMeans(op: Operation, s: Scalar, x: int, y: int)
    requires s.Valid() && InRange(s, x) && InRange(s, y) && Arithmetic(op)
    requires op.RotateLeft? || op.RotateRight? ==> y >= 0
    ensures IntegralBinary(op, s, x, y) == Trap <==> Fails(op, s, x, y)
    ensures !Fails(op, s, x, y) ==>
      && IntegralBinary(op, s, x, y).Integer?
      && InRange(s, IntegralBinary(op, s, x, y).value)
      && Means(op, s, x, y, IntegralBinary(op, s, x, y).value)
  {
    hide FromBits, Power, Nearest, Congruent, Bitwise, Traded, AsUnsigned, Turn, Exact, Quotient;
    if Countable(op, s, y) {
      ExactMeans(op, s, x, y);
      var e := Exact(op, s, x, y);
      if Wraps(op) { FromBitsMeans(s, e); }
      if Saturates(op) { ClampIsNearest(s, e); }
    }
  }

  /** A wrapped result is the only number of the type congruent to the exact one, so in range it is the exact one. */
  lemma WrappingIsUnique(s: Scalar, exact: int, v: int)
    requires s.Valid() && InRange(s, v)
    ensures FromBits(s, exact) == v <==> Congruent(v, exact, Power(s.width))
  {
    FromBitsMeans(s, exact);
    if Congruent(v, exact, Power(s.width)) { FromBitsUnique(s, exact, v); }
  }

  lemma Rotates(s: Scalar, x: int, y: nat, op: Operation)
    requires s.Valid() && (op.RotateLeft? || op.RotateRight?)
    ensures var r := IntegralBinary(op, s, x, y);
            r.Integer? && InRange(s, r.value) && Means(op, s, x, y, r.value)
  {
    RotationMeans(s, x, y, op);
    hide Exact;
  }

  /** A number of the type is determined by its bit pattern. */
  lemma SamePattern(s: Scalar, x: int, y: int)
    requires s.Valid() && InRange(s, x) && InRange(s, y) && AsUnsigned(s.width, x) == AsUnsigned(s.width, y)
    ensures x == y
  {
    WidthSplits(s);
    UnsignedPattern(s, x);
    UnsignedPattern(s, y);
    CongruentSymmetric(AsUnsigned(s.width, x), x, Power(s.width));
    CongruentTransitive(x, AsUnsigned(s.width, x), y, Power(s.width));
    ResidueUnique(x, y, Minimum(s), Power(s.width));
  }

  lemma RotateBack(s: Scalar, x: int, y: nat, op: Operation, other: Operation)
    requires s.Valid() && InRange(s, x)
    requires (op.RotateLeft? && other.RotateRight?) || (op.RotateRight? && other.RotateLeft?)
    ensures IntegralBinary(op, s, x, y).Integer? && IntegralBinary(other, s, IntegralBinary(op, s, x, y).value, y) == Integer(x)
  {
    Rotates(s, x, y, op);
    assert Turn(other, s, y) == s.width - Turn(op, s, y);
    hide Power, IntegralBinary, Traded, FromBits, AsUnsigned, Turn;
    UnsignedPattern(s, x);
    var turned := IntegralBinary(op, s, x, y).value;
    Rotates(s, turned, y, other);
    TradedBack(s.width, AsUnsigned(s.width, x), Turn(op, s, y));
    SamePattern(s, x, IntegralBinary(other, s, turned, y).value);
  }

  /** Rotating one way and then the other by the same count gives the operand back. */
  lemma RotationsCancel(s: Scalar, x: int, y: nat)
    requires s.Valid() && InRange(s, x)
    ensures var left, right := IntegralBinary(RotateLeft, s, x, y), IntegralBinary(RotateRight, s, x, y);
            && left.Integer? && IntegralBinary(RotateRight, s, left.value, y) == Integer(x)
            && right.Integer? && IntegralBinary(RotateLeft, s, right.value, y) == Integer(x)
  {
    RotateBack(s, x, y, RotateLeft, RotateRight);
    RotateBack(s, x, y, RotateRight, RotateLeft);
  }

  function Trapping(op: CheckedOperation): Operation {
    match op
    case CheckedAdd => Add
    case CheckedSubtract => Subtract
    case CheckedMultiply => Multiply
    case CheckedDivide => Divide
    case _ => Remainder
  }

  /** A checked operation succeeds with a value exactly when its trapping form returns that value. */
  lemma CheckedAgreesWithTrapping(op: CheckedOperation, s: Scalar, x: int, y: int, v: int)
    requires s.Valid() && InRange(s, x) && InRange(s, y) && !op.CheckedConvert?
    ensures Checked(op, s, x, Some(y)) == Some(v) <==> IntegralBinary(Trapping(op), s, x, y) == Integer(v)
  {
    hide Power, Quotient;
  }

  function WrappingForm(op: Operation): Operation {
    if op.Add? then WrappingAdd else if op.Subtract? then WrappingSubtract else WrappingMultiply
  }

  function SaturatingForm(op: Operation): Operation {
    if op.Add? then SaturatingAdd else if op.Subtract? then SaturatingSubtract else SaturatingMultiply
  }

  /** Wherever a trapping operation returns, its wrapping and saturating forms return the same. */
  lemma FormsAgree(op: Operation, s: Scalar, x: int, y: int)
    requires s.Valid() && InRange(s, x) && InRange(s, y) && (op.Add? || op.Subtract? || op.Multiply?)
    requires IntegralBinary(op, s, x, y).Integer?
    ensures IntegralBinary(WrappingForm(op), s, x, y) == IntegralBinary(op, s, x, y)
    ensures IntegralBinary(SaturatingForm(op), s, x, y) == IntegralBinary(op, s, x, y)
  {
    var v := IntegralBinary(op, s, x, y).value;
    CongruentBy(v, v, Power(s.width), 0);
    WrappingIsUnique(s, v, v);
    hide Power, FromBits, Congruent;
  }
}
