/** Integer operations at a fixed width and signedness: trapping, wrapping, saturating, shifting, rotating, checked. */
module IntegerArithmetic {
  import opened Wrappers
  import opened Words

  datatype Scalar = Scalar(signed: bool, width: nat) {
    ghost predicate Valid() {
      width > 0
    }
  }

  datatype Operation =
    | Equals | NotEquals | LessThan | LessOrEqual | GreaterThan | GreaterOrEqual
    | Add | Subtract | Multiply | Divide | Remainder
    | WrappingAdd | WrappingSubtract | WrappingMultiply
    | SaturatingAdd | SaturatingSubtract | SaturatingMultiply
    | BitAnd | BitOr | BitXor | ShiftLeft | ShiftRight | RotateLeft | RotateRight

  datatype Result = Integer(value: int) | Comparison(holds: bool) | Trap

  function Minimum(s: Scalar): int
    requires s.Valid()
  {
    if s.signed then 0 - Power(s.width - 1) as int else 0
  }

  function Maximum(s: Scalar): int
    requires s.Valid()
  {
    (if s.signed then Power(s.width - 1) else Power(s.width)) - 1
  }

  predicate InRange(s: Scalar, x: int)
    requires s.Valid()
  {
    Minimum(s) <= x <= Maximum(s)
  }

  function AsUnsigned(width: nat, x: int): nat {
    x % Power(width)
  }

  function AsSigned(width: nat, x: int): int
    requires width > 0
  {
    (x + Power(width - 1)) % Power(width) - Power(width - 1)
  }

  function FromBits(s: Scalar, x: int): int
    requires s.Valid()
  {
    if s.signed then AsSigned(s.width, x) else AsUnsigned(s.width, x)
  }

  /** Division that truncates toward zero, and its remainder. */
  function Quotient(x: int, y: int): int
    requires y != 0
  {
    var q := (if x < 0 then -x else x) / (if y < 0 then -y else y);
    if (x < 0) == (y < 0) then q else -q
  }

  function OrBits(x: nat, y: nat): nat
    decreases x + y
  {
    if x == 0 && y == 0 then 0 else (if x % 2 == 1 || y % 2 == 1 then 1 else 0) + 2 * OrBits(x / 2, y / 2)
  }

  function XorBits(x: nat, y: nat): nat
    decreases x + y
  {
    if x == 0 && y == 0 then 0 else (if x % 2 != y % 2 then 1 else 0) + 2 * XorBits(x / 2, y / 2)
  }

  function Up(bits: nat, count: nat): nat {
    bits * Power(count)
  }

  function WholePart(x: nat, d: nat): nat
    requires d > 0
  {
    x / d
  }

  function Down(bits: nat, count: nat): nat {
    WholePart(bits, Power(count))
  }

  function RotatedLeft(width: nat, bits: nat, count: nat): nat
    requires count < width
  {
    if count == 0 then bits
    else AsUnsigned(width, OrBits(Up(bits, count), Down(bits, width - count)))
  }

  function RotatedRight(width: nat, bits: nat, count: nat): nat
    requires count < width
  {
    if count == 0 then bits
    else AsUnsigned(width, OrBits(Down(bits, count), Up(bits, width - count)))
  }

  function Compare(op: Operation, x: int, y: int): Option<bool> {
    match op
    case Equals => Some(x == y)
    case NotEquals => Some(x != y)
    case LessThan => Some(x < y)
    case LessOrEqual => Some(x <= y)
    case GreaterThan => Some(x > y)
    case GreaterOrEqual => Some(x >= y)
    case _ => None
  }

  predicate Wraps(op: Operation) {
    op.WrappingAdd? || op.WrappingSubtract? || op.WrappingMultiply?
  }

  predicate Saturates(op: Operation) {
    op.SaturatingAdd? || op.SaturatingSubtract? || op.SaturatingMultiply?
  }

  /** A count the operation can shift or rotate by; rotation takes any count that is not negative. */
  predicate Countable(op: Operation, s: Scalar, y: int) {
    && (op.ShiftLeft? || op.ShiftRight? ==> 0 <= y < s.width)
    && (op.RotateLeft? || op.RotateRight? ==> 0 <= y)
    && (op.Divide? || op.Remainder? ==> y != 0)
  }

  /** The value before any range is enforced. */
  function Exact(op: Operation, s: Scalar, x: int, y: int): int
    requires s.Valid() && Countable(op, s, y)
  {
    var bits, other := AsUnsigned(s.width, x), AsUnsigned(s.width, y);
    match op
    case Add => x + y
    case WrappingAdd => x + y
    case SaturatingAdd => x + y
    case Subtract => x - y
    case WrappingSubtract => x - y
    case SaturatingSubtract => x - y
    case Multiply => x * y
    case WrappingMultiply => x * y
    case SaturatingMultiply => x * y
    case Divide => Quotient(x, y)
    case Remainder => x - y * Quotient(x, y)
    case BitAnd => FromBits(s, Words.BitAnd(bits, other))
    case BitOr => FromBits(s, OrBits(bits, other))
    case BitXor => FromBits(s, XorBits(bits, other))
    case ShiftLeft => FromBits(s, Up(bits, y))
    case ShiftRight => if s.signed then x / Power(y) else FromBits(s, Down(bits, y))
    case RotateLeft => FromBits(s, RotatedLeft(s.width, bits, y % s.width))
    case RotateRight => FromBits(s, RotatedRight(s.width, bits, y % s.width))
    case _ => 0
  }

  /** One integer operation; rotation by a negative count is not modelled. */
  function IntegralBinary(op: Operation, s: Scalar, x: int, y: int): Result
    requires s.Valid() && (op.RotateLeft? || op.RotateRight? ==> y >= 0)
  {
    var compared := Compare(op, x, y);
    if compared.Some? then Comparison(compared.value)
    else if (op.Divide? || op.Remainder?) && y == 0 then Trap
    else if (op.ShiftLeft? || op.ShiftRight?) && (y < 0 || y >= s.width) then Trap
    else
      var exact := Exact(op, s, x, y);
      if !Wraps(op) && !Saturates(op) && (exact < Minimum(s) || exact > Maximum(s)) then Trap
      else if Wraps(op) then Integer(FromBits(s, exact))
      else if Saturates(op) then
        Integer(if exact < Minimum(s) then Minimum(s) else if exact > Maximum(s) then Maximum(s) else exact)
      else Integer(exact)
  }

  datatype CheckedOperation = CheckedAdd | CheckedSubtract | CheckedMultiply | CheckedDivide | CheckedRemainder | CheckedConvert

  /** The checked value before its range is tested; nothing where it is undefined. */
  function CheckedValue(op: CheckedOperation, x: int, y: Option<int>): Option<int> {
    match op
    case CheckedConvert => Some(x)
    case CheckedAdd => if y.Some? then Some(x + y.value) else None
    case CheckedSubtract => if y.Some? then Some(x - y.value) else None
    case CheckedMultiply => if y.Some? then Some(x * y.value) else None
    case CheckedDivide => if y.Some? && y.value != 0 then Some(Quotient(x, y.value)) else None
    case CheckedRemainder => if y.Some? && y.value != 0 then Some(x - y.value * Quotient(x, y.value)) else None
  }

  /** A checked operation succeeds when its value fits the target type. */
  function Checked(op: CheckedOperation, target: Scalar, x: int, y: Option<int>): Option<int>
    requires target.Valid()
  {
    var value := CheckedValue(op, x, y);
    if value.Some? && InRange(target, value.value) then value else None
  }
}
