/** The indeterminate-aware decimal of sim/BigDecimalWrapper.kt: a value is either
    a present decimal (RealBigDecimalWrapper) or the single indeterminate marker
    (NaNBigDecimalWrapper). Operations dispatch twice, first on the receiver and
    then on the argument, exactly as the two wrapper classes do. */
module Decimals {
  import opened Wrappers

  datatype Decimal = Present(v: real) | Indeterminate

  /** `compare` takes `nanHigh = true` when the caller omits it. */
  const DefaultNanHigh: bool := true

  /** `wrap`: a present value. */
  function Wrap(v: real): Decimal { Present(v) }

  /** `nan`: the shared indeterminate instance. */
  function Nan(): Decimal { Indeterminate }

  /** `BigDecimal.compareTo`: -1, 0 or 1. */
  function CompareTo(x: real, y: real): (r: int)
    ensures r == -1 || r == 0 || r == 1
    ensures r < 0 <==> x < y
    ensures r == 0 <==> x == y
  {
    if x < y then -1 else if x == y then 0 else 1
  }

  /** `ifPresent`: the values handed to the consumer, in call order. */
  function IfPresent(d: Decimal): (calls: seq<real>)
    ensures |calls| <= 1
    ensures |calls| == 1 <==> d.Present?
    ensures d.Present? ==> calls[0] == d.v
  {
    match d
    case Present(v) => [v]
    case Indeterminate => []
  }

  /** `map`: the operation applied to a present value; empty for indeterminate. */
  function Map<T>(d: Decimal, op: real -> T): (r: Option<T>)
    ensures r.Some? <==> d.Present?
    ensures d.Present? ==> r.value == op(d.v)
  {
    match d
    case Present(v) => Some(op(v))
    case Indeterminate => None
  }

  /** `acceptRealBiMap`: `receiver` is the argument of the original `bimap` call and
      `other` the present value of its receiver. */
  function AcceptRealBiMap<T>(receiver: Decimal, other: real, op: (real, real) -> T): Option<T>
  {
    match receiver
    case Present(v) => Some(op(other, v))
    case Indeterminate => None
  }

  /** `bimap`: a result only when both operands are present, computed as
      `op(receiver, argument)`. */
  function BiMap<T>(a: Decimal, b: Decimal, op: (real, real) -> T): (r: Option<T>)
    ensures r.Some? <==> a.Present? && b.Present?
    ensures r.Some? ==> r.value == op(a.v, b.v)
  {
    match a
    case Present(v) => AcceptRealBiMap(b, v, op)
    case Indeterminate => None
  }

  function AcceptRealOperate(receiver: Decimal, other: real, op: (real, real) -> real): Decimal
  {
    match receiver
    case Present(v) => Wrap(op(other, v))
    case Indeterminate => receiver
  }

  /** `operate`: indeterminate if either operand is, else `wrap(op(receiver, argument))`. */
  function Operate(a: Decimal, b: Decimal, op: (real, real) -> real): (r: Decimal)
    ensures r.Present? <==> a.Present? && b.Present?
    ensures r.Present? ==> r.v == op(a.v, b.v)
  {
    match a
    case Present(v) => AcceptRealOperate(b, v, op)
    case Indeterminate => a
  }

  /** `acceptRealCompare`: `receiver` is the argument of the original call, `other`
      the present value of its receiver. */
  function AcceptRealCompare(receiver: Decimal, other: real, nanHigh: bool): int
  {
    match receiver
    case Present(v) => CompareTo(other, v)
    case Indeterminate => if nanHigh then -1 else 1
  }

  /** `acceptNanCompare`: the original receiver was indeterminate. */
  function AcceptNanCompare(receiver: Decimal, nanHigh: bool): int
  {
    match receiver
    case Present(_) => if nanHigh then 1 else -1
    case Indeterminate => 0
  }

  /** `compare`: the order of present values, with every indeterminate value above
      them all when `nanHigh` and below them all otherwise. */
  function Compare(a: Decimal, b: Decimal, nanHigh: bool): (r: int)
    ensures r == -1 || r == 0 || r == 1
    ensures a.Present? && b.Present? ==> (r < 0 <==> a.v < b.v) && (r == 0 <==> a.v == b.v)
    ensures a.Present? && !b.Present? ==> r == (if nanHigh then -1 else 1)
    ensures !a.Present? && b.Present? ==> r == (if nanHigh then 1 else -1)
    ensures !a.Present? && !b.Present? ==> r == 0
  {
    match a
    case Present(v) => AcceptRealCompare(b, v, nanHigh)
    case Indeterminate => AcceptNanCompare(b, nanHigh)
  }

  /** `equals`: every indeterminate equals every other; present values are equal
      when their decimals are. */
  function Equals(a: Decimal, b: Decimal): (r: bool)
    ensures r <==> Compare(a, b, DefaultNanHigh) == 0
  {
    match a
    case Present(v) => b.Present? && b.v == v
    case Indeterminate => b.Indeterminate?
  }

  /** `hashCode`: 0 for indeterminate; a present value hashes as its decimal does,
      which `valueHash` stands for. */
  function HashCode(d: Decimal, valueHash: real -> int): (h: int)
    ensures d.Indeterminate? ==> h == 0
  {
    match d
    case Present(v) => valueHash(v)
    case Indeterminate => 0
  }

  /** `operate` agrees with `bimap` followed by `wrap`, and with `nan` when empty. */
  lemma OperateIsWrappedBiMap(a: Decimal, b: Decimal, op: (real, real) -> real)
    ensures Operate(a, b, op) == match BiMap(a, b, op) case Some(x) => Wrap(x) case None => Nan()
  {
  }

  lemma CompareAntisymmetric(a: Decimal, b: Decimal, nanHigh: bool)
    ensures Compare(a, b, nanHigh) == -Compare(b, a, nanHigh)
  {
  }

  lemma CompareTransitive(a: Decimal, b: Decimal, c: Decimal, nanHigh: bool)
    requires Compare(a, b, nanHigh) <= 0 && Compare(b, c, nanHigh) <= 0
    ensures Compare(a, c, nanHigh) <= 0
  {
  }

  /** Compare is a total order: it answers 0 exactly on equal values. */
  lemma CompareZeroIsEquality(a: Decimal, b: Decimal, nanHigh: bool)
    ensures Compare(a, b, nanHigh) == 0 <==> a == b
  {
  }

  /** Equality is an equivalence whose hash is consistent with it. */
  lemma EqualsIsEquality(a: Decimal, b: Decimal, valueHash: real -> int)
    ensures Equals(a, b) <==> a == b
    ensures Equals(a, b) ==> HashCode(a, valueHash) == HashCode(b, valueHash)
  {
  }
}
