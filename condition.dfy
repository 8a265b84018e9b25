/**
 * The `Condition` of day2 and underReview/day3: a column, a comparison
 * operator and a value. `Check` looks the column up in a row and compares
 * the row's value, on the left, with the condition's value, on the right.
 *
 * The condition's value is taken out of its interface with a type
 * assertion, so a condition whose value has a different dynamic type than
 * the row's makes Go panic; `Check` reports that as `Err(Panic)`.
 */
module Conditions {
  import opened Bytes
  import opened Values
  import opened Legacy

  const CONDITION_EQUAL: int := 0
  const CONDITION_LESS_THAN: int := 1
  const CONDITION_GREATER_THAN: int := 2
  const CONDITION_LESS_THAN_OR_EQUAL: int := 3
  const CONDITION_GREATER_THAN_OR_EQUAL: int := 4

  datatype Condition = Condition(target: ColumnConfig, lookup: int, value: Value)

  /** How two values compare; `Unordered` when a float64 is NaN. */
  datatype Order = Less | Same | Greater | Unordered

  /** The reference meaning of an operator: does `left op right` hold when they compare as `o`? */
  predicate Satisfies(op: int, o: Order)
  {
    || (op == CONDITION_EQUAL && o == Same)
    || (op == CONDITION_LESS_THAN && o == Less)
    || (op == CONDITION_GREATER_THAN && o == Greater)
    || (op == CONDITION_LESS_THAN_OR_EQUAL && (o == Less || o == Same))
    || (op == CONDITION_GREATER_THAN_OR_EQUAL && (o == Greater || o == Same))
  }

  function IntOrder(a: int, b: int): Order
  {
    if a < b then Less else if a == b then Same else Greater
  }

  /** `checkInt64`: `val op Value` for the five operators, false for any other. */
  function CheckInt64(c: Condition, val: int64): Result<bool>
  {
    if !c.value.I64? then Err(Panic)
    else
      var my := c.value.i64;
      if c.lookup == CONDITION_EQUAL then Ok(val == my)
      else if c.lookup == CONDITION_LESS_THAN then Ok(val < my)
      else if c.lookup == CONDITION_GREATER_THAN then Ok(val > my)
      else if c.lookup == CONDITION_LESS_THAN_OR_EQUAL then Ok(val <= my)
      else if c.lookup == CONDITION_GREATER_THAN_OR_EQUAL then Ok(val >= my)
      else Ok(false)
  }

  /** A float64 bit pattern is NaN when its exponent is all ones and its fraction is not zero. */
  predicate IsNaN(bits: uint64)
  {
    bits % 0x8000_0000_0000_0000 > 0x7FF0_0000_0000_0000
  }

  /**
   * The position of a non-NaN float64 on the number line, read off its sign
   * and magnitude bits: both zeros sit at 0, the infinities at the ends.
   */
  function FloatKey(bits: uint64): int
  {
    if bits >= 0x8000_0000_0000_0000 then -(bits - 0x8000_0000_0000_0000) else bits
  }

  /** IEEE 754 `<` and `==`: false whenever either side is NaN. */
  predicate FloatLess(a: uint64, b: uint64)
  {
    !IsNaN(a) && !IsNaN(b) && FloatKey(a) < FloatKey(b)
  }

  predicate FloatEqual(a: uint64, b: uint64)
  {
    !IsNaN(a) && !IsNaN(b) && FloatKey(a) == FloatKey(b)
  }

  function FloatOrder(a: uint64, b: uint64): Order
  {
    if IsNaN(a) || IsNaN(b) then Unordered else IntOrder(FloatKey(a), FloatKey(b))
  }

  /** `checkFloat64`: Go's float comparisons of `val` with `Value`. */
  function CheckFloat64(c: Condition, val: uint64): Result<bool>
  {
    if !c.value.F64? then Err(Panic)
    else
      var my := c.value.bits;
      if c.lookup == CONDITION_EQUAL then Ok(FloatEqual(val, my))
      else if c.lookup == CONDITION_LESS_THAN then Ok(FloatLess(val, my))
      else if c.lookup == CONDITION_GREATER_THAN then Ok(FloatLess(my, val))
      else if c.lookup == CONDITION_LESS_THAN_OR_EQUAL then Ok(FloatLess(val, my) || FloatEqual(val, my))
      else if c.lookup == CONDITION_GREATER_THAN_OR_EQUAL then Ok(FloatLess(my, val) || FloatEqual(val, my))
      else Ok(false)
  }

  /** `checkString`: only `Equal` is supported. */
  function CheckString(c: Condition, val: seq<byte>): Result<bool>
  {
    if !c.value.Str? then Err(Panic)
    else if c.lookup == CONDITION_EQUAL then Ok(val == c.value.s)
    else Ok(false)
  }

  const MIN_DURATION: int := -0x8000_0000_0000_0000
  const MAX_DURATION: int := 0x7FFF_FFFF_FFFF_FFFF

  /** `time.Time.Sub`: the nanoseconds from `u` to `t`, saturated to the range of a `Duration`. */
  function Sub(t: TimeWire, u: TimeWire): int
  {
    var d := Instant(t) - Instant(u);
    if d < MIN_DURATION then MIN_DURATION else if d > MAX_DURATION then MAX_DURATION else d
  }

  /** `checkTime`: compares the sign of `Value.Sub(val)` with zero. */
  function CheckTime(c: Condition, val: TimeWire): Result<bool>
  {
    if !c.value.Time? then Err(Panic)
    else
      var diff := Sub(c.value.wire, val);
      if c.lookup == CONDITION_EQUAL then Ok(diff == 0)
      else if c.lookup == CONDITION_LESS_THAN then Ok(diff > 0)
      else if c.lookup == CONDITION_GREATER_THAN then Ok(diff < 0)
      else if c.lookup == CONDITION_LESS_THAN_OR_EQUAL then Ok(diff >= 0)
      else if c.lookup == CONDITION_GREATER_THAN_OR_EQUAL then Ok(diff <= 0)
      else Ok(false)
  }

  /** `Check`: false for an absent column or a value of any other dynamic type. */
  function Check(c: Condition, row: Row): Result<bool>
  {
    if c.target.name !in row then Ok(false)
    else
      match row[c.target.name]
      case I64(x) => CheckInt64(c, x)
      case F64(x) => CheckFloat64(c, x)
      case Str(x) => CheckString(c, x)
      case Time(x) => CheckTime(c, x)
      case _ => Ok(false)
  }

  /** How a value in a row compares with the condition's value of the same type. */
  function ValueOrder(v: Value, w: Value): Order
    requires v.I64? || v.F64? || v.Time?
    requires SameKindValues(v, w)
  {
    match v
    case I64(x) => IntOrder(x, w.i64)
    case F64(x) => FloatOrder(x, w.bits)
    case Time(x) => IntOrder(Instant(x), Instant(w.wire))
  }

  /** The condition's value `w` has the dynamic type the type assertion for the row's value `v` expects. */
  predicate SameKindValues(v: Value, w: Value)
  {
    (v.I64? ==> w.I64?) && (v.F64? ==> w.F64?) && (v.Str? ==> w.Str?) && (v.Time? ==> w.Time?)
  }

  /** A time difference saturates to a duration of the same sign. */
  lemma SubSign(t: TimeWire, u: TimeWire)
    ensures Sub(t, u) == 0 <==> Instant(t) == Instant(u)
    ensures Sub(t, u) > 0 <==> Instant(t) > Instant(u)
  {
  }

  /**
   * `Check` means `row[column] op Value` under the reference meaning of the
   * operators, for the four orderable kinds: int64 by value, float64 by IEEE
   * order, time by instant (`Value - val > 0` is `val < Value`); a string
   * satisfies only `Equal`, with an equal string. An absent column, or a
   * value of any other type, satisfies nothing, and a condition value of the
   * wrong type panics.
   */
  lemma CheckMeaning(c: Condition, row: Row)
    ensures c.target.name !in row ==> Check(c, row) == Ok(false)
    ensures c.target.name in row && !(row[c.target.name].I64? || row[c.target.name].F64? ||
                                      row[c.target.name].Str? || row[c.target.name].Time?) ==>
              Check(c, row) == Ok(false)
    ensures c.target.name in row && (row[c.target.name].I64? || row[c.target.name].F64? ||
                                     row[c.target.name].Str? || row[c.target.name].Time?) ==>
              (Check(c, row).Err? <==> !SameKindValues(row[c.target.name], c.value))
    ensures c.target.name in row && SameKindValues(row[c.target.name], c.value) &&
            (row[c.target.name].I64? || row[c.target.name].F64? || row[c.target.name].Time?) ==>
              Check(c, row) == Ok(Satisfies(c.lookup, ValueOrder(row[c.target.name], c.value)))
    ensures c.target.name in row && row[c.target.name].Str? && c.value.Str? ==>
              Check(c, row) == Ok(c.lookup == CONDITION_EQUAL && row[c.target.name] == c.value)
  {
    if c.target.name in row && row[c.target.name].Time? && c.value.Time? {
      SubSign(c.value.wire, row[c.target.name].wire);
    }
  }

  /** NaN satisfies no comparison, not even equality with the same bit pattern. */
  lemma NaNMatchesNothing(c: Condition, bits: uint64)
    requires c.value.F64? && (IsNaN(bits) || IsNaN(c.value.bits))
    ensures CheckFloat64(c, bits) == Ok(false)
  {
  }

  /** Positive and negative zero are equal as float64 values. */
  lemma ZerosEqual()
    ensures FloatEqual(0, 0x8000_0000_0000_0000)
  {
  }

  /** The two strict orders are converses, and the non-strict ones are their union with equality. */
  lemma OperatorsRelated(o: Order)
    ensures Satisfies(CONDITION_LESS_THAN_OR_EQUAL, o) <==>
            Satisfies(CONDITION_LESS_THAN, o) || Satisfies(CONDITION_EQUAL, o)
    ensures Satisfies(CONDITION_GREATER_THAN_OR_EQUAL, o) <==>
            Satisfies(CONDITION_GREATER_THAN, o) || Satisfies(CONDITION_EQUAL, o)
    ensures o != Unordered ==>
              (Satisfies(CONDITION_LESS_THAN, o) || Satisfies(CONDITION_EQUAL, o) || Satisfies(CONDITION_GREATER_THAN, o))
    ensures forall op :: !(0 <= op <= 4) ==> !Satisfies(op, o)
  {
  }

  /**
   * The condition loop of `Select`: every condition must hold. The loop
   * stops at the first condition that does not hold, or that panics.
   */
  function AllHold(conds: seq<Condition>, row: Row): Result<bool>
    decreases |conds|
  {
    if conds == [] then Ok(true)
    else
      match Check(conds[0], row)
      case Err(e) => Err(e)
      case Ok(b) => if !b then Ok(false) else AllHold(conds[1..], row)
  }

  /** Every condition before the `i`-th holds. */
  predicate HoldBefore(conds: seq<Condition>, row: Row, i: int)
  {
    forall j :: 0 <= j < i && j < |conds| ==> Check(conds[j], row) == Ok(true)
  }

  /**
   * A row matches exactly when every condition holds of it, so an empty
   * list matches every row; the loop panics exactly when some condition
   * panics after all conditions before it held.
   */
  lemma {:induction false} AllHoldMeaning(conds: seq<Condition>, row: Row)
    ensures AllHold(conds, row) == Ok(true) <==> HoldBefore(conds, row, |conds|)
    ensures AllHold(conds, row).Err? <==>
              exists i :: 0 <= i < |conds| && Check(conds[i], row).Err? && HoldBefore(conds, row, i)
    decreases |conds|
  {
    if conds != [] {
      var rest := conds[1..];
      AllHoldMeaning(rest, row);
      match Check(conds[0], row)
      case Err(e) =>
        assert HoldBefore(conds, row, 0);
      case Ok(b) =>
        if !b {
          forall i | 0 < i < |conds| ensures !HoldBefore(conds, row, i) {
            assert Check(conds[0], row) != Ok(true);
          }
        } else {
          if HoldBefore(rest, row, |rest|) {
            forall j | 0 <= j < |conds| ensures Check(conds[j], row) == Ok(true) {
              if j > 0 {
                assert conds[j] == rest[j - 1];
              }
            }
          }
          if HoldBefore(conds, row, |conds|) {
            forall j | 0 <= j < |rest| ensures Check(rest[j], row) == Ok(true) {
              assert rest[j] == conds[j + 1];
            }
          }
          if AllHold(rest, row).Err? {
            var i :| 0 <= i < |rest| && Check(rest[i], row).Err? && HoldBefore(rest, row, i);
            assert conds[i + 1] == rest[i];
            forall j | 0 <= j < i + 1 ensures Check(conds[j], row) == Ok(true) {
              if j > 0 {
                assert conds[j] == rest[j - 1];
              }
            }
          }
          if exists i :: 0 <= i < |conds| && Check(conds[i], row).Err? && HoldBefore(conds, row, i) {
            var i :| 0 <= i < |conds| && Check(conds[i], row).Err? && HoldBefore(conds, row, i);
            assert i > 0;
            assert rest[i - 1] == conds[i];
            forall j | 0 <= j < i - 1 ensures Check(rest[j], row) == Ok(true) {
              assert rest[j] == conds[j + 1];
            }
          }
        }
    }
  }

  /** The loop itself: a flag cleared at the first condition that fails. */
  method MatchAll(conds: seq<Condition>, row: Row) returns (r: Result<bool>)
    ensures r == AllHold(conds, row)
  {
    var flag := true;
    var i := 0;
    while i < |conds|
      invariant 0 <= i <= |conds|
      invariant AllHold(conds, row) == AllHold(conds[i..], row)
    {
      var c := Check(conds[i], row);
      if c.Err? {
        return Err(c.error);
      }
      if !c.value {
        flag := false;
        break;
      }
      assert conds[i..][1..] == conds[i + 1..];
      i := i + 1;
    }
    return Ok(flag);
  }
}
