/** JavaScript numbers, as far as rounding is not the point. */
module JsNumbers {

  datatype JsNumber = NaN | Infinite(positive: bool) | Finite(value: real)

  const MAX_SAFE_INTEGER: nat := 0x1f_ffff_ffff_ffff

  predicate IsFalsy(n: JsNumber) {
    n == NaN || n == Finite(0.0)
  }

  /** `Math.ceil`. */
  function Ceil(x: real): int {
    -((-x).Floor)
  }

  /** `Number.isSafeInteger`. */
  predicate IsSafeInteger(n: JsNumber) {
    && n.Finite?
    && n.value == n.value.Floor as real
    && -(MAX_SAFE_INTEGER as real) <= n.value <= MAX_SAFE_INTEGER as real
  }
}
