/** Value semantics of the branch-free helpers the samplers take from
    `crate::constant_time`: a mask is 0 or 1 and selection picks by the mask.
    Their timing behaviour is not part of this model. */
module ConstantTime {

  type Mask = m: nat | m <= 1

  /** `ct_eq_u64` */
  function CtEq(a: nat, b: nat): Mask {
    if a == b then 1 else 0
  }

  /** `ct_le_u64` */
  function CtLe(a: nat, b: nat): Mask {
    if a <= b then 1 else 0
  }

  /** `ct_f64_le`, on exact reals */
  function CtRealLe(a: real, b: real): Mask {
    if a <= b then 1 else 0
  }

  /** `ct_min_u64` */
  function CtMin(a: nat, b: nat): nat {
    if a <= b then a else b
  }

  /** `ct_select_u64(mask, a, b)`: a when the mask is set, b otherwise */
  function CtSelect(mask: Mask, a: nat, b: nat): nat {
    if mask == 1 then a else b
  }

  /** `ct_select_f64` */
  function CtSelectReal(mask: Mask, a: real, b: real): real {
    if mask == 1 then a else b
  }

  /** `a & b` on masks */
  function MaskAnd(a: Mask, b: Mask): Mask {
    a * b
  }

  /** `a | b` on masks */
  function MaskOr(a: Mask, b: Mask): Mask {
    if a == 1 || b == 1 then 1 else 0
  }

  /** `1 - a` on a mask */
  function MaskNot(a: Mask): Mask {
    1 - a
  }
}
