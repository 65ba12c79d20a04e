/**
 * The agents compare evaluations with Python's float('inf') and
 * -float('inf'); ExtReal is that ordered domain: the reals with the two
 * infinities adjoined.
 */
module ExtReals {

  datatype ExtReal = NegInf | Fin(val: real) | PosInf

  /** Python's `a <= b` on numbers and infinities */
  predicate Le(a: ExtReal, b: ExtReal) {
    a.NegInf? || b.PosInf? || (a.Fin? && b.Fin? && a.val <= b.val)
  }

  /** Python's `a < b` */
  predicate Lt(a: ExtReal, b: ExtReal) {
    !Le(b, a)
  }

  /** Python's `max(a, b)`: the least upper bound of the two */
  function Max(a: ExtReal, b: ExtReal): (m: ExtReal)
    ensures Le(a, m) && Le(b, m)
    ensures m == a || m == b
  {
    if Le(a, b) then b else a
  }

  /** Python's `min(a, b)`: the greatest lower bound of the two */
  function Min(a: ExtReal, b: ExtReal): (m: ExtReal)
    ensures Le(m, a) && Le(m, b)
    ensures m == a || m == b
  {
    if Le(a, b) then a else b
  }
}
