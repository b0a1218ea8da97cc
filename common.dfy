/** Small shared definitions: an optional value and the minimum of two amounts. */
module Common {

  datatype Option<+T> = None | Some(value: T)

  /** `Math.min` on two amounts. */
  function Min(a: real, b: real): (m: real)
    ensures m <= a && m <= b
    ensures m == a || m == b
  {
    if a <= b then a else b
  }
}
