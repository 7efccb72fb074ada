/** Small value types shared by the whole model: an optional value (Rust's `Option`)
    and a three-way comparison result (Rust's `std::cmp::Ordering`). */
module Basics {

  datatype Option<+T> = None | Some(value: T)

  datatype Ordering = Less | Equal | Greater

  /** `f32::partial_cmp` on two values that may be NaN (`None`): no ordering when either is NaN. */
  function PartialCmp(x: Option<real>, y: Option<real>): (r: Option<Ordering>)
    ensures r.None? <==> x.None? || y.None?
    ensures r == Some(Greater) <==> x.Some? && y.Some? && x.value > y.value
    ensures r == Some(Less) <==> x.Some? && y.Some? && x.value < y.value
  {
    if x.None? || y.None? then None
    else if x.value < y.value then Some(Less)
    else if x.value > y.value then Some(Greater)
    else Some(Equal)
  }

  /** `Option::unwrap_or` on an ordering. */
  function UnwrapOr(o: Option<Ordering>, default: Ordering): Ordering
  {
    match o
    case Some(v) => v
    case None => default
  }
}
