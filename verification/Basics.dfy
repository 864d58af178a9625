/** Types shared by the models. */
module Basics {
  datatype Option<+T> = None | Some(value: T)

  /** A C `unsigned char`. */
  type byte = b: int | 0 <= b < 256

  lemma {:induction false} SubsetSize<T>(a: set<T>, b: set<T>)
    requires a <= b
    ensures |a| <= |b|
  {
    if x :| x in a {
      SubsetSize(a - {x}, b - {x});
    }
  }
}
