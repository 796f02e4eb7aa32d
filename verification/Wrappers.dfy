/** Shared types: `None` is the source's None, `Err` a raised exception. */
module Wrappers {
  datatype Option<+T> = None | Some(value: T)

  datatype Result<+T, +E> = Ok(value: T) | Err(error: E)

  newtype Byte = b: int | 0 <= b < 256

  /** Some element of a non-empty set. */
  ghost function Pick<T>(s: set<T>): (x: T)
    requires s != {}
    ensures x in s
  {
    assert |s| != 0;
    var x :| x in s;
    x
  }

  /** Some element of a non-empty set, where the source iterates in an order that does not matter. */
  method AnyOf<T(==)>(s: set<T>) returns (x: T)
    requires s != {}
    ensures x in s
  {
    assert |s| != 0;
    x :| x in s;
  }
}
