/** The optional value used where the source uses a nullable reference. */
module Wrappers {

  datatype Option<+T> = None | Some(value: T) {

    /** This value if present, else `other` (the C# `??` operator on references). */
    function OrElse(other: Option<T>): (r: Option<T>)
      ensures r.Some? <==> Some? || other.Some?
    {
      if Some? then this else other
    }
  }
}
