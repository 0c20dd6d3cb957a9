/** A mutable box around one value, used for the lazily filled caches of the
    extension loader. An empty box stands for a `null` value. */
module Holders {
  import opened Common

  class Holder<T> {
    var value: Option<T>

    constructor ()
      ensures value == None
    {
      value := None;
    }

    /** `get()`: the value last set, or `None` when none has been. */
    method Get() returns (v: Option<T>)
      ensures v == value
    {
      v := value;
    }

    /** `set(value)`: replaces the held value. */
    method Set(v: Option<T>)
      modifies this
      ensures value == v
    {
      value := v;
    }
  }
}
