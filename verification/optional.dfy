/** A value that the application may hold as `null` or `undefined`. */
module Optional {

  datatype Option<+T> = Absent | Present(value: T) {

    /** The held value, or `fallback` in its place (the `??` and `||`
        defaults of the application). */
    function OrElse(fallback: T): (r: T)
      ensures Present? ==> r == value
      ensures Absent? ==> r == fallback
    {
      if Present? then value else fallback
    }
  }
}
