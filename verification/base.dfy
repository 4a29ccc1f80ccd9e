/** Shared wrappers: optional values, the run-aborting errors of the tool, and results. */
module Base {

  datatype Option<T> = None | Some(value: T)

  /** The conditions under which the tool stops: a Python exception escaping to the top level,
      or an explicit `sys.exit`. */
  datatype Error =
    | NoSlash                          // `str.rindex("/")` finds no slash (ValueError)
    | BadDate                          // `strptime` rejects a Date cell (ValueError)
    | BadFraction                      // `Fraction(...)` rejects a Test cases cell (ValueError)
    | ZeroDenominator                  // `Fraction("p/0")` (ZeroDivisionError)
    | NoMatchingCourse                 // `get_course` finds nothing, `sys.exit(2)`
    | SeveralMatchingCourses(count: nat) // `get_course` finds more than one, `sys.exit(2)`

  datatype Result<T> = Ok(value: T) | Err(error: Error)
}
