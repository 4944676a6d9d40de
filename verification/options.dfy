/** Optional values and results, used where the viewer's script yields
    `null`, `undefined` or `NaN`, or reports an error instead of acting. */
module Options {

  datatype Option<+T> = None | Some(value: T)

  datatype Result<+T, +E> = Success(value: T) | Failure(error: E)

}
