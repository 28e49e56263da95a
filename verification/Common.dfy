/** Datatypes shared by the other modules. */
module Common {
  datatype Option<+T> = None | Some(value: T)

  datatype Result<+T> = Ok(value: T) | Err(error: string)

  function Abs(r: real): real {
    if r < 0.0 then -r else r
  }
}
