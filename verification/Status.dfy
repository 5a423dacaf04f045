/** What the modules share. */
module Status {
  /** The return codes of src/mmp_error.h that the modelled operations can produce. */
  datatype Ret = Ok | Generic | Params | Parse | Empty | NotFound

  datatype Option<+T> = None | Some(value: T)

  /** A `void*`. */
  type Ptr = nat
  const NULL: Ptr := 0
}
