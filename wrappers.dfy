/** Values shared by the storage layer and the three entity records. */
module Wrappers {

  /** Python's `None` or a present value. */
  datatype Option<+T> = None | Some(value: T)

  /** What a setter is handed: a `str`, or any other Python value (`None` included). */
  datatype PyValue = Str(s: string) | NonStr

  /** How a call ends: normally, or with the Python exception it raises. */
  datatype Status = Ok | ValueError | AttributeError | IntegrityError
}
