/** Small value wrappers shared by every module of the model. */
module Common {

  /** A value that may be absent: a missing dictionary key, a missing form field, an unloaded backend. */
  datatype Option<+T> = None | Some(value: T) {
    /** The value, or `default` when absent (Python's `dict.get(key, default)`). */
    function GetOr(default: T): T {
      match this
      case Some(v) => v
      case None => default
    }
  }

  /** The outcome of a call into a library this model cannot see: it raised, or it returned a value. */
  datatype Call<+T> = Raised | Returned(value: T)
}
