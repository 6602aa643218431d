/** Small result types shared by the retriever and the editor. */
module Wrappers {

  /** Python's `None` or a value. */
  datatype Option<+T> = None | Some(value: T)

  /** The outcome of calling code outside the model (a network lookup):
      it either returns a value or raises an exception. */
  datatype Call<+T> = Returned(value: T) | Raised

  /** Python truthiness of an optional string: `None` and `""` are both falsy. */
  predicate Truthy(v: Option<string>)
  {
    v.Some? && v.value != ""
  }
}
