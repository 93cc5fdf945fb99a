/** Small value types shared by the account model: optional values, the
    values a request or response dictionary can hold, and the exceptions the
    account code raises. */
module Values {

  datatype Option<+T> = None | Some(value: T)

  /** A value stored in a Python dictionary (validated request data, keyword
      arguments of the model constructor, response bodies). */
  datatype Value =
    | Null
    | Text(text: string)
    | Int(number: int)
    | Flag(flag: bool)
    | Uid(uid: nat)
    | Time(time: int)

  /** The exceptions the modelled code can raise. */
  datatype ErrorKind =
    | ValueError(message: string)      // raised by create_user on a bad email
    | DoesNotExist                     // objects.get found no row
    | MultipleObjectsReturned          // objects.get found several rows
    | KeyError(key: string)            // request.data[key] with key absent

  /** A value, or the exception raised instead of producing it. */
  datatype Result<+T> = Success(value: T) | Failure(error: ErrorKind)

  /** Python truthiness of an optional (nullable) string field. */
  predicate TruthyText(o: Option<string>) {
    o.Some? && o.value != ""
  }

  /** Python truthiness of an optional (nullable) integer field. */
  predicate TruthyInt(o: Option<int>) {
    o.Some? && o.value != 0
  }
}
