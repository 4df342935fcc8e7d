/** Raw values held in a record's field storage, and the errors the core can raise. */
module Values {

  /** A raw attribute value. `Hash` is the decoded form of the serialized column. */
  datatype Value =
    | Nil
    | Str(s: string)
    | Bool(b: bool)
    | Int(i: int)
    | Opaque(repr: string)  // a decimal, float, date, time or any other raw object
    | Hash(entries: map<string, Value>)

  datatype Error =
    | UnknownAttribute(name: string)   // no accessor of that name was generated
    | SerializationTypeMismatch        // the serialized column holds neither nil nor a Hash
    | NoMethodError                    // `slice!` sent to nil

  datatype Option<T> = None | Some(value: T)

  datatype Result<T> = Ok(value: T) | Err(error: Error)

  datatype Outcome = Pass | Fail(error: Error)
}
