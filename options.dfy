/** A value that may be absent: Kotlin's nullable types (`Uri?`) and the
    "encoder threw" outcome of the QR library. */
module Options {

  datatype Option<+T> = None | Some(value: T)
}
