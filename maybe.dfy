/** An optional value: the model's stand-in for a JavaScript value that may be null or undefined. */
module Maybe {

  datatype Option<+T> = None | Some(value: T)

}
