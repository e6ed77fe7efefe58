/** An optional value: stands for a Java reference or a JavaScript property that may be null. */
module Options {

  datatype Option<+T> = None | Some(value: T)
}
