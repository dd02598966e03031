/** A value that may be absent. `None` plays the part of Java's `null`
    wherever the application returns "no such object". */
module Optional {

  datatype Option<+T> = None | Some(value: T)

}
