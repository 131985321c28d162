/** An optional value: an attribute that may be absent, an element that may be
    missing from the page. */
module Optional {

  datatype Option<+T> = None | Some(value: T)
}
