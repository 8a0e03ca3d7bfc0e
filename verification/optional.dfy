/** The optional value the page script gets back from DOM lookups and
    optional chaining: an element or attribute that is absent is `None`. */
module Optional {

  datatype Option<+T> = None | Some(value: T)

}
