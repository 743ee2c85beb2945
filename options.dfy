/** An optional value: JavaScript's undefined, C's null pointer or a
    parse that found nothing. */
module Options {
  datatype Option<T> = None | Some(value: T)
}
