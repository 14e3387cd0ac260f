/** An optional value. `None` models a JSON field that is absent or null,
    and a lookup that found nothing. */
module Optional {

  datatype Option<+T> = None | Some(value: T)
}
