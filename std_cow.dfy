/** `std::borrow::Cow<'a, T>`: either a borrow of a `T` or an owned copy of one. */
module StdCow {

  datatype Cow<T> = Borrowed(val: T) | Owned(val: T)
}
