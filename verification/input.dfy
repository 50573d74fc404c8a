/** Values handed to the core by the user-interface layer. */
module Input {

  /** A value that may be unset, such as the cached daily capacity. */
  datatype Option<+T> = None | Some(value: T)

  /** What a dialog prompt gives back: the user closed it, typed something
      that does not parse as a number, or typed a number. */
  datatype Reply<+T> = Dismissed | Unparsable | Given(value: T)
}
