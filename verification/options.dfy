/** The optional value used wherever the command either produces something or
    silently produces nothing (a discarded notification, a null parent). */
module Options {

  datatype Option<+T> = None | Some(value: T)
}
