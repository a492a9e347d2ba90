/** An optional value; `None` also stands for the solver's "no such variable". */
module Optional {
  datatype Option<T> = None | Some(value: T)
}
