/** An optional value, used where the window code either has something or does not
    (a row a line contributes, a progress milestone a chunk matches, a selected row). */
module Options {

  datatype Option<+T> = None | Some(value: T)
}
