/** The value of a grid cell: `None` stands for JavaScript's `null`/`undefined`
    (a cell that holds no letter yet), `Some(c)` for a one-character string. */
module Options {

  datatype Option<+T> = None | Some(value: T)

}
