/** The conventional Some/None datatype. `None` stands for a missing value:
    a field the table reader left as NaN, a lookup that found no row, or an
    aggregate of an empty series. */
module Optional {

  datatype Option<+T> = None | Some(value: T)

}
