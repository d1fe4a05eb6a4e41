/** The nullable values of the application (`User | null`, `string | null`, ...). */
module Wrappers {

  datatype Option<+T> = None | Some(value: T)
}
