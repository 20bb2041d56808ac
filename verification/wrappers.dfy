/** The optional value used where `recomendar_musicas` or `resultados` either
    finds something or reports nothing (an empty data frame, a missing form
    field). */
module Wrappers {

  datatype Option<+T> = None | Some(value: T)
}
