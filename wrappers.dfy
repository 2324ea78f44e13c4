/** The optional value `get_color_from_panel` and `selected_color` use: a colour, or none. */
module Wrappers {

  datatype Option<T> = None | Some(value: T)
}
