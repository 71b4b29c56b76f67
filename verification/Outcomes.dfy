/** Result types shared by the components. */
module Outcomes {

  datatype Option<+T> = None | Some(value: T)
}
