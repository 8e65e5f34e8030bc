/** The optional value used wherever the page holds something nullable:
    the selected project, a section's DOM element, a project's metrics. */
module Wrappers {

  datatype Option<+T> = None | Some(value: T)
}
