/** The optional value used wherever the system answers "no such thing" (no DOI field, no
    citation key on a line, no field declared on a line). */
module Wrappers {

  datatype Option<+T> = None | Some(value: T)

}
