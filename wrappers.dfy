/** The optional-value datatype used by lookups and by the notebook's
    `execution_count`, which nbformat stores as an integer or as null. */
module Wrappers {

  datatype Option<+T> = None | Some(value: T)
}
