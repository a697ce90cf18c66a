/** The "maybe absent" results of the graph store: `find` returning `undefined`,
    `addEdge` returning `null`, `primMST` returning nothing. */
module Wrappers {
  datatype Option<+T> = None | Some(value: T)
}
