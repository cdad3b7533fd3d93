/**
 * Results of library operations that can throw.
 *
 * Every exception the library raises on purpose is a
 * java.lang.IllegalArgumentException; the message tells the cases apart,
 * and the tags below stand for those messages.  `MissingEntry` stands for
 * the null-dereference exception an unguarded map lookup raises.
 */
module Outcomes {
  datatype Failure =
    | VertexNotFound      // degree or removeVertex of an absent vertex
    | SourceNotFound      // a traversal started from an absent vertex
    | NothingLeft         // GraphIterator.next with an empty frontier
    | CycleCreated        // Forest.addEdge refused by the union-find
    | MissingEntry        // Java's null-dereference exception: a map lookup found no entry

  datatype Outcome<T> = Ok(value: T) | Thrown(failure: Failure)

  /** An operation that returns nothing but may throw. */
  datatype Status = Done | Raised(failure: Failure)

  /** A result that Java reports as `null` when there is none. */
  datatype Option<T> = None | Some(value: T)
}
