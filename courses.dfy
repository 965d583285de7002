/** The record the catalog stores: one course, as read from one line of the
    input file. */
module Courses {

  /** The optional result of a lookup or of parsing a line (the source's
      nullptr and its "skip this line"). */
  datatype Option<T> = None | Some(value: T)

  /** A course number such as "CSCI100" (the key of the index), its title
      and its prerequisite course numbers, in file order. */
  datatype Course = Course(number: string, title: string, prerequisites: seq<string>)
}
