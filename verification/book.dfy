/** The catalogue entity: one row of the `Books` table. */
module Entities {
  import opened Wrappers

  /** A book as the repository returns it. `Genre` is a C# string reference and may be
      null (`None`); title and author are carried along but never inspected by the queries. */
  datatype Book = Book(Id: int, Title: string, Author: string, Genre: Option<string>, Year: int)
}
