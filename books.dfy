/** The catalog record shared by every part of the application
    (`Book` in src/utils/constants.ts). */
module Books {
  import opened Wrappers

  /** The reading status a list entry carries: 'to-read' or 'already-read'. */
  datatype Status = ToReadStatus | AlreadyReadStatus

  /** A catalog entry. `rating` is a JavaScript number, kept as a real;
      optional fields are `Option`s. */
  datatype Book = Book(
    id: int,
    title: string,
    author: string,
    genre: string,
    rating: real,
    description: string,
    longDescription: Option<string>,
    cover: Option<string>,
    status: Option<Status>)
}
