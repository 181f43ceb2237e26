/** The records the book list and the event log are made of. */
module Catalog {

  /** A value that may be absent: JavaScript's `null` / `undefined`. */
  datatype Option<T> = None | Some(value: T)

  /** Server-assigned book identifier (a UUID string); compared only for equality. */
  type BookId = string

  /** The ISO time string stamped on an event when it is observed; never inspected. */
  type Timestamp = string

  datatype Book = Book(id: BookId, title: string, author: string)

  /** The `type` field of an event: `'added'` or `'deleted'`. */
  datatype EventType = Added | Deleted

  datatype BookEvent = BookEvent(kind: EventType, book: Book, time: Timestamp)
}
