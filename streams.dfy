/** What a reader of a streamed HTTP body observes: the text of each
    successful `reader.read()`, in order, and how the loop ended. */
module Streams {

  /** `Done`: a read returned `{ done: true }`. `Broken`: a read rejected
      (a dropped connection, an upstream failure, or an abort). */
  datatype ReadEnd = Done | Broken

  datatype Trace = Trace(chunks: seq<string>, end: ReadEnd)
}
