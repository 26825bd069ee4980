/** The tagged result a stream read returns: a chunk, or the end-of-stream
    marker, kept distinct so that an empty chunk is never mistaken for the
    end of the stream. */
module ReadResults {

  /** `None` marks end-of-stream; `Some(chunk)` carries a (possibly empty) chunk. */
  datatype Option<+T> = None | Some(value: T)
}
