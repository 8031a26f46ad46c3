/** Positions in a session's timeline: a timestamp, then a frame number. */
module Timeline {
  datatype Key = Key(ts: int, frame: int)

  predicate Before(a: Key, b: Key) {
    a.ts < b.ts || (a.ts == b.ts && a.frame < b.frame)
  }
}
