/** Values shared by the review deck and the review-queue view. */
module Notes {

  datatype Option<+T> = None | Some(value: T)

  /** A note of the vault, identified by its path (the fields of a file
      handle that the review queue looks at). */
  datatype Note = Note(path: string)

  /** A scheduled review: a note and the millisecond timestamp at which it
      becomes due. */
  datatype SchedNote = SchedNote(note: Note, dueUnix: int)

  /** Importance scores, keyed by note path; a path without an entry scores 0. */
  type Pageranks = map<string, int>

  function Score(pageranks: Pageranks, path: string): int
  {
    if path in pageranks then pageranks[path] else 0
  }
}
