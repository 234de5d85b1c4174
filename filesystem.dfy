/** The directory tree the scanner walks, with what reading each file gives. */
module FileSystem {

  /** Reading a file: its decoded text (undecodable bytes dropped, and every
      "\r\n" and lone "\r" already turned into "\n", as reading in text mode
      with universal newlines does), or the message of the error that
      prevented reading it. */
  datatype ReadResult = Decoded(text: string) | ReadFailed(message: string)

  /** An entry of a directory listing: a file and what reading it gives, or a
      directory and its entries in listing order. */
  datatype Entry = File(name: string, content: ReadResult) | Dir(name: string, children: seq<Entry>)

  /** Directory `d` holds a file `name` with `content` at the relative
      directory path `rel` (the names of the directories on the way down). */
  ghost predicate Reachable(d: Entry, rel: seq<string>, name: string, content: ReadResult)
    decreases d
  {
    && d.Dir?
    && if rel == [] then File(name, content) in d.children
       else exists c :: c in d.children && c.Dir? && c.name == rel[0] && Reachable(c, rel[1..], name, content)
  }
}
