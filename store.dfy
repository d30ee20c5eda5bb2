/**
 * The decision `loadJsonFile` makes once the file has been looked for and parsed,
 * and what `saveJsonFile` leaves behind. Reading bytes, JSON text and the parser
 * are not modelled: a file is described by what reading and parsing it gives.
 */
module Store {
  import opened Wrappers
  import opened Words

  /** The root value the JSON parser produced: an array of records, or a value that is not an array. */
  datatype Root = ArrayRoot(items: seq<Record>) | OtherRoot

  /** What reading and parsing an existing file gives: a read error, a syntax
      error with the parser's message, or a root value. */
  datatype Contents = Unreadable(reason: string) | Malformed(reason: string) | Read(root: Root)

  /** The target file: absent, or present with its contents. */
  datatype FileState = Absent | Present(contents: Contents)

  /** Why loading failed: the read itself (outside the `try`), or the parse, whose
      message names the file ("Failed to parse <file>: <reason>"). */
  datatype LoadError = ReadFailed(reason: string) | ParseFailed(file: string, reason: string)

  /** The reason given when the parsed root is not an array. */
  const NotArrayReason: string := "JSON root is not an array"

  /** `loadJsonFile`: an absent file is an empty list, a parsed array is that list,
      and everything else is an error. */
  function Load(file: string, state: FileState): (r: Result<seq<Record>, LoadError>)
    ensures state == Absent ==> r == Success([])
    ensures r.Success? <==> state == Absent || (state.Present? && state.contents.Read? && state.contents.root.ArrayRoot?)
    ensures r.Success? && state.Present? ==> state == Present(Read(ArrayRoot(r.value)))
    ensures state == Present(Read(OtherRoot)) ==> r == Failure(ParseFailed(file, NotArrayReason))
    ensures state.Present? && state.contents.Malformed? ==>
              r == Failure(ParseFailed(file, state.contents.reason))
    ensures state.Present? && state.contents.Unreadable? ==>
              r == Failure(ReadFailed(state.contents.reason))
  {
    match state
    case Absent => Success([])
    case Present(Unreadable(reason)) => Failure(ReadFailed(reason))
    case Present(Malformed(reason)) => Failure(ParseFailed(file, reason))
    case Present(Read(OtherRoot)) => Failure(ParseFailed(file, NotArrayReason))
    case Present(Read(ArrayRoot(items))) => Success(items)
  }

  /** `saveJsonFile`: the file now holds the list as a JSON array, so reading it back
      gives the same records in the same order. */
  function Save(list: seq<Record>): (f: FileState)
    ensures forall file :: Load(file, f) == Success(list)
  {
    Present(Read(ArrayRoot(list)))
  }
}
