/**
 * The record source the analyzer pulls from: a finite list of already
 * parsed records and a cursor that `Next` advances by one.
 */
module Reader {
  import opened Records

  class LogfileReader {
    /** The log file the records were read from. */
    const filename: string
    /** Every record of the file, in file order. */
    const entries: seq<LogEntry>
    /** How many records `Next` has delivered so far. */
    var cursor: nat

    ghost predicate Valid()
      reads this
    {
      cursor <= |entries|
    }

    constructor (filename: string, entries: seq<LogEntry>)
      ensures Valid()
      ensures this.filename == filename && this.entries == entries && cursor == 0
    {
      this.filename := filename;
      this.entries := entries;
      cursor := 0;
    }

    /** Whether a record remains to be delivered; once none does, every record has been. */
    predicate HasNext(): (r: bool)
      reads this
      ensures Valid() && !r ==> cursor == |entries|
    {
      cursor < |entries|
    }

    /** Delivers the record under the cursor and moves past it. */
    method Next() returns (e: LogEntry)
      requires Valid() && HasNext()
      modifies this
      ensures Valid()
      ensures e == entries[old(cursor)] && cursor == old(cursor) + 1
    {
      e := entries[cursor];
      cursor := cursor + 1;
    }
  }
}
