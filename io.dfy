/**
  Readers and writers. A reader is the bytes it delivers followed by how it
  ends; a writer is a sink whose capacity decides when it starts failing.
*/
module Io {
  import opened Wrappers

  /**
    The regexp package, seen through the two questions the core asks of it:
    whether a pattern compiles, and whether a compiled pattern matches a text.
  */
  datatype RegexEngine = RegexEngine(compiles: string -> bool, matches: (string, string) -> bool)

  /** An io.Reader: the bytes it delivers, then io.EOF (`None`) or a read error. */
  datatype Stream = Stream(data: string, failure: Option<Error>)

  /**
    A csv.Writer over an io.Writer, seen row by row. It accepts rows while it
    has room; the first write beyond that fails, and from then on every write
    fails with the same, sticky, error.
  */
  class RowWriter {
    var rows: seq<seq<string>>
    var room: nat
    var failed: bool

    constructor (room: nat)
      ensures rows == [] && this.room == room && !failed
    {
      rows := [];
      this.room := room;
      failed := false;
    }

    /** A writer that accepts the next write. */
    predicate Accepts()
      reads this
    {
      !failed && room > 0
    }

    /** csv.Writer.Error: the error recorded so far. */
    function Error(): (e: Option<Error>)
      reads this
      ensures e.Some? <==> failed
    {
      if failed then Some(WriteFailure) else None
    }

    /** csv.Writer.Write. */
    method Write(row: seq<string>) returns (err: Option<Error>)
      modifies this
      ensures old(Accepts()) ==> rows == old(rows) + [row] && room == old(room) - 1 && !failed
      ensures !old(Accepts()) ==> rows == old(rows) && room == old(room) && failed
      ensures err == Error()
    {
      if !failed && room > 0 {
        rows := rows + [row];
        room := room - 1;
      } else {
        failed := true;
      }
      err := Error();
    }

    /** csv.Writer.Flush: rows are handed on as they are written, so nothing is left to do. */
    method Flush()
    {
    }
  }

  /**
    The rows a table encoder writes: its header, then one record per item,
    in item order.
  */
  function Table<T>(header: seq<string>, record: T -> seq<string>, items: seq<T>): (t: seq<seq<string>>)
    ensures |t| == |items| + 1 && t[0] == header
    ensures forall k :: 0 <= k < |items| ==> t[k + 1] == record(items[k])
  {
    if |items| == 0 then [header]
    else Table(header, record, items[..|items| - 1]) + [record(items[|items| - 1])]
  }

  /** How many of `n` rows in a row a RowWriter takes, from the state it is in. */
  function Taken(failed: bool, room: nat, n: nat): (k: nat)
    ensures k <= n && k <= room
    ensures k == n <==> n == 0 || (!failed && n <= room)
  {
    if failed then 0 else if room < n then room else n
  }

  /** An io.Writer that takes at most `room` more bytes and then reports a short write. */
  class TextWriter {
    var text: string
    var room: nat

    constructor (room: nat)
      ensures text == "" && this.room == room
    {
      text := "";
      this.room := room;
    }

    /** io.Writer.Write: all of `s` when it fits, otherwise as much as fits and an error. */
    method Write(s: string) returns (n: nat, err: Option<Error>)
      modifies this
      ensures |s| <= old(room) ==> text == old(text) + s && room == old(room) - |s| && n == |s| && err == None
      ensures |s| > old(room) ==> text == old(text) + s[..old(room)] && room == 0 && n == old(room) && err == Some(ShortWrite)
    {
      if |s| <= room {
        text := text + s;
        room := room - |s|;
        n, err := |s|, None;
      } else {
        n := room;
        text := text + s[..room];
        room := 0;
        err := Some(ShortWrite);
      }
    }
  }
}
