/**
  csv/encoder.go: the table encoder that identifies each network file by
  the pid of its process.
*/
module Csv {
  import opened Wrappers
  import opened Text
  import opened Net
  import opened Io

  /**
    The network file this encoder reads: a process id and two endpoints.
    (lookup.NetFile as shown carries a command, not a pid; this is the
    record the encoder's field accesses call for.)
  */
  datatype PidNetFile = PidNetFile(pid: int, src: NetAddr, dst: NetAddr)

  const Header: seq<string> := ["PID", "NET", "SRC", "DST"]

  /** The row of one file: its pid in decimal, the source's network and both addresses. */
  function Record(f: PidNetFile): seq<string>
  {
    [Itoa(f.pid), f.src.network, f.src.address, f.dst.address]
  }

  /** A row gives back the file it was written from: the pid parses again, the endpoints are its columns. */
  lemma RecordRoundTrip(f: PidNetFile)
    requires MinInt64 <= f.pid <= MaxInt64
    ensures var row := Record(f);
      && |row| == |Header|
      && Atoi(row[0]) == Success(f.pid)
      && NetAddr(row[1], row[2]) == f.src
      && row[3] == f.dst.address
  {
    AtoiItoa(f.pid);
  }

  /** An Encoder writing rows to `w`. */
  class Encoder {
    const w: RowWriter

    constructor (w: RowWriter)
      ensures this.w == w
    {
      this.w := w;
    }

    /**
      Encoder.Encode: the header and then one row per file, in order, until
      a write fails; the rows before the failure stay written. With room for
      them all every row is written and no error is returned.
    */
    method Encode(l: seq<PidNetFile>) returns (err: Option<Error>)
      modifies w
      ensures w.rows == old(w.rows) + Table(Header, Record, l)[..Taken(old(w.failed), old(w.room), |l| + 1)]
      ensures err == None <==> !old(w.failed) && |l| + 1 <= old(w.room)
      ensures err != None ==> err == Some(WriteFailure)
      ensures w.room == old(w.room) - Taken(old(w.failed), old(w.room), |l| + 1)
      ensures w.failed <==> err != None
    {
      ghost var t := Table(Header, Record, l);
      err := w.Write(Header);
      if err.Some? {
        return;
      }
      for i := 0 to |l|
        invariant !w.failed && w.room == old(w.room) - (i + 1)
        invariant w.rows == old(w.rows) + t[..i + 1]
      {
        var record := [Itoa(l[i].pid), l[i].src.network, l[i].src.address, l[i].dst.address];
        err := w.Write(record);
        if err.Some? {
          return;
        }
        assert t[..i + 2] == t[..i + 1] + [record];
      }
      w.Flush();
      err := w.Error();
    }
  }
}
