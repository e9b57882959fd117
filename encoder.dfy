/**
  encoder/encoder.go, encoder/bpf.go and encoder/csv.go: writing network
  files out as a packet filter or as a table.
*/
module Encoder {
  import opened Wrappers
  import opened Text
  import opened Net
  import opened Io
  import opened Lookup
  import BpfExpr

  // ---------------------------------------------------------------------
  // encoder.go

  /** The encoding names the command line accepts. */
  const AllowedEncoders: seq<string> := ["csv", "bpf"]

  /** ValidateType: no error exactly for an allowed name, compared exactly. */
  method ValidateType(s: string) returns (err: Option<Error>)
    ensures err == None <==> s in AllowedEncoders
    ensures err != None ==> err == Some(Unsupported("unsupported encoding type " + s))
  {
    for i := 0 to |AllowedEncoders|
      invariant forall j :: 0 <= j < i ==> AllowedEncoders[j] != s
    {
      if s == AllowedEncoders[i] {
        return None;
      }
    }
    return Some(Unsupported("unsupported encoding type " + s));
  }

  /** The comparison is case-sensitive, and the empty name is no encoding. */
  lemma AllowedNames()
    ensures "csv" in AllowedEncoders && "bpf" in AllowedEncoders
    ensures "CSV" !in AllowedEncoders && "" !in AllowedEncoders
  {
    assert AllowedEncoders == ["csv", "bpf"];
    assert "CSV" != "csv" by { assert "CSV"[0] != "csv"[0]; }
    assert "CSV" != "bpf" by { assert "CSV"[0] != "bpf"[0]; }
  }

  // ---------------------------------------------------------------------
  // bpf.go

  /** bpfBuilder.buildAddr: the clause `host H and port P` of an address `H:P`. */
  function BuildAddr(addr: string): (r: Result<string>)
    ensures SplitHostPort(addr).Failure? ==> r == Failure(SplitHostPort(addr).error)
    ensures SplitHostPort(addr).Success? ==>
      var hp := SplitHostPort(addr).value; r == Success("host " + hp.host + " and port " + hp.port)
  {
    match SplitHostPort(addr)
    case Failure(e) => Failure(e)
    case Success(hp) =>
      JoinWords(hp.host, hp.port);
      Success(Join(["host", hp.host, "and", "port", hp.port], " "))
  }

  lemma JoinWords(h: string, p: string)
    ensures Join(["host", h, "and", "port", p], " ") == "host " + h + " and port " + p
  {
    var words := ["host", h, "and", "port", p];
    assert words[4..] == [p];
    assert words[3..][1..] == words[4..];
    assert words[2..][1..] == words[3..];
    assert words[1..][1..] == words[2..];
    assert Join(words[3..], " ") == "port" + " " + p;
    assert Join(words[2..], " ") == "and" + " " + ("port" + " " + p);
    assert Join(words[1..], " ") == h + " " + ("and" + " " + ("port" + " " + p));
  }

  /** The clause of a host and port joined by net.JoinHostPort names that host and port. */
  lemma BuildAddrOfHostPort(host: string, port: string)
    requires Free(host, '[') && Free(host, ']')
    requires Free(port, ':') && Free(port, '[') && Free(port, ']')
    ensures BuildAddr(JoinHostPort(host, port)) == Success("host " + host + " and port " + port)
  {
    SplitJoinHostPort(host, port);
  }

  /** An address without a port has no clause. */
  lemma BuildAddrNeedsPort(addr: string)
    requires Free(addr, ':')
    ensures BuildAddr(addr) == Failure(AddrError(addr, MissingPort))
  {
    SplitHostPortNoColon(addr);
  }

  /**
    The clauses of the files' sources, in order, one per file (repeated
    hosts repeat their clause), or the error of the first file whose source
    has none.
  */
  function Clauses(l: seq<NetFile>): (r: Result<seq<string>>)
    ensures r.Success? <==> forall k :: 0 <= k < |l| ==> BuildAddr(l[k].src.address).Success?
    ensures r.Success? ==> |r.value| == |l|
    ensures r.Success? ==> forall k :: 0 <= k < |l| ==> BuildAddr(l[k].src.address) == Success(r.value[k])
  {
    SourceClauses(BuildAddr, l)
  }

  /** Clauses with the clause of one address given by `clause`. */
  function SourceClauses(clause: string -> Result<string>, l: seq<NetFile>): (r: Result<seq<string>>)
    ensures r.Success? <==> forall k :: 0 <= k < |l| ==> clause(l[k].src.address).Success?
    ensures r.Success? ==> |r.value| == |l|
    ensures r.Success? ==> forall k :: 0 <= k < |l| ==> clause(l[k].src.address) == Success(r.value[k])
  {
    if |l| == 0 then Success([])
    else
      var init := l[..|l| - 1];
      assert forall k :: 0 <= k < |init| ==> init[k] == l[k];
      match SourceClauses(clause, init)
      case Failure(e) => Failure(e)
      case Success(cs) =>
        match clause(l[|l| - 1].src.address)
        case Failure(e) => Failure(e)
        case Success(c) =>
          assert forall k :: 0 <= k < |cs| ==> (cs + [c])[k] == cs[k];
          Success(cs + [c])
  }

  /** Every clause names a host and a port, so none is empty. */
  lemma ClausesNotEmpty(l: seq<NetFile>)
    requires Clauses(l).Success?
    ensures forall k :: 0 <= k < |l| ==> Clauses(l).value[k] != ""
  {
    forall k | 0 <= k < |l| ensures Clauses(l).value[k] != "" {
      var hp := SplitHostPort(l[k].src.address).value;
      assert Clauses(l).value[k] == "host " + hp.host + " and port " + hp.port;
    }
  }

  /** The error is that of the first file whose source does not split. */
  lemma {:induction false} ClausesFirstFailure(l: seq<NetFile>, k: nat)
    requires k < |l| && BuildAddr(l[k].src.address).Failure?
    requires forall j :: 0 <= j < k ==> BuildAddr(l[j].src.address).Success?
    ensures Clauses(l) == Failure(BuildAddr(l[k].src.address).error)
  {
    var init := l[..|l| - 1];
    if k < |l| - 1 {
      ClausesFirstFailure(init, k);
    } else {
      assert Clauses(init).Success?;
    }
  }

  /** The first file without a clause after a run of files with one decides the error. */
  lemma ClausesPrefixFails(l: seq<NetFile>, i: nat)
    requires i < |l| && Clauses(l[..i]).Success? && BuildAddr(l[i].src.address).Failure?
    ensures Clauses(l) == Failure(BuildAddr(l[i].src.address).error)
  {
    forall j | 0 <= j < i ensures BuildAddr(l[j].src.address).Success? {
      assert l[..i][j] == l[j];
    }
    ClausesFirstFailure(l, i);
  }

  /** Only the sources are encoded: files with the same sources have the same clauses. */
  lemma {:induction false} ClausesOnlySources(l: seq<NetFile>, m: seq<NetFile>)
    requires |l| == |m| && forall k :: 0 <= k < |l| ==> l[k].src == m[k].src
    ensures Clauses(l) == Clauses(m)
  {
    if |l| > 0 {
      ClausesOnlySources(l[..|l| - 1], m[..|m| - 1]);
    }
  }

  /** One more file with a clause extends the or-ed clauses as bpfBuilder.Or does. */
  lemma ClausesStep(l: seq<NetFile>, i: nat)
    requires i < |l| && Clauses(l[..i]).Success? && BuildAddr(l[i].src.address).Success?
    ensures Clauses(l[..i + 1]).Success?
    ensures Join(Clauses(l[..i + 1]).value, " or ")
      == BpfExpr.JoinOperands(BpfExpr.Or, Join(Clauses(l[..i]).value, " or "), BuildAddr(l[i].src.address).value)
  {
    assert l[..i + 1][..i] == l[..i];
    var cs := Clauses(l[..i]).value;
    var c := BuildAddr(l[i].src.address).value;
    assert Clauses(l[..i + 1]) == Success(cs + [c]);
    assert " or " == " " + BpfExpr.Or + " ";
    ClausesNotEmpty(l[..i]);
    BpfExpr.OrStep(BpfExpr.Or, cs, c);
  }

  /** Two clauses joined with ` or ` are the first or-ed with the second. */
  lemma JoinTwo(prev: string, cur: string)
    requires prev != ""
    ensures Join([prev, cur], " or ") == BpfExpr.JoinOperands(BpfExpr.Or, prev, cur)
  {
    assert [prev, cur][1..] == [cur];
    assert Join([prev, cur], " or ") == prev + " or " + cur;
    assert prev + " or " + cur == prev + " " + BpfExpr.Or + " " + cur;
  }

  /** A bpfBuilder: the filter built so far. */
  class BpfBuilder {
    var contents: string

    constructor ()
      ensures contents == ""
    {
      contents := "";
    }

    /**
      bpfBuilder.Or: the clause of the file's source is or-ed onto the
      filter, exactly as BPF expressions are joined with `or`; a source
      that does not split leaves the filter as it was.
    */
    method Or(f: NetFile) returns (err: Option<Error>)
      modifies this
      ensures BuildAddr(f.src.address).Failure? ==>
        contents == old(contents) && err == Some(BuildAddr(f.src.address).error)
      ensures BuildAddr(f.src.address).Success? ==>
        contents == BpfExpr.JoinOperands(BpfExpr.Or, old(contents), BuildAddr(f.src.address).value) && err == None
    {
      var i := BuildAddr(f.src.address);
      if i.Failure? {
        return Some(i.error);
      }
      var cur := i.value;
      var prev := contents;
      if prev != "" {
        JoinTwo(prev, cur);
        cur := Join([prev, cur], " or ");
      }
      contents := "";
      contents := contents + cur;
      err := None;
    }
  }

  /** The filter text a successful encoding writes: the clauses joined by `or`, and a newline. */
  function BpfText(clauses: seq<string>): string
  {
    Join(clauses, " or ") + "\n"
  }

  /** A BPFEncoder writing to `w`. */
  class BpfEncoder {
    const w: TextWriter

    constructor (w: TextWriter)
      ensures this.w == w
    {
      this.w := w;
    }

    /**
      BPFEncoder.Encode: when every source has a clause, the clauses in
      order joined by `or`, then a newline, are written with one write (an
      empty list writes just the newline); otherwise the first error is
      returned and nothing is written.
    */
    method Encode(l: seq<NetFile>) returns (err: Option<Error>)
      modifies w
      ensures Clauses(l).Failure? ==>
        err == Some(Clauses(l).error) && w.text == old(w.text) && w.room == old(w.room)
      ensures Clauses(l).Success? && |BpfText(Clauses(l).value)| <= old(w.room) ==>
        w.text == old(w.text) + BpfText(Clauses(l).value) && err == None
      ensures Clauses(l).Success? && |BpfText(Clauses(l).value)| > old(w.room) ==>
        w.text == old(w.text) + BpfText(Clauses(l).value)[..old(w.room)] && err == Some(ShortWrite)
    {
      var filter;
      filter, err := BuildFilter(l);
      if err.Some? {
        return;
      }
      var n;
      n, err := w.Write(filter + "\n");
    }
  }

  /**
    The loop of BPFEncoder.Encode: every file's source or-ed onto a fresh
    bpfBuilder, stopping at the first that has no clause.
  */
  method BuildFilter(l: seq<NetFile>) returns (filter: string, err: Option<Error>)
    ensures Clauses(l).Failure? ==> err == Some(Clauses(l).error)
    ensures Clauses(l).Success? ==> filter == Join(Clauses(l).value, " or ") && err == None
  {
    var builder := new BpfBuilder();
    assert l[..0] == [];
    for i := 0 to |l|
      invariant Clauses(l[..i]).Success?
      invariant builder.contents == Join(Clauses(l[..i]).value, " or ")
    {
      err := builder.Or(l[i]);
      if err.Some? {
        ClausesPrefixFails(l, i);
        return "", err;
      }
      ClausesStep(l, i);
    }
    assert l[..|l|] == l;
    filter, err := builder.contents, None;
  }

  // ---------------------------------------------------------------------
  // csv.go

  const CsvHeader: seq<string> := ["COMMAND", "NET", "SRC", "DST"]

  /** The row of one file: its command, the source's network and both addresses. */
  function CsvRecord(f: NetFile): seq<string>
  {
    [f.command, f.src.network, f.src.address, f.dst.address]
  }

  /** A CSVEncoder writing rows to `w`. */
  class CsvEncoder {
    const w: RowWriter

    constructor (w: RowWriter)
      ensures this.w == w
    {
      this.w := w;
    }

    /**
      CSVEncoder.Encode: the header and then one row per file, in order,
      until a write fails; the rows before the failure stay written. With
      room for them all every row is written and no error is returned.
    */
    method Encode(l: seq<NetFile>) returns (err: Option<Error>)
      modifies w
      ensures w.rows == old(w.rows) + Table(CsvHeader, CsvRecord, l)[..Taken(old(w.failed), old(w.room), |l| + 1)]
      ensures err == None <==> !old(w.failed) && |l| + 1 <= old(w.room)
      ensures err != None ==> err == Some(WriteFailure)
      ensures w.room == old(w.room) - Taken(old(w.failed), old(w.room), |l| + 1)
      ensures w.failed <==> err != None
    {
      ghost var t := Table(CsvHeader, CsvRecord, l);
      err := w.Write(CsvHeader);
      if err.Some? {
        return;
      }
      for i := 0 to |l|
        invariant !w.failed && w.room == old(w.room) - (i + 1)
        invariant w.rows == old(w.rows) + t[..i + 1]
      {
        var record := [l[i].command, l[i].src.network, l[i].src.address, l[i].dst.address];
        err := w.Write(record);
        if err.Some? {
          return;
        }
        assert t[..i + 2] == t[..i + 1] + [record];
      }
      w.Flush();
      err := w.Error();
    }
  }
}
