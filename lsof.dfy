/** onf/internal/lsof/lsof.go: decoding the output of `lsof -i -n -P`. */
module Lsof {
  import opened Wrappers
  import opened Text
  import opened Net
  import opened Io
  import opened Utils

  /** One open network file, as one line of lsof output describes it. */
  datatype ONF = ONF(
    command: string,
    pid: int,
    user: string,
    fd: string,
    fileType: string,
    device: string,
    state: string,   // "(ESTABLISHED)", "(LISTEN)", ... or ""
    src: NetAddr,
    dst: NetAddr)

  const Arrow := "->"

  /** The endpoint that ParseName returns for a missing destination: `addr{}`. */
  const NoAddr := NetAddr("", "")

  /**
    ParseName: lsof's name column is `src->dst` (or just `src` for a socket
    that is not connected); both endpoints take the lower-cased node as
    their network.
  */
  function ParseName(node: string, name: string): (r: (NetAddr, NetAddr))
    ensures r.0 == NetAddr(ToLower(node), Split(name, Arrow)[0])
    ensures |Split(name, Arrow)| == 1 ==> r.1 == NoAddr
    ensures |Split(name, Arrow)| > 1 ==> r.1 == NetAddr(ToLower(node), Split(name, Arrow)[1])
    ensures var i := IndexOf(name, Arrow);
      && (i < 0 ==> r.0.address == name && r.1 == NoAddr)
      && (i >= 0 ==> r.0.address == name[..i] && r.1 == NetAddr(ToLower(node), Split(name[i + 2..], Arrow)[0]))
  {
    var chunks := Split(name, Arrow);
    var src := NetAddr(ToLower(node), chunks[0]);
    if |chunks| == 1 then (src, NoAddr)
    else (src, NetAddr(ToLower(node), chunks[1]))
  }

  /**
    The source is the text before the first `->` (all of it when there is
    none, and then no destination); the destination is what follows, up to
    the next `->`.
  */
  lemma ParseNameParts(node: string, name: string)
    ensures var i := IndexOf(name, Arrow);
      var (src, dst) := ParseName(node, name);
      && src.network == ToLower(node)
      && (i < 0 ==> src.address == name && dst == NoAddr)
      && (i >= 0 ==> name == src.address + Arrow + name[i + 2..]
                     && dst == NetAddr(ToLower(node), Split(name[i + 2..], Arrow)[0]))
  {
    var i := IndexOf(name, Arrow);
    if i >= 0 {
      assert name[i..i + 2] == Arrow;
      assert name == name[..i] + Arrow + name[i + 2..];
    }
  }

  /** Naming the two endpoints of a connection with `->` and parsing the name gives them back. */
  lemma ParseNameJoined(node: string, src: string, dst: string)
    requires IndexOf(src, Arrow) < 0 && IndexOf(dst, Arrow) < 0
    ensures ParseName(node, src + Arrow + dst) == (NetAddr(ToLower(node), src), NetAddr(ToLower(node), dst))
  {
    var name := src + Arrow + dst;
    var n := |src|;
    assert name[n..n + 2] == Arrow;
    forall j | 0 <= j < n ensures !OccursAt(name, Arrow, j) {
      if j + 2 <= n {
        assert name[j..j + 2] == src[j..j + 2];
        assert !OccursAt(src, Arrow, j);
      } else {
        assert name[j..j + 2][1] == name[n] == '-';
      }
    }
    IndexOfIs(name, Arrow, n);
    assert name[..n] == src;
    assert name[n + 2..] == dst;
    assert Split(name, Arrow) == [src] + Split(dst, Arrow);
    assert Split(dst, Arrow) == [dst];
  }

  /** The lsof column layout: command, pid, user, fd, type, device, size/off, node, name, [state]. */
  const MinColumns := 9

  /**
    ParseONF: a line with at least nine space-separated items whose second
    item is an integer; the node (item 7) and name (item 8) give the two
    endpoints, item 9 (when present) the state, and item 6 is ignored.
  */
  function ParseONF(line: string): (r: Result<ONF>)
    ensures var c := Chunks(line, " ");
      && (|c| < MinColumns ==> r == Failure(ChunkError(MinColumns, |c|)))
      && (|c| >= MinColumns && Atoi(c[1]).Failure? ==> r == Failure(PidError(Atoi(c[1]).error)))
      && (r.Success? <==> |c| >= MinColumns && Atoi(c[1]).Success?)
  {
    var chunks := Chunks(line, " ");
    if |chunks| < MinColumns then Failure(ChunkError(MinColumns, |chunks|))
    else match Atoi(chunks[1])
      case Failure(e) => Failure(PidError(e))
      case Success(pid) =>
        var (src, dst) := ParseName(chunks[7], chunks[8]);
        Success(ONF(chunks[0], pid, chunks[2], chunks[3], chunks[4], chunks[5],
                    if |chunks| >= 10 then chunks[9] else "", src, dst))
  }

  /** The columns of a line, read back: every field of the record comes from its own column. */
  lemma ParseONFColumns(line: string)
    requires ParseONF(line).Success?
    ensures var c := Chunks(line, " "); var f := ParseONF(line).value;
      && f.command == c[0] && Success(f.pid) == Atoi(c[1]) && f.user == c[2]
      && f.fd == c[3] && f.fileType == c[4] && f.device == c[5]
      && (f.src, f.dst) == ParseName(c[7], c[8])
      && f.state == (if |c| >= 10 then c[9] else "")
  {
  }

  /**
    A line written as space-separated columns (any number of them from the
    ninth on) decodes to exactly those columns.
  */
  lemma ParseONFOfColumns(cols: seq<string>, pid: int)
    requires |cols| >= MinColumns && forall k :: 0 <= k < |cols| ==> Token(cols[k])
    requires MinInt64 <= pid <= MaxInt64 && cols[1] == Itoa(pid)
    ensures ParseONF(Join(cols, " ")) == Success(ONF(cols[0], pid, cols[2], cols[3], cols[4], cols[5],
              if |cols| >= 10 then cols[9] else "", ParseName(cols[7], cols[8]).0, ParseName(cols[7], cols[8]).1))
  {
    ChunksOfJoin(cols, ' ');
    AtoiItoa(pid);
  }

  /** ParseOutput's parser, as a value. */
  function Parser(): string -> Result<ONF>
  {
    ParseONF
  }

  /**
    ParseOutput: the records of the lines that ParseONF accepts, in line
    order; a malformed line is skipped and never causes an error, so the
    only error is the reader's.
  */
  method ParseOutput(r: Stream) returns (onfs: seq<ONF>, err: Option<Error>)
    ensures onfs == Accepted(Parser(), ScannerLines(r.data))
    ensures err == r.failure
  {
    var st;
    st, err := ScanLines(r, Collect(Parser()), []);
    ScanCollect(Parser(), ScannerLines(r.data), [], r.failure);
    onfs := st;
  }
}
