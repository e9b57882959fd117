/**
  lookup/internal/decoder.go: the second revision of the lsof decoder,
  which keeps the columns as text and reads its input with a bufio.Reader.
*/
module LookupDecoder {
  import opened Wrappers
  import opened Text
  import opened Net
  import opened Io
  import opened Utils

  /** One line of lsof output, column by column. */
  datatype OpenFile = OpenFile(
    command: string,
    pid: string,
    user: string,
    fd: string,
    fileType: string,
    device: string,
    node: string,    // holds the transport protocol
    name: string,    // holds `src->dst`
    state: string)
  {
    /**
      OpenFile.UnmarshalName: the source is the text before the first `->`,
      the destination the piece after it (the empty address when there is
      none); both take the lower-cased node as their network.
    */
    function UnmarshalName(): (r: (NetAddr, NetAddr))
      ensures r.0 == NetAddr(ToLower(node), Split(name, Arrow)[0])
      ensures |Split(name, Arrow)| == 1 ==> r.1 == NoAddr
      ensures |Split(name, Arrow)| > 1 ==> r.1 == NetAddr(ToLower(node), Split(name, Arrow)[1])
      ensures var i := IndexOf(name, Arrow);
        && (i < 0 ==> r.0.address == name && r.1 == NoAddr)
        && (i >= 0 ==> r.0.address == name[..i] && r.1 == NetAddr(ToLower(node), Split(name[i + 2..], Arrow)[0]))
    {
      var chunks := Split(name, Arrow);
      var src := NetAddr(ToLower(node), chunks[0]);
      if |chunks| == 1 then (src, NoAddr)
      else (src, NetAddr(ToLower(node), chunks[1]))
    }
  }

  const Arrow := "->"
  const NoAddr := NetAddr("", "")
  const MinColumns := 9

  /** Two endpoints written with `->` between them come back from UnmarshalName. */
  lemma UnmarshalJoinedName(f: OpenFile, src: string, dst: string)
    requires IndexOf(src, Arrow) < 0 && IndexOf(dst, Arrow) < 0
    requires f.name == src + Arrow + dst
    ensures f.UnmarshalName() == (NetAddr(ToLower(f.node), src), NetAddr(ToLower(f.node), dst))
  {
    var name := f.name;
    var n := |src|;
    assert name[n..n + 2] == Arrow;
    forall j | 0 <= j < n ensures !OccursAt(name, Arrow, j) {
      if j + 2 <= n {
        assert name[j..j + 2] == src[j..j + 2];
        assert !OccursAt(src, Arrow, j);
      } else {
        assert name[j..j + 2][1] == name[n] == '-';
      }
    }
    IndexOfIs(name, Arrow, n);
    assert name[..n] == src;
    assert name[n + 2..] == dst;
    assert Split(name, Arrow) == [src] + Split(dst, Arrow);
    assert Split(dst, Arrow) == [dst];
  }

  /** A name without `->` is a source alone. */
  lemma UnmarshalPlainName(f: OpenFile)
    requires IndexOf(f.name, Arrow) < 0
    ensures f.UnmarshalName() == (NetAddr(ToLower(f.node), f.name), NoAddr)
  {
  }

  /**
    What UnmarshalLsofLine decodes: the line's non-empty space-separated
    items, at least nine of them, as the columns of an OpenFile (item 6 is
    skipped, item 9 is the state when present).
  */
  function LsofLine(line: string): (r: Result<OpenFile>)
    ensures var l := Chunks(line, " ");
      && (r.Success? <==> |l| >= MinColumns)
      && (r.Failure? ==> r.error == LineFormat(|l|))
  {
    var l := Chunks(line, " ");
    if |l| < MinColumns then Failure(LineFormat(|l|))
    else Success(OpenFile(l[0], l[1], l[2], l[3], l[4], l[5], l[7], l[8], if |l| >= 10 then l[9] else ""))
  }

  /** A line written as space-separated columns decodes to exactly those columns. */
  lemma LsofLineOfColumns(cols: seq<string>)
    requires |cols| >= MinColumns && forall k :: 0 <= k < |cols| ==> Token(cols[k])
    ensures LsofLine(Join(cols, " ")) == Success(OpenFile(cols[0], cols[1], cols[2], cols[3], cols[4], cols[5],
              cols[7], cols[8], if |cols| >= 10 then cols[9] else ""))
  {
    ChunksOfJoin(cols, ' ');
  }

  /** Extra spaces between, before or after the columns change nothing. */
  lemma LsofLineIgnoresSpaceRuns(a: string, b: string)
    ensures LsofLine(a + "  " + b) == LsofLine(a + " " + b)
    ensures LsofLine(" " + a) == LsofLine(a)
    ensures LsofLine(a + " ") == LsofLine(a)
  {
    assert a + "  " + b == a + [' ', ' '] + b;
    assert a + " " + b == a + [' '] + b;
    SeparatorRun(a, ' ', b);
    LeadingSeparator(' ', a);
    TrailingSeparator(' ', a);
  }

  /** decoder.UnmarshalLsofLine: drop the empty items of the split, then read the columns. */
  method UnmarshalLsofLine(line: string) returns (r: Result<OpenFile>)
    ensures r == LsofLine(line)
  {
    var chunks := Split(line, " ");
    var l := [];
    for i := 0 to |chunks|
      invariant l == NonEmpty(chunks[..i])
    {
      assert chunks[..i + 1] == chunks[..i] + [chunks[i]];
      NonEmptyConcat(chunks[..i], [chunks[i]]);
      if chunks[i] != "" {
        l := l + [chunks[i]];
      }
    }
    assert chunks[..|chunks|] == chunks;
    if |l| < MinColumns {
      return Failure(LineFormat(|l|));
    }
    var f := OpenFile(l[0], l[1], l[2], l[3], l[4], l[5], l[7], l[8], "");
    if |l| >= 10 {
      f := f.(state := l[9]);
    }
    return Success(f);
  }

  // ---------------------------------------------------------------------
  // DecodeLsofOutput

  /**
    The lines that successive ReadString('\n') calls deliver without an
    error: each complete line with its '\n'. What follows the last '\n'
    comes with the reader's end (io.EOF or a read error) and is not among them.
  */
  function CompleteLines(data: string): (r: seq<string>)
    decreases |data|
  {
    var i := IndexOfChar(data, '\n');
    if i < 0 then [] else [data[..i + 1]] + CompleteLines(data[i + 1..])
  }

  /** The records of the lines that decode, in order; each line loses its newline first. */
  function Decoded(lines: seq<string>): (r: seq<OpenFile>)
    ensures |r| <= |lines|
  {
    if |lines| == 0 then [] else DecodedLine(lines[0]) + Decoded(lines[1..])
  }

  /** The record of one line read with its newline: none when it does not decode. */
  function DecodedLine(line: string): (r: seq<OpenFile>)
    ensures |r| <= 1
  {
    var f := LsofLine(Trim(line, '\n'));
    if f.Success? then [f.value] else []
  }

  lemma {:induction false} DecodedConcat(a: seq<string>, b: seq<string>)
    ensures Decoded(a + b) == Decoded(a) + Decoded(b)
  {
    if |a| > 0 {
      assert (a + b)[1..] == a[1..] + b;
      DecodedConcat(a[1..], b);
    } else {
      assert a + b == b;
    }
  }

  /**
    decoder.DecodeLsofOutput: the records of every complete line that
    decodes, in order, and the reader's error (none at io.EOF); a line that
    does not decode is skipped, and so is a last line without '\n'.
  */
  method DecodeLsofOutput(r: Stream) returns (ll: seq<OpenFile>, err: Option<Error>)
    ensures ll == Decoded(CompleteLines(r.data))
    ensures err == r.failure
  {
    // the successive results of buf.ReadString('\n') that come without an error
    var lines := CompleteLines(r.data);
    ll := [];
    for i := 0 to |lines|
      invariant ll == Decoded(lines[..i])
    {
      var line := Trim(lines[i], '\n');
      var f := UnmarshalLsofLine(line);
      DecodedStep(lines, i, f);
      if f.Success? {
        ll := ll + [f.value];
      }
    }
    assert lines[..|lines|] == lines;
    // the read that ends the input: io.EOF or the reader's error
    err := r.failure;
  }

  lemma DecodedStep(lines: seq<string>, i: nat, f: Result<OpenFile>)
    requires i < |lines| && f == LsofLine(Trim(lines[i], '\n'))
    ensures Decoded(lines[..i + 1]) == Decoded(lines[..i]) + if f.Success? then [f.value] else []
  {
    assert lines[..i + 1] == lines[..i] + [lines[i]];
    DecodedConcat(lines[..i], [lines[i]]);
    assert Decoded([lines[i]]) == DecodedLine(lines[i]) + Decoded([]);
  }

  /** A line's own newline is all that Trim removes from it. */
  lemma TrimNewline(l: string)
    requires Free(l, '\n')
    ensures Trim(l + "\n", '\n') == l
  {
    var s := l + "\n";
    TrimLeftIs(s, '\n');
    var t := TrimLeft(s, '\n');
    if |l| > 0 {
      assert s[0] == l[0];
      assert t == s;
    } else {
      assert t == "";
    }
    TrimRightIs(t, '\n');
    if |l| > 0 {
      assert t[|l| - 1] == l[|l| - 1];
      assert TrimRight(t, '\n') == l;
    }
  }

  /** The records of `lines` that decode, in order. */
  function Kept(lines: seq<string>): (r: seq<OpenFile>)
    ensures |r| <= |lines|
  {
    if |lines| == 0 then []
    else
      var f := LsofLine(lines[0]);
      (if f.Success? then [f.value] else []) + Kept(lines[1..])
  }

  /**
    Over newline-terminated lines followed by an unterminated last one, the
    decoder keeps exactly the terminated lines that decode: the last line
    is dropped whatever it holds.
  */
  lemma {:induction false} DecodeDropsLastLine(lines: seq<string>, last: string)
    requires forall k :: 0 <= k < |lines| ==> Free(lines[k], '\n')
    requires Free(last, '\n')
    ensures Decoded(CompleteLines(Terminated(lines) + last)) == Kept(lines)
  {
    var data := Terminated(lines) + last;
    if |lines| == 0 {
      assert data == last;
      assert IndexOfChar(data, '\n') < 0;
    } else {
      var l := lines[0];
      var rest := Terminated(lines[1..]) + last;
      assert data == l + "\n" + rest;
      assert data[|l|] == '\n';
      IndexOfCharIs(data, '\n', |l|);
      assert data[..|l| + 1] == l + "\n";
      assert data[|l| + 1..] == rest;
      assert CompleteLines(data) == [l + "\n"] + CompleteLines(rest);
      TrimNewline(l);
      DecodeDropsLastLine(lines[1..], last);
    }
  }
}
