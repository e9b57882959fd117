/**
  internal/utils.go: the tokeniser shared by the decoders, the line scanner
  that drives them, and the `host:port` validity gate.
*/
module Utils {
  import opened Wrappers
  import opened Text
  import opened Net
  import opened Io

  // ---------------------------------------------------------------------
  // ChunkLine

  /** The non-empty items of `items`, in their original order. */
  function NonEmpty(items: seq<string>): (r: seq<string>)
    ensures |r| <= |items|
    ensures forall j :: 0 <= j < |r| ==> r[j] != ""
  {
    if |items| == 0 then []
    else NonEmpty(items[..|items| - 1]) + (if items[|items| - 1] == "" then [] else [items[|items| - 1]])
  }

  lemma {:induction false} NonEmptyConcat(a: seq<string>, b: seq<string>)
    ensures NonEmpty(a + b) == NonEmpty(a) + NonEmpty(b)
    decreases |b|
  {
    if |b| > 0 {
      assert (a + b)[..|a + b| - 1] == a + b[..|b| - 1];
      NonEmptyConcat(a, b[..|b| - 1]);
    } else {
      assert a + b == a;
    }
  }

  /** An item is kept exactly when it occurs in the input and is not empty. */
  lemma {:induction false} NonEmptyMembers(items: seq<string>, x: string)
    ensures x in NonEmpty(items) <==> x in items && x != ""
  {
    if |items| > 0 {
      var init := items[..|items| - 1];
      NonEmptyMembers(init, x);
      assert items == init + [items[|items| - 1]];
    }
  }

  /** The items ChunkLine keeps: the non-empty pieces of strings.Split(line, sep). */
  function Chunks(line: string, sep: string): seq<string>
    requires |sep| > 0
  {
    NonEmpty(Split(line, sep))
  }

  /**
    internal.ChunkLine: the non-empty pieces of `line` between occurrences of
    `sep`, and an error when fewer than `min` remain (the pieces are returned
    in both cases).
  */
  method ChunkLine(line: string, sep: string, min: int) returns (chunks: seq<string>, err: Option<Error>)
    requires |sep| > 0
    ensures chunks == Chunks(line, sep)
    ensures err.Some? <==> |chunks| < min
    ensures err.Some? ==> err.value == ChunkError(min, |chunks|)
  {
    var items := Split(line, sep);
    chunks := [];
    for i := 0 to |items|
      invariant chunks == NonEmpty(items[..i])
    {
      assert items[..i + 1][..i] == items[..i];
      if items[i] == "" {
        continue;
      }
      chunks := chunks + [items[i]];
    }
    assert items[..|items|] == items;
    var n := |chunks|;
    if n < min {
      return chunks, Some(ChunkError(min, n));
    }
    return chunks, None;
  }

  /** A separator at the start of the line does not change the chunks. */
  lemma LeadingSeparator(c: char, s: string)
    ensures Chunks([c] + s, [c]) == Chunks(s, [c])
  {
    SplitAtChar("", c, s);
    assert "" + [c] + s == [c] + s;
    assert Split("", [c]) == [""];
    NonEmptyConcat([""], Split(s, [c]));
    assert NonEmpty([""]) == [];
  }

  /** A separator at the end of the line does not change the chunks. */
  lemma TrailingSeparator(c: char, s: string)
    ensures Chunks(s + [c], [c]) == Chunks(s, [c])
  {
    SplitAtChar(s, c, "");
    assert s + [c] + "" == s + [c];
    assert Split("", [c]) == [""];
    NonEmptyConcat(Split(s, [c]), [""]);
    assert NonEmpty([""]) == [];
  }

  /** A run of two separators chunks like a single one. */
  lemma SeparatorRun(a: string, c: char, b: string)
    ensures Chunks(a + [c, c] + b, [c]) == Chunks(a + [c] + b, [c])
  {
    assert a + [c, c] + b == a + [c] + ([c] + b);
    SplitAtChar(a, c, [c] + b);
    SplitAtChar(a, c, b);
    NonEmptyConcat(Split(a, [c]), Split([c] + b, [c]));
    NonEmptyConcat(Split(a, [c]), Split(b, [c]));
    LeadingSeparator(c, b);
  }

  /** A column the decoders' lines are made of: non-empty, with no space in it. */
  predicate Token(t: string)
  {
    t != "" && Free(t, ' ')
  }

  /** Tokens that are non-empty and free of the separator are chunked back exactly. */
  lemma ChunksOfJoin(tokens: seq<string>, c: char)
    requires |tokens| >= 1
    requires forall k :: 0 <= k < |tokens| ==> tokens[k] != ""
    requires forall k, j :: 0 <= k < |tokens| && 0 <= j < |tokens[k]| ==> tokens[k][j] != c
    ensures Chunks(Join(tokens, [c]), [c]) == tokens
  {
    SplitJoinChar(tokens, c);
    NonEmptyAll(tokens);
  }

  lemma {:induction false} NonEmptyAll(items: seq<string>)
    requires forall k :: 0 <= k < |items| ==> items[k] != ""
    ensures NonEmpty(items) == items
  {
    if |items| > 0 {
      NonEmptyAll(items[..|items| - 1]);
    }
  }

  // ---------------------------------------------------------------------
  // ScanLines

  /** bufio.ScanLines drops one carriage return at the end of a line. */
  function DropCR(s: string): string
  {
    if |s| > 0 && s[|s| - 1] == '\r' then s[..|s| - 1] else s
  }

  /**
    The tokens a bufio.Scanner with the default line splitter yields: the
    text between newlines, each without a final '\r', and a last line that
    has no newline after it when it is not empty.
  */
  function ScannerLines(data: string): (r: seq<string>)
    decreases |data|
  {
    if |data| == 0 then []
    else
      var i := IndexOfChar(data, '\n');
      if i < 0 then [DropCR(data)]
      else [DropCR(data[..i])] + ScannerLines(data[i + 1..])
  }

  /** What ScanLines passes to its callback: the token with '\n' and then '\r' trimmed off both ends. */
  function CleanLine(token: string): string
  {
    Trim(Trim(token, '\n'), '\r')
  }

  /** The lines, each followed by a newline. */
  function Terminated(lines: seq<string>): string
  {
    if |lines| == 0 then "" else lines[0] + "\n" + Terminated(lines[1..])
  }

  predicate PlainLine(l: string)
  {
    Free(l, '\n') && !(|l| > 0 && l[|l| - 1] == '\r')
  }

  /** The scanner gives back every newline-terminated line, and then a non-empty unterminated one. */
  lemma {:induction false} ScannerLinesOf(lines: seq<string>, last: string)
    requires forall k :: 0 <= k < |lines| ==> PlainLine(lines[k])
    requires PlainLine(last)
    ensures ScannerLines(Terminated(lines) + last) == lines + LastLine(last)
  {
    if |lines| == 0 {
      assert Terminated(lines) + last == last;
      assert lines + LastLine(last) == LastLine(last);
    } else {
      var l := lines[0];
      var tail := lines[1..];
      var rest := Terminated(tail) + last;
      assert forall k :: 0 <= k < |tail| ==> PlainLine(tail[k]) by {
        forall k | 0 <= k < |tail| ensures PlainLine(tail[k]) {
          assert tail[k] == lines[k + 1];
        }
      }
      var ll := LastLine(last);
      calc {
        ScannerLines(Terminated(lines) + last);
        == { TerminatedCons(lines, last); }
        ScannerLines(l + "\n" + rest);
        == { FirstLine(l, rest); }
        [l] + ScannerLines(rest);
        == { ScannerLinesOf(tail, last); }
        [l] + (tail + ll);
        == { assert lines == [l] + tail; }
        lines + ll;
      }
    }
  }

  lemma TerminatedCons(lines: seq<string>, last: string)
    requires |lines| > 0
    ensures Terminated(lines) + last == lines[0] + "\n" + (Terminated(lines[1..]) + last)
  {
    var h := lines[0] + "\n";
    var t := Terminated(lines[1..]);
    assert Terminated(lines) == h + t;
    assert (h + t) + last == h + (t + last);
  }

  /** The unterminated last line, which the scanner yields only when it is not empty. */
  function LastLine(last: string): (r: seq<string>)
    requires PlainLine(last)
    ensures ScannerLines(last) == r
  {
    if last == "" then [] else [last]
  }

  lemma FirstLine(l: string, rest: string)
    requires PlainLine(l)
    ensures ScannerLines(l + "\n" + rest) == [l] + ScannerLines(rest)
  {
    var data := l + "\n" + rest;
    assert data[|l|] == '\n';
    assert forall j :: 0 <= j < |l| ==> data[j] == l[j];
    IndexOfCharIs(data, '\n', |l|);
    assert data[..|l|] == l;
    assert data[|l| + 1..] == rest;
  }

  /** The lines, each followed by a carriage return and a newline, as Windows tools print them. */
  function TerminatedCRLF(lines: seq<string>): string
  {
    if |lines| == 0 then "" else lines[0] + "\r\n" + TerminatedCRLF(lines[1..])
  }

  /**
    The scanner gives back every CRLF-terminated line without its carriage
    return, and then a non-empty unterminated one.
  */
  lemma {:induction false} ScannerLinesOfCRLF(lines: seq<string>, last: string)
    requires forall k :: 0 <= k < |lines| ==> PlainLine(lines[k])
    requires PlainLine(last)
    ensures ScannerLines(TerminatedCRLF(lines) + last) == lines + LastLine(last)
  {
    if |lines| == 0 {
      assert TerminatedCRLF(lines) + last == last;
      assert lines + LastLine(last) == LastLine(last);
    } else {
      var l := lines[0];
      var tail := lines[1..];
      var rest := TerminatedCRLF(tail) + last;
      assert forall k :: 0 <= k < |tail| ==> PlainLine(tail[k]) by {
        forall k | 0 <= k < |tail| ensures PlainLine(tail[k]) {
          assert tail[k] == lines[k + 1];
        }
      }
      var ll := LastLine(last);
      calc {
        ScannerLines(TerminatedCRLF(lines) + last);
        == { TerminatedCRLFCons(lines, last); }
        ScannerLines(l + "\r\n" + rest);
        == { FirstLineCRLF(l, rest); }
        [l] + ScannerLines(rest);
        == { ScannerLinesOfCRLF(tail, last); }
        [l] + (tail + ll);
        == { assert lines == [l] + tail; }
        lines + ll;
      }
    }
  }

  lemma TerminatedCRLFCons(lines: seq<string>, last: string)
    requires |lines| > 0
    ensures TerminatedCRLF(lines) + last == lines[0] + "\r\n" + (TerminatedCRLF(lines[1..]) + last)
  {
    var t := TerminatedCRLF(lines[1..]);
    assert TerminatedCRLF(lines) == (lines[0] + "\r\n") + t;
    Associative(lines[0] + "\r\n", t, last);
  }

  lemma Associative(a: string, b: string, c: string)
    ensures (a + b) + c == a + (b + c)
  {
  }

  lemma FirstLineCRLF(l: string, rest: string)
    requires PlainLine(l)
    ensures ScannerLines(l + "\r\n" + rest) == [l] + ScannerLines(rest)
  {
    var data := l + "\r\n" + rest;
    assert data[|l|] == '\r' && data[|l| + 1] == '\n';
    assert forall j :: 0 <= j < |l| ==> data[j] == l[j];
    IndexOfCharIs(data, '\n', |l| + 1);
    assert data[..|l| + 1] == l + "\r";
    assert DropCR(l + "\r") == l;
    assert data[|l| + 2..] == rest;
  }

  /**
    A line with no newline or carriage return is handed to the callback
    unchanged.
  */
  lemma CleanPlainLine(l: string)
    requires Free(l, '\n') && Free(l, '\r')
    ensures CleanLine(l) == l
  {
  }

  /** The outcome of one callback: the state it leaves, and the error it returns. */
  datatype Step<S> = Step(state: S, err: Option<Error>)

  /**
    What internal.ScanLines computes: the callback runs on each cleaned line
    in order until one returns an error, which is then the result;
    otherwise the result is the reader's own error (`tail`).
  */
  function Scan<S>(lines: seq<string>, f: (S, string) -> Step<S>, st: S, tail: Option<Error>): Step<S>
    decreases |lines|
  {
    if |lines| == 0 then Step(st, tail)
    else
      var s := f(st, CleanLine(lines[0]));
      if s.err.Some? then s else Scan(lines[1..], f, s.state, tail)
  }

  /**
    internal.ScanLines over a reader: drives `f` over the scanner's lines,
    stops at the first error the callback returns, and otherwise returns
    the reader's error (nil at io.EOF).
  */
  method ScanLines<S>(r: Stream, f: (S, string) -> Step<S>, init: S) returns (st: S, err: Option<Error>)
    ensures Step(st, err) == Scan(ScannerLines(r.data), f, init, r.failure)
  {
    var lines := ScannerLines(r.data);
    st := init;
    var i := 0;
    while i < |lines|
      invariant 0 <= i <= |lines|
      invariant Scan(lines, f, init, r.failure) == Scan(lines[i..], f, st, r.failure)
    {
      var line := lines[i];
      line := Trim(line, '\n');
      line := Trim(line, '\r');
      var s := f(st, line);
      assert lines[i..][1..] == lines[i + 1..];
      if s.err.Some? {
        return s.state, s.err;
      }
      st := s.state;
      i := i + 1;
    }
    err := r.failure;
  }

  /** Once a callback has failed, the remaining lines and the reader's end are never consulted. */
  lemma {:induction false} ScanStopsAtError<S>(lines: seq<string>, more: seq<string>, f: (S, string) -> Step<S>, st: S, tail: Option<Error>)
    requires Scan(lines, f, st, None).err.Some?
    ensures Scan(lines + more, f, st, tail) == Scan(lines, f, st, None)
    decreases |lines|
  {
    assert |lines| > 0;
    var s := f(st, CleanLine(lines[0]));
    assert (lines + more)[0] == lines[0];
    if s.err.None? {
      assert (lines + more)[1..] == lines[1..] + more;
      ScanStopsAtError(lines[1..], more, f, s.state, tail);
    }
  }

  /** The results of `parse` on the cleaned lines that it accepts, in line order. */
  function Accepted<T>(parse: string -> Result<T>, lines: seq<string>): (r: seq<T>)
    ensures |r| <= |lines|
  {
    if |lines| == 0 then []
    else
      var p := parse(CleanLine(lines[0]));
      (if p.Success? then [p.value] else []) + Accepted(parse, lines[1..])
  }

  /** The scan callback used by the decoders: append what parses, skip the rest, never fail. */
  function Collect<T>(parse: string -> Result<T>): (S: (seq<T>, string) -> Step<seq<T>>)
  {
    (acc: seq<T>, line: string) =>
      var p := parse(line);
      Step(if p.Success? then acc + [p.value] else acc, None)
  }

  /** Scanning with Collect appends exactly the accepted lines and ends with the reader's error. */
  lemma {:induction false} ScanCollect<T>(parse: string -> Result<T>, lines: seq<string>, acc: seq<T>, tail: Option<Error>)
    ensures Scan(lines, Collect(parse), acc, tail) == Step(acc + Accepted(parse, lines), tail)
    decreases |lines|
  {
    if |lines| > 0 {
      var p := parse(CleanLine(lines[0]));
      var acc' := if p.Success? then acc + [p.value] else acc;
      assert Collect(parse)(acc, CleanLine(lines[0])) == Step(acc', None);
      ScanCollect(parse, lines[1..], acc', tail);
      assert acc + Accepted(parse, lines) == acc' + Accepted(parse, lines[1..]);
    } else {
      assert acc + Accepted(parse, lines) == acc;
    }
  }

  // ---------------------------------------------------------------------
  // ParseNetAddr

  /**
    internal.ParseNetAddr: `addr` must split into host and port and its host
    must be an IP literal (`isIP` stands for net.ParseIP succeeding); the
    result keeps the whole `addr` and the lower-cased network.
  */
  function ParseNetAddr(network: string, addr: string, isIP: string -> bool): (r: Result<NetAddr>)
    ensures r.Success? <==> SplitHostPort(addr).Success? && isIP(SplitHostPort(addr).value.host)
    ensures r.Success? ==> r.value == NetAddr(ToLower(network), addr)
    ensures SplitHostPort(addr).Failure? ==> r == Failure(SplitHostPort(addr).error)
  {
    var network := ToLower(network);
    match SplitHostPort(addr)
    case Failure(e) => Failure(e)
    case Success(hp) =>
      if !isIP(hp.host) then Failure(InvalidIP(hp.host))
      else Success(NetAddr(network, addr))
  }

  /** The netstat wildcard `*:*` is rejected, because `*` is no IP literal. */
  lemma WildcardIsNoAddress(network: string, isIP: string -> bool)
    requires !isIP("*")
    ensures ParseNetAddr(network, "*:*", isIP) == Failure(InvalidIP("*"))
  {
    SplitWildcard();
  }
}
