/**
  onf/internal/tasklist/tasklist.go: decoding the output of `tasklist`. A
  header is skipped up to its row of `=` runs, whose run lengths fix the
  column widths; every later line is read as fixed-width columns.
*/
module Tasklist {
  import opened Wrappers
  import opened Text
  import opened Io
  import opened Utils

  datatype Task = Task(pid: int, image: string)

  const Delim := "="
  const MinColumns := 5
  /** The size of ParseTask's scratch buffer `p`. */
  const BufferSize := 32
  const SliceOutOfRange := "slice bounds out of range"

  /** The header's delimiter row: it starts and ends with `=`. */
  predicate IsDelimiter(line: string)
  {
    HasPrefix(line, Delim) && HasSuffix(line, Delim)
  }

  /** A scanner line that, once cleaned, is the delimiter. */
  predicate DelimiterLine(token: string)
  {
    IsDelimiter(CleanLine(token))
  }

  /** The widths ParseTask can read with its 32-byte buffer: two of them, each leaving room for one separator. */
  predicate Fits(w: seq<nat>)
  {
    |w| >= 2 && w[0] + 1 <= BufferSize && w[1] + 1 <= BufferSize
  }

  function Lengths(runs: seq<string>): (w: seq<nat>)
    ensures |w| == |runs| && forall j :: 0 <= j < |runs| ==> w[j] == |runs[j]|
  {
    seq(|runs|, j requires 0 <= j < |runs| => |runs[j]|)
  }

  function Min(a: nat, b: nat): nat { if a <= b then a else b }

  /**
    What ParseTask reads: the image from the first w[0] + 1 bytes and the pid
    from the next w[1] + 1 bytes (fewer when the line ends first), each with
    spaces trimmed from both ends. A read that finds the line exhausted is
    an end-of-file error.
  */
  function ReadTask(line: string, w: seq<nat>): (r: Result<Task>)
    requires Fits(w)
  {
    var n0 := Min(w[0] + 1, |line|);
    var n1 := Min(w[1] + 1, |line| - n0);
    if n0 == 0 || n1 == 0 then Failure(ChunkReadError(EOF))
    else
      var image := Trim(line[..n0], ' ');
      var pidRaw := Trim(line[n0..n0 + n1], ' ');
      if image == "" then Failure(ImageMissing)
      else if pidRaw == "" then Failure(PidMissing)
      else match Atoi(pidRaw)
        case Failure(e) => Failure(PidError(e))
        case Success(pid) => Success(Task(pid, image))
  }

  /**
    When ParseTask panics: `segLengths[:2]` needs two widths, and each
    `p[:v+1]` is sliced before its read, so an image width that overflows
    the buffer panics on any line, while a pid width that does panics only
    on a line the image read has not found empty.
  */
  predicate Panics(line: string, w: seq<nat>)
  {
    |w| < 2 || w[0] + 1 > BufferSize || (line != "" && w[1] + 1 > BufferSize)
  }

  /**
    ParseTask's outcome for any widths: a panic, or the end-of-file error of
    the first read on an empty line, or ReadTask.
  */
  function ParsedTask(line: string, w: seq<nat>): (r: Result<Task>)
    ensures (r.Failure? && r.error.Panic?) <==> Panics(line, w)
    ensures Fits(w) ==> r == ReadTask(line, w)
  {
    if |w| < 2 || w[0] + 1 > BufferSize then Failure(Panic(SliceOutOfRange))
    else if line == "" then Failure(ChunkReadError(EOF))
    else if w[1] + 1 > BufferSize then Failure(Panic(SliceOutOfRange))
    else ReadTask(line, w)
  }

  /** A line no longer than the image column fails: the pid read finds nothing left. */
  lemma ShortLineFails(line: string, w: seq<nat>)
    requires Fits(w) && |line| <= w[0] + 1
    ensures ReadTask(line, w) == Failure(ChunkReadError(EOF))
  {
  }

  /** A decoded task has a non-empty image and pid column, neither with a space at either end. */
  lemma ReadTaskFields(line: string, w: seq<nat>)
    requires Fits(w) && ReadTask(line, w).Success?
    ensures var t := ReadTask(line, w).value;
      && t.image != "" && t.image[0] != ' ' && t.image[|t.image| - 1] != ' '
      && |t.image| <= w[0] + 1 && t.image == Trim(line[..w[0] + 1], ' ')
  {
    var n0 := Min(w[0] + 1, |line|);
    var image := Trim(line[..n0], ' ');
    var l := TrimLeft(line[..n0], ' ');
    TrimLeftIs(line[..n0], ' ');
    TrimRightIs(l, ' ');
    assert image == TrimRight(l, ' ');
    assert image[0] == l[0];
  }

  /** A field left-aligned in a column of width n, then the separating space. */
  function LeftColumn(t: string, n: nat): string
    requires |t| <= n
  {
    t + Repeat(' ', n - |t|) + " "
  }

  /** A field right-aligned in a column of width n, then the separating space. */
  function RightColumn(t: string, n: nat): string
    requires |t| <= n
  {
    Repeat(' ', n - |t|) + t + " "
  }

  /**
    A line laid out as tasklist prints it (the image left-aligned in its
    column, the pid right-aligned in its own, each column followed by a
    space) decodes to that image and pid, whatever follows.
  */
  lemma ReadTaskOfColumns(image: string, pid: int, w: seq<nat>, rest: string)
    requires Fits(w)
    requires image != "" && image[0] != ' ' && image[|image| - 1] != ' ' && |image| <= w[0]
    requires MinInt64 <= pid <= MaxInt64 && |Itoa(pid)| <= w[1]
    ensures ReadTask(LeftColumn(image, w[0]) + RightColumn(Itoa(pid), w[1]) + rest, w) == Success(Task(pid, image))
  {
    var p := Itoa(pid);
    var a := LeftColumn(image, w[0]);
    var b := RightColumn(p, w[1]);
    PaddedLeft(image, w[0]);
    ItoaHasNoSpace(pid);
    PaddedRight(p, w[1]);
    AtoiItoa(pid);
    ReadColumns(a, b, rest, w);
  }

  /** A field left-aligned in a column of width n, followed by one space, trims back to the field. */
  lemma PaddedLeft(t: string, n: nat)
    requires t != "" && t[0] != ' ' && t[|t| - 1] != ' ' && |t| <= n
    ensures Trim(LeftColumn(t, n), ' ') == t
  {
    assert Repeat(' ', n - |t|) + " " == Repeat(' ', n - |t| + 1);
    assert Repeat(' ', 0) + t + Repeat(' ', n - |t| + 1) == t + Repeat(' ', n - |t|) + " ";
    TrimPadded(0, t, n - |t| + 1);
  }

  /** A field right-aligned in a column of width n, followed by one space, trims back to the field. */
  lemma PaddedRight(t: string, n: nat)
    requires t != "" && t[0] != ' ' && t[|t| - 1] != ' ' && |t| <= n
    ensures Trim(RightColumn(t, n), ' ') == t
  {
    assert Repeat(' ', 1) == " ";
    TrimPadded(n - |t|, t, 1);
  }

  /** ReadTask reads exactly the two columns when the line holds both. */
  lemma ReadColumns(a: string, b: string, rest: string, w: seq<nat>)
    requires Fits(w) && |a| == w[0] + 1 && |b| == w[1] + 1
    ensures var line := a + b + rest;
      && line[..Min(w[0] + 1, |line|)] == a
      && Min(w[1] + 1, |line| - Min(w[0] + 1, |line|)) == |b|
      && line[|a|..|a| + |b|] == b
  {
  }

  lemma ItoaHasNoSpace(n: int)
    ensures var p := Itoa(n); |p| > 0 && p[0] != ' ' && p[|p| - 1] != ' '
  {
    if n < 0 {
      assert Itoa(n) == "-" + Digits(-n);
    }
  }

  /**
    tasklist.ParseTask: reads the two columns through a byte buffer with a
    32-byte scratch slice, then checks them; slicing the scratch buffer past
    its length is the Go panic, returned here as an error.
  */
  method ParseTask(line: string, segLengths: seq<nat>) returns (r: Result<Task>)
    ensures r == ParsedTask(line, segLengths)
  {
    if |segLengths| < 2 {
      // segLengths[:2]
      return Failure(Panic(SliceOutOfRange));
    }
    var p := new char[BufferSize];
    var off := 0;                     // how much of the buffer has been read
    var image, pidRaw := "", "";
    ghost var n0 := Min(segLengths[0] + 1, |line|);
    for i := 0 to 2
      invariant off <= |line|
      invariant i == 0 ==> off == 0
      invariant i >= 1 ==> segLengths[0] + 1 <= BufferSize
      invariant i >= 1 ==> n0 > 0 && image == Trim(line[..n0], ' ')
      invariant i == 1 ==> off == n0
      invariant i == 2 ==> segLengths[1] + 1 <= BufferSize
      invariant i == 2 ==> off > n0 && off == n0 + Min(segLengths[1] + 1, |line| - n0)
      invariant i == 2 ==> pidRaw == Trim(line[n0..off], ' ')
    {
      var v := segLengths[i];
      if v + 1 > BufferSize {
        // p[:v+1] is out of range
        return Failure(Panic(SliceOutOfRange));
      }
      if off == |line| {
        // bytes.Buffer.Read into a non-empty slice of an empty buffer
        return Failure(ChunkReadError(EOF));
      }
      var s, n := ReadSegment(p, line, off, v);
      off := off + n;
      if i == 0 {
        image := s;
      } else {
        pidRaw := s;
      }
    }
    if image == "" {
      return Failure(ImageMissing);
    }
    if pidRaw == "" {
      return Failure(PidMissing);
    }
    var pid := Atoi(pidRaw);
    if pid.Failure? {
      return Failure(PidError(pid.error));
    }
    return Success(Task(pid.value, image));
  }

  /** One Read from the line's buffer into p[:v+1], trimmed of spaces, and the count of bytes read. */
  method ReadSegment(p: array<char>, line: string, off: nat, v: nat) returns (s: string, n: nat)
    requires p.Length == BufferSize && off < |line| && v + 1 <= BufferSize
    modifies p
    ensures n == Min(v + 1, |line| - off) && n > 0
    ensures s == Trim(line[off..off + n], ' ')
  {
    n := Min(v + 1, |line| - off);
    forall k | 0 <= k < n {
      p[k] := line[off + k];
    }
    assert p[..n] == line[off..off + n];
    s := Trim(p[..n], ' ');
  }

  // ---------------------------------------------------------------------
  // ParseOutput

  /** ParseOutput's variables, as they stand between two lines. */
  datatype ScanState = ScanState(headerTrimmed: bool, segLengths: seq<nat>, ll: seq<Task>)

  const Init := ScanState(false, [], [])

  /** ParseTask with fixed widths, as a value. */
  function TaskParser(w: seq<nat>): string -> Result<Task>
  {
    line => ParsedTask(line, w)
  }

  /**
    One round of ParseOutput's callback: in the header, wait for the
    delimiter and take the widths of its runs (at least five of them, or
    fail); after it, append each line that parses, skip the others, and
    stop at a panic.
  */
  function TaskStep(st: ScanState, line: string): Step<ScanState>
  {
    if !st.headerTrimmed then
      if IsDelimiter(line) then
        var runs := Chunks(line, " ");
        if |runs| < MinColumns then Step(st.(headerTrimmed := true), Some(HeaderError(ChunkError(MinColumns, |runs|))))
        else Step(st.(headerTrimmed := true, segLengths := st.segLengths + Lengths(runs)), None)
      else Step(st, None)
    else match ParsedTask(line, st.segLengths)
      case Failure(e) => if e.Panic? then Step(st, Some(e)) else Step(st, None)
      case Success(t) => Step(st.(ll := st.ll + [t]), None)
  }

  /** The position of the first (cleaned) line that is a delimiter, or the number of lines. */
  function FirstDelimiter(lines: seq<string>): (k: nat)
    ensures k <= |lines|
    ensures k < |lines| ==> DelimiterLine(lines[k])
    ensures forall j :: 0 <= j < k ==> !DelimiterLine(lines[j])
  {
    if |lines| == 0 then 0
    else if DelimiterLine(lines[0]) then 0
    else
      var k := FirstDelimiter(lines[1..]);
      assert forall j :: 1 <= j < k + 1 ==> lines[j] == lines[1..][j - 1];
      k + 1
  }

  /**
    What ParseOutput returns for the scanner's lines: nothing from the
    lines up to and including the first delimiter; then, with the widths
    of its runs, every task of the later lines that parse, in order; or the
    header's error; or the reader's error at the end.
  */
  function Decode(lines: seq<string>, tail: Option<Error>): (seq<Task>, Option<Error>)
  {
    var k := FirstDelimiter(lines);
    if k == |lines| then ([], tail) else AfterDelimiter(lines[k..], tail)
  }

  /**
    The outcome from the delimiter line on: a header error for too few
    runs; with widths that fit the buffer, the tasks of the lines after the
    delimiter; with widths that do not, a panic when one of those lines
    panics, and otherwise (every line is then empty, or the image width
    alone fits and no line follows) no tasks.
  */
  function AfterDelimiter(lines: seq<string>, tail: Option<Error>): (seq<Task>, Option<Error>)
    requires |lines| > 0
  {
    var body := lines[1..];
    var runs := Chunks(CleanLine(lines[0]), " ");
    if |runs| < MinColumns then ([], Some(HeaderError(ChunkError(MinColumns, |runs|))))
    else
      var w := Lengths(runs);
      if Fits(w) then (Accepted(TaskParser(w), body), tail)
      else if exists j :: 0 <= j < |body| && Panics(CleanLine(body[j]), w) then ([], Some(Panic(SliceOutOfRange)))
      else ([], tail)
  }

  /** The delimiter branch of ParseOutput's callback: the widths of the runs, or the header error. */
  method ReadHeader(line: string) returns (widths: seq<nat>, err: Option<Error>)
    ensures var runs := Chunks(line, " ");
      && (err.Some? <==> |runs| < MinColumns)
      && (err.Some? ==> err.value == HeaderError(ChunkError(MinColumns, |runs|)))
      && (err.None? ==> widths == Lengths(runs))
  {
    var chunks, e := ChunkLine(line, " ", MinColumns);
    if e.Some? {
      return [], Some(HeaderError(e.value));
    }
    widths := [];
    for k := 0 to |chunks|
      invariant widths == Lengths(chunks[..k])
    {
      assert chunks[..k + 1] == chunks[..k] + [chunks[k]];
      widths := widths + [|chunks[k]|];
    }
    assert chunks[..|chunks|] == chunks;
    err := None;
  }

  /** tasklist.ParseOutput. */
  method ParseOutput(r: Stream) returns (ll: seq<Task>, err: Option<Error>)
    ensures (ll, err) == Decode(ScannerLines(r.data), r.failure)
  {
    var lines := ScannerLines(r.data);
    ll := [];
    var headerTrimmed := false;
    var segLengths: seq<nat> := [];
    var i := 0;
    while i < |lines|
      invariant 0 <= i <= |lines|
      invariant Scan(lines, TaskStep, Init, r.failure)
        == Scan(lines[i..], TaskStep, ScanState(headerTrimmed, segLengths, ll), r.failure)
    {
      var line := Trim(Trim(lines[i], '\n'), '\r');
      assert lines[i..][1..] == lines[i + 1..];
      ghost var st := ScanState(headerTrimmed, segLengths, ll);
      ghost var step := TaskStep(st, line);
      if !headerTrimmed {
        if HasPrefix(line, Delim) && HasSuffix(line, Delim) {
          headerTrimmed := true;
          var widths, e := ReadHeader(line);
          if e.Some? {
            ScanTasks(lines, r.failure);
            return ll, e;
          }
          segLengths := segLengths + widths;
        }
      } else {
        var t := ParseTask(line, segLengths);
        if t.Failure? && t.error.Panic? {
          ScanTasks(lines, r.failure);
          return ll, Some(t.error);
        }
        if t.Success? {
          ll := ll + [t.value];
        }
      }
      assert step == Step(ScanState(headerTrimmed, segLengths, ll), None);
      i := i + 1;
    }
    err := r.failure;
    ScanTasks(lines, r.failure);
  }

  /** The callback-driven scan computes Decode. */
  lemma ScanTasks(lines: seq<string>, tail: Option<Error>)
    ensures var s := Scan(lines, TaskStep, Init, tail); (s.state.ll, s.err) == Decode(lines, tail)
  {
    var k := FirstDelimiter(lines);
    SkipHeader(lines, k, tail);
    if k < |lines| {
      ScanAfterDelimiter(lines[k..], tail);
    } else {
      assert lines[k..] == [];
    }
  }

  /** From the delimiter on, the scan does what AfterDelimiter describes. */
  lemma ScanAfterDelimiter(lines: seq<string>, tail: Option<Error>)
    requires |lines| > 0 && DelimiterLine(lines[0])
    ensures var s := Scan(lines, TaskStep, Init, tail); (s.state.ll, s.err) == AfterDelimiter(lines, tail)
  {
    var line := CleanLine(lines[0]);
    var runs := Chunks(line, " ");
    var body := lines[1..];
    if |runs| >= MinColumns {
      var w := Lengths(runs);
      assert [] + w == w;
      assert TaskStep(Init, line) == Step(ScanState(true, w, []), None);
      assert Scan(lines, TaskStep, Init, tail) == Scan(body, TaskStep, ScanState(true, w, []), tail);
      if Fits(w) {
        ReadBody(body, w, [], tail);
        assert [] + Accepted(TaskParser(w), body) == Accepted(TaskParser(w), body);
      } else {
        ReadOverflow(body, w, tail);
      }
    }
  }

  /** Header lines before the delimiter change nothing. */
  lemma {:induction false} SkipHeader(lines: seq<string>, k: nat, tail: Option<Error>)
    requires k <= |lines| && forall j :: 0 <= j < k ==> !DelimiterLine(lines[j])
    ensures Scan(lines, TaskStep, Init, tail) == Scan(lines[k..], TaskStep, Init, tail)
  {
    if k > 0 {
      assert lines[1..][k - 1..] == lines[k..];
      SkipHeader(lines[1..], k - 1, tail);
    }
  }

  /** After the delimiter, with readable widths, the scan collects what ReadTask accepts. */
  lemma {:induction false} ReadBody(body: seq<string>, w: seq<nat>, acc: seq<Task>, tail: Option<Error>)
    requires Fits(w)
    ensures Scan(body, TaskStep, ScanState(true, w, acc), tail) == Step(ScanState(true, w, acc + Accepted(TaskParser(w), body)), tail)
  {
    if |body| > 0 {
      var p := ReadTask(CleanLine(body[0]), w);
      assert TaskParser(w)(CleanLine(body[0])) == p;
      assert ParsedTask(CleanLine(body[0]), w) == p;
      var acc' := if p.Success? then acc + [p.value] else acc;
      ReadBody(body[1..], w, acc', tail);
      assert acc + Accepted(TaskParser(w), body) == acc' + Accepted(TaskParser(w), body[1..]);
    } else {
      assert acc + Accepted(TaskParser(w), body) == acc;
    }
  }

  /**
    After the delimiter, with widths that overflow the buffer, no task is
    ever read: the scan panics at the first line that panics, and the lines
    before it are empty ones, which fail to read and are skipped.
  */
  lemma {:induction false} ReadOverflow(body: seq<string>, w: seq<nat>, tail: Option<Error>)
    requires !Fits(w)
    ensures Scan(body, TaskStep, ScanState(true, w, []), tail) ==
      if exists j :: 0 <= j < |body| && Panics(CleanLine(body[j]), w)
      then Step(ScanState(true, w, []), Some(Panic(SliceOutOfRange)))
      else Step(ScanState(true, w, []), tail)
  {
    if |body| > 0 {
      var line := CleanLine(body[0]);
      if !Panics(line, w) {
        assert ParsedTask(line, w) == Failure(ChunkReadError(EOF));
        ReadOverflow(body[1..], w, tail);
        assert (exists j :: 0 <= j < |body| && Panics(CleanLine(body[j]), w))
           <==> (exists j :: 0 <= j < |body[1..]| && Panics(CleanLine(body[1..][j]), w)) by {
          forall j | 0 < j < |body| ensures body[j] == body[1..][j - 1] { }
        }
      }
    }
  }

  /** Lines placed before the header change nothing, so long as none of them is a delimiter. */
  lemma DecodeIgnoresHeader(header: seq<string>, lines: seq<string>, tail: Option<Error>)
    requires forall j :: 0 <= j < |header| ==> !DelimiterLine(header[j])
    ensures Decode(header + lines, tail) == Decode(lines, tail)
  {
    var all := header + lines;
    var k := FirstDelimiter(lines);
    var n := |header|;
    FirstDelimiterAfter(header, lines);
    if k == |lines| {
      DecodeWithoutDelimiter(all, tail);
      DecodeWithoutDelimiter(lines, tail);
    } else {
      assert all[n + k..] == lines[k..];
      DecodeFromDelimiter(all, n + k, lines, k, tail);
    }
  }

  /** Decoding depends only on what follows the first delimiter. */
  lemma DecodeFromDelimiter(a: seq<string>, i: nat, b: seq<string>, k: nat, tail: Option<Error>)
    requires i == FirstDelimiter(a) && i < |a|
    requires k == FirstDelimiter(b) && k < |b|
    requires a[i..] == b[k..]
    ensures Decode(a, tail) == Decode(b, tail)
  {
  }

  /** The first delimiter after lines that are none is the first of what follows them. */
  lemma FirstDelimiterAfter(header: seq<string>, lines: seq<string>)
    requires forall j :: 0 <= j < |header| ==> !DelimiterLine(header[j])
    ensures FirstDelimiter(header + lines) == |header| + FirstDelimiter(lines)
  {
    var all := header + lines;
    var k := FirstDelimiter(lines);
    var n := |header|;
    forall j | 0 <= j < n + k ensures !DelimiterLine(all[j]) {
      if j < n {
        assert all[j] == header[j];
      } else {
        assert all[j] == lines[j - n];
      }
    }
    if k < |lines| {
      assert all[n + k] == lines[k];
    }
    FirstDelimiterIs(all, n + k);
  }

  lemma DecodeWithoutDelimiter(lines: seq<string>, tail: Option<Error>)
    requires FirstDelimiter(lines) == |lines|
    ensures Decode(lines, tail) == ([], tail)
  {
  }

  /**
    A pid column too wide for the buffer is never sliced on an empty line:
    with an image column that fits, blank lines after the delimiter give no
    task, no panic and the reader's error.
  */
  lemma WidePidBlankLines(lines: seq<string>, tail: Option<Error>)
    requires |lines| > 0 && DelimiterLine(lines[0])
    requires var w := Lengths(Chunks(CleanLine(lines[0]), " "));
      |w| >= MinColumns && w[0] + 1 <= BufferSize
    requires forall j :: 1 <= j < |lines| ==> CleanLine(lines[j]) == ""
    ensures Decode(lines, tail) == ([], tail)
  {
    var w := Lengths(Chunks(CleanLine(lines[0]), " "));
    var body := lines[1..];
    assert forall j :: 0 <= j < |body| ==> !Panics(CleanLine(body[j]), w) by {
      forall j | 0 <= j < |body| ensures !Panics(CleanLine(body[j]), w) {
        assert body[j] == lines[j + 1];
      }
    }
    if Fits(w) {
      AcceptedBlank(body, w);
    }
  }

  /** Blank lines yield no task. */
  lemma {:induction false} AcceptedBlank(body: seq<string>, w: seq<nat>)
    requires Fits(w)
    requires forall j :: 0 <= j < |body| ==> CleanLine(body[j]) == ""
    ensures Accepted(TaskParser(w), body) == []
  {
    if |body| > 0 {
      assert TaskParser(w)(CleanLine(body[0])) == Failure(ChunkReadError(EOF));
      AcceptedBlank(body[1..], w);
    }
  }

  lemma FirstDelimiterIs(lines: seq<string>, k: nat)
    requires k <= |lines|
    requires k < |lines| ==> DelimiterLine(lines[k])
    requires forall j :: 0 <= j < k ==> !DelimiterLine(lines[j])
    ensures FirstDelimiter(lines) == k
  {
    var f := FirstDelimiter(lines);
    assert !(f < k) && !(k < f);
  }
}
