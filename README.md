# lsaddr, modelled in Dafny

lsaddr lists the open network connections of a process. It reads the
output of a system tool:

- `lsof -i -n -P` on Unix;
- `netstat -nao` on Windows, with `tasklist` to map executables to pids.

It decodes each line into a connection record (the command, the pid, the
source and destination endpoints, and the state). It keeps the records
whose raw line matches a selector, which is a regular expression, a pid
alternation, or `*`. It then encodes the selected records, either as a
Berkeley Packet Filter expression (`host H and port P or …`) or as CSV
rows behind a header.

This project models that text pipeline and proves properties of it. The
model is organised one Dafny module per source file:

| module | models |
|---|---|
| `Utils` (utils.dfy) | `internal/utils.go`: the tokeniser `ChunkLine`, the line driver `ScanLines` over a `bufio.Scanner`, and the address gate `ParseNetAddr` |
| `Lsof` (lsof.dfy) | `onf/internal/lsof/lsof.go`, the first lsof decoder |
| `LookupDecoder` (decoder.dfy) | `lookup/internal/decoder.go`, the second lsof decoder, which keeps columns as text and reads with a `bufio.Reader` |
| `Netstat` (netstat.dfy) | `onf/internal/netstat/netstat.go` |
| `Tasklist` (tasklist.dfy) | `onf/internal/tasklist/tasklist.go`: the two-phase header state machine and the fixed-width reader, which uses a 32-byte scratch array |
| `Onf` (onf.dfy) | `onf/onf.go`, the record filter |
| `BpfExpr` (bpf_expr.dfy) | `bpf/expr.go`, the join of packet-filter expressions |
| `Encoder` (encoder.dfy) | `encoder/encoder.go`, `encoder/bpf.go` and `encoder/csv.go` |
| `Csv` (csv_encoder.dfy) | `csv/encoder.go` |
| `LookupFilter` (lookup_filter.dfy) | `PidsFromTasks` and the decision logic of `prepareNFExprWin` and `prepareNFExprDarwin` in `lookup/internal/filter.go` |
| `Lookup` (lookup.dfy) | `lookup/lookup.go`: `Hosts` and the projection loop of `OpenNetFiles` |

Three modules support the rest:

- `Text` (text.dfy) models the Go standard-library functions the code relies on:
  - `strings.Split`, `Join`, `Trim`, `TrimLeft`/`TrimRight` with a one-character cutset, `HasPrefix`, `HasSuffix` and `ToLower`;
  - `strconv.Atoi` over the 64-bit range, and `strconv.Itoa`.
- `Net` (net.dfy) models `net.SplitHostPort` and `net.JoinHostPort`, with Go's checks for `[`, `]` and colons.
- `Io` (io.dfy) models readers and writers:
  - a `Stream` is the bytes a reader yields, followed by either end of file or a read error;
  - a `RowWriter` is a `csv.Writer` that accepts rows until its room runs out, after which its error is sticky;
  - a `TextWriter` is an `io.Writer` with a byte budget, which makes a short write when that budget is exceeded.

Where the source updates state the model does too:

- Loops are methods with invariants. Each is proved against a specification function, and the properties are lemmas about that function.
- `bpfBuilder` and the encoders are classes.
- `ParseTask` reads through an `array<char>` of 32 cells.

Calls the model cannot see become parameters:

- `net.ParseIP` is `isIP`;
- regexp compilation and matching are a `RegexEngine`;
- `os.Stat` is `isFile`;
- the bundle-name lookup is `appName`;
- `pgrep` is `pids`;
- the results of running tools are the function's inputs.

In three places the code does something other than what its names suggest,
and the model does what the code does:

- No endpoint parser keeps an unparsable address as an opaque endpoint: `ParseNetAddr` fails. A netstat line is refused only when both of its addresses fail.
- `join` with an empty right operand leaves a dangling operator. It does not leave the left operand unchanged, and it does not absorb `()`.
- The packet-filter encoder always writes `host H and port P`. It encodes only `Src`, does not de-duplicate hosts, and fails on an address that does not split.

## Model

| member | source | states |
|---|---|---|
| Utils.NonEmpty | internal/utils.go:28-34 | the pieces kept by ChunkLine's loop: never more than the input, and none of them empty |
| Utils.NonEmptyConcat | internal/utils.go:29-34 | dropping empty pieces distributes over concatenation, so the kept pieces stay in input order |
| Utils.NonEmptyMembers | internal/utils.go:29-34 | a string is kept iff it is among the split pieces and is not empty |
| Utils.NonEmptyAll | internal/utils.go:29-34 | pieces that are all non-empty are kept unchanged |
| Utils.ChunkLine | internal/utils.go:26-41 | the chunks are the non-empty pieces of strings.Split(line, sep), in order; the error is present iff fewer than min remain, and carries that count; the chunks are returned alongside the error |
| Utils.LeadingSeparator | internal/utils.go:27-34 | a leading separator does not change the chunks |
| Utils.TrailingSeparator | internal/utils.go:27-34 | a trailing separator does not change the chunks |
| Utils.SeparatorRun | internal/utils.go:27-34 | a run of two separators chunks like one |
| Utils.ChunksOfJoin | internal/utils.go:27-34 | chunking tokens joined by a separator, none empty and none containing it, gives the tokens back |
| Utils.ScannerLinesOf | internal/utils.go:44-48 | for lines with no newline and no final carriage return, the scanner delivers each newline-terminated line, then the unterminated last line when it is non-empty, with the newlines removed |
| Utils.ScannerLinesOfCRLF | internal/utils.go:44-48 | for the same lines terminated by carriage return and newline, the scanner delivers each line with both removed, then the unterminated last line when it is non-empty |
| Utils.CleanPlainLine | internal/utils.go:46-49 | a line with no newline or carriage return reaches the callback unchanged |
| Utils.FirstLine | internal/utils.go:44-48 | the first line of a text is delivered before the lines of the rest |
| Utils.LastLine | internal/utils.go:44-48 | an unterminated last line is delivered when it is not empty |
| Utils.ScanLines | internal/utils.go:43-54 | the callback runs over the scanner's lines in order, stopping at the first error, which is returned; otherwise the reader's error is returned |
| Utils.ScanStopsAtError | internal/utils.go:49-51 | once a callback fails, later lines and the reader's end change nothing |
| Utils.Accepted | internal/utils.go:49-51 | collecting the lines a parser accepts yields at most one record per line |
| Utils.ScanCollect | internal/utils.go:43-54 | a callback that appends what parses and skips the rest yields exactly the accepted records in line order, with only the reader's error |
| Utils.ParseNetAddr | internal/utils.go:63-76 | succeeds iff the address splits into host and port and the host is an IP; on success the network is lower-cased and the address is kept verbatim; a split failure is returned as it is |
| Utils.WildcardIsNoAddress | internal/utils.go:65-71 | `*:*` splits but is refused, because `*` is not an IP |
| Lsof.ParseName | onf/internal/lsof/lsof.go:116-127 | the source is the text before the first `->` (all of the name when there is none, and then the destination is the empty address), the destination the text after it up to the next `->`; both take the lower-cased node |
| Lsof.ParseNameParts | onf/internal/lsof/lsof.go:116-127 | without `->` the whole name is the source and there is no destination; with one, the name is the source, then `->`, then the rest, and the destination is the rest up to the next `->` |
| Lsof.ParseNameJoined | onf/internal/lsof/lsof_test.go:76-79 | two endpoints joined by `->` are given back by ParseName |
| Lsof.ParseONF | onf/internal/lsof/lsof.go:83-109 | refuses fewer than nine tokens with the count, and refuses a non-integer pid with the Atoi error; succeeds iff neither happens |
| Lsof.ParseONFColumns | onf/internal/lsof/lsof.go:93-106 | every field comes from its own column: command 0, pid 1, user 2, fd 3, type 4, device 5, endpoints from 7 and 8, and state from 9 when present; token 6 is ignored |
| Lsof.ParseONFOfColumns | onf/internal/lsof/lsof_test.go:25-39 | a line written as space-separated columns decodes to exactly those columns |
| Lsof.ParseOutput | onf/internal/lsof/lsof.go:60-72 | the records of the lines that parse, in line order; malformed lines are skipped, and the only error is the reader's |
| LookupDecoder.OpenFile.UnmarshalName | lookup/internal/decoder.go:71-82 | the source is the text before the first `->` (all of the name when there is none, and then the destination is the empty address), the destination the text after it up to the next `->`; both take the lower-cased node |
| LookupDecoder.UnmarshalJoinedName | lookup/internal/decoder_test.go:121-147 | a name `src->dst` gives back both endpoints |
| LookupDecoder.UnmarshalPlainName | lookup/internal/decoder_test.go:130 | a name without `->` is a source with no destination |
| LookupDecoder.LsofLine | lookup/internal/decoder.go:119-145 | succeeds iff at least nine non-empty tokens remain, otherwise fails with their count |
| LookupDecoder.LsofLineOfColumns | lookup/internal/decoder.go:131-143 | columns joined by spaces decode to command, pid (kept raw), user, fd, type, device, node 7 and name 8, with state 9 when present |
| LookupDecoder.LsofLineIgnoresSpaceRuns | lookup/internal/decoder.go:120-129 | runs of spaces, and leading or trailing spaces, do not change the decoding |
| LookupDecoder.UnmarshalLsofLine | lookup/internal/decoder.go:119-145 | the filtering loop and the column read compute exactly LsofLine |
| LookupDecoder.Decoded | lookup/internal/decoder.go:109-115 | at most one record per line read |
| LookupDecoder.DecodedConcat | lookup/internal/decoder.go:109-115 | decoding distributes over concatenation of the lines, so order is kept |
| LookupDecoder.DecodeLsofOutput | lookup/internal/decoder.go:98-117 | the records of the complete lines that decode, in order; the reader's error, or none at end of file |
| LookupDecoder.TrimNewline | lookup/internal/decoder.go:109 | trimming a read line removes exactly its own newline |
| LookupDecoder.Kept | lookup/internal/decoder.go:109-115 | at most one record per line |
| LookupDecoder.DecodeDropsLastLine | lookup/internal/decoder.go:101-107 | over terminated lines followed by an unterminated one, exactly the terminated lines that decode are kept, and the last line is dropped |
| Netstat.AsAddr | onf/internal/netstat/netstat.go:73-85 | an address is present iff it parsed |
| Netstat.ParseActiveConnection | onf/internal/netstat/netstat.go:64-99 | fewer than four tokens fail with the count; on success the protocol is column 0 verbatim |
| Netstat.ParseActiveConnectionCases | onf/internal/netstat/netstat.go:70-98 | refused for its addresses exactly when both fail, with the remote error; then refused for a non-integer pid; otherwise state 3 and pid 4 when there are more than four columns, else no state and pid 3 |
| Netstat.OneAddressSuffices | onf/internal/netstat/netstat.go:73-85 | every accepted connection has at least one endpoint |
| Netstat.ParseOfColumns | onf/internal/netstat/netstat.go:64-99 | a line written as columns decodes by the column rules |
| Netstat.ListeningLine | netstat/netstat_test.go:51-63 | the listening TCP sample decodes to protocol TCP, both addresses, state LISTENING and pid 748 |
| Netstat.UdpLine | netstat/netstat_test.go:35 | the UDP sample with the wildcard remote is kept, with no remote endpoint, no state and pid 1036 |
| Netstat.ParseOutput | onf/internal/netstat/netstat.go:41-53 | the connections of the lines that parse, in order; other lines are skipped, and the only error is the reader's |
| Tasklist.Lengths | onf/internal/tasklist/tasklist.go:56-58 | one width per delimiter run, equal to that run's length |
| Tasklist.ReadHeader | onf/internal/tasklist/tasklist.go:52-58 | the delimiter's widths are the lengths of its space-separated runs; fewer than five runs give the header error |
| Tasklist.ParseTask | onf/internal/tasklist/tasklist.go:91-125 | the buffered read loop computes ParsedTask: a panic error for fewer than two widths, for an image width over 31, or for a pid width over 31 on a non-empty line; an end-of-file error on an empty line; otherwise ReadTask, which reads the image from w0+1 bytes and the pid from the next w1+1, both trimmed, with an end-of-file error on an exhausted line and errors for an empty image, an empty pid or a bad pid |
| Tasklist.ParsedTask | onf/internal/tasklist/tasklist.go:93-100 | the result is a panic error exactly when Panics holds (the image slice overflows, or the line is non-empty and the pid slice overflows), and is ReadTask's whenever both widths fit the buffer |
| Tasklist.ReadSegment | onf/internal/tasklist/tasklist.go:97-101 | one buf.Read into the scratch array takes min(v+1, remaining) bytes, at least one, and returns them with spaces trimmed |
| Tasklist.ShortLineFails | onf/internal/tasklist/tasklist.go:97-100 | a line no longer than w0+1 fails with the end-of-file read error |
| Tasklist.ReadTaskFields | onf/internal/tasklist/tasklist.go:101-111 | a decoded image is non-empty, has no space at either end, fits its column and is that column trimmed |
| Tasklist.ReadTaskOfColumns | onf/internal/tasklist/tasklist_test.go:66-77 | a line laid out as tasklist prints it decodes to its image and pid, even when the image holds inner spaces |
| Tasklist.FirstDelimiter | onf/internal/tasklist/tasklist.go:48-50 | the position of the first line that starts and ends with `=`; no earlier line is one |
| Tasklist.ParseOutput | onf/internal/tasklist/tasklist.go:42-73 | the state machine computes Decode: nothing until the first delimiter; too few runs abort with the header error, widths that overflow the buffer abort with a panic error at the first line whose read panics (when only the pid width overflows, an empty line is skipped, since its first read already fails), and otherwise every task of the later lines that parse, in order, with the reader's error |
| Tasklist.ScanTasks | onf/internal/tasklist/tasklist.go:47-71 | ParseOutput's callback, driven by ScanLines, yields Decode |
| Tasklist.ScanAfterDelimiter | onf/internal/tasklist/tasklist.go:49-70 | from the delimiter on, the callback yields the widths, then the accepted tasks when they fit the buffer, and otherwise a panic error exactly when some later line panics |
| Tasklist.ReadOverflow | onf/internal/tasklist/tasklist.go:64-68 | with widths that overflow the buffer, the scan adds no task and ends with a panic error if some line panics and with the reader's error if none does |
| Tasklist.SkipHeader | onf/internal/tasklist/tasklist.go:48-61 | lines before the delimiter leave the scan state unchanged |
| Tasklist.ReadBody | onf/internal/tasklist/tasklist.go:64-70 | after the header, the lines that parse are appended in order and the others are skipped |
| Tasklist.DecodeIgnoresHeader | onf/internal/tasklist/tasklist.go:48-62 | no line before the delimiter affects the result |
| Tasklist.WidePidBlankLines | onf/internal/tasklist/tasklist.go:64-68 | with an image column that fits the buffer, blank lines after the delimiter give no tasks and the reader's error, however wide the pid column |
| Tasklist.AcceptedBlank | onf/internal/tasklist/tasklist.go:97-100 | with widths that fit, blank lines yield no tasks |
| Tasklist.DecodeWithoutDelimiter | onf/internal/tasklist/tasklist.go:48-62 | output with no delimiter yields no tasks and only the reader's error |
| Onf.Matching | onf/onf.go:61-69 | the kept records all match, and there are no more of them than the input |
| Onf.Filter | onf/onf.go:52-70 | a pivot of "" or "*" returns the input and no error; a pivot that does not compile returns the input and the error; otherwise the matching records in order |
| Onf.MatchingConcat | onf/onf.go:61-69 | filtering distributes over concatenation, so order is kept |
| Onf.MatchingMembers | onf/onf.go:62-68 | a record is kept iff it is in the input and its raw line matches |
| Onf.MatchingIdempotent | onf/onf.go:61-69 | filtering the result again with the same pivot changes nothing |
| Onf.MatchingAll | onf/onf.go:61-69 | when every record matches, all are kept |
| Onf.MatchingNone | onf/onf.go:61-69 | when no record matches, none is kept |
| Onf.MatchingReadsOnlyRaw | onf/onf.go:63 | record lists with the same raw lines keep records with the same raw lines, so no other field matters |
| BpfExpr.JoinOperands | bpf/expr.go:52-57 | an empty left operand gives the right one; otherwise left, space, operator, space, right, even when the right operand is empty |
| BpfExpr.JoinExpr | bpf/expr.go:40-43 | Expr.Join joins the expression with the filter's text by the same rule, and returns a new value |
| BpfExpr.NewReader | bpf/expr.go:48-50 | the reader yields the expression and then exactly one newline, with no error |
| BpfExpr.NewReaderLines | bpf/expr.go:48-50 | a one-line expression reads back as exactly that line |
| BpfExpr.JoinAddsNoParens | bpf/expr.go:37-39 | join adds no parenthesis: the result has as many `(` and `)` as its two operands together |
| BpfExpr.FoldedJoin | bpf/expr.go:52-57 | folding non-empty operands with join equals joining them with ` op ` |
| BpfExpr.OrStep | bpf/expr.go:52-57 | joining one more operand onto a joined list extends the list |
| BpfExpr.Operators | bpf/expr.go:32-35 | the operators are the words "and" and "or" |
| Encoder.ValidateType | encoder/encoder.go:47-54 | no error iff the name is one of AllowedEncoders, matched exactly; otherwise the error "unsupported encoding type " + s |
| Encoder.AllowedNames | encoder/encoder.go:25 | "csv" and "bpf" are allowed, while "CSV" and "" are not |
| Encoder.BuildAddr | encoder/bpf.go:73-81 | a split address gives exactly "host H and port P"; a split failure is returned |
| Encoder.BuildAddrOfHostPort | encoder/bpf.go:73-81 | a joined host and port build the clause of that host and port |
| Encoder.BuildAddrNeedsPort | encoder/bpf.go:74-77 | an address without a colon fails with a missing-port error |
| Encoder.Clauses | encoder/bpf.go:42-46 | clauses exist iff every source builds one; there is one per record, in order, each that record's clause |
| Encoder.ClausesNotEmpty | encoder/bpf.go:79-80 | no clause is empty |
| Encoder.ClausesFirstFailure | encoder/bpf.go:42-45 | the error returned is that of the first source that does not build |
| Encoder.ClausesOnlySources | encoder/bpf.go:57 | records with equal sources give equal clauses: Dst is never read |
| Encoder.ClausesStep | encoder/bpf.go:62-70 | one more Or extends the filter by " or " and the next clause |
| Encoder.BpfBuilder.Or | encoder/bpf.go:56-71 | a source that builds is joined onto the filter with `or`, replacing its contents, or becomes the filter when it was empty; one that does not build leaves the filter unchanged and returns the error |
| Encoder.BuildFilter | encoder/bpf.go:41-46 | the loop builds the clauses joined by " or ", or returns the first error |
| Encoder.BpfEncoder.Encode | encoder/bpf.go:40-50 | on success, one write of the clauses joined by " or " plus a newline (just "\n" for no records); on the first error nothing is written; a short write keeps the prefix and reports it |
| Encoder.CsvEncoder.Encode | encoder/csv.go:39-54 | the writer receives the header COMMAND,NET,SRC,DST, then one row per record in order, up to the first failed write; the error is none iff every row fits, and the writer is left failed exactly when an error is returned, its room reduced by the rows written |
| Csv.Encoder.Encode | csv/encoder.go:40-60 | the writer receives the header PID,NET,SRC,DST, then one row per record in order, up to the first failed write; the error is none iff every row fits, and the writer is left failed exactly when an error is returned, its room reduced by the rows written |
| Csv.RecordRoundTrip | csv/encoder.go:46-52 | a row has four fields; its pid reads back by Atoi, and the source network, source address and destination address are its columns |
| Io.RowWriter.Write | csv/encoder.go:42-55 | a row is appended while there is room; after that the writer fails, and the failure sticks |
| Io.Table | encoder/csv.go:40-50 | the header, then one row per record in order |
| Io.Taken | csv/encoder.go:42-55 | every row is written iff the writer has not failed and has room for all of them |
| Io.TextWriter.Write | encoder/bpf.go:47-48 | the text is appended when it fits; otherwise the prefix that fits is appended and a short write is reported |
| LookupFilter.Pids | lookup/internal/filter.go:42-51 | never more pids than tasks |
| LookupFilter.PidsFromTasks | lookup/internal/filter.go:42-51 | the loop returns the pids of every task whose image is the one given, in order |
| LookupFilter.PidsConcat | lookup/internal/filter.go:44-49 | selection distributes over concatenation, so order is kept |
| LookupFilter.PidsMembers | lookup/internal/filter.go:45-48 | a pid is returned iff a task with that image and pid exists |
| LookupFilter.PidsKeepsDuplicates | lookup/internal/filter.go:44-49 | when every task matches, every pid is returned in order, duplicates included |
| LookupFilter.PrepareNFExprWin | lookup/internal/filter.go:122-144 | a selector without ".exe", or with no matching pids, is returned unchanged; otherwise the pids joined with "\|" |
| LookupFilter.PrepareNFExprWinPids | lookup/internal/filter.go:137-143 | the alternation splits back into the pids |
| LookupFilter.PrepareNFExprDarwin | lookup/internal/filter.go:61-89 | trailing "/" is trimmed before the ".app" test; a selector that is not a file, not a bundle, has no app name or has no pids is returned unchanged; otherwise the pids joined with "\|" |
| LookupFilter.TrailingSlashes | lookup/internal/filter.go:66-67 | any number of trailing slashes is removed before the bundle test |
| Lookup.Project | lookup/lookup.go:57-66 | one network file per open file, in order, with its command and the endpoints of UnmarshalName |
| Lookup.OpenNetFiles | lookup/lookup.go:44-68 | a regex error or a decode error gives no files and that error; otherwise the projection |
| Lookup.Hosts | lookup/lookup.go:72-78 | two lists as long as the input: the i-th source and the i-th destination |
| Text.IndexOf | onf/internal/lsof/lsof.go:117 | the first occurrence of the separator, or -1 when there is none |
| Text.Split | internal/utils.go:27 | strings.Split yields at least one piece |
| Text.JoinSplit | internal/utils.go:27 | joining the pieces of a split gives the string back |
| Text.SplitPiecesAreFree | onf/internal/lsof/lsof.go:117 | no piece of a split contains the separator |
| Text.SplitJoinChar | lookup/internal/filter.go:143 | splitting parts joined by a character they do not contain gives the parts back |
| Text.SplitAtChar | internal/utils.go:27 | splitting at a separator splits both sides |
| Text.JoinSnoc | encoder/bpf.go:65 | joining one more part appends the separator and that part |
| Text.TrimLeftIs | internal/utils.go:47-48 | TrimLeft removes exactly the longest prefix made of the character |
| Text.TrimRightIs | lookup/internal/filter.go:66 | TrimRight removes exactly the longest suffix made of the character |
| Text.TrimPadded | onf/internal/tasklist/tasklist.go:101 | trimming spaces from a padded field gives the field |
| Text.ToLower | internal/utils.go:64 | same length, and each character is lowered |
| Text.Atoi | onf/internal/lsof/lsof.go:88 | a parsed value lies in the 64-bit range, and the text starts with a digit or a sign |
| Text.AtoiItoa | csv/encoder.go:48 | every 64-bit integer printed in decimal by Itoa parses back to itself |
| Text.AtoiDigits | onf/internal/netstat/netstat.go:92 | a non-negative decimal parses to its value |
| Text.AtoiNegative | onf/internal/tasklist/tasklist.go:116 | a minus sign then a decimal parses to its negation |
| Text.DecimalValueOfDigits | csv/encoder.go:48 | the digits of a number have that number as their value |
| Net.SplitHostPort | encoder/bpf.go:74 | a failure names the address that did not split |
| Net.SplitHostPortNoColon | encoder/bpf.go:74-77 | an address without a colon fails with a missing-port error |
| Net.SplitHostPortParts | internal/utils.go:65 | a split input is host and port joined at the last colon, the host in brackets iff the input starts with `[`; the port holds no colon, and neither does an unbracketed host |
| Net.SplitJoinHostPort | encoder/bpf.go:74 | splitting a joined host and port gives them back |
| Net.SplitBracketed | internal/utils.go:65 | `[host]:port` splits into host and port |
| Net.SplitPlain | internal/utils.go:65 | `host:port` with a colon-free host splits into host and port |
| Net.SplitWildcard | internal/utils.go:65-71 | `*:*` splits into host `*` and port `*` |

## Left out

- Running lsof, netstat, tasklist and pgrep, the 100 ms output timeout, and logging are external I/O and are not modelled. The tools' output is an input to the model.
- `Run`, `FetchAll`, `lookup/internal/lookup.go` and the platform runtime files are left out. They run a tool and pass its output on; `internal.OpenNetFiles` and `lookup.OpenNetFiles` first keep only the lsof lines that the selector's regex matches (`pipe.Filter`). That line filter is left out with the process call, so the `ll` of Lookup.OpenNetFiles stands for the decoded output of the lines that matched.
- `ExtractAppName` and the plist parsing it does are left out: they depend on a third-party library. `appName` is a parameter of PrepareNFExprDarwin.
- `BuildNFFilter`, `buildRgx` and the pids and tasks helpers are I/O wrapped around the modelled decision logic. Their results are parameters.
- The command line (cmd/root.go, cmd/version.go) is not part of this model.
- bpf/encoder.go is not part of this model: it depends on `FromAddr`, `Wrap` and `Or`, which are not among the sources.
- Go's regexp semantics and `net.ParseIP` are parameters (`RegexEngine`, `isIP`) with no meaning of their own; what a pattern matches is not modelled.
- Quoting of CSV fields by `encoding/csv` (section 2 of RFC 4180) is not modelled: a row is its sequence of fields.
- `csv.Writer` buffering and `Flush` are abstracted into the RowWriter's room. A write that does not fit fails, and the failure is sticky, so the error after `Flush` is the first failure.
- `io.Copy` of the filter text is modelled as one write.
- Bytes are modelled as characters, and `ToLower` lowers ASCII letters only.
- The token-size limit of `bufio.Scanner` (64 KiB per line) is not modelled. A longer line stops a real scan.
- The difference between nil and empty slices is not modelled: both are the empty sequence.
- `ONF.String`, the `net.Addr` interface and the `String`/`Network` methods are modelled as the fields of NetAddr.
- csv/encoder.go reads a `Pid` field, but the NetFile in lookup/lookup.go has none. That encoder's records are therefore a separate PidNetFile type.
- Tasklist.ParseTask: a Go panic ends the process; the model returns it instead as the error `Panic("slice bounds out of range")`, and ParseOutput stops with that error. An image width over 31 (the slice `p[:v+1]` of the 32-byte buffer) panics on every line after the delimiter; a pid width over 31 panics only on a non-empty line, since on an empty one the first read already fails. Fewer than two widths are modelled as a panic at `segLengths[:2]`, although Go slices up to the capacity and a direct call might get further; within ParseOutput there are always at least five widths.
- The `Task` type of lookup/internal/filter.go has only its `Image` and `Pid` fields; the type itself is not part of this model.
- The sample-count tests are not proved. These are 4 netstat records, 17 tasklist tasks and 3 lsof records. Single sample lines are proved instead, by Netstat.ListeningLine and Netstat.UdpLine.
- The records that onf/onf.go filters (with `Raw`, `Cmd` and `CreatedAt`) are built in platform runtime files that are not part of this model. The Onf module takes them as given. `CreatedAt` is modelled as an integer, and `ONF.String` and `FetchAll` are not modelled.
- Tests written against other revisions of the code are not modelled. These include a one-argument `Join` with `()` absorption, `Dst` clauses, a CMD column and `FilterTasks`.
