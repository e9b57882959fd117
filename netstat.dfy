/** onf/internal/netstat/netstat.go: decoding the output of `netstat -nao`. */
module Netstat {
  import opened Wrappers
  import opened Text
  import opened Net
  import opened Io
  import opened Utils

  /** One active connection; an address that did not parse is `None` (a nil net.Addr). */
  datatype ActiveConnection = ActiveConnection(
    proto: string,
    src: Option<NetAddr>,
    dst: Option<NetAddr>,
    state: string,
    pid: int)

  const MinColumns := 4

  /** The address when it parsed, nil otherwise. */
  function AsAddr(r: Result<NetAddr>): (a: Option<NetAddr>)
    ensures a.Some? <==> r.Success?
    ensures a.Some? ==> a.value == r.value
  {
    if r.Success? then Some(r.value) else None
  }

  /**
    ParseActiveConnection: a line of at least four space-separated items:
    protocol, local address, foreign address, then either the pid alone or
    the state and the pid. The connection is refused when its address
    comparison `err != nil && src == dst` holds, that is when the foreign
    address fails and the local one is nil as well.
  */
  function ParseActiveConnection(line: string, isIP: string -> bool): (r: Result<ActiveConnection>)
    ensures var c := Chunks(line, " ");
      && (|c| < MinColumns ==> r == Failure(ChunkError(MinColumns, |c|)))
      && (r.Success? ==> r.value.proto == c[0] && |c| >= MinColumns)
  {
    var chunks := Chunks(line, " ");
    if |chunks| < MinColumns then Failure(ChunkError(MinColumns, |chunks|))
    else
      var proto := chunks[0];
      var src := ParseNetAddr(proto, chunks[1], isIP);
      var dst := ParseNetAddr(proto, chunks[2], isIP);
      if dst.Failure? && AsAddr(src) == AsAddr(dst) then
        Failure(AddressesError(dst.error))
      else
        var hasState := |chunks| > 4;
        var pidIndex := if hasState then 4 else 3;
        match Atoi(chunks[pidIndex])
          case Failure(e) => Failure(PidError(e))
          case Success(pid) =>
            Success(ActiveConnection(proto, AsAddr(src), AsAddr(dst), if hasState then chunks[3] else "", pid))
  }

  /**
    The fate of a line with enough items: it is refused for its addresses
    exactly when neither address parses, then for its pid exactly when the
    pid column is not an integer; otherwise every field comes from its
    column, the state being present exactly when there are more than four.
  */
  lemma ParseActiveConnectionCases(line: string, isIP: string -> bool)
    requires |Chunks(line, " ")| >= MinColumns
    ensures var c := Chunks(line, " ");
      var r := ParseActiveConnection(line, isIP);
      var src := ParseNetAddr(c[0], c[1], isIP);
      var dst := ParseNetAddr(c[0], c[2], isIP);
      var pid := Atoi(if |c| > 4 then c[4] else c[3]);
      && (src.Failure? && dst.Failure? ==> r == Failure(AddressesError(dst.error)))
      && (!(src.Failure? && dst.Failure?) && pid.Failure? ==> r == Failure(PidError(pid.error)))
      && (!(src.Failure? && dst.Failure?) && pid.Success? ==>
            r == Success(ActiveConnection(c[0], AsAddr(src), AsAddr(dst), if |c| > 4 then c[3] else "", pid.value)))
  {
  }

  /** A connection is kept when at least one of its two endpoints is an address. */
  lemma OneAddressSuffices(line: string, isIP: string -> bool)
    requires ParseActiveConnection(line, isIP).Success?
    ensures var ac := ParseActiveConnection(line, isIP).value; ac.src.Some? || ac.dst.Some?
  {
    ParseActiveConnectionCases(line, isIP);
  }

  /** ParseOutput's parser, as a value. */
  function Parser(isIP: string -> bool): string -> Result<ActiveConnection>
  {
    line => ParseActiveConnection(line, isIP)
  }

  /**
    ParseOutput: the connections of the lines that ParseActiveConnection
    accepts, in line order; the only error is the reader's.
  */
  method ParseOutput(r: Stream, isIP: string -> bool) returns (acs: seq<ActiveConnection>, err: Option<Error>)
    ensures acs == Accepted(Parser(isIP), ScannerLines(r.data))
    ensures err == r.failure
  {
    var st;
    st, err := ScanLines(r, Collect(Parser(isIP)), []);
    ScanCollect(Parser(isIP), ScannerLines(r.data), [], r.failure);
    acs := st;
  }

  /**
    A line written as space-separated columns decodes column by column: the
    addresses from columns 1 and 2, the state from column 3 when there are
    five or more columns, and the pid from the last of columns 3 and 4.
  */
  lemma ParseOfColumns(cols: seq<string>, isIP: string -> bool)
    requires |cols| >= MinColumns && forall k :: 0 <= k < |cols| ==> Token(cols[k])
    ensures var src := ParseNetAddr(cols[0], cols[1], isIP);
      var dst := ParseNetAddr(cols[0], cols[2], isIP);
      var pid := Atoi(if |cols| > 4 then cols[4] else cols[3]);
      ParseActiveConnection(Join(cols, " "), isIP) ==
        if src.Failure? && dst.Failure? then Failure(AddressesError(dst.error))
        else if pid.Failure? then Failure(PidError(pid.error))
        else Success(ActiveConnection(cols[0], AsAddr(src), AsAddr(dst), if |cols| > 4 then cols[3] else "", pid.value))
  {
    ChunksOfJoin(cols, ' ');
    ParseActiveConnectionCases(Join(cols, " "), isIP);
  }

  /** The columns of a listening TCP socket's line. */
  const ListeningColumns := ["TCP", "0.0.0.0:135", "0.0.0.0:0", "LISTENING", "748"]

  /** A listening TCP socket: the state column is present, and read. */
  lemma ListeningLine(isIP: string -> bool)
    requires isIP("0.0.0.0")
    ensures ParseActiveConnection(Join(ListeningColumns, " "), isIP)
      == Success(ActiveConnection("TCP", Some(NetAddr("tcp", "0.0.0.0:135")), Some(NetAddr("tcp", "0.0.0.0:0")), "LISTENING", 748))
  {
    var cols := ListeningColumns;
    assert |cols| == 5 && cols[0] == "TCP" && cols[3] == "LISTENING";
    assert cols[1] == "0.0.0.0:135" && cols[2] == "0.0.0.0:0" && cols[4] == "748";
    ListeningSrc(isIP);
    ListeningDst(isIP);
    Pid748();
    ListeningTokens();
    ParseOfColumns(cols, isIP);
  }

  lemma ListeningSrc(isIP: string -> bool)
    requires isIP("0.0.0.0")
    ensures ParseNetAddr("TCP", "0.0.0.0:135", isIP) == Success(NetAddr("tcp", "0.0.0.0:135"))
  {
    TcpAddr("135", isIP);
    assert "0.0.0.0:" + "135" == "0.0.0.0:135";
  }

  lemma ListeningDst(isIP: string -> bool)
    requires isIP("0.0.0.0")
    ensures ParseNetAddr("TCP", "0.0.0.0:0", isIP) == Success(NetAddr("tcp", "0.0.0.0:0"))
  {
    TcpAddr("0", isIP);
    assert "0.0.0.0:" + "0" == "0.0.0.0:0";
  }

  lemma TcpAddr(port: string, isIP: string -> bool)
    requires port == "135" || port == "0"
    requires isIP("0.0.0.0")
    ensures ParseNetAddr("TCP", "0.0.0.0:" + port, isIP) == Success(NetAddr("tcp", "0.0.0.0:" + port))
  {
    TcpAddrParts(port);
    PlainAddr("TCP", "0.0.0.0", port, isIP);
    LowerTcp();
  }

  lemma TcpAddrParts(port: string)
    requires port == "135" || port == "0"
    ensures "0.0.0.0" + ":" + port == "0.0.0.0:" + port
    ensures Free("0.0.0.0", ':') && Free("0.0.0.0", '[') && Free("0.0.0.0", ']')
    ensures Free(port, ':') && Free(port, '[') && Free(port, ']')
  {
  }

  lemma LowerTcp()
    ensures ToLower("TCP") == "tcp"
  {
    var r := ToLower("TCP");
    assert r[0] == 't' && r[1] == 'c' && r[2] == 'p';
  }

  lemma Pid748()
    ensures Atoi("748") == Success(748)
  {
    Number(748);
    assert Itoa(748) == "748";
  }

  lemma ListeningTokens()
    ensures forall k :: 0 <= k < 5 ==> Token(["TCP", "0.0.0.0:135", "0.0.0.0:0", "LISTENING", "748"][k])
  {
    assert Token("TCP") && Token("0.0.0.0:135") && Token("0.0.0.0:0") && Token("LISTENING") && Token("748");
  }

  /** The columns of a UDP socket's line. */
  const UdpColumns := ["UDP", "[::1]:62261", "*:*", "1036"]

  /** A UDP socket with no state column and a wildcard foreign address. */
  lemma UdpLine(isIP: string -> bool)
    requires isIP("::1") && !isIP("*")
    ensures ParseActiveConnection(Join(UdpColumns, " "), isIP)
      == Success(ActiveConnection("UDP", Some(NetAddr("udp", "[::1]:62261")), None, "", 1036))
  {
    var cols := UdpColumns;
    assert |cols| == 4 && cols[0] == "UDP";
    assert cols[1] == "[::1]:62261" && cols[2] == "*:*" && cols[3] == "1036";
    UdpAddr(isIP);
    WildcardIsNoAddress("UDP", isIP);
    Pid1036();
    UdpTokens();
    ParseOfColumns(cols, isIP);
  }

  lemma UdpAddr(isIP: string -> bool)
    requires isIP("::1")
    ensures ParseNetAddr("UDP", "[::1]:62261", isIP) == Success(NetAddr("udp", "[::1]:62261"))
  {
    UdpAddrParts();
    BracketedAddr("UDP", "::1", "62261", isIP);
    LowerUdp();
  }

  lemma UdpAddrParts()
    ensures "[" + "::1" + "]:" + "62261" == "[::1]:62261"
    ensures Free("::1", '[') && Free("::1", ']')
    ensures Free("62261", ':') && Free("62261", '[') && Free("62261", ']')
  {
  }

  lemma LowerUdp()
    ensures ToLower("UDP") == "udp"
  {
    var r := ToLower("UDP");
    assert r[0] == 'u' && r[1] == 'd' && r[2] == 'p';
  }

  lemma Pid1036()
    ensures Atoi("1036") == Success(1036)
  {
    Number(1036);
    assert Itoa(1036) == "1036";
  }

  lemma UdpTokens()
    ensures forall k :: 0 <= k < 4 ==> Token(["UDP", "[::1]:62261", "*:*", "1036"][k])
  {
    assert Token("UDP") && Token("[::1]:62261") && Token("*:*") && Token("1036");
  }

  lemma PlainAddr(proto: string, host: string, port: string, isIP: string -> bool)
    requires Free(host, ':') && Free(host, '[') && Free(host, ']')
    requires Free(port, ':') && Free(port, '[') && Free(port, ']')
    requires isIP(host)
    ensures ParseNetAddr(proto, host + ":" + port, isIP) == Success(NetAddr(ToLower(proto), host + ":" + port))
  {
    SplitPlain(host, port);
  }

  lemma BracketedAddr(proto: string, host: string, port: string, isIP: string -> bool)
    requires Free(host, '[') && Free(host, ']')
    requires Free(port, ':') && Free(port, '[') && Free(port, ']')
    requires isIP(host)
    ensures ParseNetAddr(proto, "[" + host + "]:" + port, isIP) == Success(NetAddr(ToLower(proto), "[" + host + "]:" + port))
  {
    SplitBracketed(host, port);
  }

  lemma Number(n: nat)
    requires n <= MaxInt64
    ensures Atoi(Itoa(n)) == Success(n)
  {
    AtoiItoa(n);
  }
}
