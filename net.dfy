/** The parts of Go's `net` package that the core relies on. */
module Net {
  import opened Wrappers
  import opened Text

  /**
    A non-nil `net.Addr` value, as seen through its two methods:
    `Network()` and `String()`.
  */
  datatype NetAddr = NetAddr(network: string, address: string)

  datatype HostPort = HostPort(host: string, port: string)

  const MissingPort := "missing port in address"
  const TooManyColons := "too many colons in address"
  const MissingBracket := "missing ']' in address"
  const UnexpectedOpen := "unexpected '[' in address"
  const UnexpectedClose := "unexpected ']' in address"

  predicate Free(s: string, c: char) { forall j :: 0 <= j < |s| ==> s[j] != c }

  /**
    net.SplitHostPort: the port is what follows the last ':'; a host that
    starts with '[' must end with the first ']' and be followed directly by
    that last ':'; an unbracketed host may not contain ':'; and no '[' or ']'
    may appear anywhere else.
  */
  function SplitHostPort(hp: string): (r: Result<HostPort>)
    ensures r.Failure? ==> r.error.AddrError? && r.error.address == hp
  {
    var i := LastIndexOfChar(hp, ':');
    if i < 0 then
      Failure(AddrError(hp, MissingPort))
    else if hp[0] == '[' then
      var end := IndexOfChar(hp, ']');
      if end < 0 then Failure(AddrError(hp, MissingBracket))
      else if end + 1 == |hp| then Failure(AddrError(hp, MissingPort))
      else if end + 1 != i then
        Failure(AddrError(hp, if hp[end + 1] == ':' then TooManyColons else MissingPort))
      else CheckBrackets(hp, hp[1..end], i, 1, end + 1)
    else
      var host := hp[..i];
      if IndexOfChar(host, ':') >= 0 then Failure(AddrError(hp, TooManyColons))
      else CheckBrackets(hp, host, i, 0, 0)
  }

  /** An address without ':' has no port. */
  lemma SplitHostPortNoColon(hp: string)
    requires Free(hp, ':')
    ensures SplitHostPort(hp) == Failure(AddrError(hp, MissingPort))
  {
  }

  /**
    What a successful split means: the input is the host and the port joined
    by the last ':', with the host in brackets exactly when the input starts
    with '['; the port holds no ':', and an unbracketed host holds none either.
  */
  lemma SplitHostPortParts(hp: string)
    requires SplitHostPort(hp).Success?
    ensures var HostPort(h, p) := SplitHostPort(hp).value;
      && Free(p, ':')
      && (HasPrefix(hp, "[") ==> hp == "[" + h + "]:" + p)
      && (!HasPrefix(hp, "[") ==> Free(h, ':') && hp == h + ":" + p)
  {
    assert HasPrefix(hp, "[") <==> hp[0] == '[' by {
      assert hp[..1] == [hp[0]];
    }
    var i := LastIndexOfChar(hp, ':');
    PortIsFree(hp, i);
    if hp[0] == '[' {
      BracketedParts(hp);
    } else {
      PlainParts(hp);
    }
  }

  lemma PortIsFree(hp: string, i: int)
    requires i == LastIndexOfChar(hp, ':') && i >= 0
    ensures Free(hp[i + 1..], ':')
  {
    var p := hp[i + 1..];
    assert forall j :: 0 <= j < |p| ==> p[j] == hp[i + 1 + j];
  }

  lemma BracketedParts(hp: string)
    requires SplitHostPort(hp).Success? && hp[0] == '['
    ensures var HostPort(h, p) := SplitHostPort(hp).value; hp == "[" + h + "]:" + p
  {
    var i := LastIndexOfChar(hp, ':');
    var end := IndexOfChar(hp, ']');
    assert end >= 0 && end + 1 == i;
    assert SplitHostPort(hp).value == HostPort(hp[1..end], hp[i + 1..]);
    assert hp == "[" + hp[1..end] + "]:" + hp[i + 1..];
  }

  lemma PlainParts(hp: string)
    requires SplitHostPort(hp).Success? && hp[0] != '['
    ensures var HostPort(h, p) := SplitHostPort(hp).value; Free(h, ':') && hp == h + ":" + p
  {
    var i := LastIndexOfChar(hp, ':');
    var host := hp[..i];
    assert SplitHostPort(hp).value == HostPort(host, hp[i + 1..]);
    assert hp == host + ":" + hp[i + 1..];
  }

  /** The last checks of net.SplitHostPort: no stray '[' from `j` on, no stray ']' from `k` on. */
  function CheckBrackets(hp: string, host: string, i: nat, j: nat, k: nat): (r: Result<HostPort>)
    requires i < |hp| && j <= |hp| && k <= |hp|
    ensures r.Success? ==> r.value == HostPort(host, hp[i + 1..])
    ensures r.Success? ==> Free(hp[j..], '[') && Free(hp[k..], ']')
    ensures r.Failure? ==> r.error.AddrError? && r.error.address == hp
  {
    if IndexOfChar(hp[j..], '[') >= 0 then Failure(AddrError(hp, UnexpectedOpen))
    else if IndexOfChar(hp[k..], ']') >= 0 then Failure(AddrError(hp, UnexpectedClose))
    else Success(HostPort(host, hp[i + 1..]))
  }

  /** net.JoinHostPort: a host that contains ':' is written in brackets. */
  function JoinHostPort(host: string, port: string): string
  {
    if IndexOfChar(host, ':') >= 0 then "[" + host + "]:" + port else host + ":" + port
  }

  /** SplitHostPort undoes JoinHostPort whenever the parts hold no stray delimiters. */
  lemma SplitJoinHostPort(host: string, port: string)
    requires Free(host, '[') && Free(host, ']')
    requires Free(port, ':') && Free(port, '[') && Free(port, ']')
    ensures SplitHostPort(JoinHostPort(host, port)) == Success(HostPort(host, port))
  {
    if IndexOfChar(host, ':') >= 0 {
      SplitBracketed(host, port);
    } else {
      SplitPlain(host, port);
    }
  }

  lemma SplitBracketed(host: string, port: string)
    requires Free(host, '[') && Free(host, ']')
    requires Free(port, ':') && Free(port, '[') && Free(port, ']')
    ensures SplitHostPort("[" + host + "]:" + port) == Success(HostPort(host, port))
  {
    var hp := "[" + host + "]:" + port;
    var n := |host|;
    BracketedIndices(host, port);
    BracketedChecks(host, port);
    assert hp[1..n + 1] == host;
  }

  /** Where SplitHostPort finds the last ':' and the first ']' of a bracketed address. */
  lemma BracketedIndices(host: string, port: string)
    requires Free(host, ']') && Free(port, ':')
    ensures var hp := "[" + host + "]:" + port;
      && hp[0] == '[' && |hp| >= |host| + 3
      && LastIndexOfChar(hp, ':') == |host| + 2
      && IndexOfChar(hp, ']') == |host| + 1
  {
    var hp := "[" + host + "]:" + port;
    var n := |host|;
    assert hp[n + 3..] == port;
    assert hp[1..] == host + "]:" + port;
    LastIndexOfCharIs(hp, ':', n + 2);
    IndexOfCharIs(hp, ']', n + 1);
  }

  /** A bracketed address has no stray bracket after its opening one and after its closing one. */
  lemma BracketedChecks(host: string, port: string)
    requires Free(host, '[') && Free(host, ']')
    requires Free(port, ':') && Free(port, '[') && Free(port, ']')
    ensures var hp := "[" + host + "]:" + port;
      CheckBrackets(hp, host, |host| + 2, 1, |host| + 2) == Success(HostPort(host, port))
  {
    var hp := "[" + host + "]:" + port;
    var n := |host|;
    assert hp[n + 2..] == ":" + port;
    assert hp[n + 3..] == port;
    assert hp[1..] == host + "]:" + port;
    FreeConcat(host, "]:", '[');
    FreeConcat(host + "]:", port, '[');
    FreeConcat(":", port, ']');
  }

  lemma FreeConcat(a: string, b: string, c: char)
    requires Free(a, c) && Free(b, c)
    ensures Free(a + b, c)
  {
    assert forall j :: |a| <= j < |a + b| ==> (a + b)[j] == b[j - |a|];
  }

  lemma SplitPlain(host: string, port: string)
    requires Free(host, ':') && Free(host, '[') && Free(host, ']')
    requires Free(port, ':') && Free(port, '[') && Free(port, ']')
    ensures SplitHostPort(host + ":" + port) == Success(HostPort(host, port))
  {
    var hp := host + ":" + port;
    var n := |host|;
    assert hp[..n] == host;
    assert hp[n + 1..] == port;
    assert hp[0..] == hp;
    LastIndexOfCharIs(hp, ':', n);
    FreeConcat(host, ":", '[');
    FreeConcat(host + ":", port, '[');
    FreeConcat(host, ":", ']');
    FreeConcat(host + ":", port, ']');
    assert CheckBrackets(hp, host, n, 0, 0) == Success(HostPort(host, port));
  }

  lemma LastIndexOfCharIs(s: string, c: char, i: nat)
    requires i < |s| && s[i] == c && forall j :: i < j < |s| ==> s[j] != c
    ensures LastIndexOfChar(s, c) == i
  {
  }

  lemma IndexOfCharIs(s: string, c: char, i: nat)
    requires i < |s| && s[i] == c && forall j :: 0 <= j < i ==> s[j] != c
    ensures IndexOfChar(s, c) == i
  {
  }

  /** The wildcard `*:*` that netstat prints splits into two literal stars. */
  lemma SplitWildcard()
    ensures SplitHostPort("*:*") == Success(HostPort("*", "*"))
  {
    assert LastIndexOfChar("*:*", ':') == 1;
    assert "*:*"[..1] == "*";
    assert "*:*"[2..] == "*";
  }
}
