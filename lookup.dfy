/** lookup/lookup.go: network files, as the encoders receive them. */
module Lookup {
  import opened Wrappers
  import opened Net
  import opened LookupDecoder

  /** A network file: the command that owns it and its two endpoints. */
  datatype NetFile = NetFile(command: string, src: NetAddr, dst: NetAddr)

  /**
    The loop of OpenNetFiles that maps each decoded open file to a network
    file: same length, same order, the command kept, the endpoints read from
    the name.
  */
  method Project(ll: seq<OpenFile>) returns (ff: seq<NetFile>)
    ensures |ff| == |ll|
    ensures forall i :: 0 <= i < |ll| ==>
      ff[i].command == ll[i].command && (ff[i].src, ff[i].dst) == ll[i].UnmarshalName()
  {
    var a := new NetFile[|ll|];
    for i := 0 to |ll|
      invariant forall j :: 0 <= j < i ==>
        a[j].command == ll[j].command && (a[j].src, a[j].dst) == ll[j].UnmarshalName()
    {
      var (src, dst) := ll[i].UnmarshalName();
      a[i] := NetFile(ll[i].command, src, dst);
    }
    ff := a[..];
  }

  /**
    lookup.OpenNetFiles once its two calls into the system have answered:
    `rgxErr` is what compiling the selector reported, `ll` and `decodeErr`
    what decoding lsof's output gave, after only the lines the selector's
    regex matches were kept. Either error yields no files.
  */
  method OpenNetFiles(rgxErr: Option<Error>, ll: seq<OpenFile>, decodeErr: Option<Error>)
    returns (ff: seq<NetFile>, err: Option<Error>)
    ensures rgxErr.Some? ==> ff == [] && err == rgxErr
    ensures rgxErr.None? && decodeErr.Some? ==> ff == [] && err == decodeErr
    ensures rgxErr.None? && decodeErr.None? ==> err == None && |ff| == |ll|
    ensures rgxErr.None? && decodeErr.None? ==> forall i :: 0 <= i < |ll| ==>
      ff[i].command == ll[i].command && (ff[i].src, ff[i].dst) == ll[i].UnmarshalName()
  {
    if rgxErr.Some? {
      return [], rgxErr;
    }
    if decodeErr.Some? {
      return [], decodeErr;
    }
    ff := Project(ll);
    err := None;
  }

  /** lookup.Hosts: the sources and the destinations of the files, position by position. */
  method Hosts(ff: seq<NetFile>) returns (src: seq<NetAddr>, dst: seq<NetAddr>)
    ensures |src| == |ff| && |dst| == |ff|
    ensures forall i :: 0 <= i < |ff| ==> src[i] == ff[i].src && dst[i] == ff[i].dst
  {
    src, dst := [], [];
    for i := 0 to |ff|
      invariant |src| == i && |dst| == i
      invariant forall j :: 0 <= j < i ==> src[j] == ff[j].src && dst[j] == ff[j].dst
    {
      src := src + [ff[i].src];
      dst := dst + [ff[i].dst];
    }
  }
}
