/** onf/onf.go: open network file records and the pattern filter over them. */
module Onf {
  import opened Wrappers
  import opened Net
  import opened Io

  /** An open network file; `createdAt` stands for the time.Time it was built at. */
  datatype ONF = ONF(
    raw: string,     // the tool output that produced this record
    cmd: string,
    pid: int,
    src: Option<NetAddr>,
    dst: Option<NetAddr>,
    createdAt: int)

  /** A pivot that selects everything without being compiled. */
  predicate Wildcard(pivot: string)
  {
    pivot == "" || pivot == "*"
  }

  /** The records whose raw text the pattern matches, in their original order. */
  function Matching(onfs: seq<ONF>, pivot: string, re: RegexEngine): (r: seq<ONF>)
    ensures |r| <= |onfs|
    ensures forall j :: 0 <= j < |r| ==> re.matches(pivot, r[j].raw)
  {
    if |onfs| == 0 then []
    else
      var last := onfs[|onfs| - 1];
      Matching(onfs[..|onfs| - 1], pivot, re) + Kept(last, pivot, re)
  }

  /** The record alone when its raw text matches, nothing otherwise. */
  function Kept(x: ONF, pivot: string, re: RegexEngine): seq<ONF>
  {
    if re.matches(pivot, x.raw) then [x] else []
  }

  /**
    onf.Filter: a wildcard pivot returns the set as it is; a pivot that does
    not compile returns the set as it is together with an error; otherwise
    the records whose raw text matches, in order.
  */
  method Filter(onfs: seq<ONF>, pivot: string, re: RegexEngine) returns (acc: seq<ONF>, err: Option<Error>)
    ensures Wildcard(pivot) ==> acc == onfs && err == None
    ensures !Wildcard(pivot) && !re.compiles(pivot) ==> acc == onfs && err == Some(FilterError(pivot))
    ensures !Wildcard(pivot) && re.compiles(pivot) ==> acc == Matching(onfs, pivot, re) && err == None
  {
    if pivot == "" || pivot == "*" {
      return onfs, None;
    }
    if !re.compiles(pivot) {
      return onfs, Some(FilterError(pivot));
    }
    acc := [];
    for i := 0 to |onfs|
      invariant acc == Matching(onfs[..i], pivot, re)
    {
      assert onfs[..i + 1][..i] == onfs[..i];
      if !re.matches(pivot, onfs[i].raw) {
        continue;
      }
      acc := acc + [onfs[i]];
    }
    assert onfs[..|onfs|] == onfs;
    err := None;
  }

  /** Filtering distributes over concatenation: it keeps the relative order of the records. */
  lemma {:induction false} MatchingConcat(a: seq<ONF>, b: seq<ONF>, pivot: string, re: RegexEngine)
    ensures Matching(a + b, pivot, re) == Matching(a, pivot, re) + Matching(b, pivot, re)
    decreases |b|
  {
    if |b| > 0 {
      assert (a + b)[..|a + b| - 1] == a + b[..|b| - 1];
      MatchingConcat(a, b[..|b| - 1], pivot, re);
    } else {
      assert a + b == a;
    }
  }

  /** A record is kept exactly when it is in the set and its raw text matches. */
  lemma {:induction false} MatchingMembers(onfs: seq<ONF>, pivot: string, re: RegexEngine, x: ONF)
    ensures x in Matching(onfs, pivot, re) <==> x in onfs && re.matches(pivot, x.raw)
  {
    if |onfs| > 0 {
      var init := onfs[..|onfs| - 1];
      MatchingMembers(init, pivot, re, x);
      assert onfs == init + [onfs[|onfs| - 1]];
    }
  }

  /** Filtering what has been filtered with the same pivot changes nothing. */
  lemma {:induction false} MatchingIdempotent(onfs: seq<ONF>, pivot: string, re: RegexEngine)
    ensures Matching(Matching(onfs, pivot, re), pivot, re) == Matching(onfs, pivot, re)
  {
    if |onfs| > 0 {
      var init := onfs[..|onfs| - 1];
      var last := onfs[|onfs| - 1];
      var tail := Kept(last, pivot, re);
      MatchingIdempotent(init, pivot, re);
      MatchingConcat(Matching(init, pivot, re), tail, pivot, re);
      assert Matching(tail, pivot, re) == tail by {
        if |tail| > 0 {
          assert tail[..0] == [];
        }
      }
    }
  }

  /** Every record is kept when the pattern matches all of them. */
  lemma {:induction false} MatchingAll(onfs: seq<ONF>, pivot: string, re: RegexEngine)
    requires forall j :: 0 <= j < |onfs| ==> re.matches(pivot, onfs[j].raw)
    ensures Matching(onfs, pivot, re) == onfs
  {
    if |onfs| > 0 {
      var init := onfs[..|onfs| - 1];
      assert forall j :: 0 <= j < |init| ==> init[j] == onfs[j];
      MatchingAll(init, pivot, re);
      var last := onfs[|onfs| - 1];
      assert Kept(last, pivot, re) == [last];
      assert onfs == init + [last];
    }
  }

  /** No record is kept when the pattern matches none of them. */
  lemma {:induction false} MatchingNone(onfs: seq<ONF>, pivot: string, re: RegexEngine)
    requires forall j :: 0 <= j < |onfs| ==> !re.matches(pivot, onfs[j].raw)
    ensures Matching(onfs, pivot, re) == []
  {
    if |onfs| > 0 {
      var init := onfs[..|onfs| - 1];
      assert forall j :: 0 <= j < |init| ==> init[j] == onfs[j];
      MatchingNone(init, pivot, re);
    }
  }

  /** The raw texts of the records, in order. */
  function Raws(onfs: seq<ONF>): (r: seq<string>)
    ensures |r| == |onfs|
    ensures forall j :: 0 <= j < |onfs| ==> r[j] == onfs[j].raw
  {
    if |onfs| == 0 then [] else Raws(onfs[..|onfs| - 1]) + [onfs[|onfs| - 1].raw]
  }

  /**
    Only the raw text is consulted: two record lists with the same raw texts
    keep records with the same raw texts.
  */
  lemma {:induction false} MatchingReadsOnlyRaw(onfs: seq<ONF>, other: seq<ONF>, pivot: string, re: RegexEngine)
    requires Raws(other) == Raws(onfs)
    ensures Raws(Matching(other, pivot, re)) == Raws(Matching(onfs, pivot, re))
  {
    if |onfs| > 0 {
      var n := |onfs| - 1;
      assert |other| == |onfs|;
      RawsPrefix(onfs, other, n);
      RawsLast(onfs, other, n, pivot, re);
      calc {
        Raws(Matching(other, pivot, re));
        == { RawsMatchingLast(other, n, pivot, re); }
        Raws(Matching(other[..n], pivot, re)) + Raws(Kept(other[n], pivot, re));
        == { MatchingReadsOnlyRaw(onfs[..n], other[..n], pivot, re); }
        Raws(Matching(onfs[..n], pivot, re)) + Raws(Kept(onfs[n], pivot, re));
        == { RawsMatchingLast(onfs, n, pivot, re); }
        Raws(Matching(onfs, pivot, re));
      }
    }
  }

  /** Records at the same place in lists with the same raw texts have the same raw text. */
  lemma RawsLast(onfs: seq<ONF>, other: seq<ONF>, n: nat, pivot: string, re: RegexEngine)
    requires Raws(other) == Raws(onfs) && n < |onfs|
    ensures Raws(Kept(other[n], pivot, re)) == Raws(Kept(onfs[n], pivot, re))
  {
    assert other[n].raw == Raws(other)[n];
  }

  lemma RawsMatchingLast(onfs: seq<ONF>, n: nat, pivot: string, re: RegexEngine)
    requires n + 1 == |onfs|
    ensures Raws(Matching(onfs, pivot, re)) == Raws(Matching(onfs[..n], pivot, re)) + Raws(Kept(onfs[n], pivot, re))
  {
    assert Matching(onfs, pivot, re) == Matching(onfs[..n], pivot, re) + Kept(onfs[n], pivot, re);
    RawsConcat(Matching(onfs[..n], pivot, re), Kept(onfs[n], pivot, re));
  }

  lemma RawsConcat(a: seq<ONF>, b: seq<ONF>)
    ensures Raws(a + b) == Raws(a) + Raws(b)
  {
    var l, r := Raws(a + b), Raws(a) + Raws(b);
    forall j | 0 <= j < |l| ensures l[j] == r[j] {
      if j < |a| {
        assert (a + b)[j] == a[j];
      } else {
        assert (a + b)[j] == b[j - |a|];
      }
    }
  }

  lemma RawsPrefix(onfs: seq<ONF>, other: seq<ONF>, n: nat)
    requires Raws(other) == Raws(onfs) && n <= |onfs|
    ensures Raws(other[..n]) == Raws(onfs[..n])
  {
    var l, r := Raws(other[..n]), Raws(onfs[..n]);
    forall j | 0 <= j < n ensures l[j] == r[j] {
      assert other[j].raw == Raws(other)[j] == Raws(onfs)[j] == onfs[j].raw;
    }
  }
}
