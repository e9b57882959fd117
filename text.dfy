/**
  The parts of Go's `strings` and `strconv` packages that the decoders and
  encoders rely on, with Go's semantics for byte strings (a Go string is
  modelled as a sequence of characters, one per byte).
*/
module Text {
  import opened Wrappers

  // ---------------------------------------------------------------------
  // Searching

  /** `sep` occurs in `s` starting at position `j`. */
  predicate OccursAt(s: string, sep: string, j: int)
  {
    0 <= j <= |s| - |sep| && s[j..j + |sep|] == sep
  }

  /** The first occurrence of `sep` in `s` at or after `k`, or -1. */
  function IndexFrom(s: string, sep: string, k: nat): (i: int)
    requires |sep| > 0 && k <= |s|
    ensures i == -1 || (k <= i && OccursAt(s, sep, i))
    ensures forall j :: k <= j < (if i < 0 then |s| + 1 else i) ==> !OccursAt(s, sep, j)
    decreases |s| - k
  {
    if k + |sep| > |s| then -1
    else if OccursAt(s, sep, k) then k
    else IndexFrom(s, sep, k + 1)
  }

  /** strings.Index: the first occurrence of `sep` in `s`, or -1. */
  function IndexOf(s: string, sep: string): (i: int)
    requires |sep| > 0
    ensures i == -1 || OccursAt(s, sep, i)
    ensures forall j :: 0 <= j < (if i < 0 then |s| + 1 else i) ==> !OccursAt(s, sep, j)
  {
    IndexFrom(s, sep, 0)
  }

  /** The first occurrence is determined by the two facts that characterise it. */
  lemma IndexOfIs(s: string, sep: string, i: nat)
    requires |sep| > 0 && OccursAt(s, sep, i)
    requires forall j :: 0 <= j < i ==> !OccursAt(s, sep, j)
    ensures IndexOf(s, sep) == i
  {
  }

  /** For a one-character separator, an occurrence is just an equal character. */
  lemma OccursAtChar(s: string, c: char, j: int)
    ensures OccursAt(s, [c], j) <==> 0 <= j < |s| && s[j] == c
  {
    if 0 <= j < |s| {
      assert s[j..j + 1] == [s[j]];
    }
  }

  /** strings.IndexByte / strings.LastIndexByte for one character. */
  function IndexOfChar(s: string, c: char): (i: int)
    ensures -1 <= i < |s|
    ensures i >= 0 ==> s[i] == c
    ensures forall j :: 0 <= j < (if i < 0 then |s| else i) ==> s[j] != c
  {
    if |s| == 0 then -1
    else if s[0] == c then 0
    else var k := IndexOfChar(s[1..], c); if k < 0 then -1 else k + 1
  }

  function LastIndexOfChar(s: string, c: char): (i: int)
    ensures -1 <= i < |s|
    ensures i >= 0 ==> s[i] == c
    ensures forall j :: i < j < |s| ==> s[j] != c
  {
    if |s| == 0 then -1
    else if s[|s| - 1] == c then |s| - 1
    else LastIndexOfChar(s[..|s| - 1], c)
  }

  predicate HasPrefix(s: string, prefix: string)
  {
    |prefix| <= |s| && s[..|prefix|] == prefix
  }

  predicate HasSuffix(s: string, suffix: string)
  {
    |suffix| <= |s| && s[|s| - |suffix|..] == suffix
  }

  // ---------------------------------------------------------------------
  // Splitting and joining

  /**
    strings.Split with a non-empty separator: the pieces between the
    non-overlapping occurrences of `sep`, scanned from the left.
  */
  function Split(s: string, sep: string): (r: seq<string>)
    requires |sep| > 0
    ensures |r| >= 1
    decreases |s|
  {
    var i := IndexOf(s, sep);
    if i < 0 then [s] else [s[..i]] + Split(s[i + |sep|..], sep)
  }

  /** strings.Join. */
  function Join(parts: seq<string>, sep: string): string
  {
    if |parts| == 0 then ""
    else if |parts| == 1 then parts[0]
    else parts[0] + sep + Join(parts[1..], sep)
  }

  /** Joining one more piece appends the separator and the piece (just the piece to nothing). */
  lemma {:induction false} JoinSnoc(parts: seq<string>, x: string, sep: string)
    ensures Join(parts + [x], sep) == if |parts| == 0 then x else Join(parts, sep) + sep + x
  {
    if |parts| == 0 {
      assert parts + [x] == [x];
    } else if |parts| == 1 {
      assert (parts + [x])[1..] == [x];
    } else {
      assert (parts + [x])[1..] == parts[1..] + [x];
      JoinSnoc(parts[1..], x, sep);
    }
  }

  /** Joining the pieces of a split with the same separator gives back the input. */
  lemma {:induction false} JoinSplit(s: string, sep: string)
    requires |sep| > 0
    ensures Join(Split(s, sep), sep) == s
    decreases |s|
  {
    var i := IndexOf(s, sep);
    if i >= 0 {
      var rest := s[i + |sep|..];
      var tail := Split(rest, sep);
      assert Split(s, sep) == [s[..i]] + tail;
      JoinSplit(rest, sep);
      assert Join([s[..i]] + tail, sep) == s[..i] + sep + Join(tail, sep) by {
        assert ([s[..i]] + tail)[1..] == tail;
      }
      assert s == s[..i] + sep + rest by {
        assert s[i..i + |sep|] == sep;
      }
    } else {
      assert Split(s, sep) == [s];
    }
  }

  /** No piece of a split contains the separator. */
  lemma {:induction false} SplitPiecesAreFree(s: string, sep: string)
    requires |sep| > 0
    ensures forall k :: 0 <= k < |Split(s, sep)| ==> IndexOf(Split(s, sep)[k], sep) < 0
    decreases |s|
  {
    var i := IndexOf(s, sep);
    if i >= 0 {
      var piece := s[..i];
      forall j | 0 <= j <= |piece| - |sep| ensures !OccursAt(piece, sep, j) {
        assert !OccursAt(s, sep, j);
        assert piece[j..j + |sep|] == s[j..j + |sep|];
      }
      assert IndexOf(piece, sep) < 0;
      SplitPiecesAreFree(s[i + |sep|..], sep);
      assert forall k :: 1 <= k < |Split(s, sep)| ==> Split(s, sep)[k] == Split(s[i + |sep|..], sep)[k - 1];
    }
  }

  /** With a one-character separator, splitting distributes over an occurrence. */
  lemma {:induction false} SplitAtChar(a: string, c: char, b: string)
    ensures Split(a + [c] + b, [c]) == Split(a, [c]) + Split(b, [c])
    decreases |a|
  {
    var s := a + [c] + b;
    var i := IndexOf(a, [c]);
    forall j | 0 <= j < |a| ensures OccursAt(s, [c], j) <==> OccursAt(a, [c], j) {
      OccursAtChar(s, c, j);
      OccursAtChar(a, c, j);
    }
    if i < 0 {
      OccursAtChar(s, c, |a|);
      IndexOfIs(s, [c], |a|);
      assert s[|a| + 1..] == b;
      assert s[..|a|] == a;
    } else {
      IndexOfIs(s, [c], i);
      assert s[..i] == a[..i];
      assert s[i + 1..] == a[i + 1..] + [c] + b;
      SplitAtChar(a[i + 1..], c, b);
    }
  }

  /** Splitting the one-character join of separator-free pieces gives back the pieces. */
  lemma {:induction false} SplitJoinChar(parts: seq<string>, c: char)
    requires |parts| >= 1
    requires forall k, j :: 0 <= k < |parts| && 0 <= j < |parts[k]| ==> parts[k][j] != c
    ensures Split(Join(parts, [c]), [c]) == parts
  {
    var p := parts[0];
    forall j | 0 <= j <= |p| ensures !OccursAt(p, [c], j) {
      OccursAtChar(p, c, j);
    }
    assert Split(p, [c]) == [p];
    if |parts| > 1 {
      SplitJoinChar(parts[1..], c);
      SplitAtChar(p, c, Join(parts[1..], [c]));
      assert Join(parts, [c]) == p + [c] + Join(parts[1..], [c]);
      assert parts == [p] + parts[1..];
    }
  }

  // ---------------------------------------------------------------------
  // Trimming and case

  /** strings.TrimLeft with a one-character cutset. */
  function TrimLeft(s: string, c: char): (r: string)
    ensures |r| <= |s|
  {
    if |s| > 0 && s[0] == c then TrimLeft(s[1..], c) else s
  }

  /** strings.TrimRight with a one-character cutset. */
  function TrimRight(s: string, c: char): (r: string)
    ensures |r| <= |s|
  {
    if |s| > 0 && s[|s| - 1] == c then TrimRight(s[..|s| - 1], c) else s
  }

  /** strings.Trim with a one-character cutset. */
  function Trim(s: string, c: char): string
  {
    TrimRight(TrimLeft(s, c), c)
  }

  /** TrimLeft removes the longest prefix made of `c` alone, and nothing else. */
  lemma {:induction false} TrimLeftIs(s: string, c: char)
    ensures var r := TrimLeft(s, c);
      && r == s[|s| - |r|..]
      && (|r| > 0 ==> r[0] != c)
      && forall j :: 0 <= j < |s| - |r| ==> s[j] == c
  {
    if |s| > 0 && s[0] == c {
      TrimLeftIs(s[1..], c);
    }
  }

  /** TrimRight removes the longest suffix made of `c` alone, and nothing else. */
  lemma {:induction false} TrimRightIs(s: string, c: char)
    ensures var r := TrimRight(s, c);
      && r == s[..|r|]
      && (|r| > 0 ==> r[|r| - 1] != c)
      && forall j :: |r| <= j < |s| ==> s[j] == c
  {
    if |s| > 0 && s[|s| - 1] == c {
      TrimRightIs(s[..|s| - 1], c);
    }
  }

  /** `n` copies of the character `c`. */
  function Repeat(c: char, n: nat): (r: string)
    ensures |r| == n && forall j :: 0 <= j < n ==> r[j] == c
  {
    if n == 0 then "" else Repeat(c, n - 1) + [c]
  }

  /** Trimming spaces removes exactly the padding around a field. */
  lemma {:induction false} TrimPadded(a: nat, t: string, b: nat)
    requires |t| > 0 ==> t[0] != ' ' && t[|t| - 1] != ' '
    ensures Trim(Repeat(' ', a) + t + Repeat(' ', b), ' ') == t
  {
    var s := Repeat(' ', a) + t + Repeat(' ', b);
    var l := TrimLeft(s, ' ');
    TrimLeftIs(s, ' ');
    TrimRightIs(l, ' ');
    if |t| > 0 {
      assert s[a] == t[0];
      assert forall j :: 0 <= j < a ==> s[j] == ' ';
      assert |l| == |t| + b;
      assert l == t + Repeat(' ', b);
      var r := TrimRight(l, ' ');
      assert l[|t| - 1] == t[|t| - 1];
      assert forall j :: |t| <= j < |l| ==> l[j] == ' ';
      assert |r| == |t|;
    }
  }

  function LowerChar(c: char): char
  {
    if 'A' <= c <= 'Z' then (c as int + 32) as char else c
  }

  /** strings.ToLower, restricted to ASCII letters. */
  function ToLower(s: string): (r: string)
    ensures |r| == |s|
    ensures forall j :: 0 <= j < |s| ==> r[j] == LowerChar(s[j])
  {
    seq(|s|, j requires 0 <= j < |s| => LowerChar(s[j]))
  }

  // ---------------------------------------------------------------------
  // Decimal integers (strconv.Atoi and strconv.Itoa over 64-bit `int`)

  const MinInt64: int := -0x8000_0000_0000_0000
  const MaxInt64: int := 0x7fff_ffff_ffff_ffff

  predicate IsDigit(c: char) { '0' <= c <= '9' }

  predicate AllDigits(s: string) { forall j :: 0 <= j < |s| ==> IsDigit(s[j]) }

  function DigitValue(c: char): nat requires IsDigit(c) { c as int - '0' as int }

  function DigitChar(d: nat): (c: char)
    requires d < 10
    ensures IsDigit(c) && DigitValue(c) == d
  {
    ('0' as int + d) as char
  }

  /** The value of a string of decimal digits, most significant first. */
  function DecimalValue(s: string): nat
    requires AllDigits(s)
  {
    if |s| == 0 then 0 else DecimalValue(s[..|s| - 1]) * 10 + DigitValue(s[|s| - 1])
  }

  /** The shortest decimal representation of `n`. */
  function Digits(n: nat): (r: string)
    ensures |r| >= 1 && AllDigits(r)
  {
    if n < 10 then [DigitChar(n)] else Digits(n / 10) + [DigitChar(n % 10)]
  }

  /**
    strconv.Atoi on a 64-bit platform: an optional sign, then one or more
    decimal digits, with a value in the range of `int`.
  */
  function Atoi(s: string): (r: Result<int>)
    ensures r.Success? ==> MinInt64 <= r.value <= MaxInt64
    ensures r.Success? ==> |s| > 0 && (IsDigit(s[0]) || s[0] == '-' || s[0] == '+')
  {
    if |s| == 0 then Failure(NumError(s, "invalid syntax"))
    else
      var signed := s[0] == '-' || s[0] == '+';
      var digits := if signed then s[1..] else s;
      if |digits| == 0 || !AllDigits(digits) then Failure(NumError(s, "invalid syntax"))
      else
        var v: int := if s[0] == '-' then -(DecimalValue(digits) as int) else DecimalValue(digits) as int;
        if MinInt64 <= v <= MaxInt64 then Success(v) else Failure(NumError(s, "value out of range"))
  }

  /** strconv.Itoa. */
  function Itoa(n: int): string
  {
    if n < 0 then "-" + Digits(-n) else Digits(n)
  }

  lemma {:induction false} DecimalValueOfDigits(n: nat)
    ensures DecimalValue(Digits(n)) == n
  {
    if n >= 10 {
      var d := Digits(n / 10);
      DecimalValueOfDigits(n / 10);
      assert (d + [DigitChar(n % 10)])[..|d|] == d;
    }
  }

  /** Atoi reads back what Itoa writes, for every 64-bit integer. */
  lemma AtoiItoa(n: int)
    requires MinInt64 <= n <= MaxInt64
    ensures Atoi(Itoa(n)) == Success(n)
  {
    if n < 0 {
      AtoiNegative(-n);
    } else {
      AtoiDigits(n);
    }
  }

  lemma AtoiDigits(n: nat)
    requires n <= MaxInt64
    ensures Atoi(Digits(n)) == Success(n)
  {
    var s := Digits(n);
    DecimalValueOfDigits(n);
    assert IsDigit(s[0]);
    assert s[0] != '-' && s[0] != '+';
  }

  lemma AtoiNegative(m: nat)
    requires 0 < m && MinInt64 <= -(m as int)
    ensures Atoi("-" + Digits(m)) == Success(-(m as int))
  {
    var s := "-" + Digits(m);
    DecimalValueOfDigits(m);
    assert s[0] == '-';
    assert s[1..] == Digits(m);
  }
}
