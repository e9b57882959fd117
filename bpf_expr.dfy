/** bpf/expr.go: Berkeley Packet Filter expressions built by joining operands. */
module BpfExpr {
  import opened Wrappers
  import opened Text
  import opened Io
  import opened Utils

  /** A BPF expression; the empty expression is the zero value. */
  type Expr = string

  /** The two operators expressions are joined with. */
  const And := "and"
  const Or := "or"

  /**
    join: `a op b` with single spaces, or `b` alone when `a` is empty; `b`
    is taken as it is, so an empty `b` leaves the operator dangling.
  */
  function JoinOperands(op: string, a: string, b: string): (r: string)
    ensures |a| == 0 ==> r == b
    ensures |a| > 0 ==> r == a + " " + op + " " + b
  {
    if |a| > 0 then
      assert Join([a, op, b], " ") == a + " " + Join([op, b], " ");
      assert Join([op, b], " ") == op + " " + b;
      Join([a, op, b], " ")
    else b
  }

  /**
    Expr.Join: a new expression with `f` as the right operand (`f` is the
    text its BPF method returns); the receiver is a value and stays as it was.
  */
  function JoinExpr(e: Expr, op: string, f: string): (r: Expr)
    ensures e == "" ==> r == f
    ensures e != "" ==> r == e + " " + op + " " + f
  {
    JoinOperands(op, e, f)
  }

  /** Expr.NewReader: a reader that delivers the expression and one newline. */
  function NewReader(e: Expr): (r: Stream)
    ensures r.failure == None && |r.data| == |e| + 1
    ensures r.data[..|e|] == e && r.data[|e|] == '\n'
  {
    Stream(e + "\n", None)
  }

  /** Reading the reader back line by line gives the expression, when it is one line. */
  lemma NewReaderLines(e: Expr)
    requires e != "" && PlainLine(e)
    ensures ScannerLines(NewReader(e).data) == [e]
  {
    ScannerLinesOf([e], "");
    assert Terminated([e]) + "" == e + "\n" by {
      assert Terminated([e][1..]) == "";
    }
  }

  /**
    Joining adds only spaces and the operator: the parentheses of the result
    are those of the operands, so precedence is the caller's concern.
  */
  lemma JoinAddsNoParens(op: string, a: string, b: string)
    requires '(' !in op && ')' !in op
    ensures multiset(JoinOperands(op, a, b))['('] == multiset(a)['('] + multiset(b)['(']
    ensures multiset(JoinOperands(op, a, b))[')'] == multiset(a)[')'] + multiset(b)[')']
  {
    JoinCount(op, a, b, '(');
    JoinCount(op, a, b, ')');
  }

  lemma JoinCount(op: string, a: string, b: string, c: char)
    requires c !in op && c != ' '
    ensures multiset(JoinOperands(op, a, b))[c] == multiset(a)[c] + multiset(b)[c]
  {
    if |a| > 0 {
      var m := " " + op + " ";
      assert c !in m;
      assert multiset(m)[c] == 0;
      var am := a + m;
      assert JoinOperands(op, a, b) == am + b;
      assert multiset(am + b)[c] == multiset(am)[c] + multiset(b)[c];
      assert multiset(am)[c] == multiset(a)[c] + multiset(m)[c];
    } else {
      assert multiset(a)[c] == 0;
    }
  }

  /** Expressions folded together one after the other, from an empty start. */
  function Folded(op: string, operands: seq<string>): (r: Expr)
  {
    if |operands| == 0 then ""
    else JoinOperands(op, Folded(op, operands[..|operands| - 1]), operands[|operands| - 1])
  }

  /**
    Joining non-empty operands one at a time onto the empty expression gives
    the operands separated by ` op `: strings.Join with the operator.
  */
  lemma {:induction false} FoldedJoin(op: string, operands: seq<string>)
    requires forall k :: 0 <= k < |operands| ==> operands[k] != ""
    ensures Folded(op, operands) == Join(operands, " " + op + " ")
  {
    if |operands| > 0 {
      var init := operands[..|operands| - 1];
      var last := operands[|operands| - 1];
      FoldedJoin(op, init);
      OrStep(op, init, last);
      assert operands == init + [last];
    }
  }

  /**
    One more operand joined onto a join of non-empty operands extends the
    join by the operator and the operand.
  */
  lemma OrStep(op: string, parts: seq<string>, x: string)
    requires forall k :: 0 <= k < |parts| ==> parts[k] != ""
    ensures JoinOperands(op, Join(parts, " " + op + " "), x) == Join(parts + [x], " " + op + " ")
  {
    var sep := " " + op + " ";
    JoinSnoc(parts, x, sep);
    if |parts| > 0 {
      JoinNotEmpty(parts, sep);
      JoinOperandsNotEmpty(op, Join(parts, sep), x);
    }
  }

  /** A non-empty left operand is followed by the spaced operator and the right one. */
  lemma JoinOperandsNotEmpty(op: string, a: string, b: string)
    requires a != ""
    ensures JoinOperands(op, a, b) == a + (" " + op + " ") + b
  {
    assert a + " " + op + " " + b == a + (" " + op + " ") + b;
  }

  /** A join that starts with a non-empty piece is not empty. */
  lemma {:induction false} JoinNotEmpty(parts: seq<string>, sep: string)
    requires |parts| > 0 && parts[0] != ""
    ensures Join(parts, sep) != ""
  {
    if |parts| > 1 {
      assert Join(parts, sep) == parts[0] + (sep + Join(parts[1..], sep));
      assert |Join(parts, sep)| >= |parts[0]|;
    }
  }

  /** The operators are the lower-case words `and` and `or`. */
  lemma Operators()
    ensures JoinOperands(And, "host a", "port 1") == "host a and port 1"
    ensures JoinOperands(Or, "port 1", "port 2") == "port 1 or port 2"
  {
  }
}
