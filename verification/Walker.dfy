/** The line walkers of remap-phandles.py and check-refs.py: which node each line sits in. */
module Walker {
  import opened DeviceTree
  import opened TreeParser

  /** The stack after a line. All the labels of a head are stripped. */
  function StackStep(stack: seq<string>, line: Line): seq<string> {
    match line.statement
    case Open(_, name) => Upto(stack, line.indent) + [name]
    case OpenRef(ref) => Upto(stack, line.indent) + [RefText(ref)]
    case Close => Upto(stack, line.indent)
    case _ => stack
  }

  function StackAfter(stack: seq<string>, lines: seq<Line>): seq<string>
    decreases lines
  {
    if lines == [] then stack else StackAfter(StackStep(stack, lines[0]), lines[1..])
  }

  /** `"/" + "/".join(stack[1:])` */
  function NodePath(stack: seq<string>): string {
    if |stack| <= 1 then "/" else "/" + Join(stack[1..])
  }

  /** The node path of every line. */
  function Walk(stack: seq<string>, lines: seq<Line>): (paths: seq<string>)
    ensures |paths| == |lines|
    decreases lines
  {
    if lines == [] then []
    else
      var next := StackStep(stack, lines[0]);
      [NodePath(next)] + Walk(next, lines[1..])
  }

  lemma {:induction false} StackAppend(stack: seq<string>, a: seq<Line>, b: seq<Line>)
    ensures StackAfter(stack, a + b) == StackAfter(StackAfter(stack, a), b)
    ensures Walk(stack, a + b) == Walk(stack, a) + Walk(StackAfter(stack, a), b)
    decreases a
  {
    if a == [] {
      assert a + b == b;
    } else {
      assert (a + b)[1..] == a[1..] + b;
      StackAppend(StackStep(stack, a[0]), a[1..], b);
    }
  }

  // ---- agreement with the parser --------------------------------------------------------------

  lemma HeadTextLonger(labels: seq<string>, name: string)
    ensures |HeadText(labels, name)| >= |name| + 2 * |labels|
  {
  }

  predicate OneLabelAtMost(line: Line) {
    line.statement.Open? ==> |line.statement.labels| <= 1
  }

  lemma StepsAgree(ps: ParseState, line: Line)
    requires Known(ps)
    ensures OneLabelAtMost(line) ==> ParseLine(ps, line).stack == StackStep(ps.stack, line)
    ensures forall stack :: !OneLabelAtMost(line) ==> ParseLine(ps, line).stack != StackStep(stack, line)
  {
    if !OneLabelAtMost(line) {
      var s := line.statement;
      HeadTextLonger(s.labels[1..], s.name);
      forall stack ensures ParseLine(ps, line).stack != StackStep(stack, line) {
        var a, b := ParseLine(ps, line).stack, StackStep(stack, line);
        assert a[|a| - 1] == HeadText(s.labels[1..], s.name) && b[|b| - 1] == s.name;
      }
    }
  }

  lemma {:induction false} ParseAppend(ps: ParseState, lines: seq<Line>, line: Line)
    requires Known(ps)
    ensures ParseFrom(ps, lines + [line]) == ParseLine(ParseFrom(ps, lines), line)
    decreases lines
  {
    if lines == [] {
      assert lines + [line] == [line];
      assert ParseFrom(ParseLine(ps, line), []) == ParseLine(ps, line);
    } else {
      assert (lines + [line])[1..] == lines[1..] + [line];
      ParseAppend(ParseLine(ps, lines[0]), lines[1..], line);
    }
  }

  lemma StackOne(stack: seq<string>, lines: seq<Line>, line: Line)
    ensures StackAfter(stack, lines + [line]) == StackStep(StackAfter(stack, lines), line)
  {
    StackAppend(stack, lines, [line]);
    var next := StackStep(StackAfter(stack, lines), line);
    assert StackAfter(next, []) == next;
  }

  /** The parser and the walkers are in the same node all the way down, exactly when no head has
      two labels. */
  lemma {:induction false} WalkersAgree(lines: seq<Line>)
    ensures (forall i | 0 <= i <= |lines| :: ParseFrom(Nothing, lines[..i]).stack == StackAfter([], lines[..i]))
            <==> forall line | line in lines :: OneLabelAtMost(line)
  {
    if lines == [] {
      assert lines[..0] == [];
    } else {
      var front, last := lines[..|lines| - 1], lines[|lines| - 1];
      assert lines == front + [last] && lines[..|lines|] == lines;
      WalkersAgree(front);
      forall i | 0 <= i <= |front| ensures lines[..i] == front[..i] {
      }
      assert front[..|front|] == front;
      ParseAppend(Nothing, front, last);
      StackOne([], front, last);
      StepsAgree(ParseFrom(Nothing, front), last);
      assert forall line :: line in lines <==> line in front || line == last;
      if forall line | line in lines :: OneLabelAtMost(line) {
        forall i | 0 <= i <= |lines| ensures ParseFrom(Nothing, lines[..i]).stack == StackAfter([], lines[..i]) {
          if i < |lines| {
            assert lines[..i] == front[..i];
          }
        }
      }
    }
  }

  lemma {:induction false} JoinTail(stack: seq<string>)
    requires |stack| >= 2
    ensures Join(stack) == stack[0] + "/" + Join(stack[1..])
    decreases |stack|
  {
    var front := stack[..|stack| - 1];
    assert stack[1..][..|stack| - 2] == front[1..];
    if |stack| > 2 {
      JoinTail(front);
      assert Join(stack) == Join(front) + ("/" + stack[|stack| - 1]);
    } else {
      assert front == [stack[0]] && stack[1..] == [stack[1]];
    }
  }

  /** The walkers' node path is the parser's key as a device tree path. */
  lemma PathsAgree(stack: seq<string>)
    requires stack != [] ==> stack[0] == "/"
    ensures NodePath(stack) == DtPath(Join(stack))
  {
    if |stack| >= 2 {
      JoinTail(stack);
    }
  }
}
