/** remap-phandles.py: a tree's phandle values replaced, node by node, by those of a reference tree. */
module RemapPhandles {
  import opened DeviceTree
  import opened Walker

  /** `line.strip().startswith("phandle = <")` */
  predicate IsPhandle(line: Line) {
    && line.statement.Property? && line.statement.key == PHANDLE
    && line.statement.value.Cells? && line.statement.value.groups != []
  }

  /** What stands between the first "<" and ">" of a phandle line. */
  function Inside(line: Line): seq<Cell>
    requires IsPhandle(line)
  {
    line.statement.value.groups[0]
  }

  /** node path -> phandle, the last one winning */
  function PhandleMap(stack: seq<string>, lines: seq<Line>): map<string, seq<Cell>>
    decreases lines
  {
    if lines == [] then map[]
    else
      var next := StackStep(stack, lines[0]);
      (if IsPhandle(lines[0]) then map[NodePath(next) := Inside(lines[0])] else map[])
      + PhandleMap(next, lines[1..])
  }

  /** Every group that is one number becomes `cells`. */
  function ReplaceNumbers(groups: seq<seq<Cell>>, cells: seq<Cell>): (r: seq<seq<Cell>>)
    ensures |r| == |groups|
  {
    if groups == [] then []
    else [if |groups[0]| == 1 && groups[0][0].Number? then cells else groups[0]] + ReplaceNumbers(groups[1..], cells)
  }

  function RemapLine(line: Line, node: string, reference: map<string, seq<Cell>>): Line {
    if IsPhandle(line) && node in reference then
      var groups := ReplaceNumbers(line.statement.value.groups, reference[node]);
      line.(statement := Property(PHANDLE, Cells(groups)))
    else line
  }

  function RemapFrom(stack: seq<string>, lines: seq<Line>, reference: map<string, seq<Cell>>): (out: seq<Line>)
    ensures |out| == |lines|
    decreases lines
  {
    if lines == [] then []
    else
      var next := StackStep(stack, lines[0]);
      [RemapLine(lines[0], NodePath(next), reference)] + RemapFrom(next, lines[1..], reference)
  }

  function Remap(reference: seq<Line>, target: seq<Line>): seq<Line> {
    RemapFrom([], target, PhandleMap([], reference))
  }

  /** `phandles` */
  method Phandles(lines: seq<Line>) returns (out: map<string, seq<Cell>>)
    ensures out == PhandleMap([], lines)
  {
    var stack: seq<string> := [];
    out := map[];
    for i := 0 to |lines|
      invariant out + PhandleMap(stack, lines[i..]) == PhandleMap([], lines)
    {
      assert lines[i..][0] == lines[i] && lines[i..][1..] == lines[i + 1..];
      ghost var rest := PhandleMap(StackStep(stack, lines[i]), lines[i + 1..]);
      stack := StackStep(stack, lines[i]);
      if IsPhandle(lines[i]) {
        SumOne(out, NodePath(stack), Inside(lines[i]), rest);
        out := out[NodePath(stack) := Inside(lines[i])];
      } else {
        assert map[] + rest == rest;
      }
    }
    assert out + map[] == out;
  }

  lemma SumOne(m: map<string, seq<Cell>>, key: string, value: seq<Cell>, rest: map<string, seq<Cell>>)
    ensures m[key := value] + rest == m + (map[key := value] + rest)
  {
  }

  /** The last phandle line of a node is the one that counts. */
  lemma {:induction false} LastPhandle(stack: seq<string>, lines: seq<Line>, i: nat)
    requires i < |lines| && IsPhandle(lines[i])
    requires forall j | i < j < |lines| && IsPhandle(lines[j]) :: Walk(stack, lines)[j] != Walk(stack, lines)[i]
    ensures Walk(stack, lines)[i] in PhandleMap(stack, lines)
    ensures PhandleMap(stack, lines)[Walk(stack, lines)[i]] == lines[i].statement.value.groups[0]
    decreases lines
  {
    var next := StackStep(stack, lines[0]);
    if i > 0 {
      forall j | i - 1 < j < |lines[1..]| && IsPhandle(lines[1..][j])
        ensures Walk(next, lines[1..])[j] != Walk(next, lines[1..])[i - 1]
      {
        assert lines[1..][j] == lines[j + 1] && Walk(stack, lines)[j + 1] == Walk(next, lines[1..])[j];
      }
      LastPhandle(next, lines[1..], i - 1);
    } else {
      NoLaterPhandle(next, lines[1..], NodePath(next));
    }
  }

  lemma {:induction false} NoLaterPhandle(stack: seq<string>, lines: seq<Line>, node: string)
    requires forall j | 0 <= j < |lines| && IsPhandle(lines[j]) :: Walk(stack, lines)[j] != node
    ensures node !in PhandleMap(stack, lines)
    decreases lines
  {
    if lines != [] {
      var next := StackStep(stack, lines[0]);
      assert IsPhandle(lines[0]) ==> Walk(stack, lines)[0] != node;
      forall j | 0 <= j < |lines[1..]| && IsPhandle(lines[1..][j]) ensures Walk(next, lines[1..])[j] != node {
        assert lines[1..][j] == lines[j + 1] && Walk(stack, lines)[j + 1] == Walk(next, lines[1..])[j];
      }
      NoLaterPhandle(next, lines[1..], node);
    }
  }

  /** The nodes that have a phandle line here and none in the reference, line by line. */
  function Unmapped(stack: seq<string>, lines: seq<Line>, reference: map<string, seq<Cell>>): seq<string>
    decreases lines
  {
    if lines == [] then []
    else
      var next := StackStep(stack, lines[0]);
      UnmappedAt(lines[0], NodePath(next), reference) + Unmapped(next, lines[1..], reference)
  }

  lemma {:induction false} UnmappedAre(stack: seq<string>, lines: seq<Line>, reference: map<string, seq<Cell>>, node: string)
    ensures node in Unmapped(stack, lines, reference)
            <==> exists i | 0 <= i < |lines| :: IsPhandle(lines[i]) && Walk(stack, lines)[i] == node && node !in reference
    decreases lines
  {
    if lines != [] {
      var next := StackStep(stack, lines[0]);
      UnmappedAre(next, lines[1..], reference, node);
      if i :| 0 <= i < |lines| && IsPhandle(lines[i]) && Walk(stack, lines)[i] == node && node !in reference {
        if i > 0 {
          assert IsPhandle(lines[1..][i - 1]) && Walk(next, lines[1..])[i - 1] == node;
        }
      }
      if j :| 0 <= j < |lines[1..]| && IsPhandle(lines[1..][j]) && Walk(next, lines[1..])[j] == node && node !in reference {
        assert IsPhandle(lines[j + 1]) && Walk(stack, lines)[j + 1] == node;
      }
      if IsPhandle(lines[0]) && NodePath(next) == node {
        assert Walk(stack, lines)[0] == node;
      }
    }
  }

  /** What is reported on a line: its node, if the reference gives it no phandle. */
  function UnmappedAt(line: Line, node: string, reference: map<string, seq<Cell>>): seq<string> {
    if IsPhandle(line) && node !in reference then [node] else []
  }

  lemma RemapStep(stack: seq<string>, lines: seq<Line>, i: nat, reference: map<string, seq<Cell>>)
    requires i < |lines|
    ensures var next := StackStep(stack, lines[i]);
            && RemapFrom(stack, lines[i..], reference)
               == [RemapLine(lines[i], NodePath(next), reference)] + RemapFrom(next, lines[i + 1..], reference)
            && Unmapped(stack, lines[i..], reference)
               == UnmappedAt(lines[i], NodePath(next), reference) + Unmapped(next, lines[i + 1..], reference)
  {
    assert lines[i..][0] == lines[i] && lines[i..][1..] == lines[i + 1..];
  }

  lemma Regrouped<T>(a: seq<T>, b: seq<T>, c: seq<T>)
    ensures a + b + c == a + (b + c)
  {
  }

  /** `main`: the remapped text, and the nodes that have a phandle in the target alone. */
  method RemapTree(reference: seq<Line>, target: seq<Line>) returns (out: seq<Line>, unmapped: seq<string>)
    ensures out == Remap(reference, target)
    ensures unmapped == Unmapped([], target, PhandleMap([], reference))
  {
    var ref := Phandles(reference);
    var stack: seq<string> := [];
    out, unmapped := [], [];
    for i := 0 to |target|
      invariant out + RemapFrom(stack, target[i..], ref) == Remap(reference, target)
      invariant unmapped + Unmapped(stack, target[i..], ref) == Unmapped([], target, ref)
    {
      RemapStep(stack, target, i, ref);
      stack := StackStep(stack, target[i]);
      var line, report := RemapLine(target[i], NodePath(stack), ref), UnmappedAt(target[i], NodePath(stack), ref);
      Regrouped(out, [line], RemapFrom(stack, target[i + 1..], ref));
      Regrouped(unmapped, report, Unmapped(stack, target[i + 1..], ref));
      out, unmapped := out + [line], unmapped + report;
    }
  }
}
