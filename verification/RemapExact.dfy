/** What comparing the remapped text with the reference decides. */
module RemapExact {
  import opened DeviceTree
  import opened Walker
  import opened RemapPhandles

  /** A phandle line with its value blotted out. */
  function EraseLine(line: Line): Line {
    if IsPhandle(line) then line.(statement := Property(PHANDLE, Cells([[Number(0)]]))) else line
  }

  function Erase(lines: seq<Line>): seq<Line> {
    seq(|lines|, i requires 0 <= i < |lines| => EraseLine(lines[i]))
  }

  /** `phandle = <n>;`, as the decompiler prints it */
  predicate Plain(line: Line) {
    IsPhandle(line) ==>
      var groups := line.statement.value.groups;
      |groups| == 1 && |groups[0]| == 1 && groups[0][0].Number?
  }

  ghost predicate PlainPhandles(lines: seq<Line>) {
    forall i | 0 <= i < |lines| :: Plain(lines[i])
  }

  /** No node is given two phandles. */
  ghost predicate SingleValued(lines: seq<Line>) {
    forall i, j | 0 <= i < |lines| && 0 <= j < |lines| && IsPhandle(lines[i]) && IsPhandle(lines[j])
                  && Walk([], lines)[i] == Walk([], lines)[j] ::
      Inside(lines[i]) == Inside(lines[j])
  }

  lemma {:induction false} RemapAt(stack: seq<string>, lines: seq<Line>, reference: map<string, seq<Cell>>, i: nat)
    requires i < |lines|
    ensures RemapFrom(stack, lines, reference)[i] == RemapLine(lines[i], Walk(stack, lines)[i], reference)
    decreases lines
  {
    if i > 0 {
      RemapAt(StackStep(stack, lines[0]), lines[1..], reference, i - 1);
    }
  }

  /** A group once remapped: the node's phandle for a number, else as it was. */
  predicate GroupRemapped(before: seq<Cell>, after: seq<Cell>, own: seq<Cell>) {
    after == if |before| == 1 && before[0].Number? then own else before
  }

  lemma {:induction false} GroupsRemapped(groups: seq<seq<Cell>>, own: seq<Cell>, g: nat)
    requires g < |groups|
    ensures GroupRemapped(groups[g], ReplaceNumbers(groups, own)[g], own)
  {
    if g > 0 {
      GroupsRemapped(groups[1..], own, g - 1);
    }
  }

  /**
   What becomes of every line: a phandle of a node that the reference gives one takes its value, in each group
   that is a number; every other line, with the phandle of a node the reference gives none, is kept.
   */
  lemma RemappedLine(reference: seq<Line>, target: seq<Line>, i: nat)
    requires i < |target|
    ensures var before, after, node := target[i], Remap(reference, target)[i], Walk([], target)[i];
            var filed := PhandleMap([], reference);
            if before.statement.Property? && before.statement.key == "phandle" && before.statement.value.Cells?
               && before.statement.value.groups != [] && node in filed
            then
              && after.indent == before.indent && after.statement.Property? && after.statement.key == "phandle"
              && after.statement.value.Cells? && |after.statement.value.groups| == |before.statement.value.groups|
              && forall g | 0 <= g < |before.statement.value.groups| ::
                   GroupRemapped(before.statement.value.groups[g], after.statement.value.groups[g], filed[node])
            else after == before
  {
    RemapAt([], target, PhandleMap([], reference), i);
    if IsPhandle(target[i]) && Walk([], target)[i] in PhandleMap([], reference) {
      forall g | 0 <= g < |target[i].statement.value.groups|
        ensures GroupRemapped(target[i].statement.value.groups[g], Remap(reference, target)[i].statement.value.groups[g],
                              PhandleMap([], reference)[Walk([], target)[i]])
      {
        GroupsRemapped(target[i].statement.value.groups, PhandleMap([], reference)[Walk([], target)[i]], g);
      }
    }
  }

  lemma {:induction false} WalkErase(stack: seq<string>, lines: seq<Line>)
    ensures Walk(stack, Erase(lines)) == Walk(stack, lines)
    ensures StackAfter(stack, Erase(lines)) == StackAfter(stack, lines)
    decreases lines
  {
    if lines != [] {
      assert Erase(lines)[1..] == Erase(lines[1..]);
      WalkErase(StackStep(stack, lines[0]), lines[1..]);
    }
  }

  /** Remapping changes phandle values only. */
  lemma EraseRemap(stack: seq<string>, lines: seq<Line>, reference: map<string, seq<Cell>>)
    ensures Erase(RemapFrom(stack, lines, reference)) == Erase(lines)
  {
    forall i | 0 <= i < |lines|
      ensures EraseLine(RemapFrom(stack, lines, reference)[i]) == EraseLine(lines[i])
    {
      RemapAt(stack, lines, reference, i);
    }
  }

  /** The phandle filed for a line's node comes from a line in the same node. */
  lemma {:induction false} PhandleSource(stack: seq<string>, lines: seq<Line>, i: nat) returns (j: nat)
    requires i < |lines| && IsPhandle(lines[i])
    ensures Walk(stack, lines)[i] in PhandleMap(stack, lines)
    ensures j < |lines| && IsPhandle(lines[j]) && Walk(stack, lines)[j] == Walk(stack, lines)[i]
    ensures PhandleMap(stack, lines)[Walk(stack, lines)[i]] == Inside(lines[j])
    decreases lines
  {
    var next := StackStep(stack, lines[0]);
    var node := Walk(stack, lines)[i];
    if i > 0 {
      var k := PhandleSource(next, lines[1..], i - 1);
      j := k + 1;
    } else if node in PhandleMap(next, lines[1..]) {
      var k := FiledBy(next, lines[1..], node);
      j := k + 1;
    } else {
      j := 0;
    }
  }

  lemma {:induction false} FiledBy(stack: seq<string>, lines: seq<Line>, node: string) returns (j: nat)
    requires node in PhandleMap(stack, lines)
    ensures j < |lines| && IsPhandle(lines[j]) && Walk(stack, lines)[j] == node
    ensures PhandleMap(stack, lines)[node] == Inside(lines[j])
    decreases lines
  {
    var next := StackStep(stack, lines[0]);
    if node in PhandleMap(next, lines[1..]) {
      var k := FiledBy(next, lines[1..], node);
      j := k + 1;
    } else {
      j := 0;
    }
  }

  /** On lines that agree but for their values, remapping gives the reference's own. */
  lemma LineRestored(reference: seq<Line>, target: seq<Line>, i: nat)
    requires PlainPhandles(reference) && PlainPhandles(target) && SingleValued(reference)
    requires Erase(reference) == Erase(target) && i < |target|
    ensures |reference| == |target| && Remap(reference, target)[i] == reference[i]
  {
    assert |Erase(reference)| == |Erase(target)|;
    assert EraseLine(reference[i]) == Erase(reference)[i] == Erase(target)[i] == EraseLine(target[i]);
    RemapAt([], target, PhandleMap([], reference), i);
    WalkErase([], reference);
    WalkErase([], target);
    if IsPhandle(target[i]) {
      var j := PhandleSource([], reference, i);
      assert Inside(reference[j]) == Inside(reference[i]);
      var groups := reference[i].statement.value.groups;
      assert groups == [Inside(reference[i])];
      assert target[i].statement.value.groups == [Inside(target[i])];
      assert ReplaceNumbers([Inside(target[i])], Inside(reference[i])) == groups;
    }
  }

  /** What a text remapped to itself keeps is the phandle filed for each node. */
  lemma RestoredIsFiled(reference: seq<Line>, i: nat)
    requires PlainPhandles(reference) && Remap(reference, reference) == reference
    requires i < |reference| && IsPhandle(reference[i])
    ensures var filed, node := PhandleMap([], reference), Walk([], reference)[i];
            node in filed && filed[node] == Inside(reference[i])
  {
    var j := PhandleSource([], reference, i);
    RemapAt([], reference, PhandleMap([], reference), i);
    assert Plain(reference[i]);
    var groups := reference[i].statement.value.groups;
    var own := PhandleMap([], reference)[Walk([], reference)[i]];
    assert groups == [Inside(reference[i])];
    assert ReplaceNumbers(groups, own) == [own];
  }

  /** A remapped text depends on the target only up to its phandle values. */
  lemma RemapSame(reference: seq<Line>, a: seq<Line>, b: seq<Line>)
    requires PlainPhandles(reference) && PlainPhandles(a) && PlainPhandles(b)
    requires Erase(a) == Erase(b) == Erase(reference)
    ensures Remap(reference, a) == Remap(reference, b)
  {
    assert |Erase(a)| == |Erase(b)| == |Erase(reference)|;
    WalkErase([], a);
    WalkErase([], b);
    WalkErase([], reference);
    var filed := PhandleMap([], reference);
    forall i | 0 <= i < |a| ensures Remap(reference, a)[i] == Remap(reference, b)[i] {
      assert EraseLine(a[i]) == Erase(a)[i] == Erase(b)[i] == EraseLine(b[i]);
      assert EraseLine(reference[i]) == Erase(reference)[i];
      RemapAt([], a, filed, i);
      RemapAt([], b, filed, i);
      if IsPhandle(a[i]) {
        var j := PhandleSource([], reference, i);
        assert a[i].statement.value.groups == [Inside(a[i])] && b[i].statement.value.groups == [Inside(b[i])];
        var own := filed[Walk([], a)[i]];
        assert ReplaceNumbers([Inside(a[i])], own) == [own] == ReplaceNumbers([Inside(b[i])], own);
      }
    }
  }

  /**
   The remapped tree equals the reference exactly when the two texts agree on everything but phandle
   values and no node of the reference has two phandles: whatever values the target's phandles have,
   the comparison does not see them.
   */
  lemma RemapEqualsReference(reference: seq<Line>, target: seq<Line>)
    requires PlainPhandles(reference) && PlainPhandles(target)
    ensures Remap(reference, target) == reference <==> Erase(reference) == Erase(target) && SingleValued(reference)
  {
    if Remap(reference, target) == reference {
      EraseRemap([], target, PhandleMap([], reference));
      RemapSame(reference, reference, target);
      forall i | 0 <= i < |reference| && IsPhandle(reference[i])
        ensures var filed, node := PhandleMap([], reference), Walk([], reference)[i];
                node in filed && filed[node] == Inside(reference[i])
      {
        RestoredIsFiled(reference, i);
      }
    }
    if Erase(reference) == Erase(target) && SingleValued(reference) {
      assert |Erase(reference)| == |Erase(target)|;
      forall i | 0 <= i < |target| ensures Remap(reference, target)[i] == reference[i] {
        LineRestored(reference, target, i);
      }
    }
  }
}
