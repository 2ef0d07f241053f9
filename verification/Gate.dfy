/**
 What the gate of upstream/build.sh decides: when check-refs finds nothing and the remapped native
 tree is the patched tree line for line, do the two texts describe the same hardware?
 */
module Gate {
  import opened Wrappers
  import opened DeviceTree
  import opened Walker
  import opened RemapPhandles
  import opened CheckRefs
  import opened RemapExact

  /** What a cell stands for: a number, or the node it refers to. */
  datatype Atom = Literal(n: nat) | Names(node: Option<string>)

  /** What a line says about the node at `path`. */
  datatype Fact =
    | HasPhandle(path: string)
    | HasCells(path: string, key: string, groups: seq<seq<Atom>>)
    | Says(path: string, statement: Statement)

  /**
   Which cells are references, however they are written: by the property's node and name, its group and
   cell. Neither the decompiler's `&` nor a bare number tells.
   */
  type References = (string, string, nat, nat) -> bool

  /** label -> node path, the last one winning */
  function LabelMap(stack: seq<string>, lines: seq<Line>): map<string, string>
    decreases lines
  {
    if lines == [] then map[]
    else
      var next := StackStep(stack, lines[0]);
      (if lines[0].statement.Open? then map l | l in lines[0].statement.labels :: NodePath(next) else map[])
      + LabelMap(next, lines[1..])
  }

  function Lookup<K>(m: map<K, string>, key: K): Option<string> {
    if key in m then Some(m[key]) else None
  }

  /** The node an `&` names. */
  function NodeOf(lines: seq<Line>, ref: Ref): Option<string> {
    match ref
    case ByLabel(l) => Lookup(LabelMap([], lines), l)
    case ByPath(p) => Some(p)
  }

  /** The phandle this text gives a node. */
  function Stored(lines: seq<Line>, node: Option<string>): Option<nat> {
    var filed := PhandleMap([], lines);
    if node.Some? && node.value in filed && |filed[node.value]| == 1 && filed[node.value][0].Number? then
      Some(filed[node.value][0].n)
    else None
  }

  /** An `&` in a place that holds no reference stands for the number it compiles to. */
  function AtomOf(lines: seq<Line>, isRef: bool, cell: Cell): Atom {
    match cell
    case Reference(ref) =>
      var node := NodeOf(lines, ref);
      if !isRef && Stored(lines, node).Some? then Literal(Stored(lines, node).value) else Names(node)
    case Number(n) => if isRef then Names(Lookup(OwnerMap([], lines), n)) else Literal(n)
  }

  function GroupAtoms(lines: seq<Line>, refs: References, path: string, key: string, g: nat, cells: seq<Cell>): seq<Atom> {
    seq(|cells|, c requires 0 <= c < |cells| => AtomOf(lines, refs(path, key, g, c), cells[c]))
  }

  function FactOf(lines: seq<Line>, refs: References, i: nat): Fact
    requires i < |lines|
  {
    var path := Walk([], lines)[i];
    if IsPhandle(lines[i]) then HasPhandle(path)
    else match lines[i].statement
      case Property(key, Cells(groups)) =>
        HasCells(path, key, seq(|groups|, g requires 0 <= g < |groups| =>
                                  GroupAtoms(lines, refs, path, key, g, groups[g])))
      case s => Says(path, s)
  }

  /** Everything the text says, line by line, with every reference replaced by what it names. */
  function Facts(lines: seq<Line>, refs: References): seq<Fact> {
    seq(|lines|, i requires 0 <= i < |lines| => FactOf(lines, refs, i))
  }

  // ---- references in two texts that agree but for phandle values ----------------------------------

  ghost predicate IsCell(lines: seq<Line>, i: nat, g: nat, c: nat) {
    && i < |lines| && !IsPhandle(lines[i]) && lines[i].statement.Property? && lines[i].statement.value.Cells?
    && g < |lines[i].statement.value.groups| && c < |lines[i].statement.value.groups[g]|
  }

  function CellAt(lines: seq<Line>, i: nat, g: nat, c: nat): Cell
    requires i < |lines| && lines[i].statement.Property? && lines[i].statement.value.Cells?
    requires g < |lines[i].statement.value.groups| && c < |lines[i].statement.value.groups[g]|
  {
    lines[i].statement.value.groups[g][c]
  }

  /** The cell is a reference. */
  ghost predicate Refers(lines: seq<Line>, refs: References, i: nat, g: nat, c: nat)
    requires IsCell(lines, i, g, c)
  {
    refs(Walk([], lines)[i], lines[i].statement.key, g, c)
  }

  /** A reference that is left a number. */
  ghost predicate IsNumericReference(lines: seq<Line>, refs: References, i: nat, g: nat, c: nat) {
    IsCell(lines, i, g, c) && CellAt(lines, i, g, c).Number? && Refers(lines, refs, i, g, c)
  }

  /** An `&` that is no reference. */
  ghost predicate IsNoReference(lines: seq<Line>, refs: References, i: nat, g: nat, c: nat) {
    IsCell(lines, i, g, c) && CellAt(lines, i, g, c).Reference? && !Refers(lines, refs, i, g, c)
  }

  /** And names a node with a phandle, from which it was made up. */
  ghost predicate IsInvented(lines: seq<Line>, refs: References, i: nat, g: nat, c: nat) {
    IsNoReference(lines, refs, i, g, c) && Stored(lines, NodeOf(lines, CellAt(lines, i, g, c).ref)).Some?
  }

  /** Every reference left as a number names the same node in both texts. */
  ghost predicate NumbersAgree(a: seq<Line>, b: seq<Line>, refs: References) {
    forall i, g, c | IsNumericReference(a, refs, i, g, c) ::
      Lookup(OwnerMap([], a), CellAt(a, i, g, c).n) == Lookup(OwnerMap([], b), CellAt(a, i, g, c).n)
  }

  /** Every `&` that is no reference compiles to the same number from both texts. */
  ghost predicate InventionsAgree(a: seq<Line>, b: seq<Line>, refs: References) {
    forall i, g, c | IsNoReference(a, refs, i, g, c) ::
      Stored(a, NodeOf(a, CellAt(a, i, g, c).ref)) == Stored(b, NodeOf(a, CellAt(a, i, g, c).ref))
  }

  lemma {:induction false} LabelErase(stack: seq<string>, lines: seq<Line>)
    ensures LabelMap(stack, Erase(lines)) == LabelMap(stack, lines)
    decreases lines
  {
    if lines != [] {
      assert Erase(lines)[1..] == Erase(lines[1..]);
      assert Erase(lines)[0] == EraseLine(lines[0]);
      LabelErase(StackStep(stack, lines[0]), lines[1..]);
    }
  }

  lemma SameSkeleton(a: seq<Line>, b: seq<Line>)
    requires Erase(a) == Erase(b)
    ensures |a| == |b| && Walk([], a) == Walk([], b) && LabelMap([], a) == LabelMap([], b)
    ensures forall i | 0 <= i < |a| :: IsPhandle(a[i]) == IsPhandle(b[i]) && (!IsPhandle(a[i]) ==> a[i] == b[i])
  {
    assert |Erase(a)| == |Erase(b)|;
    WalkErase([], a);
    WalkErase([], b);
    LabelErase([], a);
    LabelErase([], b);
    forall i | 0 <= i < |a| ensures IsPhandle(a[i]) == IsPhandle(b[i]) && (!IsPhandle(a[i]) ==> a[i] == b[i]) {
      assert EraseLine(a[i]) == Erase(a)[i] == Erase(b)[i] == EraseLine(b[i]);
    }
  }

  lemma AtomFollows(a: seq<Line>, b: seq<Line>, refs: References, i: nat, g: nat, c: nat)
    requires Erase(a) == Erase(b) && NumbersAgree(a, b, refs) && InventionsAgree(a, b, refs) && IsCell(a, i, g, c)
    ensures AtomOf(a, Refers(a, refs, i, g, c), CellAt(a, i, g, c)) == AtomOf(b, Refers(a, refs, i, g, c), CellAt(a, i, g, c))
  {
    SameSkeleton(a, b);
    var cell := CellAt(a, i, g, c);
    assert cell.Reference? ==> NodeOf(a, cell.ref) == NodeOf(b, cell.ref);
    if Refers(a, refs, i, g, c) && cell.Number? {
      assert IsNumericReference(a, refs, i, g, c);
    }
    if !Refers(a, refs, i, g, c) && cell.Reference? {
      assert IsNoReference(a, refs, i, g, c);
    }
  }

  lemma FactsFollow(a: seq<Line>, b: seq<Line>, refs: References, i: nat)
    requires Erase(a) == Erase(b) && i < |a|
    requires NumbersAgree(a, b, refs) && InventionsAgree(a, b, refs)
    ensures |a| == |b| && FactOf(a, refs, i) == FactOf(b, refs, i)
  {
    SameSkeleton(a, b);
    if !IsPhandle(a[i]) && a[i].statement.Property? && a[i].statement.value.Cells? {
      var path, key, groups := Walk([], a)[i], a[i].statement.key, a[i].statement.value.groups;
      forall g | 0 <= g < |groups|
        ensures GroupAtoms(a, refs, path, key, g, groups[g]) == GroupAtoms(b, refs, path, key, g, groups[g])
      {
        forall c | 0 <= c < |groups[g]|
          ensures AtomOf(a, refs(path, key, g, c), groups[g][c]) == AtomOf(b, refs(path, key, g, c), groups[g][c])
        {
          AtomFollows(a, b, refs, i, g, c);
        }
      }
    }
  }

  lemma AtomsFollow(a: seq<Line>, b: seq<Line>, refs: References, i: nat, g: nat, c: nat)
    requires Erase(a) == Erase(b) && Facts(a, refs) == Facts(b, refs) && IsCell(a, i, g, c)
    ensures AtomOf(a, Refers(a, refs, i, g, c), CellAt(a, i, g, c)) == AtomOf(b, Refers(a, refs, i, g, c), CellAt(a, i, g, c))
  {
    SameSkeleton(a, b);
    var path, key := Walk([], a)[i], a[i].statement.key;
    assert Facts(a, refs)[i] == FactOf(a, refs, i) && Facts(b, refs)[i] == FactOf(b, refs, i);
    assert FactOf(a, refs, i).groups[g] == GroupAtoms(a, refs, path, key, g, a[i].statement.value.groups[g]);
    assert FactOf(b, refs, i).groups[g] == GroupAtoms(b, refs, path, key, g, a[i].statement.value.groups[g]);
    assert FactOf(a, refs, i).groups[g][c] == FactOf(b, refs, i).groups[g][c];
  }

  lemma NumbersFollow(a: seq<Line>, b: seq<Line>, refs: References, i: nat, g: nat, c: nat)
    requires Erase(a) == Erase(b) && Facts(a, refs) == Facts(b, refs)
    requires IsNumericReference(a, refs, i, g, c)
    ensures Lookup(OwnerMap([], a), CellAt(a, i, g, c).n) == Lookup(OwnerMap([], b), CellAt(a, i, g, c).n)
  {
    AtomsFollow(a, b, refs, i, g, c);
  }

  lemma InventionsFollow(a: seq<Line>, b: seq<Line>, refs: References, i: nat, g: nat, c: nat)
    requires Erase(a) == Erase(b) && Facts(a, refs) == Facts(b, refs)
    requires IsNoReference(a, refs, i, g, c)
    ensures Stored(a, NodeOf(a, CellAt(a, i, g, c).ref)) == Stored(b, NodeOf(a, CellAt(a, i, g, c).ref))
  {
    AtomsFollow(a, b, refs, i, g, c);
    SameSkeleton(a, b);
    assert NodeOf(a, CellAt(a, i, g, c).ref) == NodeOf(b, CellAt(a, i, g, c).ref);
  }

  /**
   Two texts that agree but for phandle values say the same exactly when every reference left as a number
   names the same node in both, and every `&` that is no reference compiles to the same number.
   */
  lemma SameTextSameMeaning(a: seq<Line>, b: seq<Line>, refs: References)
    requires Erase(a) == Erase(b)
    ensures Facts(a, refs) == Facts(b, refs) <==> NumbersAgree(a, b, refs) && InventionsAgree(a, b, refs)
  {
    SameSkeleton(a, b);
    if NumbersAgree(a, b, refs) && InventionsAgree(a, b, refs) {
      forall i | 0 <= i < |a| ensures FactOf(a, refs, i) == FactOf(b, refs, i) {
        FactsFollow(a, b, refs, i);
      }
    }
    if Facts(a, refs) == Facts(b, refs) {
      forall i, g, c | IsNumericReference(a, refs, i, g, c)
        ensures Lookup(OwnerMap([], a), CellAt(a, i, g, c).n) == Lookup(OwnerMap([], b), CellAt(a, i, g, c).n)
      {
        NumbersFollow(a, b, refs, i, g, c);
      }
      forall i, g, c | IsNoReference(a, refs, i, g, c)
        ensures Stored(a, NodeOf(a, CellAt(a, i, g, c).ref)) == Stored(b, NodeOf(a, CellAt(a, i, g, c).ref))
      {
        InventionsFollow(a, b, refs, i, g, c);
      }
    }
  }

  /** The gate: check-refs exits 0 and diff finds nothing. */
  ghost predicate Verified(patched: seq<Line>, native: seq<Line>) {
    Clean([patched, native]) && Remap(patched, native) == patched
  }

  /** check-refs can see this line: one group of cells, no `&` in it, a name written with `&` somewhere. */
  ghost predicate Seen(line: Line, files: seq<seq<Line>>) {
    OneGroup(line) && !HasReference(Group(line)) && line.statement.key in SymbolicNames(files)
  }

  /** Every reference left a number stands where check-refs can see it. */
  ghost predicate Visible(lines: seq<Line>, files: seq<seq<Line>>, refs: References) {
    forall i: nat, g: nat, c: nat | IsNumericReference(lines, refs, i, g, c) :: Seen(lines[i], files)
  }

  /** Once check-refs passes, being able to see every numeric reference means that there is none. */
  lemma CleanAndVisible(files: seq<seq<Line>>, f: nat, refs: References)
    requires Clean(files) && f < |files|
    ensures Visible(files[f], files, refs) <==> !exists i, g, c :: IsNumericReference(files[f], refs, i, g, c)
  {
    forall i: nat, g: nat, c: nat | IsNumericReference(files[f], refs, i, g, c) ensures !Seen(files[f][i], files) {
      assert !LeftNumeric(files[f][i], SymbolicNames(files));
    }
  }

  /**
   What VERIFIED leaves open once check-refs can see every reference that is left a number: the two texts
   say the same exactly when every `&` that is no reference compiles to the same number from both.
   */
  lemma VerifiedIsSound(patched: seq<Line>, native: seq<Line>, refs: References)
    requires Verified(patched, native) && Visible(patched, [patched, native], refs)
    ensures Facts(patched, refs) == Facts(native, refs) <==> InventionsAgree(patched, native, refs)
  {
    EraseRemap([], native, PhandleMap([], patched));
    CleanAndVisible([patched, native], 0, refs);
    SameTextSameMeaning(patched, native, refs);
  }

  // ---- the two phandle maps -----------------------------------------------------------------------

  lemma {:induction false} OwnerSource(stack: seq<string>, lines: seq<Line>, n: nat) returns (j: nat)
    requires n in OwnerMap(stack, lines)
    ensures j < |lines| && IsPhandle(lines[j]) && Inside(lines[j]) == [Number(n)]
    ensures OwnerMap(stack, lines)[n] == Walk(stack, lines)[j]
    decreases lines
  {
    var next := StackStep(stack, lines[0]);
    if n in OwnerMap(next, lines[1..]) {
      var k := OwnerSource(next, lines[1..], n);
      j := k + 1;
    } else {
      j := 0;
    }
  }

  lemma {:induction false} OwnerFiled(stack: seq<string>, lines: seq<Line>, i: nat, n: nat)
    requires i < |lines| && IsPhandle(lines[i]) && Inside(lines[i]) == [Number(n)]
    ensures n in OwnerMap(stack, lines)
    decreases lines
  {
    if i > 0 {
      OwnerFiled(StackStep(stack, lines[0]), lines[1..], i - 1, n);
    }
  }

  /** No two nodes have the same phandle. */
  ghost predicate DistinctPhandles(lines: seq<Line>) {
    forall i, j | 0 <= i < |lines| && 0 <= j < |lines| && IsPhandle(lines[i]) && IsPhandle(lines[j])
                  && Inside(lines[i]) == Inside(lines[j]) ::
      Walk([], lines)[i] == Walk([], lines)[j]
  }

  /** check-refs' map from phandles to nodes is the inverse of remap-phandles' map from nodes to phandles. */
  lemma MapsInverse(lines: seq<Line>, node: string, n: nat)
    requires PlainPhandles(lines) && SingleValued(lines) && DistinctPhandles(lines)
    ensures (n in OwnerMap([], lines) && OwnerMap([], lines)[n] == node)
            <==> node in PhandleMap([], lines) && PhandleMap([], lines)[node] == [Number(n)]
  {
    if n in OwnerMap([], lines) && OwnerMap([], lines)[n] == node {
      var j := OwnerSource([], lines, n);
      var k := PhandleSource([], lines, j);
    }
    if node in PhandleMap([], lines) && PhandleMap([], lines)[node] == [Number(n)] {
      var j := FiledBy([], lines, node);
      OwnerFiled([], lines, j, n);
      var k := OwnerSource([], lines, n);
    }
  }

  // ---- what the gate does not see -----------------------------------------------------------------

  /** check-refs asks the same of two lines that agree but for a phandle's value. */
  predicate SameToCheck(a: Line, b: Line) {
    && (OneGroup(a) <==> OneGroup(b))
    && (OneGroup(a) ==> a.statement.key == b.statement.key && (HasReference(Group(a)) <==> HasReference(Group(b))))
  }

  lemma ErasedSameToCheck(a: Line, b: Line)
    requires Plain(a) && Plain(b) && EraseLine(a) == EraseLine(b)
    ensures SameToCheck(a, b)
  {
    if IsPhandle(a) {
      assert a.statement.value.groups[0] == [a.statement.value.groups[0][0]];
      assert b.statement.value.groups[0] == [b.statement.value.groups[0][0]];
    }
  }

  lemma SameNames(a: seq<Line>, b: seq<Line>)
    requires |a| == |b| && forall i | 0 <= i < |a| :: SameToCheck(a[i], b[i])
    ensures SymbolicNames([a, b]) == SymbolicNames([a])
  {
    var two, one := [a, b], [a];
    forall name | name in SymbolicNames(two) ensures name in SymbolicNames(one) {
      var f, i :| 0 <= f < |two| && 0 <= i < |two[f]| && Symbolically(two[f][i]) && two[f][i].statement.key == name;
      assert SameToCheck(a[i], b[i]);
      assert Symbolically(one[0][i]) && one[0][i].statement.key == name;
    }
    forall name | name in SymbolicNames(one) ensures name in SymbolicNames(two) {
      var i :| 0 <= i < |a| && Symbolically(a[i]) && a[i].statement.key == name;
      assert Symbolically(two[0][i]) && two[0][i].statement.key == name;
    }
  }

  /** On texts that agree but for phandle values check-refs finds what it finds in one of them. */
  lemma CleanOnce(a: seq<Line>, b: seq<Line>)
    requires PlainPhandles(a) && PlainPhandles(b) && Erase(a) == Erase(b)
    ensures Clean([a, b]) <==> Clean([a])
  {
    assert |Erase(a)| == |Erase(b)|;
    forall i | 0 <= i < |a| ensures SameToCheck(a[i], b[i]) {
      assert EraseLine(a[i]) == Erase(a)[i] == Erase(b)[i] == EraseLine(b[i]);
      ErasedSameToCheck(a[i], b[i]);
    }
    SameNames(a, b);
    var names := SymbolicNames([a]);
    if Clean([a]) {
      forall f, i | 0 <= f < 2 && 0 <= i < |[a, b][f]| ensures !LeftNumeric([a, b][f][i], names) {
        assert SameToCheck(a[i], b[i]) && !LeftNumeric([a][0][i], names);
      }
    }
    if Clean([a, b]) {
      forall f, i | 0 <= f < 1 && 0 <= i < |[a][f]| ensures !LeftNumeric([a][f][i], names) {
        assert !LeftNumeric([a, b][0][i], names);
      }
    }
  }

  function RenumberLine(line: Line, f: nat -> nat): Line
    requires Plain(line)
  {
    if IsPhandle(line) then line.(statement := Property(PHANDLE, Cells([[Number(f(Inside(line)[0].n))]]))) else line
  }

  /** The same text as a compile that allocates other phandles would print it. */
  ghost function Renumbered(lines: seq<Line>, f: nat -> nat): seq<Line>
    requires PlainPhandles(lines)
  {
    seq(|lines|, i requires 0 <= i < |lines| => RenumberLine(lines[i], f))
  }

  lemma RenumberErases(lines: seq<Line>, f: nat -> nat)
    requires PlainPhandles(lines)
    ensures PlainPhandles(Renumbered(lines, f)) && Erase(Renumbered(lines, f)) == Erase(lines)
  {
    var out := Renumbered(lines, f);
    forall i | 0 <= i < |lines| ensures Plain(out[i]) && EraseLine(out[i]) == EraseLine(lines[i]) {
      assert out[i] == RenumberLine(lines[i], f);
    }
  }

  lemma RenumberedInside(line: Line, f: nat -> nat)
    requires Plain(line) && IsPhandle(line)
    ensures IsPhandle(RenumberLine(line, f)) && Inside(RenumberLine(line, f)) == [Number(f(Inside(line)[0].n))]
  {
  }

  ghost predicate OneToOne(f: nat -> nat) {
    forall x, y | f(x) == f(y) :: x == y
  }

  lemma RenumberDistinct(lines: seq<Line>, f: nat -> nat)
    requires PlainPhandles(lines) && DistinctPhandles(lines) && OneToOne(f)
    ensures DistinctPhandles(Renumbered(lines, f))
  {
    var out := Renumbered(lines, f);
    RenumberErases(lines, f);
    SameSkeleton(lines, out);
    forall i, j | 0 <= i < |out| && 0 <= j < |out| && IsPhandle(out[i]) && IsPhandle(out[j])
                  && Inside(out[i]) == Inside(out[j])
      ensures Walk([], out)[i] == Walk([], out)[j]
    {
      RenumberedInside(lines[i], f);
      RenumberedInside(lines[j], f);
      assert Inside(out[i])[0] == Inside(out[j])[0];
      assert Inside(lines[i]) == Inside(lines[j]);
    }
  }

  /** What stands for a node stands for none when every phandle is moved past it. */
  lemma RenumberLoses(lines: seq<Line>, n: nat, f: nat -> nat)
    requires PlainPhandles(lines) && forall x: nat :: f(x) > n
    ensures n !in OwnerMap([], Renumbered(lines, f))
  {
    var out := Renumbered(lines, f);
    forall j | 0 <= j < |out| && IsPhandle(out[j]) ensures Inside(out[j]) != [Number(n)] {
      assert Plain(lines[j]);
      RenumberedInside(lines[j], f);
    }
    if n in OwnerMap([], out) {
      var j := OwnerSource([], out, n);
    }
  }

  /** And what stands for none stands for a node when a phandle is moved onto it. */
  lemma RenumberGains(lines: seq<Line>, n: nat, f: nat -> nat, k: nat)
    requires PlainPhandles(lines) && k < |lines| && IsPhandle(lines[k]) && f(Inside(lines[k])[0].n) == n
    ensures n in OwnerMap([], Renumbered(lines, f))
  {
    assert Plain(lines[k]);
    RenumberedInside(lines[k], f);
    OwnerFiled([], Renumbered(lines, f), k, n);
  }

  lemma RenumberVerified(patched: seq<Line>, f: nat -> nat)
    requires PlainPhandles(patched) && SingleValued(patched) && Clean([patched])
    ensures Verified(patched, Renumbered(patched, f))
  {
    RenumberErases(patched, f);
    CleanOnce(patched, Renumbered(patched, f));
    RemapEqualsReference(patched, Renumbered(patched, f));
  }

  lemma OwnerChanged(a: seq<Line>, b: seq<Line>, refs: References, i: nat, g: nat, c: nat, n: nat)
    requires Erase(a) == Erase(b) && IsNumericReference(a, refs, i, g, c) && CellAt(a, i, g, c) == Number(n)
    requires n in OwnerMap([], a) <==> n !in OwnerMap([], b)
    ensures Facts(a, refs) != Facts(b, refs)
  {
    if Facts(a, refs) == Facts(b, refs) {
      NumbersFollow(a, b, refs, i, g, c);
    }
  }

  lemma StoredChanged(a: seq<Line>, b: seq<Line>, refs: References, i: nat, g: nat, c: nat, ref: Ref)
    requires Erase(a) == Erase(b) && IsNoReference(a, refs, i, g, c) && CellAt(a, i, g, c) == Reference(ref)
    requires Stored(a, NodeOf(a, ref)) != Stored(b, NodeOf(b, ref))
    ensures Facts(a, refs) != Facts(b, refs)
  {
    SameSkeleton(a, b);
    if Facts(a, refs) == Facts(b, refs) {
      InventionsFollow(a, b, refs, i, g, c);
    }
  }

  /** Phandles that take a node away from `n`, or give it the one that has `v`. */
  function Upset(n: nat, v: Option<nat>): nat -> nat {
    x => if v == Some(x) then n else x + n + 1
  }

  lemma UpsetOneToOne(n: nat, v: Option<nat>)
    ensures OneToOne(Upset(n, v))
  {
  }

  lemma NumbersBetray(patched: seq<Line>, refs: References, i: nat, g: nat, c: nat, n: nat, k: nat) returns (v: Option<nat>)
    requires PlainPhandles(patched) && k < |patched| && IsPhandle(patched[k])
    requires IsNumericReference(patched, refs, i, g, c) && CellAt(patched, i, g, c) == Number(n)
    ensures Facts(patched, refs) != Facts(Renumbered(patched, Upset(n, v)), refs)
  {
    assert Plain(patched[k]);
    if n in OwnerMap([], patched) {
      v := None;
      RenumberLoses(patched, n, Upset(n, v));
    } else {
      v := Some(Inside(patched[k])[0].n);
      RenumberGains(patched, n, Upset(n, v), k);
    }
    RenumberErases(patched, Upset(n, v));
    OwnerChanged(patched, Renumbered(patched, Upset(n, v)), refs, i, g, c, n);
  }

  /** The trees the gate passes beside this one, no worse allocated. */
  ghost predicate Passes(patched: seq<Line>, native: seq<Line>) {
    PlainPhandles(native) && Verified(patched, native) && (DistinctPhandles(patched) ==> DistinctPhandles(native))
  }

  ghost predicate HasPhandles(lines: seq<Line>) {
    exists k | 0 <= k < |lines| :: IsPhandle(lines[k])
  }

  /** The phandle a node has is renumbered with the others. */
  lemma RenumberedStored(lines: seq<Line>, f: nat -> nat, node: string, n: nat)
    requires PlainPhandles(lines) && SingleValued(lines) && Stored(lines, Some(node)) == Some(n)
    ensures Stored(Renumbered(lines, f), Some(node)) == Some(f(n))
  {
    var out := Renumbered(lines, f);
    var i := FiledBy([], lines, node);
    RenumberErases(lines, f);
    SameSkeleton(lines, out);
    RenumberedInside(lines[i], f);
    var j := PhandleSource([], out, i);
    assert Inside(lines[j]) == Inside(lines[i]);
    assert Plain(lines[j]);
    RenumberedInside(lines[j], f);
  }

  /** Some reference is left a number, or some `&` is made up. */
  ghost predicate Misread(lines: seq<Line>, refs: References) {
    || (exists i, g, c :: IsNumericReference(lines, refs, i, g, c))
    || (exists i, g, c :: IsInvented(lines, refs, i, g, c))
  }

  lemma NumberBetrayed(patched: seq<Line>, refs: References) returns (f: nat -> nat)
    requires PlainPhandles(patched) && HasPhandles(patched)
    requires exists i, g, c :: IsNumericReference(patched, refs, i, g, c)
    ensures OneToOne(f) && Facts(patched, refs) != Facts(Renumbered(patched, f), refs)
  {
    var i: nat, g: nat, c: nat :| IsNumericReference(patched, refs, i, g, c);
    var k :| 0 <= k < |patched| && IsPhandle(patched[k]);
    var n := CellAt(patched, i, g, c).n;
    var v := NumbersBetray(patched, refs, i, g, c, n, k);
    f := Upset(n, v);
    UpsetOneToOne(n, v);
  }

  /** An `&` that is made up moves with the phandle it was made from. */
  lemma InventionsBetray(patched: seq<Line>, refs: References, i: nat, g: nat, c: nat, f: nat -> nat)
    requires PlainPhandles(patched) && SingleValued(patched) && IsInvented(patched, refs, i, g, c)
    requires forall x: nat :: f(x) != x
    ensures Facts(patched, refs) != Facts(Renumbered(patched, f), refs)
  {
    var node := NodeOf(patched, CellAt(patched, i, g, c).ref);
    RenumberErases(patched, f);
    RenumberedStored(patched, f, node.value, Stored(patched, node).value);
    if Facts(patched, refs) == Facts(Renumbered(patched, f), refs) {
      InventionsFollow(patched, Renumbered(patched, f), refs, i, g, c);
    }
  }

  lemma InventionBetrayed(patched: seq<Line>, refs: References) returns (f: nat -> nat)
    requires PlainPhandles(patched) && SingleValued(patched)
    requires exists i, g, c :: IsInvented(patched, refs, i, g, c)
    ensures OneToOne(f) && Facts(patched, refs) != Facts(Renumbered(patched, f), refs)
  {
    var i: nat, g: nat, c: nat :| IsInvented(patched, refs, i, g, c);
    f := Upset(0, None);
    UpsetOneToOne(0, None);
    InventionsBetray(patched, refs, i, g, c, f);
  }

  lemma RenumberPasses(patched: seq<Line>, f: nat -> nat)
    requires PlainPhandles(patched) && SingleValued(patched) && Clean([patched]) && OneToOne(f)
    ensures Passes(patched, Renumbered(patched, f))
  {
    RenumberErases(patched, f);
    RenumberVerified(patched, f);
    if DistinctPhandles(patched) {
      RenumberDistinct(patched, f);
    }
  }

  lemma MisreadIsNotSound(patched: seq<Line>, refs: References) returns (native: seq<Line>)
    requires PlainPhandles(patched) && SingleValued(patched) && Clean([patched]) && HasPhandles(patched)
    requires Misread(patched, refs)
    ensures Passes(patched, native) && Facts(patched, refs) != Facts(native, refs)
  {
    var f: nat -> nat;
    if exists i, g, c :: IsNumericReference(patched, refs, i, g, c) {
      f := NumberBetrayed(patched, refs);
    } else {
      f := InventionBetrayed(patched, refs);
    }
    native := Renumbered(patched, f);
    RenumberPasses(patched, f);
  }

  /** The nodes with a phandle are the same in two texts that agree but for its value. */
  lemma StoredAlike(a: seq<Line>, b: seq<Line>, node: Option<string>)
    requires Erase(a) == Erase(b) && PlainPhandles(a) && Stored(a, node).None?
    ensures Stored(b, node).None?
  {
    if Stored(b, node).Some? {
      SameSkeleton(a, b);
      var i := FiledBy([], b, node.value);
      var j := PhandleSource([], a, i);
      assert Plain(a[j]);
    }
  }

  lemma NoneMisreadIsSame(a: seq<Line>, b: seq<Line>, refs: References)
    requires Erase(a) == Erase(b) && PlainPhandles(a) && !Misread(a, refs)
    ensures Facts(a, refs) == Facts(b, refs)
  {
    forall i, g, c | IsNoReference(a, refs, i, g, c)
      ensures var node := NodeOf(a, CellAt(a, i, g, c).ref); Stored(a, node) == Stored(b, node)
    {
      assert !IsInvented(a, refs, i, g, c);
      StoredAlike(a, b, NodeOf(a, CellAt(a, i, g, c).ref));
    }
    SameTextSameMeaning(a, b, refs);
  }

  lemma NoneMisreadIsSound(patched: seq<Line>, native: seq<Line>, refs: References)
    requires PlainPhandles(patched) && Verified(patched, native) && !Misread(patched, refs)
    ensures Facts(patched, refs) == Facts(native, refs)
  {
    EraseRemap([], native, PhandleMap([], patched));
    NoneMisreadIsSame(patched, native, refs);
  }

  lemma NoPhandlesErase(lines: seq<Line>)
    requires !HasPhandles(lines)
    ensures Erase(lines) == lines
  {
  }

  /** A text without phandles passes beside itself alone. */
  lemma NoPhandlesIsSound(patched: seq<Line>, native: seq<Line>)
    requires PlainPhandles(patched) && PlainPhandles(native) && Verified(patched, native) && !HasPhandles(patched)
    ensures native == patched
  {
    RemapEqualsReference(patched, native);
    NoPhandlesErase(patched);
    assert |Erase(native)| == |native|;
    forall i | 0 <= i < |native| ensures native[i] == patched[i] {
      assert Erase(native)[i] == EraseLine(native[i]) && Erase(native)[i] == patched[i];
      assert !IsPhandle(patched[i]);
    }
  }

  /**
   What VERIFIED is worth, told from the patched tree alone: every tree the gate passes beside it says the
   same, exactly when no reference of the patched tree is left a number, visible to check-refs or not, and
   no `&` is made up from a number that is none, or there are no phandles to tell apart. Nor does it help to
   look only at trees in which no two nodes share a phandle.
   */
  lemma VerifiedIsBlind(patched: seq<Line>, refs: References)
    requires PlainPhandles(patched) && SingleValued(patched) && Clean([patched])
    ensures (forall native | PlainPhandles(native) && Verified(patched, native) ::
               Facts(patched, refs) == Facts(native, refs))
            <==> !HasPhandles(patched) || !Misread(patched, refs)
    ensures (forall native | Passes(patched, native) :: Facts(patched, refs) == Facts(native, refs))
            <==> !HasPhandles(patched) || !Misread(patched, refs)
  {
    if !HasPhandles(patched) {
      forall native | PlainPhandles(native) && Verified(patched, native)
        ensures Facts(patched, refs) == Facts(native, refs)
      {
        NoPhandlesIsSound(patched, native);
      }
    } else if Misread(patched, refs) {
      var native := MisreadIsNotSound(patched, refs);
    } else {
      forall native | Verified(patched, native) ensures Facts(patched, refs) == Facts(native, refs) {
        NoneMisreadIsSound(patched, native, refs);
      }
    }
  }

  // ---- the shapes that the gate does not see ----------------------------------------------------------

  /** A child of the root with a phandle. */
  function SampleNode(labels: seq<string>, name: string, n: nat): seq<Line> {
    [Line(1, Open(labels, name)), Line(2, Property(PHANDLE, Cells([[Number(n)]]))), Line(1, Close)]
  }

  function SampleHead(value: Value): seq<Line> {
    [Line(0, Open([], "/")), Line(1, Property("q", value))]
  }

  /** Two nodes, /a and /b, with phandles `x` and `y`, and a property `q` of the root. */
  function Sample(value: Value, x: nat, y: nat): seq<Line> {
    SampleHead(value) + SampleNode(["a"], "a", x) + SampleNode([], "b", y) + [Line(0, Close)]
  }

  lemma {:induction false} OwnerAppend(stack: seq<string>, a: seq<Line>, b: seq<Line>)
    ensures OwnerMap(stack, a + b) == OwnerMap(stack, a) + OwnerMap(StackAfter(stack, a), b)
    decreases a
  {
    if a == [] {
      assert a + b == b;
      assert map[] + OwnerMap(stack, b) == OwnerMap(stack, b);
    } else {
      var next := StackStep(stack, a[0]);
      assert a == [a[0]] + a[1..] && a + b == [a[0]] + (a[1..] + b);
      WalkCons(stack, a[0], a[1..] + b);
      WalkCons(stack, a[0], a[1..]);
      OwnerAppend(next, a[1..], b);
      SumAssociative(OwnerOf(a[0], NodePath(next)), OwnerMap(next, a[1..]), OwnerMap(StackAfter(stack, a), b));
    }
  }

  lemma SumAssociative(a: map<nat, string>, b: map<nat, string>, c: map<nat, string>)
    ensures a + b + c == a + (b + c)
  {
  }

  lemma WalkCons(stack: seq<string>, line: Line, rest: seq<Line>)
    ensures OwnerMap(stack, [line] + rest)
            == OwnerOf(line, NodePath(StackStep(stack, line))) + OwnerMap(StackStep(stack, line), rest)
    ensures Walk(stack, [line] + rest) == [NodePath(StackStep(stack, line))] + Walk(StackStep(stack, line), rest)
    ensures StackAfter(stack, [line] + rest) == StackAfter(StackStep(stack, line), rest)
  {
    assert ([line] + rest)[1..] == rest;
  }

  lemma SampleNodeWalk(labels: seq<string>, name: string, n: nat)
    ensures var lines := SampleNode(labels, name, n);
            && OwnerMap(["/"], lines) == map[n := "/" + name]
            && Walk(["/"], lines) == ["/" + name, "/" + name, "/"]
            && StackAfter(["/"], lines) == ["/"]
  {
    var s := SampleNode(labels, name, n);
    var inside := ["/", name];
    assert StackStep(["/"], s[0]) == inside && StackStep(inside, s[2]) == ["/"];
    assert inside[1..] == [name] && NodePath(inside) == "/" + name;
    assert s == [s[0]] + ([s[1]] + ([s[2]] + []));
    WalkCons(["/"], s[0], [s[1]] + ([s[2]] + []));
    WalkCons(inside, s[1], [s[2]] + []);
    WalkCons(inside, s[2], []);
  }

  lemma SampleEnds(value: Value)
    ensures var head, close := SampleHead(value), [Line(0, Close)];
            && OwnerMap([], head) == map[] && Walk([], head) == ["/", "/"] && StackAfter([], head) == ["/"]
            && OwnerMap(["/"], close) == map[] && Walk(["/"], close) == ["/"]
  {
    var s := SampleHead(value);
    assert s == [s[0]] + ([s[1]] + []);
    WalkCons([], s[0], [s[1]] + []);
    WalkCons(["/"], s[1], []);
    var close := Line(0, Close);
    assert [close] == [close] + [];
    WalkCons(["/"], close, []);
  }

  /** Four stretches of text, the middle two within the root. */
  lemma FourStretches(head: seq<Line>, a: seq<Line>, b: seq<Line>, end: seq<Line>)
    requires StackAfter([], head) == StackAfter(["/"], a) == StackAfter(["/"], b) == ["/"]
    ensures OwnerMap([], head + a + b + end)
            == OwnerMap([], head) + OwnerMap(["/"], a) + OwnerMap(["/"], b) + OwnerMap(["/"], end)
    ensures Walk([], head + a + b + end)
            == Walk([], head) + Walk(["/"], a) + Walk(["/"], b) + Walk(["/"], end)
  {
    OwnerAppend([], head, a);
    OwnerAppend([], head + a, b);
    OwnerAppend([], head + a + b, end);
    StackAppend([], head, a);
    StackAppend([], head + a, b);
    StackAppend([], head + a + b, end);
  }

  lemma TwoOwners(x: nat, y: nat, a: string, b: string)
    ensures map[] + map[x := a] + map[y := b] + map[] == map[x := a, y := b]
  {
  }

  lemma SampleOwners(value: Value, x: nat, y: nat)
    ensures OwnerMap([], Sample(value, x, y)) == map[x := "/" + "a", y := "/" + "b"]
    ensures Walk([], Sample(value, x, y))
            == ["/", "/"] + ["/" + "a", "/" + "a", "/"] + ["/" + "b", "/" + "b", "/"] + ["/"]
  {
    SampleEnds(value);
    SampleNodeWalk(["a"], "a", x);
    SampleNodeWalk([], "b", y);
    FourStretches(SampleHead(value), SampleNode(["a"], "a", x), SampleNode([], "b", y), [Line(0, Close)]);
    TwoOwners(x, y, "/" + "a", "/" + "b");
  }

  lemma ANotB()
    ensures "/" + "a" != "/" + "b"
  {
    assert ("/" + "a")[1] != ("/" + "b")[1];
  }

  lemma SampleErase(value: Value)
    ensures Erase(Sample(value, 1, 2)) == Erase(Sample(value, 2, 1))
  {
    var a, b := Sample(value, 1, 2), Sample(value, 2, 1);
    forall i | 0 <= i < 9 ensures EraseLine(a[i]) == EraseLine(b[i]) {
    }
  }

  lemma SamplePlain(value: Value)
    ensures PlainPhandles(Sample(value, 1, 2)) && PlainPhandles(Sample(value, 2, 1))
    ensures forall i | 0 <= i < 9 :: IsPhandle(Sample(value, 1, 2)[i]) ==> i == 3 || i == 6
  {
  }

  lemma SampleRemaps(value: Value)
    ensures Remap(Sample(value, 1, 2), Sample(value, 2, 1)) == Sample(value, 1, 2)
  {
    SampleErase(value);
    SamplePlain(value);
    SampleOwners(value, 1, 2);
    ANotB();
    RemapEqualsReference(Sample(value, 1, 2), Sample(value, 2, 1));
  }

  /** In the sample, a `1` standing for a node names /a in one text and /b in the other. */
  lemma SampleDiffers(value: Value, g: nat, c: nat, refs: References)
    requires value.Cells? && g < |value.groups| && c < |value.groups[g]| && value.groups[g][c] == Number(1)
    requires refs("/", "q", g, c)
    ensures Facts(Sample(value, 1, 2), refs) != Facts(Sample(value, 2, 1), refs)
  {
    var a, b := Sample(value, 1, 2), Sample(value, 2, 1);
    SampleOwners(value, 1, 2);
    SampleOwners(value, 2, 1);
    ANotB();
    assert Walk([], a)[1] == "/";
    SampleErase(value);
    assert IsNumericReference(a, refs, 1, g, c) && CellAt(a, 1, g, c) == Number(1);
    SameTextSameMeaning(a, b, refs);
  }

  lemma SampleStored(value: Value, x: nat, y: nat)
    ensures Stored(Sample(value, x, y), Some("/" + "a")) == Some(x)
  {
    var s := Sample(value, x, y);
    SampleOwners(value, x, y);
    ANotB();
    assert IsPhandle(s[3]) && Walk([], s)[3] == "/" + "a";
    var j := PhandleSource([], s, 3);
    assert j == 3;
  }

  /** And an `&` that stands for none compiles to 1 from one text and to 2 from the other. */
  lemma SampleInvents(value: Value, refs: References)
    requires value == Cells([[Reference(ByPath("/" + "a"))]]) && !refs("/", "q", 0, 0)
    ensures Facts(Sample(value, 1, 2), refs) != Facts(Sample(value, 2, 1), refs)
  {
    var a, b := Sample(value, 1, 2), Sample(value, 2, 1);
    SampleOwners(value, 1, 2);
    assert Walk([], a)[1] == "/";
    SampleErase(value);
    SampleStored(value, 1, 2);
    SampleStored(value, 2, 1);
    assert IsNoReference(a, refs, 1, 0, 0) && CellAt(a, 1, 0, 0) == value.groups[0][0];
    SameTextSameMeaning(a, b, refs);
  }

  /** check-refs has nothing to say about a sample whose `q` is not a visible reference. */
  lemma SampleClean(value: Value)
    requires value.Cells? && (|value.groups| == 1 ==> HasReference(value.groups[0]) || value == Cells([[Number(1)]]))
    ensures Clean([Sample(value, 1, 2), Sample(value, 2, 1)])
  {
    var files := [Sample(value, 1, 2), Sample(value, 2, 1)];
    forall f, i | 0 <= f < |files| && 0 <= i < |files[f]| ensures !LeftNumeric(files[f][i], SymbolicNames(files)) {
      assert forall g, j | 0 <= g < |files| && 0 <= j < |files[g]| && Symbolically(files[g][j]) :: j == 1;
    }
  }

  /**
   Such trees exist: a property that is written with `&` nowhere, a number beside an `&` in one group, a
   number in a value of two groups, and an index taken for a phandle and written `&` all pass the gate with
   different meanings.
   */
  lemma BlindSpots(value: Value)
    requires value in {Cells([[Number(1)]]),
                       Cells([[Reference(ByLabel("a")), Number(1)]]),
                       Cells([[Reference(ByLabel("a"))], [Number(1)]]),
                       Cells([[Reference(ByPath("/" + "a"))]])}
    ensures Verified(Sample(value, 1, 2), Sample(value, 2, 1))
    ensures exists refs: References :: Facts(Sample(value, 1, 2), refs) != Facts(Sample(value, 2, 1), refs)
  {
    SampleRemaps(value);
    assert Reference(ByLabel("a")) in [Reference(ByLabel("a")), Number(1)];
    assert Reference(ByPath("/" + "a")) in [Reference(ByPath("/" + "a"))];
    SampleClean(value);
    var refs: References := (path, key, g, c) => path == "/" && key == "q" && value.groups[0][0] != Reference(ByPath("/" + "a"));
    if value == Cells([[Number(1)]]) {
      SampleDiffers(value, 0, 0, refs);
    } else if value == Cells([[Reference(ByLabel("a")), Number(1)]]) {
      SampleDiffers(value, 0, 1, refs);
    } else if value == Cells([[Reference(ByLabel("a"))], [Number(1)]]) {
      SampleDiffers(value, 1, 0, refs);
    } else {
      SampleInvents(value, refs);
    }
  }
}
