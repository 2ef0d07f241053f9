/**
 References through a compiled blob. Compiling turns each reference into the phandle of the node it
 names; `dtc -P` turns a number back into a reference where its property table knows one belongs.
 */
module Blobs {
  import opened Wrappers
  import opened DeviceTree
  import opened Dtc
  import opened DiffPatch
  import opened RoundTrip
  import opened Readings
  import opened GenOverrides
  import opened Canonical
  import opened EndToEnd

  type Phandles = map<string, nat>

  /** A property in a blob: its cells in a row, or other bytes. */
  datatype BlobValue = Words(cells: seq<Cell>) | Bytes(text: string)

  datatype BlobContent = BlobContent(labels: set<string>, props: map<string, BlobValue>)

  type Blob = map<string, BlobContent>

  /**
   What the decompiler makes of a property from its name and its cells: which of them are references, and
   at which of them a group starts.
   */
  datatype Table = Table(known: (string, seq<Cell>, nat) -> bool, starts: (string, seq<Cell>) -> set<nat>)

  // ---- groups in a row ----------------------------------------------------------------------------

  function Flat(groups: seq<seq<Cell>>): seq<Cell> {
    if groups == [] then [] else Flat(groups[..|groups| - 1]) + groups[|groups| - 1]
  }

  /** The groups so far, with one more cell in the last of them or in a new one. */
  function Added(front: seq<seq<Cell>>, cell: Cell, begins: bool): seq<seq<Cell>> {
    if front == [] || begins then front + [[cell]] else front[..|front| - 1] + [front[|front| - 1] + [cell]]
  }

  /** The cells in groups again, a new one begun where `starts` says so. */
  function Regroup(cells: seq<Cell>, starts: set<nat>): seq<seq<Cell>> {
    if cells == [] then []
    else Added(Regroup(cells[..|cells| - 1], starts), cells[|cells| - 1], |cells| - 1 in starts)
  }

  /** No group is empty, and `starts` knows, of every cell but the first, whether it begins one. */
  ghost predicate Marked(groups: seq<seq<Cell>>, starts: set<nat>) {
    groups == []
    || (Marked(groups[..|groups| - 1], starts)
        && GroupMarked(|Flat(groups[..|groups| - 1])|, groups[|groups| - 1], starts))
  }

  ghost predicate GroupMarked(from: nat, group: seq<Cell>, starts: set<nat>) {
    && group != [] && (from > 0 ==> from in starts)
    && forall n | n in starts :: !(from < n < from + |group|)
  }

  lemma FlatSnoc(groups: seq<seq<Cell>>, group: seq<Cell>)
    ensures Flat(groups + [group]) == Flat(groups) + group
  {
    assert (groups + [group])[..|groups|] == groups;
  }

  lemma MarkedSnoc(groups: seq<seq<Cell>>, group: seq<Cell>, starts: set<nat>)
    ensures Marked(groups + [group], starts) <==> Marked(groups, starts) && GroupMarked(|Flat(groups)|, group, starts)
  {
    assert (groups + [group])[..|groups|] == groups;
  }

  lemma GroupMarkedSnoc(from: nat, group: seq<Cell>, cell: Cell, starts: set<nat>)
    requires group != []
    ensures GroupMarked(from, group + [cell], starts) <==> GroupMarked(from, group, starts) && from + |group| !in starts
  {
  }

  lemma NoneFlat(groups: seq<seq<Cell>>, starts: set<nat>)
    requires Marked(groups, starts)
    ensures Flat(groups) == [] <==> groups == []
  {
  }

  lemma AddedBegins(front: seq<seq<Cell>>, cell: Cell, starts: set<nat>)
    requires Marked(front, starts) && (front == [] || |Flat(front)| in starts)
    ensures Flat(front + [[cell]]) == Flat(front) + [cell] && Marked(front + [[cell]], starts)
  {
    FlatSnoc(front, [cell]);
    MarkedSnoc(front, [cell], starts);
  }

  lemma AddedGrows(groups: seq<seq<Cell>>, group: seq<Cell>, cell: Cell, starts: set<nat>)
    requires Marked(groups + [group], starts) && |Flat(groups + [group])| !in starts
    ensures Flat(groups + [group + [cell]]) == Flat(groups + [group]) + [cell]
    ensures Marked(groups + [group + [cell]], starts)
  {
    MarkedSnoc(groups, group, starts);
    GrownFlat(groups, group, cell);
    GrownIsMarked(groups, group, cell, starts);
  }

  lemma AddedIsMarked(front: seq<seq<Cell>>, cell: Cell, starts: set<nat>)
    requires Marked(front, starts)
    ensures var next := Added(front, cell, |Flat(front)| in starts);
            Flat(next) == Flat(front) + [cell] && Marked(next, starts)
  {
    if front == [] || |Flat(front)| in starts {
      AddedBegins(front, cell, starts);
    } else {
      var groups, group := front[..|front| - 1], front[|front| - 1];
      assert front == groups + [group];
      AddedGrows(groups, group, cell, starts);
    }
  }

  lemma RegroupNext(rest: seq<Cell>, last: Cell, starts: set<nat>)
    requires Flat(Regroup(rest, starts)) == rest && Marked(Regroup(rest, starts), starts)
    ensures Flat(Regroup(rest + [last], starts)) == rest + [last] && Marked(Regroup(rest + [last], starts), starts)
  {
    RegroupOne(rest, last, starts);
    AddedIsMarked(Regroup(rest, starts), last, starts);
  }

  /** Regrouping keeps the cells, and its groups are the ones marked. */
  lemma {:induction false} RegroupIsMarked(cells: seq<Cell>, starts: set<nat>)
    ensures Flat(Regroup(cells, starts)) == cells && Marked(Regroup(cells, starts), starts)
  {
    if cells != [] {
      var rest, last := cells[..|cells| - 1], cells[|cells| - 1];
      assert cells == rest + [last];
      RegroupIsMarked(rest, starts);
      RegroupNext(rest, last, starts);
    }
  }

  lemma RegroupOne(rest: seq<Cell>, last: Cell, starts: set<nat>)
    ensures Regroup(rest + [last], starts)
            == Added(Regroup(rest, starts), last, |rest| in starts)
  {
    assert (rest + [last])[..|rest|] == rest;
  }

  /** A group with one more cell. */
  lemma GrownFlat(groups: seq<seq<Cell>>, group: seq<Cell>, cell: Cell)
    ensures Flat(groups + [group + [cell]]) == Flat(groups + [group]) + [cell]
  {
    FlatSnoc(groups, group);
    FlatSnoc(groups, group + [cell]);
    assert Flat(groups) + (group + [cell]) == Flat(groups) + group + [cell];
  }

  lemma GrownIsMarked(groups: seq<seq<Cell>>, group: seq<Cell>, cell: Cell, starts: set<nat>)
    requires group != []
    ensures Marked(groups + [group + [cell]], starts)
            <==> Marked(groups + [group], starts) && |Flat(groups + [group])| !in starts
  {
    FlatSnoc(groups, group);
    MarkedSnoc(groups, group, starts);
    MarkedSnoc(groups, group + [cell], starts);
    GroupMarkedSnoc(|Flat(groups)|, group, cell, starts);
  }

  lemma {:induction false} MarkedIsRegroup(groups: seq<seq<Cell>>, starts: set<nat>)
    requires Marked(groups, starts)
    ensures Regroup(Flat(groups), starts) == groups
    decreases |Flat(groups)|
  {
    NoneFlat(groups, starts);
    if groups != [] {
      var front, last := groups[..|groups| - 1], groups[|groups| - 1];
      assert groups == front + [last];
      MarkedSnoc(front, last, starts);
      var cell := last[|last| - 1];
      if |last| == 1 {
        assert last == [cell];
        FlatSnoc(front, last);
        MarkedIsRegroup(front, starts);
        RegroupOne(Flat(front), cell, starts);
      } else {
        var rest := last[..|last| - 1];
        assert last == rest + [cell];
        GrownFlat(front, rest, cell);
        GrownIsMarked(front, rest, cell, starts);
        MarkedIsRegroup(front + [rest], starts);
        RegroupOne(Flat(front + [rest]), cell, starts);
        assert (front + [rest])[..|front|] == front;
      }
    }
  }

  /** Groups come back from a row of cells exactly when they are the ones marked. */
  lemma GroupsComeBack(groups: seq<seq<Cell>>, starts: set<nat>)
    ensures Regroup(Flat(groups), starts) == groups <==> Marked(groups, starts)
  {
    if Marked(groups, starts) {
      MarkedIsRegroup(groups, starts);
    }
    RegroupIsMarked(Flat(groups), starts);
  }

  // ---- compiling and decompiling ------------------------------------------------------------------

  /** How the decompiler names a node: its label when there is one. */
  ghost function Spelling(tree: Tree, key: string): Ref
    requires key in tree
  {
    var tag := TagFrom(tree[key].labels);
    if tag.Some? then ByLabel(tag.value) else ByPath(DtPath(key))
  }

  /** The nodes holding phandle `n`. */
  ghost predicate Holder(tree: Tree, p: Phandles, n: nat, key: string) {
    key in tree && key in p && p[key] == n
  }

  ghost function CompileCell(tree: Tree, p: Phandles, cell: Cell): Cell {
    match cell
    case Number(_) => cell
    case Reference(ref) =>
      var key := Resolve(tree, ref);
      if key.Some? && key.value in p then Number(p[key.value]) else cell
  }

  ghost function DecompileCell(tree: Tree, p: Phandles, known: bool, cell: Cell): Cell {
    if cell.Number? && known && exists key :: Holder(tree, p, cell.n, key) then
      var key :| Holder(tree, p, cell.n, key);
      Reference(Spelling(tree, key))
    else cell
  }

  ghost function CompileCells(tree: Tree, p: Phandles, cells: seq<Cell>): seq<Cell> {
    seq(|cells|, i requires 0 <= i < |cells| => CompileCell(tree, p, cells[i]))
  }

  ghost function DecompileCells(tree: Tree, p: Phandles, t: Table, key: string, cells: seq<Cell>): seq<Cell> {
    seq(|cells|, i requires 0 <= i < |cells| => DecompileCell(tree, p, t.known(key, cells, i), cells[i]))
  }

  ghost function CompileValue(tree: Tree, p: Phandles, value: Value): BlobValue {
    match value
    case Flag => Words([])
    case Cells(groups) => Words(CompileCells(tree, p, Flat(groups)))
    case Text(text) => Bytes(text)
  }

  ghost function DecompileValue(tree: Tree, p: Phandles, t: Table, key: string, value: BlobValue): Value {
    match value
    case Words(cells) =>
      if cells == [] then Flag
      else Cells(Regroup(DecompileCells(tree, p, t, key, cells), t.starts(key, cells)))
    case Bytes(text) => Text(text)
  }

  /** The blob `dtc` makes of a tree with these phandles. */
  ghost function Compile(tree: Tree, p: Phandles): Blob {
    map k | k in tree ::
      BlobContent(tree[k].labels, map key | key in tree[k].props :: CompileValue(tree, p, tree[k].props[key]))
  }

  /** The tree `dtc -P` makes of a blob, whose nodes have these labels and phandles. */
  ghost function Decompile(blob: Blob, tree: Tree, p: Phandles, t: Table): Tree {
    map k | k in blob ::
      Content(blob[k].labels, map key | key in blob[k].props :: DecompileValue(tree, p, t, key, blob[k].props[key]))
  }

  /** The compiler accepts the cell: a reference names a node, which then has a phandle. */
  ghost predicate Compiles(tree: Tree, p: Phandles, cell: Cell) {
    cell.Reference? ==> Resolve(tree, cell.ref).Some? && Resolve(tree, cell.ref).value in p
                        && Resolve(tree, cell.ref).value in tree
  }

  /** The cell survives: a reference stands where the table knows one and is spelled as the decompiler
      spells it; a number is not some node's phandle in such a place. */
  ghost predicate CellSurvives(tree: Tree, p: Phandles, known: bool, cell: Cell)
    requires Compiles(tree, p, cell)
  {
    match cell
    case Reference(ref) => known && ref == Spelling(tree, Resolve(tree, ref).value)
    case Number(n) => known ==> !exists key :: Holder(tree, p, n, key)
  }

  ghost predicate CellsCompile(tree: Tree, p: Phandles, cells: seq<Cell>) {
    forall i | 0 <= i < |cells| :: Compiles(tree, p, cells[i])
  }

  ghost predicate CellsSurvive(tree: Tree, p: Phandles, t: Table, key: string, cells: seq<Cell>)
    requires CellsCompile(tree, p, cells)
  {
    forall i | 0 <= i < |cells| ::
      CellSurvives(tree, p, t.known(key, CompileCells(tree, p, cells), i), cells[i])
  }

  ghost predicate ValueCompiles(tree: Tree, p: Phandles, value: Value) {
    value.Cells? ==> CellsCompile(tree, p, Flat(value.groups))
  }

  /** A list of cells survives if there are any, each survives, and the table marks their groups. */
  ghost predicate ValueSurvives(tree: Tree, p: Phandles, t: Table, key: string, value: Value)
    requires ValueCompiles(tree, p, value)
  {
    value.Cells? ==>
      var cells := Flat(value.groups);
      && cells != [] && CellsSurvive(tree, p, t, key, cells)
      && Marked(value.groups, t.starts(key, CompileCells(tree, p, cells)))
  }

  ghost predicate AllCompile(tree: Tree, p: Phandles) {
    forall k, key | k in tree && key in tree[k].props :: ValueCompiles(tree, p, tree[k].props[key])
  }

  ghost predicate Survives(tree: Tree, p: Phandles, t: Table)
    requires AllCompile(tree, p)
  {
    forall k, key | k in tree && key in tree[k].props :: ValueSurvives(tree, p, t, key, tree[k].props[key])
  }

  lemma CellRoundTrip(tree: Tree, p: Phandles, known: bool, cell: Cell)
    requires Injective(p) && Compiles(tree, p, cell)
    ensures DecompileCell(tree, p, known, CompileCell(tree, p, cell)) == cell <==> CellSurvives(tree, p, known, cell)
  {
    if cell.Reference? {
      var key := Resolve(tree, cell.ref).value;
      assert Holder(tree, p, p[key], key);
      assert forall k | Holder(tree, p, p[key], k) :: k == key;
    }
  }

  lemma CellsRoundTrip(tree: Tree, p: Phandles, t: Table, key: string, cells: seq<Cell>)
    requires Injective(p) && CellsCompile(tree, p, cells)
    ensures DecompileCells(tree, p, t, key, CompileCells(tree, p, cells)) == cells
            <==> CellsSurvive(tree, p, t, key, cells)
  {
    var numbers := CompileCells(tree, p, cells);
    var back := DecompileCells(tree, p, t, key, numbers);
    forall i | 0 <= i < |cells|
      ensures back[i] == cells[i] <==> CellSurvives(tree, p, t.known(key, numbers, i), cells[i])
    {
      CellRoundTrip(tree, p, t.known(key, numbers, i), cells[i]);
    }
  }

  lemma ValueRoundTrip(tree: Tree, p: Phandles, t: Table, key: string, value: Value)
    requires Injective(p) && ValueCompiles(tree, p, value)
    ensures DecompileValue(tree, p, t, key, CompileValue(tree, p, value)) == value
            <==> ValueSurvives(tree, p, t, key, value)
  {
    if value.Cells? {
      var cells := Flat(value.groups);
      var numbers := CompileCells(tree, p, cells);
      var starts: set<nat> := t.starts(key, numbers);
      CellsRoundTrip(tree, p, t, key, cells);
      RegroupIsMarked(DecompileCells(tree, p, t, key, numbers), starts);
      GroupsComeBack(value.groups, starts);
    }
  }

  lemma ContentRoundTrip(tree: Tree, p: Phandles, t: Table, k: string)
    requires Injective(p) && AllCompile(tree, p) && k in tree
    ensures Decompile(Compile(tree, p), tree, p, t)[k] == tree[k]
            <==> forall key | key in tree[k].props :: ValueSurvives(tree, p, t, key, tree[k].props[key])
  {
    var back := Decompile(Compile(tree, p), tree, p, t)[k];
    forall key | key in tree[k].props
      ensures back.props[key] == tree[k].props[key] <==> ValueSurvives(tree, p, t, key, tree[k].props[key])
    {
      ValueRoundTrip(tree, p, t, key, tree[k].props[key]);
    }
  }

  /**
   Whatever phandles a compile allocates, as long as no two nodes share one, decompiling its blob gives
   the tree back exactly when every reference stands where the decompiler's table knows one, no other
   number in such a place is some node's phandle, no list of cells is empty, and the table finds its
   groups.
   */
  lemma BlobRoundTrip(tree: Tree, p: Phandles, t: Table)
    requires Injective(p) && AllCompile(tree, p)
    ensures Decompile(Compile(tree, p), tree, p, t) == tree <==> Survives(tree, p, t)
  {
    forall k | k in tree
      ensures Decompile(Compile(tree, p), tree, p, t)[k] == tree[k]
              <==> forall key | key in tree[k].props :: ValueSurvives(tree, p, t, key, tree[k].props[key])
    {
      ContentRoundTrip(tree, p, t, k);
    }
  }

  /** A tree through its blob and back. */
  ghost function Returned(tree: Tree, p: Phandles, t: Table): Tree {
    Decompile(Compile(tree, p), tree, p, t)
  }

  /** The tree the gate sees of what the overrides compile to. */
  ghost function ReturnedState(native: Option<State>, q: Phandles, u: Table): Option<State> {
    if native.None? then None else Some(State(Returned(native.value.nodes, q, u), native.value.stack))
  }

  /** The patched tree comes back as the target when it is the target, and survives. */
  lemma PatchedReturns(base: Nodes, target: Nodes, q: Phandles, u: Table)
    requires LabelsUnique(target) && LabelsCompatible(base, target)
    requires Injective(q) && AllCompile(Meaning(target), q)
    ensures Returned(Patched(base, target), q, u) == Meaning(target)
            <==> LabelsAgree(base, target) && Survives(Meaning(target), q, u)
  {
    AgreeIsExact(base, target);
    BlobRoundTrip(Meaning(target), q, u);
    var native := Returned(Patched(base, target), q, u);
    if native == Meaning(target) {
      forall k | k in target.at ensures Patched(base, target)[k] == Meaning(target)[k] {
        assert native[k].labels == Patched(base, target)[k].labels;
      }
    }
  }

  lemma NativePassesGate(base: Nodes, target: Nodes, native: Option<State>, p: Phandles, q: Phandles, u: Table)
    requires WellFormed(target) && LabelsUnique(target) && NoPhandle(target)
    requires native == if LabelsCompatible(base, target) then Some(State(Patched(base, target), [])) else None
    requires p.Keys <= target.at.Keys && q.Keys <= target.at.Keys
    requires Injective(q) && AllCompile(Meaning(target), q)
    ensures Compiled(Meaning(target))
    ensures Submitted(Meaning(target), ReturnedState(native, q, u), p, q)
            <==> && LabelsAgree(base, target) && p.Keys == q.Keys && NamesApart(Meaning(target))
                 && Survives(Meaning(target), q, u)
  {
    MeaningCompiled(target);
    AgreeIsExact(base, target);
    if LabelsCompatible(base, target) {
      PatchedReturns(base, target, q, u);
      TreesPassGate(Meaning(target), Returned(Patched(base, target), q, u), p, q);
    }
  }

  lemma NativeOverSource(source: Tree, r: Phandles, s: Table, base: Nodes, target: Nodes)
    requires WellFormed(base) && LabelsUnique(base) && WellFormed(target) && LabelsUnique(target)
    requires Injective(r) && AllCompile(source, r) && Survives(source, r, s) && Returned(source, r, s) == Meaning(base)
    ensures Run(State(source, []), Script(base, target))
            == if LabelsCompatible(base, target) then Some(State(Patched(base, target), [])) else None
  {
    BlobRoundTrip(source, r, s);
    ScriptMeaning(base, target);
  }

  /**
   The submission through its three blobs, each with its own injective phandles and its own decompiler's
   table. `source` is the included tree and `patched` the board's: what their blobs decompile to are the two
   trees the overrides are written from. The overrides compile over the source and the gate passes their blob
   beside the board's exactly when the labels of shared nodes agree, the two blobs give phandles to the same
   nodes, the target writes no property both with references and without, and the target survives the blob
   of the overrides.
   */
  lemma BlobsPassGate(source: Tree, r: Phandles, s: Table, patched: Tree, p: Phandles, t: Table,
                      base: Nodes, target: Nodes, q: Phandles, u: Table)
    requires WellFormed(base) && LabelsUnique(base) && WellFormed(target) && LabelsUnique(target) && NoPhandle(target)
    requires Injective(r) && AllCompile(source, r) && Survives(source, r, s) && Returned(source, r, s) == Meaning(base)
    requires p.Keys <= patched.Keys && Returned(patched, p, t) == Meaning(target)
    requires q.Keys <= target.at.Keys && Injective(q) && AllCompile(Meaning(target), q)
    ensures Compiled(Returned(patched, p, t))
    ensures Submitted(Returned(patched, p, t), ReturnedState(Run(State(source, []), Script(base, target)), q, u), p, q)
            <==> && LabelsAgree(base, target) && p.Keys == q.Keys && NamesApart(Meaning(target))
                 && Survives(Meaning(target), q, u)
  {
    assert patched.Keys == Meaning(target).Keys;
    NativeOverSource(source, r, s, base, target);
    NativePassesGate(base, target, Run(State(source, []), Script(base, target)), p, q, u);
  }
}
