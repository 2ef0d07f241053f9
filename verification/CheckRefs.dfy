/** check-refs.py: phandle references that survived decompilation as bare numbers. */
module CheckRefs {
  import opened Wrappers
  import opened DeviceTree
  import opened Walker
  import opened RemapPhandles

  /** A property the script sees: its whole value is one group of cells. */
  predicate OneGroup(line: Line) {
    line.statement.Property? && line.statement.value.Cells? && |line.statement.value.groups| == 1
  }

  function Group(line: Line): seq<Cell>
    requires OneGroup(line)
  {
    line.statement.value.groups[0]
  }

  /** `"&" in val` */
  predicate HasReference(cells: seq<Cell>) {
    exists c | c in cells :: c.Reference?
  }

  predicate Symbolically(line: Line) {
    OneGroup(line) && HasReference(Group(line))
  }

  /** The names of properties written with a reference somewhere in the files. */
  function SymbolicNames(files: seq<seq<Line>>): set<string> {
    set f, i | 0 <= f < |files| && 0 <= i < |files[f]| && Symbolically(files[f][i]) :: files[f][i].statement.key
  }

  predicate LeftNumeric(line: Line, symbolic: set<string>) {
    OneGroup(line) && line.statement.key in symbolic && !HasReference(Group(line))
  }

  function OwnerOf(line: Line, node: string): map<nat, string> {
    if IsPhandle(line) && |Inside(line)| == 1 && Inside(line)[0].Number? then map[Inside(line)[0].n := node]
    else map[]
  }

  /** phandle -> node path, the last one winning */
  function OwnerMap(stack: seq<string>, lines: seq<Line>): map<nat, string>
    decreases lines
  {
    if lines == [] then map[]
    else
      var next := StackStep(stack, lines[0]);
      OwnerOf(lines[0], NodePath(next)) + OwnerMap(next, lines[1..])
  }

  /** The node named by the first cell that is some node's phandle. */
  function FirstHit(cells: seq<Cell>, owners: map<nat, string>): Option<string> {
    if cells == [] then None
    else if cells[0].Number? && cells[0].n in owners then Some(owners[cells[0].n])
    else FirstHit(cells[1..], owners)
  }

  datatype Report = Report(file: nat, name: string, cells: seq<Cell>, hit: Option<string>)

  function ReportOf(line: Line, f: nat, owners: map<nat, string>): Report
    requires OneGroup(line)
  {
    Report(f, line.statement.key, Group(line), FirstHit(Group(line), owners))
  }

  /** No property written with a reference anywhere is a bare number elsewhere. */
  ghost predicate Clean(files: seq<seq<Line>>) {
    forall f, i | 0 <= f < |files| && 0 <= i < |files[f]| :: !LeftNumeric(files[f][i], SymbolicNames(files))
  }

  /** `phandles` */
  method Owners(lines: seq<Line>) returns (out: map<nat, string>)
    ensures out == OwnerMap([], lines)
  {
    var stack: seq<string> := [];
    out := map[];
    for i := 0 to |lines|
      invariant out + OwnerMap(stack, lines[i..]) == OwnerMap([], lines)
    {
      assert lines[i..][0] == lines[i] && lines[i..][1..] == lines[i + 1..];
      ghost var rest := OwnerMap(StackStep(stack, lines[i]), lines[i + 1..]);
      stack := StackStep(stack, lines[i]);
      if IsPhandle(lines[i]) && |Inside(lines[i])| == 1 && Inside(lines[i])[0].Number? {
        SumOwner(out, Inside(lines[i])[0].n, NodePath(stack), rest);
        out := out[Inside(lines[i])[0].n := NodePath(stack)];
      } else {
        assert map[] + rest == rest;
      }
    }
    assert out + map[] == out;
  }

  lemma SumOwner(m: map<nat, string>, key: nat, value: string, rest: map<nat, string>)
    ensures m[key := value] + rest == m + (map[key := value] + rest)
  {
  }

  /** The positions among the first `n` lines of a file where a reference was left numeric. */
  function Left(lines: seq<Line>, symbolic: set<string>, n: nat): set<nat>
    requires n <= |lines|
  {
    set i: nat | i < n && LeftNumeric(lines[i], symbolic)
  }

  /** One report for each of them, in order. */
  function FileReports(lines: seq<Line>, f: nat, symbolic: set<string>, owners: map<nat, string>, n: nat): seq<Report>
    requires n <= |lines|
  {
    if n == 0 then []
    else
      FileReports(lines, f, symbolic, owners, n - 1)
      + if LeftNumeric(lines[n - 1], symbolic) then [ReportOf(lines[n - 1], f, owners)] else []
  }

  function ReportsOn(files: seq<seq<Line>>, f: nat): seq<Report>
    requires f < |files|
  {
    FileReports(files[f], f, SymbolicNames(files), OwnerMap([], files[f]), |files[f]|)
  }

  function Joined(parts: seq<seq<Report>>): seq<Report> {
    if parts == [] then [] else Joined(parts[..|parts| - 1]) + parts[|parts| - 1]
  }

  /** The reports on the first `n` files. */
  function Reports(files: seq<seq<Line>>, n: nat): seq<Report>
    requires n <= |files|
  {
    Joined(seq(n, f requires 0 <= f < n => ReportsOn(files, f)))
  }

  lemma LeftStep(lines: seq<Line>, symbolic: set<string>, n: nat)
    requires 0 < n <= |lines|
    ensures var more := if LeftNumeric(lines[n - 1], symbolic) then {n - 1} else {};
            && Left(lines, symbolic, n) == Left(lines, symbolic, n - 1) + more
            && |Left(lines, symbolic, n)| == |Left(lines, symbolic, n - 1)| + |more|
  {
    var more: set<nat> := if LeftNumeric(lines[n - 1], symbolic) then {n - 1} else {};
    assert Left(lines, symbolic, n) == Left(lines, symbolic, n - 1) + more;
    assert Left(lines, symbolic, n - 1) !! more;
  }

  /** As many reports as references left numeric. */
  lemma {:induction false} ReportsCount(lines: seq<Line>, f: nat, symbolic: set<string>, owners: map<nat, string>, n: nat)
    requires n <= |lines|
    ensures |FileReports(lines, f, symbolic, owners, n)| == |Left(lines, symbolic, n)|
  {
    if n > 0 {
      ReportsCount(lines, f, symbolic, owners, n - 1);
      LeftStep(lines, symbolic, n);
    }
  }

  /** And each is of one of them. */
  lemma {:induction false} ReportsAreLeft(lines: seq<Line>, f: nat, symbolic: set<string>, owners: map<nat, string>, n: nat,
                                          report: Report)
    requires n <= |lines|
    ensures report in FileReports(lines, f, symbolic, owners, n)
            <==> exists i :: i in Left(lines, symbolic, n) && report == ReportOf(lines[i], f, owners)
  {
    if n > 0 {
      ReportsAreLeft(lines, f, symbolic, owners, n - 1, report);
      LeftStep(lines, symbolic, n);
    }
  }

  ghost predicate CleanFile(lines: seq<Line>, symbolic: set<string>) {
    forall i | 0 <= i < |lines| :: !LeftNumeric(lines[i], symbolic)
  }

  lemma ReportsOfFile(files: seq<seq<Line>>, f: nat)
    requires f < |files|
    ensures ReportsOn(files, f) == [] <==> CleanFile(files[f], SymbolicNames(files))
  {
    var lines, names := files[f], SymbolicNames(files);
    ReportsCount(lines, f, names, OwnerMap([], lines), |lines|);
    if Left(lines, names, |lines|) == {} {
      forall i | 0 <= i < |lines| ensures !LeftNumeric(lines[i], names) {
        assert i !in Left(lines, names, |lines|);
      }
    }
  }

  lemma {:induction false} JoinedEmpty(parts: seq<seq<Report>>)
    ensures Joined(parts) == [] <==> forall f | 0 <= f < |parts| :: parts[f] == []
  {
    if parts != [] {
      JoinedEmpty(parts[..|parts| - 1]);
    }
  }

  lemma ReportsStep(files: seq<seq<Line>>, n: nat)
    requires n < |files|
    ensures Reports(files, n + 1) == Reports(files, n) + ReportsOn(files, n)
  {
    var parts := seq(n + 1, f requires 0 <= f < n + 1 => ReportsOn(files, f));
    assert parts[..n] == seq(n, f requires 0 <= f < n => ReportsOn(files, f));
  }

  /** There is nothing to report exactly when the files are clean. */
  lemma NothingToReport(files: seq<seq<Line>>)
    ensures Reports(files, |files|) == [] <==> Clean(files)
  {
    var parts := seq(|files|, f requires 0 <= f < |files| => ReportsOn(files, f));
    JoinedEmpty(parts);
    assert forall f | 0 <= f < |files| :: parts[f] == ReportsOn(files, f);
    forall f | 0 <= f < |files| ensures ReportsOn(files, f) == [] <==> CleanFile(files[f], SymbolicNames(files)) {
      ReportsOfFile(files, f);
    }
    if forall f | 0 <= f < |files| :: CleanFile(files[f], SymbolicNames(files)) {
      assert Clean(files);
    }
    if Clean(files) {
      forall f | 0 <= f < |files| ensures CleanFile(files[f], SymbolicNames(files)) {
      }
    }
  }

  /** One file's turn. */
  method CheckFile(files: seq<seq<Line>>, f: nat, symbolic: set<string>) returns (reports: seq<Report>)
    requires f < |files| && symbolic == SymbolicNames(files)
    ensures reports == ReportsOn(files, f)
  {
    var owners := Owners(files[f]);
    reports := [];
    for i := 0 to |files[f]|
      invariant reports == FileReports(files[f], f, symbolic, owners, i)
    {
      if LeftNumeric(files[f][i], symbolic) {
        reports := reports + [ReportOf(files[f][i], f, owners)];
      }
    }
  }

  /** `main`, with its exit code. */
  method Check(files: seq<seq<Line>>) returns (reports: seq<Report>, code: int)
    ensures reports == Reports(files, |files|)
    ensures code == if Clean(files) then 0 else 1
  {
    var symbolic := SymbolicNames(files);
    reports := [];
    for f := 0 to |files|
      invariant reports == Reports(files, f)
    {
      var more := CheckFile(files, f, symbolic);
      ReportsStep(files, f);
      reports := reports + more;
    }
    code := if reports == [] then 0 else 1;
    NothingToReport(files);
  }

  // ---- the reports, told from the lines -----------------------------------------------------------

  /** `name = <...>;`, one group */
  predicate Grouped(line: Line, name: string, cells: seq<Cell>) {
    line.statement == Property(name, Cells([cells]))
  }

  /** A name that is a group of numbers here, and a group with an `&` in it in some file. */
  ghost predicate LeftBare(files: seq<seq<Line>>, f: nat, i: nat, name: string, cells: seq<Cell>) {
    && f < |files| && i < |files[f]| && Grouped(files[f][i], name, cells) && (forall c | c in cells :: c.Number?)
    && exists g, j, others, ref ::
         0 <= g < |files| && 0 <= j < |files[g]| && Grouped(files[g][j], name, others) && Reference(ref) in others
  }

  lemma LeftIsBare(files: seq<seq<Line>>, f: nat, i: nat, name: string, cells: seq<Cell>)
    requires f < |files| && i < |files[f]|
    ensures LeftBare(files, f, i, name, cells)
            <==> LeftNumeric(files[f][i], SymbolicNames(files)) && files[f][i].statement.key == name && Group(files[f][i]) == cells
  {
    if LeftBare(files, f, i, name, cells) {
      var g, j, others, ref :|
        0 <= g < |files| && 0 <= j < |files[g]| && Grouped(files[g][j], name, others) && Reference(ref) in others;
      assert Symbolically(files[g][j]);
    }
    if LeftNumeric(files[f][i], SymbolicNames(files)) && files[f][i].statement.key == name && Group(files[f][i]) == cells {
      var g, j :| 0 <= g < |files| && 0 <= j < |files[g]| && Symbolically(files[g][j]) && files[g][j].statement.key == name;
      var c :| c in Group(files[g][j]) && c.Reference?;
      assert files[g][j].statement.value.groups == [Group(files[g][j])] && files[f][i].statement.value.groups == [cells];
      assert Grouped(files[g][j], name, Group(files[g][j])) && Reference(c.ref) in Group(files[g][j]);
    }
  }

  /** The exit code tells whether there is one. */
  lemma CleanIsNoneBare(files: seq<seq<Line>>)
    ensures Clean(files) <==> !exists f, i, name, cells :: LeftBare(files, f, i, name, cells)
  {
    if f: nat, i: nat, name, cells :| LeftBare(files, f, i, name, cells) {
      LeftIsBare(files, f, i, name, cells);
    }
    if f, i :| 0 <= f < |files| && 0 <= i < |files[f]| && LeftNumeric(files[f][i], SymbolicNames(files)) {
      LeftIsBare(files, f, i, files[f][i].statement.key, Group(files[f][i]));
    }
  }

  /** The first cell that is a phandle of the map names the hit. */
  ghost predicate IsHit(cells: seq<Cell>, owners: map<nat, string>, hit: Option<string>) {
    match hit
    case Some(node) =>
      exists j :: && 0 <= j < |cells| && cells[j].Number? && cells[j].n in owners && owners[cells[j].n] == node
                  && forall k | 0 <= k < j :: cells[k].Number? ==> cells[k].n !in owners
    case None => forall j | 0 <= j < |cells| :: cells[j].Number? ==> cells[j].n !in owners
  }

  lemma {:induction false} FirstHitIsHit(cells: seq<Cell>, owners: map<nat, string>)
    ensures IsHit(cells, owners, FirstHit(cells, owners))
  {
    if cells != [] && !(cells[0].Number? && cells[0].n in owners) {
      FirstHitIsHit(cells[1..], owners);
      var hit := FirstHit(cells[1..], owners);
      forall k | 0 < k < |cells| ensures cells[k] == cells[1..][k - 1] {
      }
      if hit.Some? {
        var j :| 0 <= j < |cells[1..]| && cells[1..][j].Number? && cells[1..][j].n in owners
                 && owners[cells[1..][j].n] == hit.value
                 && forall k | 0 <= k < j :: cells[1..][k].Number? ==> cells[1..][k].n !in owners;
        assert cells[j + 1] == cells[1..][j];
      }
    }
  }

  lemma HitIsOne(cells: seq<Cell>, owners: map<nat, string>, a: Option<string>, b: Option<string>)
    requires IsHit(cells, owners, a) && IsHit(cells, owners, b)
    ensures a == b
  {
  }

  /**
   The reports on a file, one for each line that is left bare: its name, its cells, and the node of the first
   of them that is a phandle in that file.
   */
  lemma ReportsMean(files: seq<seq<Line>>, f: nat, report: Report)
    requires f < |files|
    ensures report in ReportsOn(files, f)
            <==> && report.file == f && (exists i :: LeftBare(files, f, i, report.name, report.cells))
                 && IsHit(report.cells, OwnerMap([], files[f]), report.hit)
  {
    var lines, names, owners := files[f], SymbolicNames(files), OwnerMap([], files[f]);
    ReportsAreLeft(lines, f, names, owners, |lines|, report);
    FirstHitIsHit(report.cells, owners);
    if report in ReportsOn(files, f) {
      var i :| i in Left(lines, names, |lines|) && report == ReportOf(lines[i], f, owners);
      LeftIsBare(files, f, i, report.name, report.cells);
    }
    if i: nat :| LeftBare(files, f, i, report.name, report.cells) {
      LeftIsBare(files, f, i, report.name, report.cells);
      assert i in Left(lines, names, |lines|);
      if report.file == f && IsHit(report.cells, owners, report.hit) {
        HitIsOne(report.cells, owners, report.hit, FirstHit(report.cells, owners));
        assert report == ReportOf(lines[i], f, owners);
      }
    }
  }

  /** The last phandle line with a number is the one that counts. */
  lemma {:induction false} LastOwner(stack: seq<string>, lines: seq<Line>, i: nat, n: nat)
    requires i < |lines| && lines[i].statement.Property? && lines[i].statement.key == "phandle"
    requires lines[i].statement.value == Cells([[Number(n)]])
    requires forall j | i < j < |lines| && IsPhandle(lines[j]) :: Inside(lines[j]) != [Number(n)]
    ensures n in OwnerMap(stack, lines) && OwnerMap(stack, lines)[n] == Walk(stack, lines)[i]
    decreases lines
  {
    var next := StackStep(stack, lines[0]);
    if i > 0 {
      LastOwner(next, lines[1..], i - 1, n);
    } else {
      NoLaterOwner(next, lines[1..], n);
    }
  }

  lemma {:induction false} NoLaterOwner(stack: seq<string>, lines: seq<Line>, n: nat)
    requires forall j | 0 <= j < |lines| && IsPhandle(lines[j]) :: Inside(lines[j]) != [Number(n)]
    ensures n !in OwnerMap(stack, lines)
    decreases lines
  {
    if lines != [] {
      assert IsPhandle(lines[0]) ==> Inside(lines[0]) != [Number(n)];
      if IsPhandle(lines[0]) && |Inside(lines[0])| == 1 {
        assert Inside(lines[0]) == [Inside(lines[0])[0]];
      }
      NoLaterOwner(StackStep(stack, lines[0]), lines[1..], n);
    }
  }
}
