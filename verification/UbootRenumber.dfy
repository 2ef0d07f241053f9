/**
 uboot-renumber.py: the clock and reset indices of a vendor tree retargeted at mainline's numbering,
 all of them or none.
 */
module UbootRenumber {
  import opened Wrappers
  import opened Numerals

  /** `#define name value` */
  datatype Define = Define(name: string, value: nat)

  type Header = seq<Define>

  // ---- dictionaries -------------------------------------------------------------------------------

  function WithName(out: map<nat, seq<string>>, d: Define): map<nat, seq<string>> {
    out[d.value := (if d.value in out then out[d.value] else []) + [d.name]]
  }

  function ByValue(defs: Header, keep: string -> bool): map<nat, seq<string>> {
    if defs == [] then map[]
    else
      var before := ByValue(defs[..|defs| - 1], keep);
      if keep(defs[|defs| - 1].name) then WithName(before, defs[|defs| - 1]) else before
  }

  /** name -> value, the last definition winning */
  function ByName(defs: Header): map<string, nat> {
    if defs == [] then map[]
    else ByName(defs[..|defs| - 1])[defs[|defs| - 1].name := defs[|defs| - 1].value]
  }

  /** `by_value` */
  method BuildByValue(defs: Header, keep: string -> bool) returns (out: map<nat, seq<string>>)
    ensures out == ByValue(defs, keep)
  {
    out := map[];
    for i := 0 to |defs|
      invariant out == ByValue(defs[..i], keep)
    {
      assert defs[..i + 1][..i] == defs[..i];
      if keep(defs[i].name) {
        out := WithName(out, defs[i]);
      }
    }
    assert defs[..|defs|] == defs;
  }

  /** A value's names are those the header defines with it, of the kind kept. */
  lemma {:induction false} ByValueNames(defs: Header, keep: string -> bool, name: string, value: nat)
    ensures (value in ByValue(defs, keep) && name in ByValue(defs, keep)[value])
            <==> Define(name, value) in defs && keep(name)
  {
    if defs != [] {
      ByValueNames(defs[..|defs| - 1], keep, name, value);
      assert defs == defs[..|defs| - 1] + [defs[|defs| - 1]];
    }
  }

  lemma {:induction false} ByNameDefines(defs: Header, name: string)
    requires name in ByName(defs)
    ensures Define(name, ByName(defs)[name]) in defs
  {
    var last := defs[|defs| - 1];
    assert defs == defs[..|defs| - 1] + [last];
    if name != last.name {
      ByNameDefines(defs[..|defs| - 1], name);
    }
  }

  const CLK_PREFIX: seq<string> := ["CLK", "SCLK_", "PCLK_", "HCLK_", "ACLK_", "CCLK_", "BCLK_", "TCLK_", "DBCLK_",
                                    "MCLK_", "DCLK_", "XIN_"]

  predicate IsClock(name: string) {
    exists p | p in CLK_PREFIX :: p <= name
  }

  /** The ids of the scmi provider are not taken for the cru's. */
  lemma ScmiIsNotClock(name: string)
    requires "SCMI_" <= name
    ensures !IsClock(name)
  {
    assert name[1] == 'C' && name[2] == 'M';
  }

  predicate IsReset(name: string) {
    "SRST_" <= name
  }

  /** The two substitutions, one after the other: RESETN_ taken out, then xRESETN_ made x_. */
  function ResetSpelling(name: string): string {
    var n := if "SRST_RESETN_" <= name then "SRST_" + name[|"SRST_RESETN_"|..] else name;
    if |n| >= 13 && "SRST_" <= n && 'A' <= n[5] <= 'Z' && n[6..13] == "RESETN_" then "SRST_" + [n[5]] + "_" + n[13..]
    else n
  }

  /** Both spellings the vendor uses for a reset come out as mainline's. */
  lemma ResetSpelled(letter: char, rest: string)
    requires 'A' <= letter <= 'Z'
    ensures ResetSpelling("SRST_" + [letter] + "RESETN_" + rest) == "SRST_" + [letter] + "_" + rest
    ensures !(|rest| >= 8 && 'A' <= rest[0] <= 'Z' && rest[1..8] == "RESETN_") ==>
              ResetSpelling("SRST_RESETN_" + rest) == "SRST_" + rest
  {
    var n := "SRST_" + [letter] + "RESETN_" + rest;
    assert n[..12] != "SRST_RESETN_" by {
      assert n[6] == 'R' && "SRST_RESETN_"[6] == 'E';
    }
    assert n[..5] == "SRST_" && n[6..13] == "RESETN_" && n[13..] == rest;
    var m := "SRST_RESETN_" + rest;
    assert m[..12] == "SRST_RESETN_" && m[12..] == rest;
    var k := "SRST_" + rest;
    assert |rest| >= 8 ==> k[6..13] == rest[1..8];
  }

  // ---- one group of cells -------------------------------------------------------------------------

  /** What a pass translates by: the cru's spellings, the two dictionaries and the naming rule. */
  datatype Rules = Rules(cru: set<string>, vendor: map<nat, seq<string>>, mainline: map<string, nat>, spell: string -> string)

  /** The mainline numbers of the names the vendor header gives `index`. */
  function Hits(r: Rules, index: nat): set<nat> {
    var names := if index in r.vendor then r.vendor[index] else [];
    set n | n in names && r.spell(n) in r.mainline :: r.mainline[r.spell(n)]
  }

  lemma SingletonElement(s: set<nat>)
    requires |s| == 1
    ensures exists x :: x in s && forall y | y in s :: y == x
  {
    var x :| x in s;
    assert |s - {x}| == 0;
  }

  /** `hits.pop()` */
  function Only(s: set<nat>): (n: nat)
    requires |s| == 1
    ensures s == {n}
  {
    SingletonElement(s);
    var n :| n in s && forall y | y in s :: y == n;
    n
  }

  /** What an index is rewritten to, if it has exactly one mainline number. */
  function Target(r: Rules, index: nat): Option<string> {
    var hits := Hits(r, index);
    if |hits| == 1 then Some(Hex(Only(hits))) else None
  }

  /** A group after the scan, the number of cells retargeted, and the indices left as they were. */
  datatype Scanned = Scanned(cells: seq<string>, count: nat, skipped: seq<nat>)

  /** The cells start with a spelling of the cru and a number. */
  predicate PairAt(cru: set<string>, cells: seq<string>) {
    |cells| > 1 && cells[0] in cru && Int(cells[1]).Some?
  }

  function Scan(r: Rules, cells: seq<string>): Scanned {
    if cells == [] then Scanned([], 0, [])
    else if PairAt(r.cru, cells) then
      var rest := Scan(r, cells[2..]);
      var index := Int(cells[1]).value;
      var target := Target(r, index);
      if target.Some? then Scanned([cells[0], target.value] + rest.cells, rest.count + 1, rest.skipped)
      else Scanned([cells[0], cells[1]] + rest.cells, rest.count, [index] + rest.skipped)
    else
      var rest := Scan(r, cells[1..]);
      Scanned([cells[0]] + rest.cells, rest.count, rest.skipped)
  }

  predicate PairFrom(r: Rules, cells: seq<string>, i: nat)
    requires i < |cells|
  {
    cells[i] in r.cru && i + 1 < |cells| && Int(cells[i + 1]).Some?
  }

  function Plus(a: Scanned, b: Scanned): Scanned {
    Scanned(a.cells + b.cells, a.count + b.count, a.skipped + b.skipped)
  }

  lemma PlusAssociative(a: Scanned, b: Scanned, c: Scanned)
    ensures Plus(Plus(a, b), c) == Plus(a, Plus(b, c))
  {
  }

  /** What the scan makes of a pair. */
  function OfPair(r: Rules, cru: string, index: string): Scanned
    requires Int(index).Some?
  {
    var target := Target(r, Int(index).value);
    if target.Some? then Scanned([cru, target.value], 1, []) else Scanned([cru, index], 0, [Int(index).value])
  }

  /** The scan so far, and what is left of it. */
  ghost predicate ScannedTo(r: Rules, cells: seq<string>, i: nat, done: Scanned)
    requires i <= |cells|
  {
    Scan(r, cells) == Plus(done, Scan(r, cells[i..]))
  }

  lemma ScanPair(r: Rules, cells: seq<string>, i: nat, done: Scanned)
    requires i < |cells| && PairFrom(r, cells, i) && ScannedTo(r, cells, i, done)
    ensures ScannedTo(r, cells, i + 2, Plus(done, OfPair(r, cells[i], cells[i + 1])))
  {
    var rest := Scan(r, cells[i + 2..]);
    assert cells[i..][0] == cells[i] && cells[i..][1] == cells[i + 1] && cells[i..][2..] == cells[i + 2..];
    assert PairAt(r.cru, cells[i..]);
    assert Scan(r, cells[i..]) == Plus(OfPair(r, cells[i], cells[i + 1]), rest);
    PlusAssociative(done, OfPair(r, cells[i], cells[i + 1]), rest);
  }

  lemma ScanCell(r: Rules, cells: seq<string>, i: nat, done: Scanned)
    requires i < |cells| && !PairFrom(r, cells, i) && ScannedTo(r, cells, i, done)
    ensures ScannedTo(r, cells, i + 1, Plus(done, Scanned([cells[i]], 0, [])))
  {
    var rest := Scan(r, cells[i + 1..]);
    assert cells[i..][0] == cells[i] && cells[i..][1..] == cells[i + 1..];
    assert i + 1 < |cells| ==> cells[i..][1] == cells[i + 1];
    assert !PairAt(r.cru, cells[i..]);
    assert Scan(r, cells[i..]) == Plus(Scanned([cells[i]], 0, []), rest);
    PlusAssociative(done, Scanned([cells[i]], 0, []), rest);
  }

  /** `one` */
  method ScanGroup(r: Rules, cells: seq<string>) returns (out: seq<string>, count: nat, skipped: seq<nat>)
    ensures Scanned(out, count, skipped) == Scan(r, cells)
  {
    var i := 0;
    out, count, skipped := [], 0, [];
    assert cells[0..] == cells;
    while i < |cells|
      invariant 0 <= i <= |cells|
      invariant ScannedTo(r, cells, i, Scanned(out, count, skipped))
    {
      ghost var done := Scanned(out, count, skipped);
      if PairFrom(r, cells, i) {
        ScanPair(r, cells, i, done);
        var index := Int(cells[i + 1]).value;
        var target := Target(r, index);
        if target.Some? {
          out, count := out + [cells[i], target.value], count + 1;
        } else {
          out, skipped := out + [cells[i], cells[i + 1]], skipped + [index];
        }
        assert Scanned(out, count, skipped) == Plus(done, OfPair(r, cells[i], cells[i + 1]));
        i := i + 2;
      } else {
        ScanCell(r, cells, i, done);
        out := out + [cells[i]];
        assert Scanned(out, count, skipped) == Plus(done, Scanned([cells[i]], 0, []));
        i := i + 1;
      }
    }
    assert Scan(r, cells[i..]) == Scanned([], 0, []);
  }

  // ---- specifiers ---------------------------------------------------------------------------------

  /** A provider and its arguments: what a stretch of cells stands for. */
  datatype Specifier = Specifier(provider: string, args: seq<string>)

  function Flatten(specs: seq<Specifier>): seq<string> {
    if specs == [] then [] else [specs[0].provider] + specs[0].args + Flatten(specs[1..])
  }

  /** The cru takes one argument, a number. */
  predicate CruTakesOne(cru: set<string>, specs: seq<Specifier>) {
    forall i | 0 <= i < |specs| && specs[i].provider in cru :: |specs[i].args| == 1 && Int(specs[i].args[0]).Some?
  }

  /** An argument of another provider that is spelled like the cru, directly before a number: in its own
      specifier, or as the provider of the next. */
  predicate Stray(cru: set<string>, specs: seq<Specifier>, i: nat, j: nat) {
    && i < |specs| && specs[i].provider !in cru && j < |specs[i].args|
    && PairAt(cru, specs[i].args[j..] + Flatten(specs[i + 1..]))
  }

  ghost predicate Aligned(cru: set<string>, specs: seq<Specifier>) {
    !exists i, j :: Stray(cru, specs, i, j)
  }

  function Translate(r: Rules, s: Specifier): Specifier {
    if s.provider in r.cru && |s.args| == 1 && Int(s.args[0]).Some? && Target(r, Int(s.args[0]).value).Some? then
      s.(args := [Target(r, Int(s.args[0]).value).value])
    else s
  }

  function TranslateAll(r: Rules, specs: seq<Specifier>): seq<Specifier> {
    if specs == [] then [] else [Translate(r, specs[0])] + TranslateAll(r, specs[1..])
  }

  lemma {:induction false} ScanPast(r: Rules, args: seq<string>, rest: seq<string>)
    requires forall j | 0 <= j < |args| :: !PairAt(r.cru, args[j..] + rest)
    ensures Scan(r, args + rest).cells == args + Scan(r, rest).cells
  {
    if args == [] {
      assert args + rest == rest;
    } else {
      assert args[0..] == args && (args + rest)[1..] == args[1..] + rest;
      forall j | 0 <= j < |args[1..]| ensures !PairAt(r.cru, args[1..][j..] + rest) {
        assert args[1..][j..] == args[j + 1..];
      }
      ScanPast(r, args[1..], rest);
    }
  }

  lemma ScanOther(r: Rules, provider: string, cells: seq<string>)
    requires provider !in r.cru
    ensures Scan(r, [provider] + cells).cells == [provider] + Scan(r, cells).cells
  {
    assert ([provider] + cells)[1..] == cells;
  }

  lemma ScanCru(r: Rules, s: Specifier, rest: seq<string>)
    requires s.provider in r.cru && |s.args| == 1 && Int(s.args[0]).Some?
    ensures Scan(r, [s.provider] + s.args + rest).cells == [s.provider] + Translate(r, s).args + Scan(r, rest).cells
  {
    var cells := [s.provider] + s.args + rest;
    assert cells[0] == s.provider && cells[1] == s.args[0] && cells[2..] == rest;
    assert PairAt(r.cru, cells);
  }

  lemma ScanOtherSpecifier(r: Rules, s: Specifier, rest: seq<string>)
    requires s.provider !in r.cru && forall j | 0 <= j < |s.args| :: !PairAt(r.cru, s.args[j..] + rest)
    ensures Scan(r, [s.provider] + s.args + rest).cells == [s.provider] + s.args + Scan(r, rest).cells
  {
    ScanPast(r, s.args, rest);
    ScanOther(r, s.provider, s.args + rest);
    Regrouped(s.provider, s.args, rest);
    Regrouped(s.provider, s.args, Scan(r, rest).cells);
  }

  lemma Regrouped(first: string, args: seq<string>, rest: seq<string>)
    ensures [first] + args + rest == [first] + (args + rest)
  {
  }

  lemma NoneStray(cru: set<string>, specs: seq<Specifier>)
    requires specs != [] && specs[0].provider !in cru && forall j :: !Stray(cru, specs, 0, j)
    ensures forall j | 0 <= j < |specs[0].args| :: !PairAt(cru, specs[0].args[j..] + Flatten(specs[1..]))
  {
    forall j | 0 <= j < |specs[0].args| ensures !PairAt(cru, specs[0].args[j..] + Flatten(specs[1..])) {
      assert !Stray(cru, specs, 0, j);
    }
  }

  /** A specifier the scan deals with as it should: it goes on after it. */
  lemma ScanSpecifier(r: Rules, specs: seq<Specifier>)
    requires specs != [] && CruTakesOne(r.cru, specs)
    requires forall j :: !Stray(r.cru, specs, 0, j)
    ensures var t := Translate(r, specs[0]);
            Scan(r, Flatten(specs)).cells == [t.provider] + t.args + Scan(r, Flatten(specs[1..])).cells
  {
    if specs[0].provider in r.cru {
      ScanCru(r, specs[0], Flatten(specs[1..]));
    } else {
      NoneStray(r.cru, specs);
      ScanOtherSpecifier(r, specs[0], Flatten(specs[1..]));
    }
  }

  lemma StrayShift(cru: set<string>, specs: seq<Specifier>, i: nat, j: nat)
    requires specs != []
    ensures Stray(cru, specs[1..], i, j) <==> Stray(cru, specs, i + 1, j)
  {
    if i < |specs[1..]| {
      assert specs[1..][i + 1..] == specs[i + 2..];
    }
  }

  lemma {:induction false} AlignedScan(r: Rules, specs: seq<Specifier>)
    requires CruTakesOne(r.cru, specs) && Aligned(r.cru, specs)
    ensures Scan(r, Flatten(specs)).cells == Flatten(TranslateAll(r, specs))
  {
    if specs != [] {
      forall i, j ensures !Stray(r.cru, specs[1..], i, j) {
        StrayShift(r.cru, specs, i, j);
      }
      ScanSpecifier(r, specs);
      AlignedScan(r, specs[1..]);
      assert TranslateAll(r, specs)[1..] == TranslateAll(r, specs[1..]);
    }
  }

  /** Dictionaries that renumber `n`, and only it. */
  function Moving(n: nat, cru: set<string>, spell: string -> string): Rules {
    Rules(cru, map[n := ["X"]], map[spell("X") := n + 1], spell)
  }

  lemma MovingTarget(n: nat, cru: set<string>, spell: string -> string)
    ensures Target(Moving(n, cru, spell), n) == Some(Hex(n + 1))
  {
    assert Hits(Moving(n, cru, spell), n) == {n + 1};
  }

  /** The number after the first pair of the cells is rewritten. */
  lemma {:induction false} PairRewritten(r: Rules, cells: seq<string>, j: nat, n: nat)
    requires j < |cells| && PairAt(r.cru, cells[j..]) && Int(cells[j + 1]) == Some(n)
    requires forall k | 0 <= k < j :: !PairAt(r.cru, cells[k..])
    requires Target(r, n) == Some(Hex(n + 1))
    ensures var out := Scan(r, cells).cells; j + 1 < |out| && out[j + 1] != cells[j + 1]
  {
    assert cells[0..] == cells;
    if j == 0 {
      IntOfHex(n + 1);
    } else {
      forall k | 0 <= k < j - 1 ensures !PairAt(r.cru, cells[1..][k..]) {
        assert cells[1..][k..] == cells[k + 1..];
      }
      assert cells[1..][j - 1..] == cells[j..] && !PairAt(r.cru, cells[0..]);
      PairRewritten(r, cells[1..], j - 1, n);
    }
  }

  /** Translating leaves the first cell, a provider, as it is. */
  lemma FirstCell(r: Rules, specs: seq<Specifier>)
    ensures Flatten(specs) == [] <==> Flatten(TranslateAll(r, specs)) == []
    ensures Flatten(specs) != [] ==> Flatten(TranslateAll(r, specs))[0] == Flatten(specs)[0]
  {
  }

  lemma {:induction false} FirstStray(cru: set<string>, specs: seq<Specifier>, j: nat) returns (k: nat)
    requires Stray(cru, specs, 0, j)
    ensures Stray(cru, specs, 0, k) && forall m: nat | m < k :: !Stray(cru, specs, 0, m)
  {
    k := j;
    if m: nat :| m < j && Stray(cru, specs, 0, m) {
      k := FirstStray(cru, specs, m);
    }
  }

  /** The number after the first stray argument of a specifier is rewritten. */
  lemma StrayRewritten(specs: seq<Specifier>, j: nat, n: nat, r: Rules)
    requires Stray(r.cru, specs, 0, j) && forall k: nat | k < j :: !Stray(r.cru, specs, 0, k)
    requires var cells := specs[0].args + Flatten(specs[1..]);
             j + 1 < |cells| && Int(cells[j + 1]) == Some(n)
    requires Target(r, n) == Some(Hex(n + 1))
    ensures var cells := specs[0].args + Flatten(specs[1..]);
            var out := Scan(r, cells).cells; j + 1 < |out| && out[j + 1] != cells[j + 1]
  {
    var s, rest := specs[0], Flatten(specs[1..]);
    var cells := s.args + rest;
    assert cells[j..] == s.args[j..] + rest;
    forall k: nat | k < j ensures !PairAt(r.cru, cells[k..]) {
      assert cells[k..] == s.args[k..] + rest;
      assert !Stray(r.cru, specs, 0, k);
    }
    PairRewritten(r, cells, j, n);
  }

  /** Whereas its translation keeps every cell of a specifier of another provider, and the one after it. */
  lemma OtherKept(r: Rules, specs: seq<Specifier>, i: nat)
    requires specs != [] && specs[0].provider !in r.cru
    requires i < |specs[0].args + Flatten(specs[1..])| && i <= |specs[0].args|
    ensures var out := Flatten(TranslateAll(r, specs));
            i + 1 < |out| && out[i + 1] == (specs[0].args + Flatten(specs[1..]))[i]
  {
    FirstCell(r, specs[1..]);
    var s, after := specs[0], Flatten(TranslateAll(r, specs[1..]));
    assert TranslateAll(r, specs)[1..] == TranslateAll(r, specs[1..]);
    assert Flatten(TranslateAll(r, specs)) == [s.provider] + s.args + after;
  }

  /** A stray argument in the first specifier makes the scan go wrong. */
  lemma StrayScan(specs: seq<Specifier>, j: nat, cru: set<string>, spell: string -> string) returns (r: Rules)
    requires Stray(cru, specs, 0, j)
    ensures r == Rules(cru, r.vendor, r.mainline, spell)
    ensures Scan(r, Flatten(specs)).cells != Flatten(TranslateAll(r, specs))
  {
    var s := specs[0];
    var k := FirstStray(cru, specs, j);
    var cells := s.args + Flatten(specs[1..]);
    assert cells[k..] == s.args[k..] + Flatten(specs[1..]);
    assert cells[k..][1] == cells[k + 1];
    var n := Int(cells[k + 1]).value;
    r := Moving(n, cru, spell);
    MovingTarget(n, cru, spell);
    StrayRewritten(specs, k, n, r);
    OtherKept(r, specs, k + 1);
    assert Flatten(specs) == [s.provider] + cells;
    ScanOther(r, s.provider, cells);
  }

  lemma {:induction false} MisalignedScan(specs: seq<Specifier>, cru: set<string>, spell: string -> string) returns (r: Rules)
    requires CruTakesOne(cru, specs) && !Aligned(cru, specs)
    ensures r == Rules(cru, r.vendor, r.mainline, spell)
    ensures Scan(r, Flatten(specs)).cells != Flatten(TranslateAll(r, specs))
    decreases |specs|
  {
    if j: nat :| Stray(cru, specs, 0, j) {
      r := StrayScan(specs, j, cru, spell);
    } else {
      var i: nat, j: nat :| Stray(cru, specs, i, j);
      StrayShift(cru, specs, i - 1, j);
      r := MisalignedScan(specs[1..], cru, spell);
      ScanSpecifier(r, specs);
      var t := Translate(r, specs[0]);
      assert TranslateAll(r, specs)[1..] == TranslateAll(r, specs[1..]);
      assert Scan(r, Flatten(specs)).cells[1 + |t.args|..] == Scan(r, Flatten(specs[1..])).cells;
      assert Flatten(TranslateAll(r, specs))[1 + |t.args|..] == Flatten(TranslateAll(r, specs[1..]));
    }
  }

  /**
   When the greedy scan of untyped cells is the translation of the specifiers they stand for, whatever the
   two dictionaries hold: exactly when no argument of another provider that is spelled like the cru stands
   directly before a number. It then rewrites the cru's indices and no other cell.
   */
  lemma ScanTranslates(specs: seq<Specifier>, cru: set<string>, spell: string -> string)
    requires CruTakesOne(cru, specs)
    ensures (forall vendor, mainline ::
               var r := Rules(cru, vendor, mainline, spell);
               Scan(r, Flatten(specs)).cells == Flatten(TranslateAll(r, specs)))
            <==> Aligned(cru, specs)
  {
    if Aligned(cru, specs) {
      forall vendor, mainline
        ensures var r := Rules(cru, vendor, mainline, spell);
                Scan(r, Flatten(specs)).cells == Flatten(TranslateAll(r, specs))
      {
        AlignedScan(Rules(cru, vendor, mainline, spell), specs);
      }
    } else {
      var r := MisalignedScan(specs, cru, spell);
      var vendor, mainline := r.vendor, r.mainline;
      assert r == Rules(cru, vendor, mainline, spell);
    }
  }

  /** The indices the scan takes for the cru's. */
  function Indices(r: Rules, cells: seq<string>): seq<nat> {
    if cells == [] then []
    else if PairAt(r.cru, cells) then [Int(cells[1]).value] + Indices(r, cells[2..])
    else Indices(r, cells[1..])
  }

  lemma {:induction false} ScanCounts(r: Rules, cells: seq<string>)
    ensures var s := Scan(r, cells);
            && s.count + |s.skipped| == |Indices(r, cells)|
            && (s.skipped == [] <==> forall index | index in Indices(r, cells) :: |Hits(r, index)| == 1)
  {
    if cells != [] {
      if PairAt(r.cru, cells) {
        ScanCounts(r, cells[2..]);
      } else {
        ScanCounts(r, cells[1..]);
      }
    }
  }

  // ---- the whole text -----------------------------------------------------------------------------

  /** The text as the regexes see it: properties with their groups, whole-line flags, and the rest. */
  datatype Item = Property(name: string, groups: seq<seq<string>>) | TagLine(name: string) | Other(text: string)

  const CLOCK_PROPS: seq<string> := ["clocks", "assigned-clocks", "assigned-clock-parents"]
  const RESET_PROPS: seq<string> := ["resets"]

  predicate WordChar(c: char) {
    'a' <= c <= 'z' || 'A' <= c <= 'Z' || '0' <= c <= '9' || c == '_'
  }

  predicate EndsWith(s: string, tail: string) {
    |tail| <= |s| && s[|s| - |tail|..] == tail
  }

  /** `\bp` against the end of a property's name: a word may start after "-" or ",". */
  predicate MatchesOne(name: string, p: string) {
    EndsWith(name, p) && (|name| == |p| || !WordChar(name[|name| - |p| - 1]))
  }

  predicate Matches(name: string, props: seq<string>) {
    exists p | p in props :: MatchesOne(name, p)
  }

  lemma ThirdLast(name: string, tail: string)
    requires EndsWith(name, tail) && |tail| >= 3
    ensures name[|name| - 3] == tail[|tail| - 3]
  {
  }

  lemma ClockEnding(p: string)
    requires p in CLOCK_PROPS
    ensures |p| >= 3 && p[|p| - 3] != 'e'
  {
  }

  lemma ClockIsNotReset(name: string)
    ensures !(Matches(name, CLOCK_PROPS) && Matches(name, RESET_PROPS))
  {
    if Matches(name, RESET_PROPS) {
      assert MatchesOne(name, "resets");
      ThirdLast(name, "resets");
      forall p | p in CLOCK_PROPS ensures !MatchesOne(name, p) {
        ClockEnding(p);
        if EndsWith(name, p) {
          ThirdLast(name, p);
        }
      }
    }
  }

  datatype Pass = Pass(items: seq<Item>, count: nat, skipped: seq<nat>)

  function ScanGroups(r: Rules, groups: seq<seq<string>>): (seq<seq<string>>, nat, seq<nat>) {
    if groups == [] then ([], 0, [])
    else
      var first, rest := Scan(r, groups[|groups| - 1]), ScanGroups(r, groups[..|groups| - 1]);
      (rest.0 + [first.cells], rest.1 + first.count, rest.2 + first.skipped)
  }

  function RetargetItem(r: Rules, props: seq<string>, item: Item): (Item, nat, seq<nat>) {
    if item.Property? && Matches(item.name, props) then
      var s := ScanGroups(r, item.groups);
      (item.(groups := s.0), s.1, s.2)
    else (item, 0, [])
  }

  function RetargetAll(r: Rules, props: seq<string>, items: seq<Item>): Pass {
    if items == [] then Pass([], 0, [])
    else
      var last, rest := RetargetItem(r, props, items[|items| - 1]), RetargetAll(r, props, items[..|items| - 1]);
      Pass(rest.items + [last.0], rest.count + last.1, rest.skipped + last.2)
  }

  /** `prop`: every group of a property. */
  method RetargetGroups(r: Rules, groups: seq<seq<string>>) returns (out: seq<seq<string>>, count: nat, skipped: seq<nat>)
    ensures (out, count, skipped) == ScanGroups(r, groups)
  {
    out, count, skipped := [], 0, [];
    for i := 0 to |groups|
      invariant (out, count, skipped) == ScanGroups(r, groups[..i])
    {
      assert groups[..i + 1][..i] == groups[..i];
      var cells, n, left := ScanGroup(r, groups[i]);
      out, count, skipped := out + [cells], count + n, skipped + left;
    }
    assert groups[..|groups|] == groups;
  }

  /** `retarget`: one pass over the text. */
  method Retarget(r: Rules, props: seq<string>, items: seq<Item>) returns (out: seq<Item>, count: nat, skipped: seq<nat>)
    ensures Pass(out, count, skipped) == RetargetAll(r, props, items)
  {
    out, count, skipped := [], 0, [];
    for i := 0 to |items|
      invariant Pass(out, count, skipped) == RetargetAll(r, props, items[..i])
    {
      assert items[..i + 1][..i] == items[..i];
      if items[i].Property? && Matches(items[i].name, props) {
        var groups, n, left := RetargetGroups(r, items[i].groups);
        out, count, skipped := out + [items[i].(groups := groups)], count + n, skipped + left;
      } else {
        out := out + [items[i]];
      }
    }
    assert items[..|items|] == items;
  }

  /** The phase tags, as mainline spells them. */
  function Retag(item: Item): Item {
    if item == TagLine("u-boot,dm-pre-reloc") then TagLine("bootph-all")
    else if item == TagLine("u-boot,dm-spl") then TagLine("bootph-pre-ram")
    else item
  }

  function RetagAll(items: seq<Item>): seq<Item> {
    seq(|items|, i requires 0 <= i < |items| => Retag(items[i]))
  }

  datatype Refusal = NoCru | LeftAtVendorNumbering(cells: nat) | NothingRetargeted

  datatype Outcome = Emitted(items: seq<Item>) | Refused(why: Refusal)

  /** The three headers the script reads. */
  datatype Headers = Headers(vendor: Header, clocks: Header, resets: Header)

  const CRU_NODE := "&{/clock-controller@ff4a0000}"

  function ClockRules(h: Headers, cru: string): Rules {
    Rules({cru, CRU_NODE}, ByValue(h.vendor, IsClock), ByName(h.clocks), n => n)
  }

  function ResetRules(h: Headers, cru: string): Rules {
    Rules({cru, CRU_NODE}, ByValue(h.vendor, IsReset), ByName(h.resets), ResetSpelling)
  }

  /** `main` */
  method Renumber(h: Headers, cru: string, items: seq<Item>) returns (outcome: Outcome)
    ensures outcome == Renumbered(h, cru, items)
  {
    if cru == "" {
      return Refused(NoCru);
    }
    var text, clocks, skipped := Retarget(ClockRules(h, cru), CLOCK_PROPS, items);
    var after, resets, more := Retarget(ResetRules(h, cru), RESET_PROPS, text);
    outcome := Verdict(Pass(text, clocks, skipped), Pass(after, resets, more));
  }

  /** What is decided after the two passes. */
  function Verdict(first: Pass, second: Pass): Outcome {
    if first.skipped + second.skipped != [] then Refused(LeftAtVendorNumbering(|first.skipped| + |second.skipped|))
    else if first.count == 0 || second.count == 0 then Refused(NothingRetargeted)
    else Emitted(RetagAll(second.items))
  }

  function Renumbered(h: Headers, cru: string, items: seq<Item>): Outcome {
    if cru == "" then Refused(NoCru)
    else
      var first := RetargetAll(ClockRules(h, cru), CLOCK_PROPS, items);
      Verdict(first, RetargetAll(ResetRules(h, cru), RESET_PROPS, first.items))
  }

  // ---- all or nothing -----------------------------------------------------------------------------

  /** An item one pass rewrites. */
  predicate Concerns(props: seq<string>, item: Item) {
    item.Property? && Matches(item.name, props)
  }

  ghost predicate ItemMapped(r: Rules, props: seq<string>, item: Item) {
    Concerns(props, item) ==> forall g, index | g in item.groups && index in Indices(r, g) :: |Hits(r, index)| == 1
  }

  ghost predicate ItemTouched(r: Rules, props: seq<string>, item: Item) {
    Concerns(props, item) && exists g | g in item.groups :: Indices(r, g) != []
  }

  /** Every index of every group of every property concerned has exactly one mainline number. */
  ghost predicate Mapped(r: Rules, props: seq<string>, items: seq<Item>) {
    forall item | item in items :: ItemMapped(r, props, item)
  }

  /** There is something to rewrite. */
  ghost predicate Touched(r: Rules, props: seq<string>, items: seq<Item>) {
    exists item | item in items :: ItemTouched(r, props, item)
  }

  function ScanEach(r: Rules, groups: seq<seq<string>>): seq<seq<string>> {
    seq(|groups|, i requires 0 <= i < |groups| => Scan(r, groups[i]).cells)
  }

  lemma {:induction false} GroupsScanned(r: Rules, groups: seq<seq<string>>)
    ensures var s := ScanGroups(r, groups);
            && s.0 == ScanEach(r, groups)
            && (s.2 == [] <==> forall g, index | g in groups && index in Indices(r, g) :: |Hits(r, index)| == 1)
            && (s.1 + |s.2| > 0 <==> exists g | g in groups :: Indices(r, g) != [])
  {
    if groups != [] {
      var front, last := groups[..|groups| - 1], groups[|groups| - 1];
      assert groups == front + [last];
      GroupsScanned(r, front);
      ScanCounts(r, last);
      assert ScanEach(r, groups) == ScanEach(r, front) + [Scan(r, last).cells];
      assert forall g :: g in groups <==> g in front || g == last;
    }
  }

  function Rewritten(r: Rules, props: seq<string>, item: Item): Item {
    if Concerns(props, item) then item.(groups := ScanEach(r, item.groups)) else item
  }

  lemma ItemDone(r: Rules, props: seq<string>, item: Item)
    ensures var done := RetargetItem(r, props, item);
            && done.0 == Rewritten(r, props, item)
            && (done.2 == [] <==> ItemMapped(r, props, item))
            && (done.1 + |done.2| > 0 <==> ItemTouched(r, props, item))
  {
    if Concerns(props, item) {
      GroupsScanned(r, item.groups);
    }
  }

  lemma {:induction false} PassDone(r: Rules, props: seq<string>, items: seq<Item>)
    ensures var pass := RetargetAll(r, props, items);
            && |pass.items| == |items|
            && (forall i | 0 <= i < |items| :: pass.items[i] == Rewritten(r, props, items[i]))
            && (pass.skipped == [] <==> Mapped(r, props, items))
            && (pass.count + |pass.skipped| > 0 <==> Touched(r, props, items))
  {
    if items != [] {
      var front, last := items[..|items| - 1], items[|items| - 1];
      assert items == front + [last];
      PassDone(r, props, front);
      ItemDone(r, props, last);
      assert forall item :: item in items <==> item in front || item == last;
    }
  }

  /** What becomes of an item when the text is emitted. */
  function Final(h: Headers, cru: string, item: Item): Item {
    Retag(Rewritten(ResetRules(h, cru), RESET_PROPS, Rewritten(ClockRules(h, cru), CLOCK_PROPS, item)))
  }

  /** Neither pass sees what is the other's. */
  lemma PassesApart(h: Headers, cru: string, item: Item)
    ensures var r := ClockRules(h, cru);
            && (Concerns(RESET_PROPS, item) <==> Concerns(RESET_PROPS, Rewritten(r, CLOCK_PROPS, item)))
            && (Concerns(RESET_PROPS, item) ==> Rewritten(r, CLOCK_PROPS, item) == item)
  {
    if item.Property? {
      ClockIsNotReset(item.name);
    }
  }

  lemma ResetsUntouched(h: Headers, cru: string, items: seq<Item>, after: seq<Item>)
    requires |after| == |items|
    requires forall i | 0 <= i < |items| :: after[i] == Rewritten(ClockRules(h, cru), CLOCK_PROPS, items[i])
    ensures forall item | Concerns(RESET_PROPS, item) :: item in after <==> item in items
  {
    forall item | Concerns(RESET_PROPS, item) ensures item in after <==> item in items {
      if item in items {
        var i :| 0 <= i < |items| && items[i] == item;
        PassesApart(h, cru, item);
        assert after[i] == item;
      }
      if item in after {
        var i :| 0 <= i < |after| && after[i] == item;
        PassesApart(h, cru, items[i]);
        assert items[i] == item;
      }
    }
  }

  /** The reset pass meets the same resets the text had to begin with. */
  lemma ResetsAsBefore(h: Headers, cru: string, items: seq<Item>)
    ensures var first, reset := RetargetAll(ClockRules(h, cru), CLOCK_PROPS, items), ResetRules(h, cru);
            && (Mapped(reset, RESET_PROPS, items) <==> Mapped(reset, RESET_PROPS, first.items))
            && (Touched(reset, RESET_PROPS, items) <==> Touched(reset, RESET_PROPS, first.items))
  {
    var first := RetargetAll(ClockRules(h, cru), CLOCK_PROPS, items);
    PassDone(ClockRules(h, cru), CLOCK_PROPS, items);
    ResetsUntouched(h, cru, items, first.items);
    SameConcerns(ResetRules(h, cru), RESET_PROPS, items, first.items);
  }

  lemma PassesEnd(h: Headers, cru: string, items: seq<Item>)
    ensures var first := RetargetAll(ClockRules(h, cru), CLOCK_PROPS, items);
            var end := RetagAll(RetargetAll(ResetRules(h, cru), RESET_PROPS, first.items).items);
            |end| == |items| && forall i | 0 <= i < |items| :: end[i] == Final(h, cru, items[i])
  {
    PassDone(ClockRules(h, cru), CLOCK_PROPS, items);
    PassDone(ResetRules(h, cru), RESET_PROPS, RetargetAll(ClockRules(h, cru), CLOCK_PROPS, items).items);
  }

  lemma PassCounts(r: Rules, props: seq<string>, items: seq<Item>)
    ensures var pass := RetargetAll(r, props, items);
            && (pass.skipped == [] <==> Mapped(r, props, items))
            && (pass.skipped == [] ==> (pass.count > 0 <==> Touched(r, props, items)))
  {
    PassDone(r, props, items);
  }

  lemma EmittedWhen(h: Headers, cru: string, items: seq<Item>)
    ensures var first := RetargetAll(ClockRules(h, cru), CLOCK_PROPS, items);
            var second := RetargetAll(ResetRules(h, cru), RESET_PROPS, first.items);
            Renumbered(h, cru, items).Emitted? <==>
              cru != "" && first.skipped == [] && second.skipped == [] && first.count > 0 && second.count > 0
  {
  }

  /**
   The text is emitted exactly when the cru is known, every clock and reset index in it has exactly one
   mainline number, and there is at least one of each.
   */
  lemma AllOrNothing(h: Headers, cru: string, items: seq<Item>)
    ensures Renumbered(h, cru, items).Emitted? <==>
              && cru != ""
              && Mapped(ClockRules(h, cru), CLOCK_PROPS, items) && Mapped(ResetRules(h, cru), RESET_PROPS, items)
              && Touched(ClockRules(h, cru), CLOCK_PROPS, items) && Touched(ResetRules(h, cru), RESET_PROPS, items)
  {
    EmittedWhen(h, cru, items);
    ResetsAsBefore(h, cru, items);
    PassCounts(ClockRules(h, cru), CLOCK_PROPS, items);
    PassCounts(ResetRules(h, cru), RESET_PROPS, RetargetAll(ClockRules(h, cru), CLOCK_PROPS, items).items);
  }

  /** What is emitted is the input with the clock and reset indices rewritten and the tags respelled. */
  lemma EmittedText(h: Headers, cru: string, items: seq<Item>)
    requires Renumbered(h, cru, items).Emitted?
    ensures var out := Renumbered(h, cru, items).items;
            |out| == |items| && forall i | 0 <= i < |items| :: out[i] == Final(h, cru, items[i])
  {
    PassesEnd(h, cru, items);
  }

  lemma SameConcerns(r: Rules, props: seq<string>, a: seq<Item>, b: seq<Item>)
    requires forall item | Concerns(props, item) :: item in b <==> item in a
    ensures Mapped(r, props, a) <==> Mapped(r, props, b)
    ensures Touched(r, props, a) <==> Touched(r, props, b)
  {
  }

  /** A number is a hit for an index exactly when mainline gives it, last of all, to the spelling of a
      symbol the vendor gave that index. */
  lemma HitsAre(vendor: Header, mainline: Header, keep: string -> bool, spell: string -> string,
                cru: set<string>, index: nat, n: nat)
    ensures n in Hits(Rules(cru, ByValue(vendor, keep), ByName(mainline), spell), index) <==>
              exists name :: Define(name, index) in vendor && keep(name)
                && spell(name) in ByName(mainline) && ByName(mainline)[spell(name)] == n
  {
    var r := Rules(cru, ByValue(vendor, keep), ByName(mainline), spell);
    forall name
      ensures (index in r.vendor && name in r.vendor[index]) <==> Define(name, index) in vendor && keep(name)
    {
      ByValueNames(vendor, keep, name, index);
    }
  }

  /** The number written for an index is the mainline number of a symbol the vendor gave that index. */
  lemma IndexMeaning(vendor: Header, mainline: Header, keep: string -> bool, spell: string -> string,
                     cru: set<string>, index: nat)
    requires |Hits(Rules(cru, ByValue(vendor, keep), ByName(mainline), spell), index)| == 1
    ensures exists name :: Define(name, index) in vendor && keep(name)
              && Define(spell(name), Only(Hits(Rules(cru, ByValue(vendor, keep), ByName(mainline), spell), index))) in mainline
  {
    var n := Only(Hits(Rules(cru, ByValue(vendor, keep), ByName(mainline), spell), index));
    HitsAre(vendor, mainline, keep, spell, cru, index, n);
    var name :| Define(name, index) in vendor && keep(name)
                && spell(name) in ByName(mainline) && ByName(mainline)[spell(name)] == n;
    ByNameDefines(mainline, spell(name));
  }
}
