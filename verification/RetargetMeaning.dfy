/**
 What uboot-renumber.py is for, told from the headers and the text alone: which cells are indices, which number
 each has in mainline, when the text is emitted and with what in it.
 */
module RetargetMeaning {
  import opened Wrappers
  import opened Numerals
  import opened UbootRenumber

  // ---- the properties, the indices and their numbers ----------------------------------------------

  predicate InWord(c: char) {
    c == '_' || '0' <= c <= '9' || 'a' <= c <= 'z' || 'A' <= c <= 'Z'
  }

  /** `p` is the whole name, or its last word. */
  ghost predicate EndsInWord(name: string, p: string) {
    name == p || exists front, c :: name == front + [c] + p && !InWord(c)
  }

  /** The two passes. */
  datatype Kind = Clock | Reset

  ghost predicate Listed(kind: Kind, item: Item) {
    item.Property?
    && match kind
       case Clock => EndsInWord(item.name, "clocks") || EndsInWord(item.name, "assigned-clocks")
                     || EndsInWord(item.name, "assigned-clock-parents")
       case Reset => EndsInWord(item.name, "resets")
  }

  /** The cru's raw phandle, or its path. */
  predicate SpellsCru(cru: string, cell: string) {
    cell == cru || cell == "&{/clock-controller@ff4a0000}"
  }

  /** A number right after a spelling of the cru is its index, unless that spelling is an index itself. */
  predicate IsIndex(cru: string, cells: seq<string>, j: nat) {
    0 < j < |cells| && SpellsCru(cru, cells[j - 1]) && Int(cells[j]).Some? && !IsIndex(cru, cells, j - 1)
  }

  /** What the header last says the name is. */
  ghost predicate FinallyDefines(defs: Header, name: string, n: nat) {
    exists i :: 0 <= i < |defs| && defs[i].name == name && defs[i].value == n
                && forall j | i < j < |defs| :: defs[j].name != name
  }

  predicate ClockName(name: string) {
    "CLK" <= name || "SCLK_" <= name || "PCLK_" <= name || "HCLK_" <= name || "ACLK_" <= name || "CCLK_" <= name
    || "BCLK_" <= name || "TCLK_" <= name || "DBCLK_" <= name || "MCLK_" <= name || "DCLK_" <= name || "XIN_" <= name
  }

  /** The vendor gives a clock the index, and mainline gives the same clock this number. */
  ghost predicate ClockNumber(h: Headers, index: nat, n: nat) {
    exists name :: Define(name, index) in h.vendor && ClockName(name) && FinallyDefines(h.clocks, name, n)
  }

  /** SRST_RESETN_x is spelled SRST_x. */
  ghost predicate WithoutResetn(name: string, spelled: string) {
    (exists rest :: name == "SRST_RESETN_" + rest && spelled == "SRST_" + rest)
    || (spelled == name && forall rest :: name != "SRST_RESETN_" + rest)
  }

  /** SRST_PRESETN_x, with any letter for the P, is spelled SRST_P_x. */
  ghost predicate WithoutLetterResetn(name: string, spelled: string) {
    (exists c, rest :: 'A' <= c <= 'Z' && name == "SRST_" + [c] + "RESETN_" + rest && spelled == "SRST_" + [c] + "_" + rest)
    || (spelled == name && forall c, rest | 'A' <= c <= 'Z' :: name != "SRST_" + [c] + "RESETN_" + rest)
  }

  ghost predicate MainlineSpells(name: string, spelled: string) {
    exists middle :: WithoutResetn(name, middle) && WithoutLetterResetn(middle, spelled)
  }

  /** The vendor gives a reset the index, and mainline gives the reset, as it spells it, this number. */
  ghost predicate ResetNumber(h: Headers, index: nat, n: nat) {
    exists name, spelled ::
      Define(name, index) in h.vendor && "SRST_" <= name && MainlineSpells(name, spelled)
      && FinallyDefines(h.resets, spelled, n)
  }

  ghost predicate Number(kind: Kind, h: Headers, index: nat, n: nat) {
    match kind
    case Clock => ClockNumber(h, index, n)
    case Reset => ResetNumber(h, index, n)
  }

  /** There is exactly one number for the index. */
  ghost predicate HasOne(kind: Kind, h: Headers, index: nat) {
    exists n :: Number(kind, h, index, n) && forall m | Number(kind, h, index, m) :: m == n
  }

  // ---- the dictionaries ---------------------------------------------------------------------------

  lemma {:induction false} ByNameFinal(defs: Header, name: string, n: nat)
    ensures (name in ByName(defs) && ByName(defs)[name] == n) <==> FinallyDefines(defs, name, n)
  {
    if defs != [] {
      var front, last := defs[..|defs| - 1], defs[|defs| - 1];
      ByNameFinal(front, name, n);
      if last.name == name {
        if FinallyDefines(defs, name, n) {
          var i :| 0 <= i < |defs| && defs[i].name == name && defs[i].value == n
                   && forall j | i < j < |defs| :: defs[j].name != name;
          assert i == |defs| - 1;
        }
        if last.value == n {
          assert defs[|defs| - 1].name == name;
        }
      } else {
        if i :| 0 <= i < |defs| && defs[i].name == name && defs[i].value == n
                && forall j | i < j < |defs| :: defs[j].name != name {
          assert front[i] == defs[i] && forall j | i < j < |front| :: front[j] == defs[j];
        }
        if i :| 0 <= i < |front| && front[i].name == name && front[i].value == n
                && forall j | i < j < |front| :: front[j].name != name {
          assert defs[i] == front[i] && forall j | i < j < |defs| :: defs[j].name != name;
        }
      }
    }
  }

  lemma ClockNames(name: string)
    ensures IsClock(name) <==> ClockName(name)
  {
    var p := CLK_PREFIX;
    assert p == [p[0], p[1], p[2], p[3], p[4], p[5], p[6], p[7], p[8], p[9], p[10], p[11]];
    if ClockName(name) {
      assert exists i :: 0 <= i < 12 && p[i] <= name;
      var i :| 0 <= i < 12 && p[i] <= name;
      assert p[i] in CLK_PREFIX;
    }
  }

  lemma ClockHits(h: Headers, cru: string, index: nat, n: nat)
    ensures n in Hits(ClockRules(h, cru), index) <==> ClockNumber(h, index, n)
  {
    HitsAre(h.vendor, h.clocks, IsClock, name => name, {cru, CRU_NODE}, index, n);
    forall name ensures (name in ByName(h.clocks) && ByName(h.clocks)[name] == n) <==> FinallyDefines(h.clocks, name, n) {
      ByNameFinal(h.clocks, name, n);
    }
    forall name ensures IsClock(name) <==> ClockName(name) {
      ClockNames(name);
    }
  }

  lemma FirstSpelling(name: string, middle: string)
    ensures WithoutResetn(name, middle)
            <==> middle == if "SRST_RESETN_" <= name then "SRST_" + name[|"SRST_RESETN_"|..] else name
  {
    if "SRST_RESETN_" <= name {
      assert name == "SRST_RESETN_" + name[|"SRST_RESETN_"|..];
      forall rest | name == "SRST_RESETN_" + rest ensures rest == name[|"SRST_RESETN_"|..] {
      }
    }
  }

  lemma LetterParts(name: string, c: char, rest: string)
    requires name == "SRST_" + [c] + "RESETN_" + rest
    ensures |name| >= 13 && "SRST_" <= name && name[5] == c && name[6..13] == "RESETN_" && name[13..] == rest
  {
  }

  lemma SecondSpelling(name: string, spelled: string)
    ensures WithoutLetterResetn(name, spelled)
            <==> spelled == if |name| >= 13 && "SRST_" <= name && 'A' <= name[5] <= 'Z' && name[6..13] == "RESETN_"
                            then "SRST_" + [name[5]] + "_" + name[13..] else name
  {
    forall c, rest | 'A' <= c <= 'Z' && name == "SRST_" + [c] + "RESETN_" + rest
      ensures |name| >= 13 && "SRST_" <= name && name[5] == c && name[6..13] == "RESETN_" && name[13..] == rest
    {
      LetterParts(name, c, rest);
    }
    if |name| >= 13 && "SRST_" <= name && 'A' <= name[5] <= 'Z' && name[6..13] == "RESETN_" {
      assert name == name[..5] + [name[5]] + name[6..13] + name[13..];
      assert name == "SRST_" + [name[5]] + "RESETN_" + name[13..];
    }
  }

  lemma SpellingIs(name: string, spelled: string)
    ensures MainlineSpells(name, spelled) <==> spelled == ResetSpelling(name)
  {
    var middle := if "SRST_RESETN_" <= name then "SRST_" + name[|"SRST_RESETN_"|..] else name;
    FirstSpelling(name, middle);
    SecondSpelling(middle, spelled);
    assert WithoutLetterResetn(middle, spelled) <==> spelled == ResetSpelling(name);
    if m :| WithoutResetn(name, m) && WithoutLetterResetn(m, spelled) {
      FirstSpelling(name, m);
    }
  }

  lemma ResetHits(h: Headers, cru: string, index: nat, n: nat)
    ensures n in Hits(ResetRules(h, cru), index) <==> ResetNumber(h, index, n)
  {
    HitsAre(h.vendor, h.resets, IsReset, ResetSpelling, {cru, CRU_NODE}, index, n);
    forall name, spelled ensures MainlineSpells(name, spelled) <==> spelled == ResetSpelling(name) {
      SpellingIs(name, spelled);
    }
    forall spelled
      ensures (spelled in ByName(h.resets) && ByName(h.resets)[spelled] == n) <==> FinallyDefines(h.resets, spelled, n)
    {
      ByNameFinal(h.resets, spelled, n);
    }
    if n in Hits(ResetRules(h, cru), index) {
      var name :| Define(name, index) in h.vendor && IsReset(name)
                  && ResetSpelling(name) in ByName(h.resets) && ByName(h.resets)[ResetSpelling(name)] == n;
      assert MainlineSpells(name, ResetSpelling(name));
    }
  }

  lemma OneOf(s: set<nat>)
    ensures |s| == 1 <==> exists n :: n in s && forall m | m in s :: m == n
    ensures |s| == 1 ==> Only(s) in s
  {
    if n :| n in s && forall m | m in s :: m == n {
      assert s == {n};
    }
    if |s| == 1 {
      assert Only(s) in s;
    }
  }

  function RulesOf(kind: Kind, h: Headers, cru: string): Rules {
    match kind
    case Clock => ClockRules(h, cru)
    case Reset => ResetRules(h, cru)
  }

  function PropsOf(kind: Kind): seq<string> {
    match kind
    case Clock => CLOCK_PROPS
    case Reset => RESET_PROPS
  }

  lemma HitIsOne(kind: Kind, h: Headers, cru: string, index: nat)
    ensures var hits := Hits(RulesOf(kind, h, cru), index);
            && (|hits| == 1 <==> HasOne(kind, h, index))
            && (|hits| == 1 ==> Number(kind, h, index, Only(hits)))
  {
    var hits := Hits(RulesOf(kind, h, cru), index);
    forall n ensures n in hits <==> Number(kind, h, index, n) {
      match kind {
        case Clock => ClockHits(h, cru, index, n);
        case Reset => ResetHits(h, cru, index, n);
      }
    }
    OneOf(hits);
  }

  // ---- the scan, cell by cell ---------------------------------------------------------------------

  ghost predicate CruOf(r: Rules, cru: string) {
    forall cell :: cell in r.cru <==> SpellsCru(cru, cell)
  }

  lemma RulesCru(kind: Kind, h: Headers, cru: string)
    ensures CruOf(RulesOf(kind, h, cru), cru)
  {
  }

  /** What a cell becomes. */
  function CellAfter(r: Rules, cru: string, cells: seq<string>, k: nat): string
    requires k < |cells|
  {
    if IsIndex(cru, cells, k) && |Hits(r, Int(cells[k]).value)| == 1 then Hex(Only(Hits(r, Int(cells[k]).value)))
    else cells[k]
  }

  predicate IsLeft(r: Rules, cru: string, cells: seq<string>, k: nat)
    requires k < |cells|
  {
    IsIndex(cru, cells, k) && |Hits(r, Int(cells[k]).value)| != 1
  }

  /** How many indices from cell `k` on have no one number. */
  function LeftFrom(r: Rules, cru: string, cells: seq<string>, k: nat): nat
    requires k <= |cells|
    decreases |cells| - k
  {
    if k == |cells| then 0 else (if IsLeft(r, cru, cells, k) then 1 else 0) + LeftFrom(r, cru, cells, k + 1)
  }

  /** The cells from `j` on, each as it should become. */
  ghost predicate CellsFrom(r: Rules, cru: string, cells: seq<string>, j: nat, out: seq<string>)
    requires j <= |cells|
  {
    |out| == |cells| - j && forall k: nat | j <= k < |cells| :: out[k - j] == CellAfter(r, cru, cells, k)
  }

  lemma PairIsIndex(r: Rules, cru: string, cells: seq<string>, j: nat)
    requires CruOf(r, cru) && j < |cells| && !IsIndex(cru, cells, j)
    ensures PairAt(r.cru, cells[j..]) <==> IsIndex(cru, cells, j + 1)
    ensures IsIndex(cru, cells, j + 1) ==> !IsIndex(cru, cells, j + 2)
  {
    assert cells[j..][0] == cells[j] && (j + 1 < |cells| ==> cells[j..][1] == cells[j + 1]);
  }

  /** The scan from a cell that is no index gets every cell after it right. */
  lemma {:induction false} ScanFrom(r: Rules, cru: string, cells: seq<string>, j: nat)
    requires CruOf(r, cru) && j <= |cells| && !IsIndex(cru, cells, j)
    ensures CellsFrom(r, cru, cells, j, Scan(r, cells[j..]).cells)
    ensures |Scan(r, cells[j..]).skipped| == LeftFrom(r, cru, cells, j)
    decreases |cells| - j
  {
    if j < |cells| {
      PairIsIndex(r, cru, cells, j);
      if PairAt(r.cru, cells[j..]) {
        ScanFrom(r, cru, cells, j + 2);
        PairScanned(r, cru, cells, j);
      } else {
        ScanFrom(r, cru, cells, j + 1);
        CellScanned(r, cru, cells, j);
      }
    }
  }

  lemma LeftPair(r: Rules, cru: string, cells: seq<string>, j: nat)
    requires j + 2 <= |cells| && !IsIndex(cru, cells, j)
    ensures LeftFrom(r, cru, cells, j)
            == (if IsLeft(r, cru, cells, j + 1) then 1 else 0) + LeftFrom(r, cru, cells, j + 2)
  {
    assert LeftFrom(r, cru, cells, j) == LeftFrom(r, cru, cells, j + 1);
  }

  lemma PairScanned(r: Rules, cru: string, cells: seq<string>, j: nat)
    requires j + 2 <= |cells| && !IsIndex(cru, cells, j) && IsIndex(cru, cells, j + 1) && PairAt(r.cru, cells[j..])
    requires CellsFrom(r, cru, cells, j + 2, Scan(r, cells[j + 2..]).cells)
    requires |Scan(r, cells[j + 2..]).skipped| == LeftFrom(r, cru, cells, j + 2)
    ensures CellsFrom(r, cru, cells, j, Scan(r, cells[j..]).cells)
    ensures |Scan(r, cells[j..]).skipped| == LeftFrom(r, cru, cells, j)
  {
    assert cells[j..][0] == cells[j] && cells[j..][1] == cells[j + 1] && cells[j..][2..] == cells[j + 2..];
    var out, rest := Scan(r, cells[j..]).cells, Scan(r, cells[j + 2..]).cells;
    assert out == [CellAfter(r, cru, cells, j), CellAfter(r, cru, cells, j + 1)] + rest;
    forall k: nat | j <= k < |cells| ensures out[k - j] == CellAfter(r, cru, cells, k) {
      if k >= j + 2 {
        assert out[k - j] == rest[k - (j + 2)];
      }
    }
    LeftPair(r, cru, cells, j);
  }

  lemma CellScanned(r: Rules, cru: string, cells: seq<string>, j: nat)
    requires j < |cells| && !IsIndex(cru, cells, j) && !PairAt(r.cru, cells[j..])
    requires CellsFrom(r, cru, cells, j + 1, Scan(r, cells[j + 1..]).cells)
    requires |Scan(r, cells[j + 1..]).skipped| == LeftFrom(r, cru, cells, j + 1)
    ensures CellsFrom(r, cru, cells, j, Scan(r, cells[j..]).cells)
    ensures |Scan(r, cells[j..]).skipped| == LeftFrom(r, cru, cells, j)
  {
    assert cells[j..][0] == cells[j] && cells[j..][1..] == cells[j + 1..];
    var out, rest := Scan(r, cells[j..]).cells, Scan(r, cells[j + 1..]).cells;
    assert out == [cells[j]] + rest;
    forall k: nat | j <= k < |cells| ensures out[k - j] == CellAfter(r, cru, cells, k) {
      if k > j {
        assert out[k - j] == rest[k - (j + 1)];
      }
    }
  }

  lemma ScanCells(r: Rules, cru: string, cells: seq<string>)
    requires CruOf(r, cru)
    ensures |Scan(r, cells).cells| == |cells|
    ensures forall k | 0 <= k < |cells| :: Scan(r, cells).cells[k] == CellAfter(r, cru, cells, k)
    ensures |Scan(r, cells).skipped| == LeftFrom(r, cru, cells, 0)
  {
    assert cells[0..] == cells;
    ScanFrom(r, cru, cells, 0);
    forall k | 0 <= k < |cells| ensures Scan(r, cells).cells[k] == CellAfter(r, cru, cells, k) {
      assert Scan(r, cells).cells[k - 0] == CellAfter(r, cru, cells, k);
    }
  }

  /** The indices the scan meets are those of the positions. */
  lemma {:induction false} IndicesFrom(r: Rules, cru: string, cells: seq<string>, j: nat, index: nat)
    requires CruOf(r, cru) && j <= |cells| && !IsIndex(cru, cells, j)
    ensures index in Indices(r, cells[j..])
            <==> exists k: nat :: j <= k && IsIndex(cru, cells, k) && Int(cells[k]) == Some(index)
    decreases |cells| - j
  {
    if j < |cells| {
      PairIsIndex(r, cru, cells, j);
      if PairAt(r.cru, cells[j..]) {
        assert cells[j..][1] == cells[j + 1] && cells[j..][2..] == cells[j + 2..];
        IndicesFrom(r, cru, cells, j + 2, index);
        assert IsIndex(cru, cells, j + 1);
      } else {
        assert cells[j..][1..] == cells[j + 1..];
        IndicesFrom(r, cru, cells, j + 1, index);
      }
    }
  }

  lemma IndicesAre(r: Rules, cru: string, cells: seq<string>, index: nat)
    requires CruOf(r, cru)
    ensures index in Indices(r, cells) <==> exists k: nat :: IsIndex(cru, cells, k) && Int(cells[k]) == Some(index)
  {
    assert cells[0..] == cells;
    IndicesFrom(r, cru, cells, 0, index);
  }

  // ---- the properties -----------------------------------------------------------------------------

  lemma WordEnd(name: string, p: string)
    ensures MatchesOne(name, p) <==> EndsInWord(name, p)
  {
    if MatchesOne(name, p) && |name| > |p| {
      var at := |name| - |p| - 1;
      assert name == name[..at] + [name[at]] + p;
    }
    if front, c :| name == front + [c] + p && !InWord(c) {
      assert name[|name| - |p|..] == p && name[|name| - |p| - 1] == c;
    }
  }

  lemma ListedIs(kind: Kind, item: Item)
    ensures Concerns(PropsOf(kind), item) <==> Listed(kind, item)
  {
    if item.Property? {
      WordEnd(item.name, "clocks");
      WordEnd(item.name, "assigned-clocks");
      WordEnd(item.name, "assigned-clock-parents");
      WordEnd(item.name, "resets");
      assert forall p :: p in CLOCK_PROPS <==> p == "clocks" || p == "assigned-clocks" || p == "assigned-clock-parents";
    }
  }

  // ---- when the text is emitted -------------------------------------------------------------------

  /** Cell `j` of this group of this item is an index of the kind. */
  ghost predicate IndexAt(kind: Kind, cru: string, items: seq<Item>, i: nat, g: nat, j: nat, index: nat) {
    && i < |items| && Listed(kind, items[i]) && g < |items[i].groups|
    && IsIndex(cru, items[i].groups[g], j) && Int(items[i].groups[g][j]) == Some(index)
  }

  ghost predicate AllHaveOne(kind: Kind, h: Headers, cru: string, items: seq<Item>) {
    forall i, g, j, index | IndexAt(kind, cru, items, i, g, j, index) :: HasOne(kind, h, index)
  }

  ghost predicate SomeIndex(kind: Kind, cru: string, items: seq<Item>) {
    exists i, g, j, index :: IndexAt(kind, cru, items, i, g, j, index)
  }

  lemma MappedMeans(kind: Kind, h: Headers, cru: string, items: seq<Item>)
    ensures Mapped(RulesOf(kind, h, cru), PropsOf(kind), items) <==> AllHaveOne(kind, h, cru, items)
  {
    var r, props := RulesOf(kind, h, cru), PropsOf(kind);
    RulesCru(kind, h, cru);
    if Mapped(r, props, items) {
      forall i: nat, g: nat, j: nat, index: nat | IndexAt(kind, cru, items, i, g, j, index) ensures HasOne(kind, h, index) {
        ListedIs(kind, items[i]);
        IndicesAre(r, cru, items[i].groups[g], index);
        HitIsOne(kind, h, cru, index);
        assert items[i] in items && items[i].groups[g] in items[i].groups;
      }
    }
    if AllHaveOne(kind, h, cru, items) {
      forall item | item in items ensures ItemMapped(r, props, item) {
        ItemMappedMeans(kind, h, cru, items, item);
      }
    }
  }

  lemma ItemMappedMeans(kind: Kind, h: Headers, cru: string, items: seq<Item>, item: Item)
    requires AllHaveOne(kind, h, cru, items) && item in items
    ensures ItemMapped(RulesOf(kind, h, cru), PropsOf(kind), item)
  {
    var r := RulesOf(kind, h, cru);
    RulesCru(kind, h, cru);
    ListedIs(kind, item);
    if Concerns(PropsOf(kind), item) {
      var i :| 0 <= i < |items| && items[i] == item;
      forall group, index | group in item.groups && index in Indices(r, group) ensures |Hits(r, index)| == 1 {
        var g :| 0 <= g < |item.groups| && item.groups[g] == group;
        IndicesAre(r, cru, group, index);
        var j: nat :| IsIndex(cru, group, j) && Int(group[j]) == Some(index);
        assert IndexAt(kind, cru, items, i, g, j, index);
        HitIsOne(kind, h, cru, index);
      }
    }
  }

  lemma TouchedMeans(kind: Kind, h: Headers, cru: string, items: seq<Item>)
    ensures Touched(RulesOf(kind, h, cru), PropsOf(kind), items) <==> SomeIndex(kind, cru, items)
  {
    var r, props := RulesOf(kind, h, cru), PropsOf(kind);
    RulesCru(kind, h, cru);
    if i: nat, g: nat, j: nat, index: nat :| IndexAt(kind, cru, items, i, g, j, index) {
      ListedIs(kind, items[i]);
      IndicesAre(r, cru, items[i].groups[g], index);
      assert items[i] in items && items[i].groups[g] in items[i].groups;
      assert ItemTouched(r, props, items[i]);
    }
    if item :| item in items && ItemTouched(r, props, item) {
      ListedIs(kind, item);
      var i :| 0 <= i < |items| && items[i] == item;
      var group :| group in item.groups && Indices(r, group) != [];
      var g :| 0 <= g < |item.groups| && item.groups[g] == group;
      var index := Indices(r, group)[0];
      IndicesAre(r, cru, group, index);
      var j: nat :| IsIndex(cru, group, j) && Int(group[j]) == Some(index);
      assert IndexAt(kind, cru, items, i, g, j, index);
    }
  }

  /**
   The text is emitted exactly when the cru is known, every index of a clock and of a reset has one number in
   mainline, and there is at least one of each.
   */
  lemma EmittedWhenMapped(h: Headers, cru: string, items: seq<Item>)
    ensures Renumbered(h, cru, items).Emitted?
            <==> && cru != ""
                 && AllHaveOne(Clock, h, cru, items) && AllHaveOne(Reset, h, cru, items)
                 && SomeIndex(Clock, cru, items) && SomeIndex(Reset, cru, items)
  {
    AllOrNothing(h, cru, items);
    MappedMeans(Clock, h, cru, items);
    MappedMeans(Reset, h, cru, items);
    TouchedMeans(Clock, h, cru, items);
    TouchedMeans(Reset, h, cru, items);
  }

  // ---- what is emitted ----------------------------------------------------------------------------

  /** An index becomes its number, in hexadecimal, and any other cell is kept. */
  ghost predicate CellBecomes(kind: Kind, h: Headers, cru: string, cells: seq<string>, j: nat, after: string)
    requires j < |cells|
  {
    if IsIndex(cru, cells, j) then
      exists n: nat :: Number(kind, h, Int(cells[j]).value, n) && Int(after) == Some(n) && after == Hex(n)
    else after == cells[j]
  }

  ghost predicate GroupBecomes(kind: Kind, h: Headers, cru: string, before: seq<string>, after: seq<string>) {
    |after| == |before| && forall j | 0 <= j < |before| :: CellBecomes(kind, h, cru, before, j, after[j])
  }

  /** The cells of the clocks and resets become their numbers, the phase tags mainline's; the rest is kept. */
  ghost predicate ItemBecomes(h: Headers, cru: string, before: Item, after: Item) {
    match before
    case Other(_) => after == before
    case TagLine(name) =>
      after == TagLine(if name == "u-boot,dm-pre-reloc" then "bootph-all"
                       else if name == "u-boot,dm-spl" then "bootph-pre-ram" else name)
    case Property(name, groups) =>
      if Listed(Clock, before) || Listed(Reset, before) then
        && after.Property? && after.name == name && |after.groups| == |groups|
        && (Listed(Clock, before) ==> forall g | 0 <= g < |groups| :: GroupBecomes(Clock, h, cru, groups[g], after.groups[g]))
        && (Listed(Reset, before) ==> forall g | 0 <= g < |groups| :: GroupBecomes(Reset, h, cru, groups[g], after.groups[g]))
      else after == before
  }

  lemma GroupScanned(kind: Kind, h: Headers, cru: string, cells: seq<string>)
    requires forall j: nat | IsIndex(cru, cells, j) :: HasOne(kind, h, Int(cells[j]).value)
    ensures GroupBecomes(kind, h, cru, cells, Scan(RulesOf(kind, h, cru), cells).cells)
  {
    var r := RulesOf(kind, h, cru);
    RulesCru(kind, h, cru);
    ScanCells(r, cru, cells);
    forall j | 0 <= j < |cells| ensures CellBecomes(kind, h, cru, cells, j, Scan(r, cells).cells[j]) {
      if IsIndex(cru, cells, j) {
        var index := Int(cells[j]).value;
        HitIsOne(kind, h, cru, index);
        IntOfHex(Only(Hits(r, index)));
      }
    }
  }

  lemma ItemScanned(kind: Kind, h: Headers, cru: string, items: seq<Item>, i: nat)
    requires AllHaveOne(kind, h, cru, items) && i < |items| && Listed(kind, items[i])
    ensures var after := Rewritten(RulesOf(kind, h, cru), PropsOf(kind), items[i]);
            && after.Property? && after.name == items[i].name && |after.groups| == |items[i].groups|
            && forall g | 0 <= g < |items[i].groups| :: GroupBecomes(kind, h, cru, items[i].groups[g], after.groups[g])
  {
    ListedIs(kind, items[i]);
    forall g | 0 <= g < |items[i].groups|
      ensures GroupBecomes(kind, h, cru, items[i].groups[g], Scan(RulesOf(kind, h, cru), items[i].groups[g]).cells)
    {
      var cells := items[i].groups[g];
      forall j: nat | IsIndex(cru, cells, j) ensures HasOne(kind, h, Int(cells[j]).value) {
        assert IndexAt(kind, cru, items, i, g, j, Int(cells[j]).value);
      }
      GroupScanned(kind, h, cru, cells);
    }
  }

  lemma FinalBecomes(h: Headers, cru: string, items: seq<Item>, i: nat)
    requires AllHaveOne(Clock, h, cru, items) && AllHaveOne(Reset, h, cru, items) && i < |items|
    ensures ItemBecomes(h, cru, items[i], Final(h, cru, items[i]))
  {
    var item := items[i];
    ListedIs(Clock, item);
    ListedIs(Reset, item);
    PassesApart(h, cru, item);
    if Listed(Clock, item) {
      ClockIsNotReset(item.name);
      ItemScanned(Clock, h, cru, items, i);
    } else if Listed(Reset, item) {
      ItemScanned(Reset, h, cru, items, i);
    }
  }

  /** What is then written, item by item. */
  lemma EmittedBecomes(h: Headers, cru: string, items: seq<Item>)
    requires Renumbered(h, cru, items).Emitted?
    ensures var out := Renumbered(h, cru, items).items;
            |out| == |items| && forall i | 0 <= i < |items| :: ItemBecomes(h, cru, items[i], out[i])
  {
    EmittedWhenMapped(h, cru, items);
    EmittedText(h, cru, items);
    forall i | 0 <= i < |items| ensures ItemBecomes(h, cru, items[i], Renumbered(h, cru, items).items[i]) {
      FinalBecomes(h, cru, items, i);
    }
  }

  // ---- why it is not ------------------------------------------------------------------------------

  /** How many indices of a group, from cell `k` on, have no one number. */
  ghost function LeftIn(kind: Kind, h: Headers, cru: string, cells: seq<string>, k: nat): nat
    requires k <= |cells|
    decreases |cells| - k
  {
    if k == |cells| then 0
    else (if IsIndex(cru, cells, k) && !HasOne(kind, h, Int(cells[k]).value) then 1 else 0)
         + LeftIn(kind, h, cru, cells, k + 1)
  }

  ghost function LeftInGroups(kind: Kind, h: Headers, cru: string, groups: seq<seq<string>>): nat {
    if groups == [] then 0
    else LeftInGroups(kind, h, cru, groups[..|groups| - 1]) + LeftIn(kind, h, cru, groups[|groups| - 1], 0)
  }

  /** How many indices of the text have no one number. */
  ghost function LeftInItems(kind: Kind, h: Headers, cru: string, items: seq<Item>): nat {
    if items == [] then 0
    else
      var last := items[|items| - 1];
      LeftInItems(kind, h, cru, items[..|items| - 1])
      + if Listed(kind, last) then LeftInGroups(kind, h, cru, last.groups) else 0
  }

  lemma {:induction false} LeftFromIs(kind: Kind, h: Headers, cru: string, cells: seq<string>, k: nat)
    requires k <= |cells|
    ensures LeftFrom(RulesOf(kind, h, cru), cru, cells, k) == LeftIn(kind, h, cru, cells, k)
    decreases |cells| - k
  {
    if k < |cells| {
      LeftFromIs(kind, h, cru, cells, k + 1);
      if IsIndex(cru, cells, k) {
        HitIsOne(kind, h, cru, Int(cells[k]).value);
      }
    }
  }

  lemma {:induction false} GroupsLeft(kind: Kind, h: Headers, cru: string, groups: seq<seq<string>>)
    ensures |ScanGroups(RulesOf(kind, h, cru), groups).2| == LeftInGroups(kind, h, cru, groups)
  {
    if groups != [] {
      var front, last := groups[..|groups| - 1], groups[|groups| - 1];
      GroupsLeft(kind, h, cru, front);
      RulesCru(kind, h, cru);
      ScanCells(RulesOf(kind, h, cru), cru, last);
      LeftFromIs(kind, h, cru, last, 0);
    }
  }

  lemma {:induction false} ItemsLeft(kind: Kind, h: Headers, cru: string, items: seq<Item>)
    ensures |RetargetAll(RulesOf(kind, h, cru), PropsOf(kind), items).skipped| == LeftInItems(kind, h, cru, items)
  {
    if items != [] {
      var front, last := items[..|items| - 1], items[|items| - 1];
      ItemsLeft(kind, h, cru, front);
      ListedIs(kind, last);
      if Listed(kind, last) {
        GroupsLeft(kind, h, cru, last.groups);
      }
    }
  }

  /** The first pass leaves the resets as they were. */
  lemma {:induction false} ResetsLeftAlone(h: Headers, cru: string, items: seq<Item>, after: seq<Item>)
    requires |after| == |items|
    requires forall i | 0 <= i < |items| :: after[i] == Rewritten(ClockRules(h, cru), CLOCK_PROPS, items[i])
    ensures LeftInItems(Reset, h, cru, after) == LeftInItems(Reset, h, cru, items)
  {
    if items != [] {
      var last := items[|items| - 1];
      ResetsLeftAlone(h, cru, items[..|items| - 1], after[..|after| - 1]);
      PassesApart(h, cru, last);
      ListedIs(Reset, last);
      ListedIs(Reset, after[|after| - 1]);
    }
  }

  /** An unknown cru comes first, then the indices left, however many, then nothing to do. */
  function Why(cru: string, left: nat): Refusal {
    if cru == "" then NoCru else if left > 0 then LeftAtVendorNumbering(left) else NothingRetargeted
  }

  lemma RefusalOf(cru: string, first: Pass, second: Pass, outcome: Outcome, left: nat)
    requires outcome == if cru == "" then Refused(NoCru) else Verdict(first, second)
    requires !outcome.Emitted? && left == |first.skipped| + |second.skipped|
    ensures outcome == Refused(Why(cru, left))
  {
  }

  lemma RenumberedIs(h: Headers, cru: string, items: seq<Item>, first: Pass, second: Pass)
    requires first == RetargetAll(ClockRules(h, cru), CLOCK_PROPS, items)
    requires second == RetargetAll(ResetRules(h, cru), RESET_PROPS, first.items)
    ensures Renumbered(h, cru, items) == if cru == "" then Refused(NoCru) else Verdict(first, second)
  {
  }

  /** What is answered when the text is not emitted. */
  lemma RefusedBecause(h: Headers, cru: string, items: seq<Item>)
    requires !Renumbered(h, cru, items).Emitted?
    ensures Renumbered(h, cru, items) == Refused(Why(cru, LeftAtVendor(h, cru, items)))
  {
    var first, second := Passes(h, cru, items);
    RefusalOf(cru, first, second, Renumbered(h, cru, items), LeftAtVendor(h, cru, items));
  }

  ghost function LeftAtVendor(h: Headers, cru: string, items: seq<Item>): nat {
    LeftInItems(Clock, h, cru, items) + LeftInItems(Reset, h, cru, items)
  }

  lemma Passes(h: Headers, cru: string, items: seq<Item>) returns (first: Pass, second: Pass)
    ensures Renumbered(h, cru, items) == if cru == "" then Refused(NoCru) else Verdict(first, second)
    ensures |first.skipped| + |second.skipped| == LeftAtVendor(h, cru, items)
  {
    first := RetargetAll(ClockRules(h, cru), CLOCK_PROPS, items);
    second := RetargetAll(ResetRules(h, cru), RESET_PROPS, first.items);
    SkippedAre(h, cru, items);
    RenumberedIs(h, cru, items, first, second);
  }

  lemma SkippedAre(h: Headers, cru: string, items: seq<Item>)
    ensures var first := RetargetAll(ClockRules(h, cru), CLOCK_PROPS, items);
            && |first.skipped| == LeftInItems(Clock, h, cru, items)
            && |RetargetAll(ResetRules(h, cru), RESET_PROPS, first.items).skipped| == LeftInItems(Reset, h, cru, items)
  {
    var first := RetargetAll(ClockRules(h, cru), CLOCK_PROPS, items);
    PassDone(ClockRules(h, cru), CLOCK_PROPS, items);
    ItemsLeft(Clock, h, cru, items);
    ItemsLeft(Reset, h, cru, first.items);
    ResetsLeftAlone(h, cru, items, first.items);
  }
}
