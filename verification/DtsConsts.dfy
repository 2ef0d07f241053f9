/** dts-consts.py: numbers replaced by the dt-bindings names that expand to them. */
module DtsConsts {
  import opened Wrappers
  import opened Numerals
  import opened UbootRenumber

  /** The header a provider label reads its names from, and which of them it takes. */
  datatype Provider = Provider(file: string, keep: string -> bool)

  /** The headers by file name, and the providers by label. */
  datatype Bindings = Bindings(files: map<string, Header>, providers: map<string, Provider>)

  predicate IsScmi(name: string) {
    "SCMI_" <= name
  }

  /** PROVIDERS, for one SoC. */
  function ProvidersOf(soc: string): map<string, Provider> {
    map["cru" := Provider("clock/" + soc + "-cru.h", n => !IsScmi(n)),
        "scmi_clk" := Provider("clock/" + soc + "-cru.h", IsScmi),
        "power" := Provider("power/" + soc + "-power.h", n => true)]
  }

  function HeaderOf(b: Bindings, file: string): Header {
    if file in b.files then b.files[file] else []   // a header that cannot be opened
  }

  function Keep(names: seq<string>, keep: string -> bool): (kept: seq<string>)
    ensures forall n :: n in kept <==> n in names && keep(n)
  {
    if names == [] then [] else (if keep(names[0]) then [names[0]] else []) + Keep(names[1..], keep)
  }

  /** The names a provider's header gives `value`. */
  function NamesFor(b: Bindings, provider: string, value: nat): seq<string> {
    if provider !in b.providers then []
    else
      var p := b.providers[provider];
      var table := ByValue(HeaderOf(b, p.file), n => true);
      Keep(if value in table then table[value] else [], p.keep)
  }

  lemma NamesAre(b: Bindings, provider: string, value: nat, name: string)
    requires provider in b.providers
    ensures var p := b.providers[provider];
            name in NamesFor(b, provider, value) <==> Define(name, value) in HeaderOf(b, p.file) && p.keep(name)
  {
    ByValueNames(HeaderOf(b, b.providers[provider].file), n => true, name, value);
  }

  /** The three providers: the two for clocks read one header and share none of its names, each going to one. */
  lemma ProvidersApart(files: map<string, Header>, soc: string, value: nat, name: string)
    ensures var b := Bindings(files, ProvidersOf(soc));
            var defined := Define(name, value) in HeaderOf(b, "clock/" + soc + "-cru.h");
            && (name in NamesFor(b, "cru", value) <==> defined && !IsScmi(name))
            && (name in NamesFor(b, "scmi_clk", value) <==> defined && IsScmi(name))
            && (name in NamesFor(b, "power", value) <==> Define(name, value) in HeaderOf(b, "power/" + soc + "-power.h"))
            && b.providers.Keys == {"cru", "scmi_clk", "power"}
  {
    var b := Bindings(files, ProvidersOf(soc));
    NamesAre(b, "cru", value, name);
    NamesAre(b, "scmi_clk", value, name);
    NamesAre(b, "power", value, name);
  }

  /** `name_for`: the name, if there is exactly one. */
  function NameFor(b: Bindings, provider: string, value: nat): Option<string> {
    var names := NamesFor(b, provider, value);
    if |names| == 1 then Some(names[0]) else None
  }

  /** `int(tok, 16)` where the script asks for it: a hexadecimal cell under a known provider. */
  function CellValue(provider: string, token: string): Option<nat> {
    if provider != "" && "0x" <= token then Int(token) else None
  }

  /** The name a cell becomes, if it becomes one. */
  function CellName(b: Bindings, provider: string, token: string): Option<string> {
    var v := CellValue(provider, token);
    if v.None? then None else NameFor(b, provider, v.value)
  }

  /** What one token does: the provider in force after it, what it becomes, the header that needs. */
  datatype Turn = Turn(provider: string, cell: string, used: set<string>)

  function TurnOf(b: Bindings, provider: string, token: string): Turn {
    if "&" <= token then Turn(token[1..], token, {})
    else
      var name := CellName(b, provider, token);
      if name.Some? then Turn(provider, name.value, {b.providers[provider].file}) else Turn(provider, token, {})
  }

  /** One group, read with `provider` in force: the new cells and the headers they need. */
  function Named(b: Bindings, provider: string, tokens: seq<string>): (seq<string>, set<string>)
    decreases tokens
  {
    if tokens == [] then ([], {})
    else
      var t := TurnOf(b, provider, tokens[0]);
      var rest := Named(b, t.provider, tokens[1..]);
      ([t.cell] + rest.0, t.used + rest.1)
  }

  lemma NamedStep(b: Bindings, provider: string, tokens: seq<string>, i: nat, out: seq<string>, used: set<string>)
    requires i < |tokens|
    ensures var t := TurnOf(b, provider, tokens[i]);
            var rest := Named(b, t.provider, tokens[i + 1..]);
            && out + Named(b, provider, tokens[i..]).0 == out + [t.cell] + rest.0
            && used + Named(b, provider, tokens[i..]).1 == used + t.used + rest.1
  {
    assert tokens[i..][0] == tokens[i] && tokens[i..][1..] == tokens[i + 1..];
  }

  /** `cells` */
  method NameCells(b: Bindings, tokens: seq<string>) returns (out: seq<string>, used: set<string>)
    ensures out == Named(b, "", tokens).0 && used == Named(b, "", tokens).1
    ensures NamedWhereSole(b, tokens, out, used)
  {
    CellsNamed(b, tokens);
    var provider := "";
    out, used := [], {};
    for i := 0 to |tokens|
      invariant Named(b, "", tokens).0 == out + Named(b, provider, tokens[i..]).0
      invariant Named(b, "", tokens).1 == used + Named(b, provider, tokens[i..]).1
    {
      NamedStep(b, provider, tokens, i, out, used);
      var t := TurnOf(b, provider, tokens[i]);
      provider, out, used := t.provider, out + [t.cell], used + t.used;
    }
  }

  // ---- what is named, told from the tokens and the headers ------------------------------------------

  predicate IsLabel(token: string) {
    token != [] && token[0] == '&'
  }

  /** The last `&` before token `i` names this provider. */
  ghost predicate Under(tokens: seq<string>, i: nat, provider: string) {
    exists j :: 0 <= j < i <= |tokens| && tokens[j] == "&" + provider && forall k | j < k < i :: !IsLabel(tokens[k])
  }

  predicate Defines(d: Define, keep: string -> bool, value: nat) {
    d.value == value && keep(d.name)
  }

  /** Exactly one definition of the header gives the value, among the names kept, and this is its name. */
  ghost predicate SoleName(defs: Header, keep: string -> bool, value: nat, name: string) {
    exists d :: && 0 <= d < |defs| && Defines(defs[d], keep, value) && defs[d].name == name
                && forall e | 0 <= e < |defs| && e != d :: !Defines(defs[e], keep, value)
  }

  /** Token `i` is a hexadecimal number under a provider whose header has a sole name for it. */
  ghost predicate Becomes(b: Bindings, tokens: seq<string>, i: nat, name: string, file: string) {
    i < |tokens| && exists provider, value :: NamedUnder(b, tokens, i, provider, value, name, file)
  }

  ghost predicate NamedUnder(b: Bindings, tokens: seq<string>, i: nat, provider: string, value: nat, name: string, file: string)
    requires i < |tokens|
  {
    && provider != "" && Under(tokens, i, provider)
    && |tokens[i]| >= 2 && tokens[i][0] == '0' && tokens[i][1] == 'x' && Int(tokens[i]) == Some(value)
    && provider in b.providers && b.providers[provider].file == file && file in b.files
    && SoleName(b.files[file], b.providers[provider].keep, value, name)
  }

  /** The kept names the definitions give `value`, in order. */
  function NamesIn(defs: Header, keep: string -> bool, value: nat): seq<string> {
    if defs == [] then []
    else
      var last := defs[|defs| - 1];
      NamesIn(defs[..|defs| - 1], keep, value) + if Defines(last, keep, value) then [last.name] else []
  }

  lemma {:induction false} KeepSnoc(names: seq<string>, name: string, keep: string -> bool)
    ensures Keep(names + [name], keep) == Keep(names, keep) + if keep(name) then [name] else []
  {
    if names == [] {
      assert [] + [name] == [name] && [name][1..] == [];
    } else {
      assert (names + [name])[1..] == names[1..] + [name];
      KeepSnoc(names[1..], name, keep);
    }
  }

  lemma {:induction false} TableNames(defs: Header, keep: string -> bool, value: nat)
    ensures var table := ByValue(defs, n => true);
            Keep(if value in table then table[value] else [], keep) == NamesIn(defs, keep, value)
  {
    if defs != [] {
      var front, last := defs[..|defs| - 1], defs[|defs| - 1];
      TableNames(front, keep, value);
      var before := ByValue(front, n => true);
      assert ByValue(defs, n => true) == WithName(before, last);
      if last.value == value {
        KeepSnoc(if value in before then before[value] else [], last.name, keep);
      }
    }
  }

  lemma {:induction false} NoNames(defs: Header, keep: string -> bool, value: nat)
    ensures NamesIn(defs, keep, value) == [] <==> forall d | 0 <= d < |defs| :: !Defines(defs[d], keep, value)
  {
    if defs != [] {
      NoNames(defs[..|defs| - 1], keep, value);
    }
  }

  lemma {:induction false} OneName(defs: Header, keep: string -> bool, value: nat, name: string)
    ensures NamesIn(defs, keep, value) == [name] <==> SoleName(defs, keep, value, name)
  {
    if defs != [] {
      var front, last := defs[..|defs| - 1], defs[|defs| - 1];
      assert defs == front + [last];
      OneName(front, keep, value, name);
      NoNames(front, keep, value);
      if Defines(last, keep, value) {
        LastIsSole(front, last, keep, value, name);
        SnocIsOne(NamesIn(front, keep, value), last.name, name);
      } else {
        LastIsNot(front, last, keep, value, name);
      }
    }
  }

  lemma SnocIsOne(names: seq<string>, last: string, name: string)
    ensures names + [last] == [name] <==> names == [] && last == name
  {
    if names + [last] == [name] {
      assert |names + [last]| == |names| + 1 == 1;
      assert (names + [last])[0] == last;
    }
  }

  lemma LastIsSole(front: Header, last: Define, keep: string -> bool, value: nat, name: string)
    requires Defines(last, keep, value)
    ensures SoleName(front + [last], keep, value, name)
            <==> last.name == name && forall d | 0 <= d < |front| :: !Defines(front[d], keep, value)
  {
    var defs := front + [last];
    assert defs[|front|] == last;
    if forall d | 0 <= d < |front| :: !Defines(front[d], keep, value) {
      assert forall e | 0 <= e < |defs| && e != |front| :: defs[e] == front[e];
    } else {
      var d :| 0 <= d < |front| && Defines(front[d], keep, value);
      assert defs[d] == front[d];
    }
  }

  lemma LastIsNot(front: Header, last: Define, keep: string -> bool, value: nat, name: string)
    requires !Defines(last, keep, value)
    ensures SoleName(front + [last], keep, value, name) <==> SoleName(front, keep, value, name)
  {
    var defs := front + [last];
    assert defs[|front|] == last && forall e | 0 <= e < |front| :: defs[e] == front[e];
  }

  /** `name_for` finds a name exactly when it is the sole one. */
  lemma NameForIsSole(b: Bindings, provider: string, value: nat, name: string)
    ensures NameFor(b, provider, value) == Some(name)
            <==> && provider in b.providers && b.providers[provider].file in b.files
                 && SoleName(b.files[b.providers[provider].file], b.providers[provider].keep, value, name)
  {
    if provider in b.providers {
      var p := b.providers[provider];
      TableNames(HeaderOf(b, p.file), p.keep, value);
      OneName(HeaderOf(b, p.file), p.keep, value, name);
    }
  }

  /** The provider in force before token `i`. */
  function ProviderAt(first: string, tokens: seq<string>, i: nat): string
    requires i <= |tokens|
  {
    if i == 0 then first
    else if IsLabel(tokens[i - 1]) then tokens[i - 1][1..]
    else ProviderAt(first, tokens, i - 1)
  }

  lemma {:induction false} ProviderIsUnder(tokens: seq<string>, i: nat, provider: string)
    requires i <= |tokens| && provider != ""
    ensures ProviderAt("", tokens, i) == provider <==> Under(tokens, i, provider)
  {
    if i > 0 {
      ProviderIsUnder(tokens, i - 1, provider);
      if IsLabel(tokens[i - 1]) {
        assert tokens[i - 1] == "&" + tokens[i - 1][1..];
      } else {
        assert "&" + provider != tokens[i - 1] by {
          assert ("&" + provider)[0] == '&';
        }
      }
    }
  }

  lemma {:induction false} ProviderShift(first: string, tokens: seq<string>, i: nat)
    requires 0 < i <= |tokens|
    ensures ProviderAt(first, tokens, i)
            == ProviderAt(if IsLabel(tokens[0]) then tokens[0][1..] else first, tokens[1..], i - 1)
  {
    if i > 1 {
      ProviderShift(first, tokens, i - 1);
    }
  }

  lemma ProviderNext(b: Bindings, first: string, tokens: seq<string>)
    requires tokens != []
    ensures var t := TurnOf(b, first, tokens[0]);
            forall i | 0 < i < |tokens| :: ProviderAt(first, tokens, i) == ProviderAt(t.provider, tokens[1..], i - 1)
  {
    var t := TurnOf(b, first, tokens[0]);
    assert t.provider == if IsLabel(tokens[0]) then tokens[0][1..] else first;
    forall i | 0 < i < |tokens| ensures ProviderAt(first, tokens, i) == ProviderAt(t.provider, tokens[1..], i - 1) {
      ProviderShift(first, tokens, i);
    }
  }

  lemma {:induction false} NamedAt(b: Bindings, first: string, tokens: seq<string>)
    ensures var out := Named(b, first, tokens).0;
            |out| == |tokens|
            && forall i | 0 <= i < |tokens| :: out[i] == TurnOf(b, ProviderAt(first, tokens, i), tokens[i]).cell
    decreases tokens
  {
    if tokens != [] {
      var t := TurnOf(b, first, tokens[0]);
      NamedAt(b, t.provider, tokens[1..]);
      ProviderNext(b, first, tokens);
    }
  }

  lemma {:induction false} HeadersAt(b: Bindings, first: string, tokens: seq<string>)
    ensures forall file :: file in Named(b, first, tokens).1
              <==> exists i :: 0 <= i < |tokens| && file in TurnOf(b, ProviderAt(first, tokens, i), tokens[i]).used
    decreases tokens
  {
    if tokens != [] {
      var t := TurnOf(b, first, tokens[0]);
      HeadersAt(b, t.provider, tokens[1..]);
      ProviderNext(b, first, tokens);
      NamedHeaders(b, first, tokens, t);
    }
  }

  lemma NamedHeaders(b: Bindings, first: string, tokens: seq<string>, t: Turn)
    requires tokens != [] && t == TurnOf(b, first, tokens[0])
    requires forall i | 0 < i < |tokens| :: ProviderAt(first, tokens, i) == ProviderAt(t.provider, tokens[1..], i - 1)
    requires forall file :: file in Named(b, t.provider, tokens[1..]).1
               <==> exists i :: 0 <= i < |tokens[1..]| && file in TurnOf(b, ProviderAt(t.provider, tokens[1..], i), tokens[1..][i]).used
    ensures forall file :: file in Named(b, first, tokens).1
              <==> exists i :: 0 <= i < |tokens| && file in TurnOf(b, ProviderAt(first, tokens, i), tokens[i]).used
  {
    forall file
      ensures file in Named(b, first, tokens).1
              <==> exists i :: 0 <= i < |tokens| && file in TurnOf(b, ProviderAt(first, tokens, i), tokens[i]).used
    {
      if file in t.used {
        assert file in TurnOf(b, ProviderAt(first, tokens, 0), tokens[0]).used;
      }
      if i :| 0 <= i < |tokens[1..]| && file in TurnOf(b, ProviderAt(t.provider, tokens[1..], i), tokens[1..][i]).used {
        assert file in TurnOf(b, ProviderAt(first, tokens, i + 1), tokens[i + 1]).used;
      }
      if i :| 0 <= i < |tokens| && file in TurnOf(b, ProviderAt(first, tokens, i), tokens[i]).used {
        if i > 0 {
          assert file in TurnOf(b, ProviderAt(t.provider, tokens[1..], i - 1), tokens[1..][i - 1]).used;
        }
      }
    }
  }

  /** One token. */
  lemma TurnBecomes(b: Bindings, tokens: seq<string>, i: nat)
    requires i < |tokens|
    ensures var t := TurnOf(b, ProviderAt("", tokens, i), tokens[i]);
            && (forall name, file | Becomes(b, tokens, i, name, file) :: t.cell == name)
            && ((forall name, file :: !Becomes(b, tokens, i, name, file)) ==> t.cell == tokens[i])
            && forall file :: file in t.used <==> exists name :: Becomes(b, tokens, i, name, file)
  {
    var provider := ProviderAt("", tokens, i);
    forall name, file ensures Becomes(b, tokens, i, name, file) <==> TurnNames(b, provider, tokens[i], name, file) {
      BecomesTurn(b, tokens, i, name, file);
    }
    TurnIsNamed(b, provider, tokens[i]);
  }

  ghost predicate TurnNames(b: Bindings, provider: string, token: string, name: string, file: string) {
    !IsLabel(token) && CellName(b, provider, token) == Some(name) && provider in b.providers && b.providers[provider].file == file
  }

  lemma TurnIsNamed(b: Bindings, provider: string, token: string)
    ensures var t := TurnOf(b, provider, token);
            && (forall name, file | TurnNames(b, provider, token, name, file) :: t.cell == name)
            && ((forall name, file :: !TurnNames(b, provider, token, name, file)) ==> t.cell == token)
            && forall file :: file in t.used <==> exists name :: TurnNames(b, provider, token, name, file)
  {
    assert IsLabel(token) <==> "&" <= token;
    if !IsLabel(token) && CellName(b, provider, token).Some? {
      assert TurnNames(b, provider, token, CellName(b, provider, token).value, b.providers[provider].file);
    }
  }

  lemma BecomesTurn(b: Bindings, tokens: seq<string>, i: nat, name: string, file: string)
    requires i < |tokens|
    ensures Becomes(b, tokens, i, name, file) <==> TurnNames(b, ProviderAt("", tokens, i), tokens[i], name, file)
  {
    var provider, token := ProviderAt("", tokens, i), tokens[i];
    assert "0x" <= token <==> |token| >= 2 && token[0] == '0' && token[1] == 'x';
    if p, value :| NamedUnder(b, tokens, i, p, value, name, file) {
      ProviderIsUnder(tokens, i, p);
      NameForIsSole(b, p, value, name);
    }
    if TurnNames(b, provider, token, name, file) {
      var value := CellValue(provider, token).value;
      ProviderIsUnder(tokens, i, provider);
      NameForIsSole(b, provider, value, name);
      assert NamedUnder(b, tokens, i, provider, value, name, file);
    }
  }

  /**
   A hexadecimal number becomes a name exactly when the header of the last provider before it has a sole name for
   it, every other token is kept, and the headers are those of the names written.
   */
  ghost predicate NamedWhereSole(b: Bindings, tokens: seq<string>, out: seq<string>, used: set<string>) {
    && |out| == |tokens|
    && (forall i: nat, name, file | Becomes(b, tokens, i, name, file) :: out[i] == name)
    && (forall i | 0 <= i < |tokens| && (forall name, file :: !Becomes(b, tokens, i, name, file)) :: out[i] == tokens[i])
    && forall file :: file in used <==> exists i: nat, name :: Becomes(b, tokens, i, name, file)
  }

  lemma CellsNamed(b: Bindings, tokens: seq<string>)
    ensures NamedWhereSole(b, tokens, Named(b, "", tokens).0, Named(b, "", tokens).1)
  {
    NamedAt(b, "", tokens);
    HeadersAt(b, "", tokens);
    forall i | 0 <= i < |tokens|
      ensures var t := TurnOf(b, ProviderAt("", tokens, i), tokens[i]);
              && (forall name, file | Becomes(b, tokens, i, name, file) :: t.cell == name)
              && ((forall name, file :: !Becomes(b, tokens, i, name, file)) ==> t.cell == tokens[i])
              && forall file :: file in t.used <==> exists name :: Becomes(b, tokens, i, name, file)
    {
      TurnBecomes(b, tokens, i);
    }
  }

  // ---- expansion ----------------------------------------------------------------------------------

  /** cpp, with these headers included, makes `n` of this token: it spells it, or a header defines it so. */
  ghost predicate ExpandsTo(b: Bindings, includes: set<string>, token: string, n: nat) {
    Int(token) == Some(n)
    || (Int(token).None? && exists f | f in includes :: Define(token, n) in HeaderOf(b, f))
  }

  /** No name is defined with two values, and none reads as a number. */
  ghost predicate DefinedOnce(b: Bindings) {
    && (forall f, g, d, e | f in b.files && g in b.files && d in b.files[f] && e in b.files[g] && d.name == e.name ::
          d.value == e.value)
    && forall f, d | f in b.files && d in b.files[f] :: Int(d.name).None?
  }

  lemma NameExpands(b: Bindings, provider: string, value: nat)
    requires DefinedOnce(b) && NameFor(b, provider, value).Some?
    ensures provider in b.providers && b.providers[provider].file in b.files
    ensures Define(NameFor(b, provider, value).value, value) in b.files[b.providers[provider].file]
    ensures Int(NameFor(b, provider, value).value).None?
  {
    var p := b.providers[provider];
    var name := NameFor(b, provider, value).value;
    assert name in NamesFor(b, provider, value);
    ByValueNames(HeaderOf(b, p.file), n => true, name, value);
  }

  /** A cell before and after. */
  ghost predicate SameValue(b: Bindings, includes: set<string>, before: string, after: string) {
    after == before
    || exists n :: Int(before) == Some(n) && forall m :: ExpandsTo(b, includes, after, m) <==> m == n
  }

  lemma CellExpands(b: Bindings, provider: string, token: string, includes: set<string>)
    requires DefinedOnce(b) && CellName(b, provider, token).Some?
    requires b.providers[provider].file in includes && includes <= b.files.Keys
    ensures SameValue(b, includes, token, CellName(b, provider, token).value)
  {
    var n := CellValue(provider, token).value;
    var name := CellName(b, provider, token).value;
    NameExpands(b, provider, n);
    var file := b.providers[provider].file;
    assert Define(name, n) in HeaderOf(b, file);
    forall m | ExpandsTo(b, includes, name, m) ensures m == n {
      var f :| f in includes && Define(name, m) in HeaderOf(b, f);
    }
  }

  /**
   Naming keeps every value: cell for cell, what is emitted is either the cell itself or a name that
   expands, under the includes the script adds, to the number that was there and to no other.
   */
  lemma {:induction false} NamingKeepsValues(b: Bindings, provider: string, tokens: seq<string>, includes: set<string>)
    requires DefinedOnce(b) && Named(b, provider, tokens).1 <= includes <= b.files.Keys
    ensures var out := Named(b, provider, tokens).0;
            |out| == |tokens| && forall i | 0 <= i < |tokens| :: SameValue(b, includes, tokens[i], out[i])
    decreases tokens
  {
    if tokens != [] {
      var out, t := Named(b, provider, tokens).0, TurnOf(b, provider, tokens[0]);
      NamingKeepsValues(b, t.provider, tokens[1..], includes);
      TurnExpands(b, provider, tokens[0], includes);
      forall i | 0 < i < |tokens| ensures SameValue(b, includes, tokens[i], out[i]) {
        assert tokens[i] == tokens[1..][i - 1] && out[i] == out[1..][i - 1];
      }
    }
  }

  lemma TurnExpands(b: Bindings, provider: string, token: string, includes: set<string>)
    requires DefinedOnce(b) && TurnOf(b, provider, token).used <= includes <= b.files.Keys
    ensures SameValue(b, includes, token, TurnOf(b, provider, token).cell)
  {
    if !("&" <= token) && CellName(b, provider, token).Some? {
      CellExpands(b, provider, token, includes);
    }
  }

  /** The includes the script adds are headers that exist. */
  lemma {:induction false} IncludesExist(b: Bindings, provider: string, tokens: seq<string>)
    requires DefinedOnce(b)
    ensures Named(b, provider, tokens).1 <= b.files.Keys
    decreases tokens
  {
    if tokens != [] {
      IncludesExist(b, TurnOf(b, provider, tokens[0]).provider, tokens[1..]);
      if !("&" <= tokens[0]) && CellName(b, provider, tokens[0]).Some? {
        NameExpands(b, provider, CellValue(provider, tokens[0]).value);
      }
    }
  }

  // ---- interrupts ---------------------------------------------------------------------------------

  const IRQ_TYPES: map<nat, string> := map[1 := "IRQ_TYPE_EDGE_RISING", 2 := "IRQ_TYPE_EDGE_FALLING",
                                           4 := "IRQ_TYPE_LEVEL_HIGH", 8 := "IRQ_TYPE_LEVEL_LOW"]
  const GIC_TYPES: map<nat, string> := map[0 := "GIC_SPI", 1 := "GIC_PPI"]

  function DecimalDigits(n: nat): (s: string)
    ensures s != []
  {
    if n < 10 then [DigitChar(n)] else DecimalDigits(n / 10) + [DigitChar(n % 10)]
  }

  lemma {:induction false} DecimalReads(n: nat)
    ensures Digits(DecimalDigits(n), 10) == Some(n)
    ensures n > 0 ==> DecimalDigits(n)[0] != '0'
    ensures forall c | c in DecimalDigits(n) :: '0' <= c <= '9'
  {
    var s := DecimalDigits(n);
    if n < 10 {
      assert s[..|s| - 1] == [] && Digits([], 10) == Some(0);
    } else {
      DecimalReads(n / 10);
      assert s[..|s| - 1] == DecimalDigits(n / 10);
    }
  }

  lemma IntOfDecimal(n: nat)
    ensures Int(DecimalDigits(n)) == Some(n)
  {
    DecimalReads(n);
    var s := DecimalDigits(n);
    assert |s| > 2 ==> s[1] in s && s[..2][1] == s[1];
    assert s[0] in s;
    if n == 0 {
      assert s == "0";
    }
  }

  function Values(tokens: seq<string>): Option<seq<nat>> {
    if tokens == [] then Some([])
    else
      var last, front := Int(tokens[|tokens| - 1]), Values(tokens[..|tokens| - 1]);
      if last.Some? && front.Some? && "0x" <= tokens[|tokens| - 1] then Some(front.value + [last.value]) else None
  }

  predicate GicTriples(v: seq<nat>) {
    |v| % 3 == 0 && (v == [] || (v[0] in GIC_TYPES && v[2] in IRQ_TYPES && GicTriples(v[3..])))
  }

  function NameTriples(v: seq<nat>): seq<string>
    requires GicTriples(v)
  {
    if v == [] then [] else [GIC_TYPES[v[0]], DecimalDigits(v[1]), IRQ_TYPES[v[2]]] + NameTriples(v[3..])
  }

  /** `irqs`: the GIC's three-cell form alone is named. */
  function NameInterrupts(tokens: seq<string>): seq<string> {
    var v := Values(tokens);
    if v.Some? && GicTriples(v.value) then NameTriples(v.value) else tokens
  }

  /** What the names stand for in arm-gic.h and irq.h. */
  function IrqValue(token: string): Option<nat> {
    if token == "GIC_SPI" then Some(0)
    else if token == "GIC_PPI" then Some(1)
    else if token == "IRQ_TYPE_EDGE_RISING" then Some(1)
    else if token == "IRQ_TYPE_EDGE_FALLING" then Some(2)
    else if token == "IRQ_TYPE_LEVEL_HIGH" then Some(4)
    else if token == "IRQ_TYPE_LEVEL_LOW" then Some(8)
    else Int(token)
  }

  function IrqValues(tokens: seq<string>): seq<Option<nat>> {
    seq(|tokens|, i requires 0 <= i < |tokens| => IrqValue(tokens[i]))
  }

  lemma TripleValues(a: nat, b: nat, c: nat)
    requires a in GIC_TYPES && c in IRQ_TYPES
    ensures IrqValue(GIC_TYPES[a]) == Some(a) && IrqValue(DecimalDigits(b)) == Some(b) && IrqValue(IRQ_TYPES[c]) == Some(c)
  {
    IntOfDecimal(b);
    DecimalReads(b);
    assert DecimalDigits(b)[0] in DecimalDigits(b);
    assert forall name | name in {"GIC_SPI", "GIC_PPI", "IRQ_TYPE_EDGE_RISING", "IRQ_TYPE_EDGE_FALLING",
                                  "IRQ_TYPE_LEVEL_HIGH", "IRQ_TYPE_LEVEL_LOW"} :: name[0] in {'G', 'I'};
  }

  lemma {:induction false} TriplesKeepValues(v: seq<nat>)
    requires GicTriples(v)
    ensures |NameTriples(v)| == |v|
    ensures forall i | 0 <= i < |v| :: IrqValue(NameTriples(v)[i]) == Some(v[i])
  {
    if v != [] {
      TripleValues(v[0], v[1], v[2]);
      TriplesKeepValues(v[3..]);
      forall i | 0 <= i < |v| ensures IrqValue(NameTriples(v)[i]) == Some(v[i]) {
        if i >= 3 {
          assert NameTriples(v)[i] == NameTriples(v[3..])[i - 3];
        }
      }
    }
  }

  lemma {:induction false} ValuesAre(tokens: seq<string>)
    requires Values(tokens).Some?
    ensures |Values(tokens).value| == |tokens|
    ensures forall i | 0 <= i < |tokens| :: IrqValue(tokens[i]) == Some(Values(tokens).value[i])
  {
    if tokens != [] {
      var front, last := tokens[..|tokens| - 1], tokens[|tokens| - 1];
      ValuesAre(front);
      assert last[0] == '0';
      assert forall i | 0 <= i < |front| :: tokens[i] == front[i];
    }
  }

  /** The headers it then needs. */
  function InterruptHeaders(tokens: seq<string>): set<string> {
    var v := Values(tokens);
    if v.Some? && GicTriples(v.value) then {"interrupt-controller/arm-gic.h", "interrupt-controller/irq.h"} else {}
  }

  /** Named or not, an interrupts property keeps its numbers. */
  lemma InterruptsKeepValues(tokens: seq<string>)
    ensures IrqValues(NameInterrupts(tokens)) == IrqValues(tokens)
  {
    var v := Values(tokens);
    if v.Some? && GicTriples(v.value) {
      ValuesAre(tokens);
      TriplesKeepValues(v.value);
    }
  }

  // ---- when the triples are named -------------------------------------------------------------------

  /** A hexadecimal number. */
  ghost predicate HexCell(token: string, n: nat) {
    |token| >= 2 && token[0] == '0' && token[1] == 'x' && Int(token) == Some(n)
  }

  /** The place of a number in a triple: a type of the controller's, the line, a trigger. */
  predicate FitsPlace(i: nat, n: nat) {
    if i % 3 == 0 then n == 0 || n == 1 else if i % 3 == 2 then n == 1 || n == 2 || n == 4 || n == 8 else true
  }

  ghost predicate CellFits(token: string, i: nat) {
    exists n :: HexCell(token, n) && FitsPlace(i, n)
  }

  /** All the cells are triples of the controller's. */
  ghost predicate AllTriples(tokens: seq<string>) {
    |tokens| % 3 == 0 && forall i | 0 <= i < |tokens| :: CellFits(tokens[i], i)
  }

  /** What the cell at this place of a triple is written as. */
  function PlaceName(i: nat, n: nat): string {
    if i % 3 == 0 then if n == 0 then "GIC_SPI" else "GIC_PPI"
    else if i % 3 == 2 then
      if n == 1 then "IRQ_TYPE_EDGE_RISING" else if n == 2 then "IRQ_TYPE_EDGE_FALLING"
      else if n == 4 then "IRQ_TYPE_LEVEL_HIGH" else "IRQ_TYPE_LEVEL_LOW"
    else DecimalDigits(n)
  }

  predicate IsHexCell(token: string) {
    |token| >= 2 && token[0] == '0' && token[1] == 'x' && Int(token).Some?
  }

  lemma {:induction false} ValuesWhen(tokens: seq<string>)
    ensures Values(tokens).Some? <==> forall i | 0 <= i < |tokens| :: IsHexCell(tokens[i])
    ensures Values(tokens).Some? ==>
              |Values(tokens).value| == |tokens|
              && forall i | 0 <= i < |tokens| :: HexCell(tokens[i], Values(tokens).value[i])
  {
    if tokens != [] {
      var front, last := tokens[..|tokens| - 1], tokens[|tokens| - 1];
      ValuesWhen(front);
      assert tokens == front + [last];
      assert (forall i | 0 <= i < |front| :: front[i] == tokens[i]) && tokens[|front|] == last;
      assert "0x" <= last <==> |last| >= 2 && last[0] == '0' && last[1] == 'x';
      if Values(tokens).Some? {
        forall i | 0 <= i < |tokens| ensures IsHexCell(tokens[i]) && HexCell(tokens[i], Values(tokens).value[i]) {
          if i < |front| {
            assert tokens[i] == front[i];
          }
        }
      }
    }
  }

  lemma FitsShift(v: seq<nat>)
    requires |v| >= 3
    ensures (forall i | 0 <= i < |v| :: FitsPlace(i, v[i]))
            <==> FitsPlace(0, v[0]) && FitsPlace(2, v[2]) && forall i | 0 <= i < |v[3..]| :: FitsPlace(i, v[3..][i])
  {
    assert forall i | 3 <= i < |v| :: v[i] == v[3..][i - 3] && (FitsPlace(i, v[i]) <==> FitsPlace(i - 3, v[3..][i - 3]));
    if forall i | 0 <= i < |v| :: FitsPlace(i, v[i]) {
      forall i | 0 <= i < |v[3..]| ensures FitsPlace(i, v[3..][i]) {
        assert FitsPlace(i + 3, v[i + 3]);
      }
    }
  }

  lemma {:induction false} TriplesWhen(v: seq<nat>)
    ensures GicTriples(v) <==> |v| % 3 == 0 && forall i | 0 <= i < |v| :: FitsPlace(i, v[i])
  {
    if |v| >= 3 {
      TriplesWhen(v[3..]);
      FitsShift(v);
    }
  }

  lemma {:induction false} TriplesAre(v: seq<nat>)
    requires GicTriples(v)
    ensures |NameTriples(v)| == |v| && forall i | 0 <= i < |v| :: NameTriples(v)[i] == PlaceName(i, v[i])
  {
    if v != [] {
      TriplesAre(v[3..]);
      forall i | 0 <= i < |v| ensures NameTriples(v)[i] == PlaceName(i, v[i]) {
        if i >= 3 {
          assert NameTriples(v)[i] == NameTriples(v[3..])[i - 3];
        }
      }
    }
  }

  /**
   Which interrupts are named: all the cells, exactly when they are triples of the controller's. The two headers
   are then included.
   */
  lemma InterruptsNamed(tokens: seq<string>)
    ensures if AllTriples(tokens)
            then && |NameInterrupts(tokens)| == |tokens|
                 && (forall i, n | 0 <= i < |tokens| && HexCell(tokens[i], n) :: NameInterrupts(tokens)[i] == PlaceName(i, n))
                 && InterruptHeaders(tokens) == {"interrupt-controller/arm-gic.h", "interrupt-controller/irq.h"}
            else NameInterrupts(tokens) == tokens && InterruptHeaders(tokens) == {}
  {
    AllTriplesWhen(tokens);
    ValuesWhen(tokens);
    var v := Values(tokens);
    if AllTriples(tokens) {
      TriplesAre(v.value);
    }
  }

  lemma AllTriplesWhen(tokens: seq<string>)
    ensures AllTriples(tokens) <==> Values(tokens).Some? && GicTriples(Values(tokens).value)
  {
    ValuesWhen(tokens);
    if AllTriples(tokens) {
      forall i | 0 <= i < |tokens| ensures IsHexCell(tokens[i]) {
        assert CellFits(tokens[i], i);
      }
      var v := Values(tokens).value;
      TriplesWhen(v);
      forall i | 0 <= i < |v| ensures FitsPlace(i, v[i]) {
        assert CellFits(tokens[i], i);
      }
    }
    if Values(tokens).Some? && GicTriples(Values(tokens).value) {
      var v := Values(tokens).value;
      TriplesWhen(v);
      forall i | 0 <= i < |tokens| ensures CellFits(tokens[i], i) {
        assert HexCell(tokens[i], v[i]) && FitsPlace(i, v[i]);
      }
    }
  }
}
