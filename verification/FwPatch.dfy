/** fwpatch.py: guarded patches of single words in a firmware image. */
module FwPatch {
  import opened RawDisk

  /** Where a site's word is, and the words it may hold, by name. */
  datatype Site = Site(addr: nat, variants: map<string, nat>)

  const BASE := 0x00100000

  const SITES: map<string, Site> := map[
    "clamp" := Site(0x0012c890, map["orig" := 0x29ff4408, "nop" := 0x29ffbf00, "zero" := 0x29ff2000]),
    "bypass" := Site(0x0012c800, map["orig" := 0xd0cc4288, "A" := 0xbf004288, "AB" := 0xe0144288]),
    "ofdm" := Site(0x0012d38c, map["orig" := 0x2830d003, "keep" := 0x2830e003]),
    "recap" := Site(0x0012d688, map["orig" := 0xe0114677, "always" := 0xe7ff4677]),
    "bwclamp" := Site(0x0012c2ec, map["orig" := 0x463cfacd, "noclamp" := 0xbf00facd]),
    "flagveto" := Site(0x0012c41c, map["orig" := 0xf8862001, "veto" := 0xf8862000]),
    "flaggate" := Site(0x0012c418, map["orig" := 0xbf9c2803, "zeroonly" := 0xbf9c2800, "evidence" := 0xbf1c2800])]

  datatype Patch = Patch(site: string, variant: string)

  /** The names the script accepts on its command line. */
  predicate Listed(p: Patch) {
    p.site in SITES && p.variant in SITES[p.site].variants
  }

  type ListedPatch = p: Patch | Listed(p) witness Patch("clamp", "orig")

  function Offset(site: string): nat
    requires site in SITES
    ensures Offset(site) == SITES[site].addr - BASE
  {
    SitesAbove(site);
    SITES[site].addr - BASE
  }

  lemma SitesAbove(site: string)
    requires site in SITES
    ensures SITES[site].addr >= BASE
  {
  }

  /** Python's `d[lo:hi]`, which stops at the end. */
  function Slice(d: seq<Byte>, lo: nat, hi: nat): seq<Byte>
    requires lo <= hi
  {
    if lo >= |d| then [] else if hi >= |d| then d[lo..] else d[lo..hi]
  }

  function Word(d: seq<Byte>, off: nat): nat {
    LittleEndian(Slice(d, off, off + 4))
  }

  /** `v.to_bytes(4, "little")` */
  function Bytes(v: nat): (s: seq<Byte>)
    ensures |s| == 4
  {
    var v1 := v / 256;
    var v2 := v1 / 256;
    [v % 256, v1 % 256, v2 % 256, v2 / 256 % 256]
  }

  /** The word at the site is one the site is known to hold. */
  predicate Known(d: seq<Byte>, site: string)
    requires site in SITES
  {
    Word(d, Offset(site)) in SITES[site].variants.Values
  }

  // ---- what an image holds, byte by byte ----------------------------------------------------------

  /** The four bytes at the site spell this word, its lowest byte first. */
  ghost predicate Holds(r: seq<Byte>, site: string, word: nat)
    requires site in SITES
  {
    var at := SITES[site].addr - 0x00100000;
    && 0 <= at && at + 4 <= |r|
    && r[at] == word % 0x100 && r[at + 1] == word / 0x100 % 0x100
    && r[at + 2] == word / 0x10000 % 0x100 && r[at + 3] == word / 0x1000000 % 0x100
  }

  /** They spell a word listed for it. */
  ghost predicate HoldsListed(r: seq<Byte>, site: string)
    requires site in SITES
  {
    exists v | v in SITES[site].variants.Values :: Holds(r, site, v)
  }

  lemma HoldsBytes(r: seq<Byte>, site: string, word: nat)
    requires site in SITES
    ensures Holds(r, site, word) <==> Offset(site) + 4 <= |r| && r[Offset(site)..Offset(site) + 4] == Bytes(word)
  {
    var at := Offset(site);
    assert word / 0x100 / 0x100 == word / 0x10000 && word / 0x10000 / 0x100 == word / 0x1000000;
    if at + 4 <= |r| {
      var four := r[at..at + 4];
      assert four[0] == r[at] && four[1] == r[at + 1] && four[2] == r[at + 2] && four[3] == r[at + 3];
    }
  }

  // ---- one patch ----------------------------------------------------------------------------------

  lemma LittleEndianBound(s: seq<Byte>)
    requires |s| <= 4
    ensures |s| <= 3 ==> LittleEndian(s) < 0x1000000
    ensures LittleEndian(s) < 0x100000000
  {
    if |s| > 0 {
      LittleEndianBound(s[1..]);
      if |s| > 1 {
        assert LittleEndian(s[1..]) == s[1] + 256 * LittleEndian(s[2..]);
        if |s| > 2 {
          assert s[2..][1..] == s[3..] && s[1..][1..] == s[2..];
          assert LittleEndian(s[2..]) == s[2] + 256 * LittleEndian(s[3..]);
        }
      }
    }
  }

  /** No listed word has a zero top byte. */
  lemma VariantsAreWide(site: string, v: nat)
    requires site in SITES && v in SITES[site].variants.Values
    ensures 0x1000000 <= v < 0x100000000
  {
  }

  /** So a read cut short by the end of the image is never taken for a listed word. */
  lemma KnownIsInside(d: seq<Byte>, site: string)
    requires site in SITES && Known(d, site)
    ensures Offset(site) + 4 <= |d|
  {
    var off := Offset(site);
    VariantsAreWide(site, Word(d, off));
    LittleEndianBound(Slice(d, off, off + 4));
  }

  lemma LittleEndianFour(s: seq<Byte>)
    requires |s| == 4
    ensures var b0: int, b1: int, b2: int, b3: int := s[0], s[1], s[2], s[3];
            LittleEndian(s) == b0 + 256 * (b1 + 256 * (b2 + 256 * b3))
  {
    var b2: int, b3: int := s[2], s[3];
    assert s[1..][1..] == s[2..] && s[2..][1..] == s[3..] && s[3..][1..] == [];
    assert LittleEndian(s[3..]) == b3;
    assert LittleEndian(s[2..]) == b2 + 256 * b3;
  }

  lemma BytesRoundTrip(v: nat)
    requires v < 0x100000000
    ensures LittleEndian(Bytes(v)) == v
  {
    LittleEndianFour(Bytes(v));
    assert v / 256 / 256 / 256 < 256;
  }

  lemma ByteThenRest(b: nat, rest: nat)
    requires b < 256
    ensures (b + 256 * rest) % 256 == b && (b + 256 * rest) / 256 == rest
  {
  }

  lemma BytesOfWord(s: seq<Byte>)
    requires |s| == 4
    ensures Bytes(LittleEndian(s)) == s
  {
    var b0: int, b1: int, b2: int, b3: int := s[0], s[1], s[2], s[3];
    LittleEndianFour(s);
    ByteThenRest(b0, b1 + 256 * (b2 + 256 * b3));
    ByteThenRest(b1, b2 + 256 * b3);
    ByteThenRest(b2, b3);
  }

  lemma HeldIsKnown(r: seq<Byte>, site: string, word: nat)
    requires site in SITES && word in SITES[site].variants.Values && Holds(r, site, word)
    ensures Known(r, site) && Word(r, Offset(site)) == word
  {
    VariantsAreWide(site, word);
    HoldsBytes(r, site, word);
    BytesRoundTrip(word);
    assert Slice(r, Offset(site), Offset(site) + 4) == r[Offset(site)..Offset(site) + 4];
  }

  lemma KnownIsHeld(d: seq<Byte>, site: string)
    requires site in SITES && Known(d, site)
    ensures Holds(d, site, Word(d, Offset(site)))
  {
    KnownIsInside(d, site);
    assert Slice(d, Offset(site), Offset(site) + 4) == d[Offset(site)..Offset(site) + 4];
    BytesOfWord(d[Offset(site)..Offset(site) + 4]);
    HoldsBytes(d, site, Word(d, Offset(site)));
  }

  /** The guard, on the bytes: a patch is taken exactly when the site spells a listed word. */
  lemma KnownIsListed(d: seq<Byte>, site: string)
    requires site in SITES
    ensures Known(d, site) <==> HoldsListed(d, site)
  {
    if Known(d, site) {
      KnownIsHeld(d, site);
    }
    if v :| v in SITES[site].variants.Values && Holds(d, site, v) {
      HeldIsKnown(d, site, v);
    }
  }

  lemma WrittenIsHeld(d: seq<Byte>, site: string, word: nat)
    requires site in SITES && Offset(site) + 4 <= |d|
    ensures Holds(Overwrite(d, Offset(site), Bytes(word)), site, word)
  {
    HoldsBytes(Overwrite(d, Offset(site), Bytes(word)), site, word);
  }

  /** The image after a patch, unchanged when it is refused. */
  function Apply(d: seq<Byte>, p: ListedPatch): (r: seq<Byte>)
    ensures |r| == |d|
  {
    if Known(d, p.site) then
      KnownIsInside(d, p.site);
      Overwrite(d, Offset(p.site), Bytes(SITES[p.site].variants[p.variant]))
    else d
  }

  /** `main`, from the bytes read to the bytes written, with its exit code. */
  method PatchImage(d: array<Byte>, p: Patch) returns (code: int)
    modifies d
    ensures code == 2 <==> p.site !in SITES || p.variant !in SITES[p.site].variants
    ensures code != 2 ==> code == if HoldsListed(old(d[..]), p.site) then 0 else 1
    ensures code != 0 ==> d[..] == old(d[..])
    ensures code == 0 ==> Holds(d[..], p.site, SITES[p.site].variants[p.variant])
    ensures code == 0 ==> forall i | 0 <= i < d.Length && !InWindow(p.site, i) :: d[i] == old(d[i])
    ensures d[..] == if Listed(p) then Apply(old(d[..]), p) else old(d[..])
  {
    if !Listed(p) {
      return 2;
    }
    KnownIsListed(d[..], p.site);
    var off := Offset(p.site);
    var cur := Word(d[..], off);
    if cur !in SITES[p.site].variants.Values {
      return 1;
    }
    ghost var before := d[..];
    KnownIsInside(before, p.site);
    var word := Bytes(SITES[p.site].variants[p.variant]);
    forall i | 0 <= i < 4 {
      d[off + i] := word[i];
    }
    assert d[..] == Overwrite(before, off, word);
    WrittenIsHeld(before, p.site, SITES[p.site].variants[p.variant]);
    code := 0;
  }

  // ---- runs ---------------------------------------------------------------------------------------

  /** The windows of different sites share no byte. */
  lemma SitesDisjoint(a: string, b: string)
    requires a in SITES && b in SITES && a != b
    ensures Offset(a) + 4 <= Offset(b) || Offset(b) + 4 <= Offset(a)
  {
  }

  predicate InWindow(site: string, i: int)
    requires site in SITES
  {
    Offset(site) <= i < Offset(site) + 4
  }

  function RunPatches(d: seq<Byte>, ps: seq<ListedPatch>): (r: seq<Byte>)
    ensures |r| == |d|
  {
    if ps == [] then d else Apply(RunPatches(d, ps[..|ps| - 1]), ps[|ps| - 1])
  }

  /** Every patch of the run is accepted when its turn comes. */
  ghost predicate AllAccepted(d: seq<Byte>, ps: seq<ListedPatch>) {
    ps == [] || (AllAccepted(d, ps[..|ps| - 1]) && HoldsListed(RunPatches(d, ps[..|ps| - 1]), ps[|ps| - 1].site))
  }

  /** The last word the run gives each site it patches. */
  function LastWords(ps: seq<ListedPatch>): (m: map<string, nat>)
    ensures forall s :: s in m <==> exists p | p in ps :: p.site == s
    ensures forall s | s in m :: s in SITES && m[s] in SITES[s].variants.Values
  {
    if ps == [] then map[]
    else
      var front, p := ps[..|ps| - 1], ps[|ps| - 1];
      assert ps == front + [p];
      LastWords(front)[p.site := SITES[p.site].variants[p.variant]]
  }

  ghost predicate Untouched(last: map<string, nat>, i: int)
    requires forall s | s in last :: s in SITES
  {
    forall s | s in last :: !InWindow(s, i)
  }

  /** What the run makes of the image: the last word in each patched window, else what was there. */
  ghost predicate IsResult(d: seq<Byte>, last: map<string, nat>, r: seq<Byte>)
    requires forall s | s in last :: s in SITES
  {
    && |r| == |d|
    && (forall s | s in last :: Holds(r, s, last[s]))
    && forall i | 0 <= i < |d| && Untouched(last, i) :: r[i] == d[i]
  }

  lemma SameWord(d: seq<Byte>, r: seq<Byte>, site: string, v: nat)
    requires site in SITES && |r| == |d|
    requires forall i | InWindow(site, i) && 0 <= i < |d| :: r[i] == d[i]
    ensures Holds(r, site, v) <==> Holds(d, site, v)
  {
    SitesAbove(site);
    var at := SITES[site].addr - BASE;
    assert InWindow(site, at) && InWindow(site, at + 1) && InWindow(site, at + 2) && InWindow(site, at + 3);
  }

  lemma SameWindow(d: seq<Byte>, r: seq<Byte>, site: string)
    requires site in SITES && |r| == |d|
    requires forall i | InWindow(site, i) && 0 <= i < |d| :: r[i] == d[i]
    ensures HoldsListed(r, site) <==> HoldsListed(d, site)
  {
    forall v ensures Holds(r, site, v) <==> Holds(d, site, v) {
      SameWord(d, r, site, v);
    }
  }

  lemma OtherWindowHeld(r: seq<Byte>, site: string, word: nat, other: string, w: nat)
    requires site in SITES && other in SITES && site != other
    requires Offset(site) + 4 <= |r| && Holds(r, other, w)
    ensures Holds(Overwrite(r, Offset(site), Bytes(word)), other, w)
  {
    SitesDisjoint(site, other);
    SameWord(r, Overwrite(r, Offset(site), Bytes(word)), other, w);
  }

  lemma ResultStep(d: seq<Byte>, last: map<string, nat>, r: seq<Byte>, site: string, word: nat)
    requires forall s | s in last :: s in SITES
    requires site in SITES && IsResult(d, last, r) && Offset(site) + 4 <= |r|
    ensures IsResult(d, last[site := word], Overwrite(r, Offset(site), Bytes(word)))
  {
    var after, next := Overwrite(r, Offset(site), Bytes(word)), last[site := word];
    forall s | s in next ensures Holds(after, s, next[s]) {
      if s == site {
        WrittenIsHeld(r, site, word);
      } else {
        OtherWindowHeld(r, site, word, s, last[s]);
      }
    }
    forall i | 0 <= i < |d| && Untouched(next, i) ensures after[i] == d[i] {
      assert site in next && !InWindow(site, i);
      forall s | s in last ensures !InWindow(s, i) {
        assert s in next;
      }
    }
  }

  lemma SiteStillListed(d: seq<Byte>, last: map<string, nat>, r: seq<Byte>, site: string)
    requires forall s | s in last :: s in SITES && last[s] in SITES[s].variants.Values
    requires IsResult(d, last, r) && site in SITES && (site in last ==> HoldsListed(d, site))
    ensures HoldsListed(r, site) <==> HoldsListed(d, site)
  {
    if site !in last {
      forall i | InWindow(site, i) && 0 <= i < |d| ensures r[i] == d[i] {
        forall s | s in last ensures !InWindow(s, i) {
          SitesDisjoint(s, site);
        }
      }
      SameWindow(d, r, site);
    }
  }

  /**
   A run is accepted throughout exactly when the image to begin with spells a listed word at every site
   the run patches; the result has the image's length, each patched window the last word it was given,
   and every other byte as it was.
   */
  lemma {:induction false} RunResult(d: seq<Byte>, ps: seq<ListedPatch>)
    ensures AllAccepted(d, ps) <==> forall p | p in ps :: HoldsListed(d, p.site)
    ensures AllAccepted(d, ps) ==> IsResult(d, LastWords(ps), RunPatches(d, ps))
  {
    if ps != [] {
      var front, p := ps[..|ps| - 1], ps[|ps| - 1];
      assert ps == front + [p];
      RunResult(d, front);
      if AllAccepted(d, front) {
        var r := RunPatches(d, front);
        SiteStillListed(d, LastWords(front), r, p.site);
        KnownIsListed(r, p.site);
        if Known(r, p.site) {
          KnownIsInside(r, p.site);
          ResultStep(d, LastWords(front), r, p.site, SITES[p.site].variants[p.variant]);
        }
      }
    }
  }

  lemma SameByte(a: seq<Byte>, b: seq<Byte>, site: string, word: nat, i: nat)
    requires site in SITES && Holds(a, site, word) && Holds(b, site, word) && InWindow(site, i)
    ensures i < |a| && i < |b| && a[i] == b[i]
  {
    var at := SITES[site].addr - BASE;
    assert i == at || i == at + 1 || i == at + 2 || i == at + 3;
  }

  lemma ResultIsOne(d: seq<Byte>, last: map<string, nat>, a: seq<Byte>, b: seq<Byte>)
    requires forall s | s in last :: s in SITES
    requires IsResult(d, last, a) && IsResult(d, last, b)
    ensures a == b
  {
    forall i | 0 <= i < |d| ensures a[i] == b[i] {
      if !Untouched(last, i) {
        var s :| s in last && InWindow(s, i);
        SameByte(a, b, s, last[s], i);
      }
    }
  }

  /** Two runs that end on the same words make the same image, whatever order they took. */
  lemma OnlyLastWordsMatter(d: seq<Byte>, ps: seq<ListedPatch>, qs: seq<ListedPatch>)
    requires AllAccepted(d, ps) && LastWords(ps) == LastWords(qs)
    ensures AllAccepted(d, qs) && RunPatches(d, ps) == RunPatches(d, qs)
  {
    RunResult(d, ps);
    RunResult(d, qs);
    forall q | q in qs ensures HoldsListed(d, q.site) {
      assert q.site in LastWords(qs);
      var p :| p in ps && p.site == q.site;
    }
    ResultIsOne(d, LastWords(ps), RunPatches(d, ps), RunPatches(d, qs));
  }

  /** Giving every patched site the word it began with undoes the run. */
  lemma FirstWordsUndo(d: seq<Byte>, ps: seq<ListedPatch>)
    requires AllAccepted(d, ps)
    requires forall s | s in LastWords(ps) :: Holds(d, s, LastWords(ps)[s])
    ensures RunPatches(d, ps) == d
  {
    RunResult(d, ps);
    ResultIsOne(d, LastWords(ps), RunPatches(d, ps), d);
  }
}
