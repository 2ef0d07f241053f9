/** rk35xx-update's `update_uboot`: the two U-Boot slots of a running box, compared and rewritten. */
module UpdateUboot {
  import opened Wrappers
  import opened RawDisk
  import opened BuildImage

  const SLOT := SECTOR * UBOOT_SLOT_SECTORS
  const FIRST := SECTOR * UBOOT_SEEK
  const SECOND := FIRST + SLOT

  datatype Status = Current | Written | VerifyFailed

  datatype Outcome = NotFit | PastSlot | Slots(first: Status, second: Status)

  /** The slot at `off` begins with the blob: what comparing the two md5 sums decides. */
  predicate IsCurrent(d: seq<Byte>, blob: seq<Byte>, off: nat)
    requires off + SLOT <= |d| && |blob| <= SLOT
  {
    d[off..off + |blob|] == blob
  }

  function Updated(d: seq<Byte>, blob: seq<Byte>, off: nat): (r: seq<Byte>)
    requires off + SLOT <= |d| && |blob| <= SLOT
    ensures |r| == |d|
  {
    if IsCurrent(d, blob, off) then d else Overwrite(d, off, Padded(blob, SLOT))
  }

  /** One turn of the loop. */
  method UpdateSlot(dev: array<Byte>, blob: seq<Byte>, at: nat) returns (status: Status)
    requires SECTOR * at + SLOT <= dev.Length && |blob| <= SLOT
    modifies dev
    ensures dev[..] == Updated(old(dev[..]), blob, SECTOR * at)
    ensures status == if IsCurrent(old(dev[..]), blob, SECTOR * at) then Current else Written
  {
    ghost var d := dev[..];
    if dev[SECTOR * at..SECTOR * at + |blob|] == blob {
      assert dev[..][SECTOR * at..SECTOR * at + |blob|] == dev[SECTOR * at..SECTOR * at + |blob|];
      return Current;
    }
    assert !IsCurrent(d, blob, SECTOR * at) by {
      assert d[SECTOR * at..SECTOR * at + |blob|] == dev[SECTOR * at..SECTOR * at + |blob|];
    }
    FillSlot(dev, blob, at, UBOOT_SLOT_SECTORS);
    WrittenIsCurrent(d, blob, SECTOR * at);
    assert dev[SECTOR * at..SECTOR * at + |blob|] == dev[..][SECTOR * at..SECTOR * at + |blob|];
    status := if dev[SECTOR * at..SECTOR * at + |blob|] == blob then Written else VerifyFailed;
  }

  lemma WrittenIsCurrent(d: seq<Byte>, blob: seq<Byte>, off: nat)
    requires off + SLOT <= |d| && |blob| <= SLOT
    ensures IsCurrent(Overwrite(d, off, Padded(blob, SLOT)), blob, off)
  {
    var r := Overwrite(d, off, Padded(blob, SLOT));
    assert forall i | 0 <= i < |blob| :: r[off + i] == blob[i];
  }

  // ---- the run, byte by byte ----------------------------------------------------------------------

  /** The disk has the blob at `at`, whatever follows it. */
  ghost predicate Begins(d: seq<Byte>, at: nat, blob: seq<Byte>) {
    at + |blob| <= |d| && forall k | 0 <= k < |blob| :: d[at + k] == blob[k]
  }

  /** A byte of a slot at `at`: its own if the slot begins with the blob, else the blob's, and zero after it. */
  ghost function SlotByte(d: seq<Byte>, at: nat, blob: seq<Byte>, i: nat): Byte
    requires at <= i < |d|
  {
    if Begins(d, at, blob) then d[i] else if i - at < |blob| then blob[i - at] else 0
  }

  ghost function UpdatedByte(d: seq<Byte>, blob: seq<Byte>, i: nat): Byte
    requires i < |d|
  {
    if 0x800000 <= i < 0xa00000 then SlotByte(d, 0x800000, blob, i)
    else if 0xa00000 <= i < 0xc00000 then SlotByte(d, 0xa00000, blob, i)
    else d[i]
  }

  lemma BeginsIsCurrent(d: seq<Byte>, blob: seq<Byte>, off: nat)
    requires off + SLOT <= |d| && |blob| <= SLOT
    ensures IsCurrent(d, blob, off) <==> Begins(d, off, blob)
  {
    var there := d[off..off + |blob|];
    assert forall k | 0 <= k < |blob| :: there[k] == d[off + k];
    if Begins(d, off, blob) {
      forall k | 0 <= k < |blob| ensures there[k] == blob[k] {
        assert d[off + k] == blob[k];
      }
    }
  }

  lemma OneSlotBytes(d: seq<Byte>, blob: seq<Byte>, off: nat, i: nat)
    requires off + SLOT <= |d| && |blob| <= SLOT && i < |d|
    ensures Updated(d, blob, off)[i] == if off <= i < off + SLOT then SlotByte(d, off, blob, i) else d[i]
  {
    BeginsIsCurrent(d, blob, off);
    var p := Padded(blob, SLOT);
    assert off <= i < off + SLOT ==> p[i - off] == if i - off < |blob| then blob[i - off] else 0;
  }

  /** What a run leaves at every byte, and what it reports. */
  lemma RunBytes(d: seq<Byte>, blob: seq<Byte>, i: nat)
    requires |d| >= 0xc00000 && |blob| <= 0x200000 && i < |d|
    ensures Updated(Updated(d, blob, FIRST), blob, SECOND)[i] == UpdatedByte(d, blob, i)
  {
    var e := Updated(d, blob, FIRST);
    OneSlotBytes(d, blob, FIRST, i);
    OneSlotBytes(e, blob, SECOND, i);
    SlotsApart(d, blob);
    BeginsIsCurrent(d, blob, SECOND);
    BeginsIsCurrent(e, blob, SECOND);
  }

  /** `update_uboot` on a disk that keeps what is written to it. */
  method Update(dev: array<Byte>, blob: seq<Byte>) returns (outcome: Outcome)
    requires dev.Length >= SECOND + SLOT
    modifies dev
    ensures outcome.NotFit? <==> !(FIT_MAGIC <= blob)
    ensures outcome.PastSlot? <==> FIT_MAGIC <= blob && |blob| > SLOT
    ensures !outcome.Slots? ==> dev[..] == old(dev[..])
    ensures outcome.Slots? ==>
              && dev[..] == Updated(Updated(old(dev[..]), blob, FIRST), blob, SECOND)
              && outcome.first == (if IsCurrent(old(dev[..]), blob, FIRST) then Current else Written)
              && outcome.second == (if IsCurrent(old(dev[..]), blob, SECOND) then Current else Written)
    ensures !StartsWith(blob, 0xd0, 0x0d, 0xfe, 0xed) ==> outcome == NotFit
    ensures StartsWith(blob, 0xd0, 0x0d, 0xfe, 0xed) && |blob| > 0x200000 ==> outcome == PastSlot
    ensures StartsWith(blob, 0xd0, 0x0d, 0xfe, 0xed) && |blob| <= 0x200000 ==>
              && outcome == Slots(if Begins(old(dev[..]), 0x800000, blob) then Current else Written,
                                  if Begins(old(dev[..]), 0xa00000, blob) then Current else Written)
              && forall i | 0 <= i < dev.Length :: dev[i] == UpdatedByte(old(dev[..]), blob, i)
  {
    PrefixOfFour(blob, FIT_MAGIC);
    if !(FIT_MAGIC <= blob) {
      return NotFit;
    }
    if |blob| > SLOT {
      return PastSlot;
    }
    ghost var d := dev[..];
    var status: seq<Status> := [];
    var i := 0;
    SlotsApart(d, blob);
    while i < UBOOT_COPIES
      invariant 0 <= i <= 2 && |status| == i
      invariant dev[..] == (if i == 0 then d else if i == 1 then Updated(d, blob, FIRST)
                            else Updated(Updated(d, blob, FIRST), blob, SECOND))
      invariant i > 0 ==> status[0] == if IsCurrent(d, blob, FIRST) then Current else Written
      invariant i > 1 ==> status[1] == if IsCurrent(d, blob, SECOND) then Current else Written
    {
      var at := UBOOT_SEEK + i * UBOOT_SLOT_SECTORS;
      var s := UpdateSlot(dev, blob, at);
      status := status + [s];
      i := i + 1;
    }
    outcome := Slots(status[0], status[1]);
    BeginsIsCurrent(d, blob, FIRST);
    BeginsIsCurrent(d, blob, SECOND);
    forall i | 0 <= i < dev.Length ensures dev[i] == UpdatedByte(d, blob, i) {
      RunBytes(d, blob, i);
      assert dev[i] == dev[..][i];
    }
  }

  /** Updating one slot leaves the other as it was. */
  lemma SlotsApart(d: seq<Byte>, blob: seq<Byte>)
    requires |d| >= SECOND + SLOT && |blob| <= SLOT
    ensures IsCurrent(Updated(d, blob, FIRST), blob, SECOND) <==> IsCurrent(d, blob, SECOND)
    ensures IsCurrent(Updated(d, blob, FIRST), blob, FIRST)
    ensures IsCurrent(Updated(Updated(d, blob, FIRST), blob, SECOND), blob, FIRST)
    ensures IsCurrent(Updated(Updated(d, blob, FIRST), blob, SECOND), blob, SECOND)
  {
    var e := Updated(d, blob, FIRST);
    var f := Updated(e, blob, SECOND);
    WrittenIsCurrent(d, blob, FIRST);
    WrittenIsCurrent(e, blob, SECOND);
    assert e[SECOND..SECOND + |blob|] == d[SECOND..SECOND + |blob|];
    assert f[FIRST..FIRST + |blob|] == e[FIRST..FIRST + |blob|];
  }

  /** A second run writes nothing. */
  lemma SecondRun(d: seq<Byte>, blob: seq<Byte>)
    requires |d| >= SECOND + SLOT && |blob| <= SLOT
    ensures var e := Updated(Updated(d, blob, FIRST), blob, SECOND);
            Updated(e, blob, FIRST) == e && Updated(e, blob, SECOND) == e
  {
    SlotsApart(d, blob);
  }

  /** A disk laid out by build-image.sh from the same blob is current in both slots. */
  lemma ImageIsCurrent(d: seq<Byte>, idb: seq<Byte>, blob: seq<Byte>, dump: Option<seq<Byte>>)
    requires |d| >= SECOND + SLOT && Refuses(d, idb, blob, dump).None?
    ensures |blob| <= SLOT
    ensures var image := Layout(d, idb, blob, dump);
            IsCurrent(image, blob, FIRST) && IsCurrent(image, blob, SECOND)
  {
    var image := Layout(d, idb, blob, dump);
    var fit := blob + Zeros(SLOT - |blob|);
    LayoutFits(d, idb, blob, dump);
    assert image[FIRST..FIRST + |blob|] == image[FIRST..FIRST + SLOT][..|blob|] == fit[..|blob|] == blob;
    assert image[SECOND..SECOND + |blob|] == image[SECOND..SECOND + SLOT][..|blob|];
  }

  lemma LayoutFits(d: seq<Byte>, idb: seq<Byte>, blob: seq<Byte>, dump: Option<seq<Byte>>)
    requires |d| >= SECOND + SLOT && Refuses(d, idb, blob, dump).None?
    ensures var image, fit := Layout(d, idb, blob, dump), blob + Zeros(SLOT - |blob|);
            image[FIRST..FIRST + SLOT] == fit && image[SECOND..SECOND + SLOT] == fit
  {
    var slot := Sectors(idb, 0, IDBLOADER_COPY_SECTORS);
    var fit := blob + Zeros(SLOT - |blob|);
    var before := Sectors(d, 0, 64) + slot + slot + slot + slot + slot + (Sectors(d, 5184, 1984) + Window(d, dump));
    assert |before| == FIRST;
    assert Layout(d, idb, blob, dump) == before + (fit + (fit + d[SECTOR * 24576..]));
  }

  // ---- losing power -------------------------------------------------------------------------------

  /** One byte reaching the disk. */
  datatype Write = Write(at: nat, value: Byte)

  function Writes(off: nat, s: seq<Byte>): seq<Write> {
    seq(|s|, i requires 0 <= i < |s| => Write(off + i, s[i]))
  }

  /** What the run writes to the slot at `off`, in order: zeros over all of it, then the blob. */
  function SlotTrace(d: seq<Byte>, blob: seq<Byte>, off: nat): seq<Write>
    requires off + SLOT <= |d| && |blob| <= SLOT
  {
    if IsCurrent(d, blob, off) then [] else Writes(off, Zeros(SLOT)) + Writes(off, blob)
  }

  function Trace(d: seq<Byte>, blob: seq<Byte>): seq<Write>
    requires |d| >= SECOND + SLOT && |blob| <= SLOT
  {
    SlotTrace(d, blob, FIRST) + SlotTrace(d, blob, SECOND)
  }

  /** The disk after these writes. */
  function After(d: seq<Byte>, writes: seq<Write>): (r: seq<Byte>)
    requires forall w | w in writes :: w.at < |d|
    ensures |r| == |d|
    decreases writes
  {
    if writes == [] then d
    else
      assert forall w | w in writes[..|writes| - 1] :: w in writes;
      assert writes[|writes| - 1] in writes;
      After(d, writes[..|writes| - 1])[writes[|writes| - 1].at := writes[|writes| - 1].value]
  }

  /** Bytes no write is aimed at stay. */
  lemma {:induction false} AfterElsewhere(d: seq<Byte>, writes: seq<Write>, off: nat, len: nat)
    requires off + len <= |d|
    requires forall w | w in writes :: w.at < |d| && !(off <= w.at < off + len)
    ensures After(d, writes)[off..off + len] == d[off..off + len]
    decreases writes
  {
    if writes != [] {
      var front := writes[..|writes| - 1];
      assert forall w | w in front :: w in writes;
      assert writes[|writes| - 1] in writes;
      AfterElsewhere(d, front, off, len);
    }
  }

  lemma {:induction false} AfterAppend(d: seq<Byte>, a: seq<Write>, b: seq<Write>)
    requires forall w | w in a + b :: w.at < |d|
    ensures (forall w | w in a :: w.at < |d|) && (forall w | w in b :: w.at < |d|)
    ensures After(d, a + b) == After(After(d, a), b)
    decreases b
  {
    assert forall w :: w in a + b <==> w in a || w in b;
    if b == [] {
      assert a + b == a;
    } else {
      var front := b[..|b| - 1];
      assert a + b == (a + front) + [b[|b| - 1]];
      assert (a + b)[..|a + b| - 1] == a + front;
      AfterAppend(d, a, front);
    }
  }

  /** A run of bytes written one after another is one overwrite. */
  lemma {:induction false} AfterWrites(d: seq<Byte>, off: nat, s: seq<Byte>)
    requires off + |s| <= |d|
    ensures forall w | w in Writes(off, s) :: w.at < |d|
    ensures After(d, Writes(off, s)) == Overwrite(d, off, s)
    decreases s
  {
    if s != [] {
      var front := s[..|s| - 1];
      var ws := Writes(off, s);
      assert ws[..|ws| - 1] == Writes(off, front);
      AfterWrites(d, off, front);
    } else {
      assert Writes(off, s) == [];
    }
  }

  lemma PrefixIn(writes: seq<Write>, n: nat)
    requires n <= |writes|
    ensures forall w | w in writes[..n] :: w in writes
  {
  }

  /** Where a slot's writes go. */
  lemma TraceInSlot(d: seq<Byte>, blob: seq<Byte>, off: nat)
    requires off + SLOT <= |d| && |blob| <= SLOT
    ensures forall w | w in SlotTrace(d, blob, off) :: off <= w.at < off + SLOT
  {
  }

  /** A slot's writes, all of them, are its update. */
  lemma TraceUpdates(d: seq<Byte>, blob: seq<Byte>, off: nat)
    requires off + SLOT <= |d| && |blob| <= SLOT
    ensures forall w | w in SlotTrace(d, blob, off) :: w.at < |d|
    ensures After(d, SlotTrace(d, blob, off)) == Updated(d, blob, off)
  {
    TraceInSlot(d, blob, off);
    if !IsCurrent(d, blob, off) {
      RewriteAfter(d, blob, off);
    }
  }

  lemma RewriteAfter(d: seq<Byte>, blob: seq<Byte>, off: nat)
    requires off + SLOT <= |d| && |blob| <= SLOT
    ensures forall w | w in Writes(off, Zeros(SLOT)) + Writes(off, blob) :: w.at < |d|
    ensures After(d, Writes(off, Zeros(SLOT)) + Writes(off, blob)) == Overwrite(d, off, Padded(blob, SLOT))
  {
    AfterTwo(d, off, Zeros(SLOT), blob);
    ClearThenWrite(d, off, blob, SLOT);
    WholeHead(blob, SLOT);
  }

  lemma WholeHead(s: seq<Byte>, len: nat)
    requires |s| <= len
    ensures Head(s, len) == s
  {
  }

  lemma AfterTwo(d: seq<Byte>, off: nat, s: seq<Byte>, t: seq<Byte>)
    requires off + |s| <= |d| && off + |t| <= |d|
    ensures forall w | w in Writes(off, s) + Writes(off, t) :: w.at < |d|
    ensures After(d, Writes(off, s) + Writes(off, t)) == Overwrite(Overwrite(d, off, s), off, t)
  {
    AfterAppend(d, Writes(off, s), Writes(off, t));
    AfterWrites(d, off, s);
    AfterWrites(Overwrite(d, off, s), off, t);
  }

  /** The slot at `off` begins with one of these complete FITs. */
  ghost predicate Holds(d: seq<Byte>, off: nat, fits: set<seq<Byte>>)
    requires off + SLOT <= |d|
  {
    exists f | f in fits :: |f| <= SLOT && d[off..off + |f|] == f
  }

  ghost predicate AreFits(fits: set<seq<Byte>>) {
    forall f | f in fits :: FIT_MAGIC <= f
  }

  /** A slot that has just been cleared holds no FIT. */
  lemma ClearedHoldsNone(d: seq<Byte>, off: nat, fits: set<seq<Byte>>)
    requires off + SLOT <= |d| && AreFits(fits)
    ensures !Holds(Overwrite(d, off, Zeros(SLOT)), off, fits)
  {
    var r := Overwrite(d, off, Zeros(SLOT));
    forall f | f in fits && |f| <= SLOT ensures r[off..off + |f|] != f {
      assert f[0] == FIT_MAGIC[0];
      assert r[off] == 0;
    }
  }

  lemma OtherSlotStays(d: seq<Byte>, blob: seq<Byte>, off: nat, other: nat, n: nat, fits: set<seq<Byte>>)
    requires off + SLOT <= |d| && other + SLOT <= |d| && |blob| <= SLOT && (off + SLOT <= other || other + SLOT <= off)
    requires n <= |SlotTrace(d, blob, off)|
    ensures forall w | w in SlotTrace(d, blob, off)[..n] :: w.at < |d|
    ensures Holds(After(d, SlotTrace(d, blob, off)[..n]), other, fits) <==> Holds(d, other, fits)
  {
    var writes := SlotTrace(d, blob, off)[..n];
    PrefixIn(SlotTrace(d, blob, off), n);
    TraceInSlot(d, blob, off);
    AfterElsewhere(d, writes, other, SLOT);
    SameSlotHolds(d, After(d, writes), other, fits);
  }

  lemma SameStart(d: seq<Byte>, e: seq<Byte>, off: nat, len: nat)
    requires len <= SLOT && off + SLOT <= |d| == |e| && d[off..off + SLOT] == e[off..off + SLOT]
    ensures d[off..off + len] == e[off..off + len]
  {
    assert d[off..off + len] == d[off..off + SLOT][..len] && e[off..off + len] == e[off..off + SLOT][..len];
  }

  lemma SameSlotHolds(d: seq<Byte>, e: seq<Byte>, off: nat, fits: set<seq<Byte>>)
    requires off + SLOT <= |d| == |e| && d[off..off + SLOT] == e[off..off + SLOT]
    ensures Holds(d, off, fits) <==> Holds(e, off, fits)
  {
    if f :| f in fits && |f| <= SLOT && d[off..off + |f|] == f {
      SameStart(d, e, off, |f|);
    }
    if f :| f in fits && |f| <= SLOT && e[off..off + |f|] == f {
      SameStart(d, e, off, |f|);
    }
  }

  /** At every point of this trace, one of the two slots holds a complete FIT. */
  ghost predicate SafeThroughout(d: seq<Byte>, writes: seq<Write>, fits: set<seq<Byte>>)
    requires |d| >= SECOND + SLOT && forall w | w in writes :: w.at < |d|
  {
    forall n | 0 <= n <= |writes| :: SafeAt(d, writes, n, fits)
  }

  ghost predicate SafeAt(d: seq<Byte>, writes: seq<Write>, n: nat, fits: set<seq<Byte>>)
    requires |d| >= SECOND + SLOT && n <= |writes| && forall w | w in writes :: w.at < |d|
  {
    PrefixIn(writes, n);
    Holds(After(d, writes[..n]), FIRST, fits) || Holds(After(d, writes[..n]), SECOND, fits)
  }

  /**
   Rewriting one slot is safe at every point exactly when it is current already or the other slot
   holds a FIT, whatever the slots hold to begin with. In particular, after a first slot that failed
   to verify and holds no FIT, going on to the second is not safe unless that one is current.
   */
  lemma SlotRewriteSafe(d: seq<Byte>, blob: seq<Byte>, off: nat, other: nat, fits: set<seq<Byte>>)
    requires |d| >= SECOND + SLOT && |blob| <= SLOT && {off, other} == {FIRST, SECOND}
    requires AreFits(fits) && blob in fits
    ensures forall w | w in SlotTrace(d, blob, off) :: w.at < |d|
    ensures SafeThroughout(d, SlotTrace(d, blob, off), fits) <==> IsCurrent(d, blob, off) || Holds(d, other, fits)
  {
    var writes := SlotTrace(d, blob, off);
    TraceInSlot(d, blob, off);
    if IsCurrent(d, blob, off) {
      assert Holds(d, off, fits);
      assert writes[..0] == [];
    } else if Holds(d, other, fits) {
      forall n | 0 <= n <= |writes| ensures SafeAt(d, writes, n, fits) {
        OtherSlotStays(d, blob, off, other, n, fits);
      }
    } else {
      OtherSlotStays(d, blob, off, other, SLOT, fits);
      assert writes[..SLOT] == Writes(off, Zeros(SLOT));
      AfterWrites(d, off, Zeros(SLOT));
      ClearedHoldsNone(d, off, fits);
      assert !SafeAt(d, writes, SLOT, fits);
    }
  }

  lemma CurrentHolds(d: seq<Byte>, blob: seq<Byte>, off: nat, fits: set<seq<Byte>>)
    requires off + SLOT <= |d| && |blob| <= SLOT && blob in fits && IsCurrent(d, blob, off)
    ensures Holds(d, off, fits)
  {
  }

  lemma SafeInTwo(d: seq<Byte>, a: seq<Write>, b: seq<Write>, fits: set<seq<Byte>>)
    requires |d| >= SECOND + SLOT && forall w | w in a + b :: w.at < |d|
    ensures (forall w | w in a :: w.at < |d|) && (forall w | w in b :: w.at < |d|)
    ensures SafeThroughout(d, a + b, fits) <==> SafeThroughout(d, a, fits) && SafeThroughout(After(d, a), b, fits)
  {
    assert forall w :: w in a + b <==> w in a || w in b;
    forall n | 0 <= n <= |a| ensures SafeAt(d, a + b, n, fits) <==> SafeAt(d, a, n, fits) {
      assert (a + b)[..n] == a[..n];
    }
    forall n | 0 <= n <= |b| ensures SafeAt(d, a + b, |a| + n, fits) <==> SafeAt(After(d, a), b, n, fits) {
      assert (a + b)[..|a| + n] == a + b[..n];
      PrefixIn(b, n);
      AfterAppend(d, a, b[..n]);
    }
    if SafeThroughout(d, a, fits) && SafeThroughout(After(d, a), b, fits) {
      forall n | 0 <= n <= |a + b| ensures SafeAt(d, a + b, n, fits) {
        if n > |a| {
          assert SafeAt(After(d, a), b, n - |a|, fits);
          assert n == |a| + (n - |a|);
        }
      }
    }
    if SafeThroughout(d, a + b, fits) {
      forall n | 0 <= n <= |b| ensures SafeAt(After(d, a), b, n, fits) {
        assert SafeAt(d, a + b, |a| + n, fits);
      }
    }
  }

  lemma SecondTraceSame(d: seq<Byte>, blob: seq<Byte>)
    requires |d| >= SECOND + SLOT && |blob| <= SLOT
    ensures SlotTrace(Updated(d, blob, FIRST), blob, SECOND) == SlotTrace(d, blob, SECOND)
    ensures forall w | w in Trace(d, blob) :: FIRST <= w.at < SECOND + SLOT
  {
    SlotsApart(d, blob);
    TraceInSlot(d, blob, FIRST);
    TraceInSlot(d, blob, SECOND);
  }

  /**
   Losing power at any byte of the run leaves a slot with a complete FIT, exactly when the first slot
   is current or the second holds a complete FIT to begin with. Both slots complete is enough.
   */
  lemma RunIsSafe(d: seq<Byte>, blob: seq<Byte>, fits: set<seq<Byte>>)
    requires |d| >= SECOND + SLOT && |blob| <= SLOT && AreFits(fits) && blob in fits
    ensures forall w | w in Trace(d, blob) :: w.at < |d|
    ensures SafeThroughout(d, Trace(d, blob), fits) <==> IsCurrent(d, blob, FIRST) || Holds(d, SECOND, fits)
  {
    var e := Updated(d, blob, FIRST);
    SecondTraceSame(d, blob);
    TraceUpdates(d, blob, FIRST);
    SlotsApart(d, blob);
    SafeInTwo(d, SlotTrace(d, blob, FIRST), SlotTrace(d, blob, SECOND), fits);
    SlotRewriteSafe(d, blob, FIRST, SECOND, fits);
    CurrentHolds(e, blob, FIRST, fits);
    SlotRewriteSafe(e, blob, SECOND, FIRST, fits);
  }

  /** The whole trace is the whole update. */
  lemma TraceIsUpdate(d: seq<Byte>, blob: seq<Byte>)
    requires |d| >= SECOND + SLOT && |blob| <= SLOT
    ensures forall w | w in Trace(d, blob) :: w.at < |d|
    ensures After(d, Trace(d, blob)) == Updated(Updated(d, blob, FIRST), blob, SECOND)
  {
    SecondTraceSame(d, blob);
    AfterAppend(d, SlotTrace(d, blob, FIRST), SlotTrace(d, blob, SECOND));
    TraceUpdates(d, blob, FIRST);
    TraceUpdates(Updated(d, blob, FIRST), blob, SECOND);
  }

  /** No point of the run reaches outside the two slots. */
  lemma TraceStaysInSlots(d: seq<Byte>, blob: seq<Byte>, n: nat)
    requires |d| >= SECOND + SLOT && |blob| <= SLOT && n <= |Trace(d, blob)|
    ensures forall w | w in Trace(d, blob)[..n] :: w.at < |d|
    ensures After(d, Trace(d, blob)[..n])[..FIRST] == d[..FIRST]
    ensures After(d, Trace(d, blob)[..n])[SECOND + SLOT..] == d[SECOND + SLOT..]
  {
    SecondTraceSame(d, blob);
    PrefixIn(Trace(d, blob), n);
    AfterElsewhere(d, Trace(d, blob)[..n], 0, FIRST);
    AfterElsewhere(d, Trace(d, blob)[..n], SECOND + SLOT, |d| - SECOND - SLOT);
    var e := After(d, Trace(d, blob)[..n]);
    assert e[SECOND + SLOT..] == e[SECOND + SLOT..|d|] && d[SECOND + SLOT..] == d[SECOND + SLOT..|d|];
  }

  // ---- losing power while writes are cached -------------------------------------------------------

  /** What a byte of a slot can be found to be before the slot is synced: as it was, cleared, or written. */
  predicate MayBe(was: Byte, found: Byte, blob: seq<Byte>, i: nat) {
    found == was || found == 0 || (i < |blob| && found == blob[i])
  }

  /**
   `e` may be found of `d` while the slot at `off` is rewritten. The clear and the write are synced together, so
   until then any of their bytes may have landed and any not, in any order.
   */
  ghost predicate Torn(d: seq<Byte>, e: seq<Byte>, blob: seq<Byte>, off: nat)
    requires off + SLOT <= |d| && |blob| <= SLOT
  {
    && |e| == |d|
    && (IsCurrent(d, blob, off) ==> e == d)
    && (forall i | 0 <= i < off :: e[i] == d[i]) && (forall i | off + SLOT <= i < |d| :: e[i] == d[i])
    && forall i | off <= i < off + SLOT :: MayBe(d[i], e[i], blob, i - off)
  }

  /** `e` may be found after losing power in the run: in the first slot, or, once that is synced, in the second. */
  ghost predicate MayBeFound(d: seq<Byte>, e: seq<Byte>, blob: seq<Byte>)
    requires |d| >= SECOND + SLOT && |blob| <= SLOT
  {
    Torn(d, e, blob, FIRST) || Torn(Updated(d, blob, FIRST), e, blob, SECOND)
  }

  ghost predicate Boots(e: seq<Byte>, fits: set<seq<Byte>>)
    requires |e| >= SECOND + SLOT
  {
    Holds(e, FIRST, fits) || Holds(e, SECOND, fits)
  }

  /** The slot that is not being rewritten is as it was. */
  lemma TornElsewhere(d: seq<Byte>, e: seq<Byte>, blob: seq<Byte>, off: nat, other: nat, fits: set<seq<Byte>>)
    requires off + SLOT <= |d| && other + SLOT <= |d| && |blob| <= SLOT && (off + SLOT <= other || other + SLOT <= off)
    requires Torn(d, e, blob, off)
    ensures Holds(e, other, fits) <==> Holds(d, other, fits)
  {
    assert d[other..other + SLOT] == e[other..other + SLOT];
    SameSlotHolds(d, e, other, fits);
  }

  lemma ClearedIsTorn(d: seq<Byte>, blob: seq<Byte>, off: nat)
    requires off + SLOT <= |d| && |blob| <= SLOT && !IsCurrent(d, blob, off)
    ensures Torn(d, Overwrite(d, off, Zeros(SLOT)), blob, off)
  {
    var e := Overwrite(d, off, Zeros(SLOT));
    assert forall i | off <= i < off + SLOT :: e[i] == Zeros(SLOT)[i - off] == 0;
  }

  lemma FirstTornBoots(d: seq<Byte>, e: seq<Byte>, blob: seq<Byte>, fits: set<seq<Byte>>)
    requires |d| >= SECOND + SLOT && |blob| <= SLOT && blob in fits && Torn(d, e, blob, FIRST)
    requires IsCurrent(d, blob, FIRST) || Holds(d, SECOND, fits)
    ensures Boots(e, fits)
  {
    if IsCurrent(d, blob, FIRST) {
      CurrentHolds(d, blob, FIRST, fits);
    } else {
      TornElsewhere(d, e, blob, FIRST, SECOND, fits);
    }
  }

  lemma SecondTornBoots(d: seq<Byte>, e: seq<Byte>, blob: seq<Byte>, fits: set<seq<Byte>>)
    requires |d| >= SECOND + SLOT && |blob| <= SLOT && blob in fits && Torn(Updated(d, blob, FIRST), e, blob, SECOND)
    ensures Boots(e, fits)
  {
    SlotsApart(d, blob);
    CurrentHolds(Updated(d, blob, FIRST), blob, FIRST, fits);
    TornElsewhere(Updated(d, blob, FIRST), e, blob, SECOND, FIRST, fits);
  }

  /**
   However the cached bytes of a slot land, every disk that may be found after losing power has a complete
   FIT in a slot, exactly when the first slot is current or the second holds one to begin with.
   */
  lemma TornRunIsSafe(d: seq<Byte>, blob: seq<Byte>, fits: set<seq<Byte>>)
    requires |d| >= SECOND + SLOT && |blob| <= SLOT && AreFits(fits) && blob in fits
    ensures (forall e | MayBeFound(d, e, blob) :: Boots(e, fits))
            <==> IsCurrent(d, blob, FIRST) || Holds(d, SECOND, fits)
  {
    if IsCurrent(d, blob, FIRST) || Holds(d, SECOND, fits) {
      forall e | MayBeFound(d, e, blob) ensures Boots(e, fits) {
        if Torn(d, e, blob, FIRST) {
          FirstTornBoots(d, e, blob, fits);
        } else {
          SecondTornBoots(d, e, blob, fits);
        }
      }
    } else {
      var e := Overwrite(d, FIRST, Zeros(SLOT));
      ClearedIsTorn(d, blob, FIRST);
      ClearedHoldsNone(d, FIRST, fits);
      TornElsewhere(d, e, blob, FIRST, SECOND, fits);
      assert MayBeFound(d, e, blob) && !Boots(e, fits);
    }
  }

  /** The writes keep to a slot, and write zeros or the blob. */
  ghost predicate SlotWrites(writes: seq<Write>, blob: seq<Byte>, off: nat) {
    forall w | w in writes ::
      off <= w.at < off + SLOT && (w.value == 0 || (w.at - off < |blob| && w.value == blob[w.at - off]))
  }

  lemma {:induction false} AfterMayBe(d: seq<Byte>, writes: seq<Write>, blob: seq<Byte>, off: nat, i: nat)
    requires off + SLOT <= |d| && i < |d| && SlotWrites(writes, blob, off)
    ensures forall w | w in writes :: w.at < |d|
    ensures if off <= i < off + SLOT then MayBe(d[i], After(d, writes)[i], blob, i - off) else After(d, writes)[i] == d[i]
    decreases writes
  {
    if writes != [] {
      var front := writes[..|writes| - 1];
      assert forall w | w in front :: w in writes;
      assert writes[|writes| - 1] in writes;
      AfterMayBe(d, front, blob, off, i);
    }
  }

  lemma AfterIsTorn(d: seq<Byte>, writes: seq<Write>, blob: seq<Byte>, off: nat)
    requires off + SLOT <= |d| && |blob| <= SLOT && SlotWrites(writes, blob, off)
    requires IsCurrent(d, blob, off) ==> writes == []
    ensures forall w | w in writes :: w.at < |d|
    ensures Torn(d, After(d, writes), blob, off)
  {
    forall i | 0 <= i < |d|
      ensures if off <= i < off + SLOT then MayBe(d[i], After(d, writes)[i], blob, i - off) else After(d, writes)[i] == d[i]
    {
      AfterMayBe(d, writes, blob, off, i);
    }
  }

  lemma TraceWrites(d: seq<Byte>, blob: seq<Byte>, off: nat, n: nat)
    requires off + SLOT <= |d| && |blob| <= SLOT && n <= |SlotTrace(d, blob, off)|
    ensures SlotWrites(SlotTrace(d, blob, off)[..n], blob, off)
    ensures IsCurrent(d, blob, off) ==> SlotTrace(d, blob, off)[..n] == []
  {
    PrefixIn(SlotTrace(d, blob, off), n);
  }

  /** Landing in the order they were written, a slot's bytes go through disks that may be found. */
  lemma TraceIsTorn(d: seq<Byte>, blob: seq<Byte>, off: nat, n: nat)
    requires off + SLOT <= |d| && |blob| <= SLOT && n <= |SlotTrace(d, blob, off)|
    ensures forall w | w in SlotTrace(d, blob, off)[..n] :: w.at < |d|
    ensures Torn(d, After(d, SlotTrace(d, blob, off)[..n]), blob, off)
  {
    TraceWrites(d, blob, off, n);
    AfterIsTorn(d, SlotTrace(d, blob, off)[..n], blob, off);
  }

  lemma RunIsFound(d: seq<Byte>, blob: seq<Byte>, n: nat)
    requires |d| >= SECOND + SLOT && |blob| <= SLOT && n <= |Trace(d, blob)|
    ensures forall w | w in Trace(d, blob)[..n] :: w.at < |d|
    ensures MayBeFound(d, After(d, Trace(d, blob)[..n]), blob)
  {
    var a, b := SlotTrace(d, blob, FIRST), SlotTrace(d, blob, SECOND);
    PrefixIn(Trace(d, blob), n);
    SecondTraceSame(d, blob);
    if n <= |a| {
      assert Trace(d, blob)[..n] == a[..n];
      TraceIsTorn(d, blob, FIRST, n);
    } else {
      var m := n - |a|;
      assert Trace(d, blob)[..n] == a + b[..m];
      AfterAppend(d, a, b[..m]);
      TraceUpdates(d, blob, FIRST);
      TraceIsTorn(Updated(d, blob, FIRST), blob, SECOND, m);
    }
  }
}
