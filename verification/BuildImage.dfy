/** build-image.sh: the loader pair and the factory window laid into an Armbian image. */
module BuildImage {
  import opened Wrappers
  import opened RawDisk

  const IDBLOADER_SEEK := 64
  const UBOOT_PART_END := 24575
  const UBOOT_SEEK := 16384
  const UBOOT_SLOT_SECTORS := 4096
  const UBOOT_COPIES := 2
  const IDBLOADER_COPIES := 5
  const IDBLOADER_COPY_SECTORS := 1024
  const FACTORY_WINDOW_SEEK := 7168
  const FACTORY_WINDOW_SECTORS := 9216
  const ROOTFS_START_MAX := 131072

  const RKNS: seq<Byte> := [0x52, 0x4b, 0x4e, 0x53]
  const FIT_MAGIC: seq<Byte> := [0xd0, 0x0d, 0xfe, 0xed]
  const EFI_PART: seq<Byte> := [0x45, 0x46, 0x49, 0x20, 0x50, 0x41, 0x52, 0x54]

  function Sectors(d: seq<Byte>, first: nat, count: nat): (s: seq<Byte>)
    requires SECTOR * (first + count) <= |d|
    ensures |s| == SECTOR * count
  {
    d[SECTOR * first..SECTOR * (first + count)]
  }

  /** `gpt_first_lba`: the first partition's start, as UEFI section 5.3 lays it out. */
  function GptFirstLba(d: seq<Byte>): Option<nat>
    requires |d| >= SECTOR * 2
  {
    if d[512..520] != EFI_PART then None
    else
      var entries := LittleEndian(d[584..592]);
      if entries == 0 || SECTOR * entries + 40 > |d| then None
      else Some(LittleEndian(d[SECTOR * entries + 32..SECTOR * entries + 40]))
  }

  /** The number eight bytes spell, the lowest first. */
  function NumberAt(d: seq<Byte>, at: nat): nat
    requires at + 8 <= |d|
  {
    var b0: int, b1: int, b2: int, b3: int := d[at], d[at + 1], d[at + 2], d[at + 3];
    var b4: int, b5: int, b6: int, b7: int := d[at + 4], d[at + 5], d[at + 6], d[at + 7];
    b0 + 0x100 * b1 + 0x10000 * b2 + 0x1000000 * b3
    + 0x100000000 * b4 + 0x10000000000 * b5 + 0x1000000000000 * b6 + 0x100000000000000 * b7
  }

  /** The bytes are a GPT: the header, in the second sector, names at byte 72 the sector of an array whose
      first entry names at byte 32 `n` as its first sector. */
  ghost predicate GptNames(d: seq<Byte>, n: nat) {
    && |d| >= 1024
    && d[512] == 0x45 && d[513] == 0x46 && d[514] == 0x49 && d[515] == 0x20
    && d[516] == 0x50 && d[517] == 0x41 && d[518] == 0x52 && d[519] == 0x54
    && var entries := NumberAt(d, 512 + 72);
       entries > 0 && 512 * entries + 40 <= |d| && NumberAt(d, 512 * entries + 32) == n
  }

  lemma LittleEndianEight(d: seq<Byte>, at: nat)
    requires at + 8 <= |d|
    ensures LittleEndian(d[at..at + 8]) == NumberAt(d, at)
  {
    var s := d[at..at + 8];
    assert s[1..][1..] == s[2..] && s[2..][1..] == s[3..] && s[3..][1..] == s[4..] && s[4..][1..] == s[5..];
    assert s[5..][1..] == s[6..] && s[6..][1..] == s[7..] && s[7..][1..] == [];
    assert LittleEndian(s[7..]) == s[7];
    assert LittleEndian(s[6..]) == s[6] + 256 * LittleEndian(s[7..]);
    assert LittleEndian(s[5..]) == s[5] + 256 * LittleEndian(s[6..]);
    assert LittleEndian(s[4..]) == s[4] + 256 * LittleEndian(s[5..]);
    assert LittleEndian(s[3..]) == s[3] + 256 * LittleEndian(s[4..]);
    assert LittleEndian(s[2..]) == s[2] + 256 * LittleEndian(s[3..]);
    assert LittleEndian(s[1..]) == s[1] + 256 * LittleEndian(s[2..]);
  }

  /** What the script reads is what the GPT names. */
  lemma GptReads(d: seq<Byte>, n: nat)
    requires |d| >= SECTOR * 2
    ensures GptFirstLba(d) == Some(n) <==> GptNames(d, n)
  {
    var magic := d[512..520];
    assert magic == [d[512], d[513], d[514], d[515], d[516], d[517], d[518], d[519]];
    LittleEndianEight(d, 584);
    var entries := NumberAt(d, 584);
    if entries > 0 && 512 * entries + 40 <= |d| {
      LittleEndianEight(d, 512 * entries + 32);
    }
  }

  datatype Refusal = NotAnIdBlock | IdbloaderShort | NotAFit | UbootTooLong | BadGpt | DumpShort | WrongModel

  /** The guards, in the script's order; None when every one is passed. */
  function Refuses(d: seq<Byte>, idb: seq<Byte>, uboot: seq<Byte>, dump: Option<seq<Byte>>): Option<Refusal>
    requires |d| >= SECTOR * 2
  {
    if !(RKNS <= idb) then Some(NotAnIdBlock)
    else if |idb| < SECTOR * IDBLOADER_COPY_SECTORS then Some(IdbloaderShort)
    else if !(FIT_MAGIC <= uboot) then Some(NotAFit)
    else if |uboot| > SECTOR * UBOOT_SLOT_SECTORS then Some(UbootTooLong)
    else
      var rootfs := GptFirstLba(d);
      if rootfs.None? || !(UBOOT_PART_END < rootfs.value <= ROOTFS_START_MAX) then Some(BadGpt)
      else if dump.None? then None
      else if |dump.value| < SECTOR * (FACTORY_WINDOW_SEEK + FACTORY_WINDOW_SECTORS) then Some(DumpShort)
      else if Sectors(dump.value, IDBLOADER_SEEK, IDBLOADER_COPY_SECTORS) != Sectors(idb, 0, IDBLOADER_COPY_SECTORS)
      then Some(WrongModel)
      else None
  }

  ghost predicate StartsWith(s: seq<Byte>, a: Byte, b: Byte, c: Byte, e: Byte) {
    |s| >= 4 && s[0] == a && s[1] == b && s[2] == c && s[3] == e
  }

  /** The GPT's first partition starts after the last U-Boot slot, and no further out than 64 MiB. */
  ghost predicate StartsInRange(d: seq<Byte>) {
    exists n :: GptNames(d, n) && 24576 <= n && 512 * n <= 64 * 0x100000
  }

  /** The dump has, where the image gets the first idbloader, what the image gets there. */
  ghost predicate SameModel(dump: seq<Byte>, idb: seq<Byte>) {
    |dump| >= 0x88000 && |idb| >= 0x80000 && forall i | 0 <= i < 0x80000 :: dump[0x8000 + i] == idb[i]
  }

  /** When the image is refused, and why, on the bytes of the four files. */
  lemma RefusedWhen(d: seq<Byte>, idb: seq<Byte>, uboot: seq<Byte>, dump: Option<seq<Byte>>)
    requires |d| >= SECTOR * 2
    ensures var idBlock, fit := StartsWith(idb, 'R' as int, 'K' as int, 'N' as int, 'S' as int),
                                StartsWith(uboot, 0xd0, 0x0d, 0xfe, 0xed);
            Refuses(d, idb, uboot, dump)
            == if !idBlock then Some(NotAnIdBlock)
               else if |idb| < 0x80000 then Some(IdbloaderShort)
               else if !fit then Some(NotAFit)
               else if |uboot| > 0x200000 then Some(UbootTooLong)
               else if !StartsInRange(d) then Some(BadGpt)
               else if dump.None? then None
               else if |dump.value| < 0x800000 then Some(DumpShort)
               else if !SameModel(dump.value, idb) then Some(WrongModel)
               else None
  {
    PrefixOfFour(idb, RKNS);
    PrefixOfFour(uboot, FIT_MAGIC);
    forall n: nat ensures GptFirstLba(d) == Some(n) <==> GptNames(d, n) {
      GptReads(d, n);
    }
    if |idb| >= 0x80000 && dump.Some? && |dump.value| >= 0x88000 {
      ModelCompared(dump.value, idb);
    }
  }

  lemma PrefixOfFour(s: seq<Byte>, four: seq<Byte>)
    requires |four| == 4
    ensures four <= s <==> StartsWith(s, four[0], four[1], four[2], four[3])
  {
  }

  lemma ModelCompared(dump: seq<Byte>, idb: seq<Byte>)
    requires |idb| >= 0x80000 && |dump| >= 0x88000
    ensures Sectors(dump, IDBLOADER_SEEK, IDBLOADER_COPY_SECTORS) == Sectors(idb, 0, IDBLOADER_COPY_SECTORS)
            <==> SameModel(dump, idb)
  {
    var a, b := Sectors(dump, IDBLOADER_SEEK, IDBLOADER_COPY_SECTORS), Sectors(idb, 0, IDBLOADER_COPY_SECTORS);
    assert forall i | 0 <= i < 0x80000 :: a[i] == dump[0x8000 + i] && b[i] == idb[i];
    if a == b {
      forall i | 0 <= i < 0x80000 ensures dump[0x8000 + i] == idb[i] {
        assert a[i] == b[i];
      }
    }
  }

  /** The factory data between the loaders: the dump's if there is one, else what the image has. */
  function Window(d: seq<Byte>, dump: Option<seq<Byte>>): (w: seq<Byte>)
    requires |d| >= SECTOR * (UBOOT_PART_END + 1)
    requires dump.Some? ==> |dump.value| >= SECTOR * (FACTORY_WINDOW_SEEK + FACTORY_WINDOW_SECTORS)
    ensures |w| == SECTOR * FACTORY_WINDOW_SECTORS
  {
    Sectors(if dump.Some? then dump.value else d, FACTORY_WINDOW_SEEK, FACTORY_WINDOW_SECTORS)
  }

  /** The whole image, stretch by stretch. */
  function Layout(d: seq<Byte>, idb: seq<Byte>, uboot: seq<Byte>, dump: Option<seq<Byte>>): (r: seq<Byte>)
    requires |d| >= SECTOR * (UBOOT_PART_END + 1)
    requires |idb| >= SECTOR * IDBLOADER_COPY_SECTORS && |uboot| <= SECTOR * UBOOT_SLOT_SECTORS
    requires dump.Some? ==> |dump.value| >= SECTOR * (FACTORY_WINDOW_SEEK + FACTORY_WINDOW_SECTORS)
    ensures |r| == |d|
  {
    var slot := Sectors(idb, 0, IDBLOADER_COPY_SECTORS);
    var fit := uboot + Zeros(SECTOR * UBOOT_SLOT_SECTORS - |uboot|);
    Sectors(d, 0, 64)                       // protective MBR and GPT
    + slot + slot + slot + slot + slot      // sectors 64 to 5183
    + (Sectors(d, 5184, 1984)
       + Window(d, dump))                   // sectors 7168 to 16383
    + fit + fit                             // sectors 16384 to 24575
    + d[SECTOR * 24576..]                   // the partitions
  }

  lemma IdbloaderSlots(idb: seq<Byte>)
    requires |idb| >= SECTOR * IDBLOADER_COPY_SECTORS
    ensures var slot := Sectors(idb, 0, IDBLOADER_COPY_SECTORS);
            Repeat(Padded(idb, SECTOR * IDBLOADER_COPY_SECTORS), IDBLOADER_COPIES) == slot + slot + slot + slot + slot
  {
    var slot := Sectors(idb, 0, IDBLOADER_COPY_SECTORS);
    assert Padded(idb, SECTOR * IDBLOADER_COPY_SECTORS) == slot;
    assert Repeat(slot, 1) == slot by { assert Repeat(slot, 0) == []; }
    assert Repeat(slot, 2) == slot + slot;
    assert Repeat(slot, 3) == slot + slot + slot;
    assert Repeat(slot, 4) == slot + slot + slot + slot;
  }

  lemma UbootSlots(uboot: seq<Byte>)
    requires |uboot| <= SECTOR * UBOOT_SLOT_SECTORS
    ensures var fit := uboot + Zeros(SECTOR * UBOOT_SLOT_SECTORS - |uboot|);
            Repeat(Padded(uboot, SECTOR * UBOOT_SLOT_SECTORS), UBOOT_COPIES) == fit + fit
  {
    var fit := uboot + Zeros(SECTOR * UBOOT_SLOT_SECTORS - |uboot|);
    assert Padded(uboot, SECTOR * UBOOT_SLOT_SECTORS) == fit;
    assert Repeat(fit, 1) == fit by { assert Repeat(fit, 0) == []; }
  }

  /** Three writes, apart from each other, are the layout. */
  lemma WritesAreLayout(d: seq<Byte>, window: seq<Byte>, ids: seq<Byte>, fits: seq<Byte>)
    requires |d| >= SECTOR * (UBOOT_PART_END + 1)
    requires |window| == SECTOR * FACTORY_WINDOW_SECTORS
    requires |ids| == SECTOR * 5120 && |fits| == SECTOR * 8192
    ensures Overwrite(Overwrite(Overwrite(d, SECTOR * 7168, window), SECTOR * 64, ids), SECTOR * 16384, fits)
            == Sectors(d, 0, 64) + ids + (Sectors(d, 5184, 1984) + window) + fits + d[SECTOR * 24576..]
  {
  }

  lemma SameWindow(d: seq<Byte>)
    requires |d| >= SECTOR * (UBOOT_PART_END + 1)
    ensures Overwrite(d, SECTOR * FACTORY_WINDOW_SEEK, Sectors(d, FACTORY_WINDOW_SEEK, FACTORY_WINDOW_SECTORS)) == d
  {
  }

  /** The window, when there is a dump to take it from. */
  method RestoreWindow(img: array<Byte>, dump: Option<seq<Byte>>)
    requires img.Length >= SECTOR * (UBOOT_PART_END + 1)
    requires dump.Some? ==> |dump.value| >= SECTOR * (FACTORY_WINDOW_SEEK + FACTORY_WINDOW_SECTORS)
    modifies img
    ensures img[..] == Overwrite(old(img[..]), SECTOR * FACTORY_WINDOW_SEEK, Window(old(img[..]), dump))
  {
    if dump.Some? {
      var from := dump.value[SECTOR * FACTORY_WINDOW_SEEK..];
      assert Head(from, SECTOR * FACTORY_WINDOW_SECTORS) == Window(img[..], dump);
      Dd(img, from, FACTORY_WINDOW_SEEK, FACTORY_WINDOW_SECTORS);
    } else {
      SameWindow(img[..]);
    }
  }

  method WriteLoaders(img: array<Byte>, idb: seq<Byte>, uboot: seq<Byte>)
    requires img.Length >= SECTOR * (UBOOT_PART_END + 1)
    modifies img
    ensures var ids := Repeat(Padded(idb, SECTOR * IDBLOADER_COPY_SECTORS), IDBLOADER_COPIES);
            var fits := Repeat(Padded(uboot, SECTOR * UBOOT_SLOT_SECTORS), UBOOT_COPIES);
            && |ids| == SECTOR * 5120 && |fits| == SECTOR * 8192
            && img[..] == Overwrite(Overwrite(old(img[..]), SECTOR * IDBLOADER_SEEK, ids), SECTOR * UBOOT_SEEK, fits)
  {
    Replicate(img, idb, IDBLOADER_COPIES, IDBLOADER_COPY_SECTORS, IDBLOADER_SEEK);
    Replicate(img, uboot, UBOOT_COPIES, UBOOT_SLOT_SECTORS, UBOOT_SEEK);
  }

  /** Sections 1 and 2 of the script: `img` holds the base image to begin with. */
  method LayImage(img: array<Byte>, idb: seq<Byte>, uboot: seq<Byte>, dump: Option<seq<Byte>>) returns (refusal: Option<Refusal>)
    requires img.Length >= SECTOR * (UBOOT_PART_END + 1)
    modifies img
    ensures refusal == Refuses(old(img[..]), idb, uboot, dump)
    ensures refusal.Some? ==> img[..] == old(img[..])
    ensures refusal.None? ==> img[..] == Layout(old(img[..]), idb, uboot, dump)
  {
    refusal := Refuses(img[..], idb, uboot, dump);
    if refusal.None? {
      ghost var d := img[..];
      LoadersAreLayout(d, idb, uboot, dump);
      RestoreWindow(img, dump);
      WriteLoaders(img, idb, uboot);
    }
  }

  lemma LoadersAreLayout(d: seq<Byte>, idb: seq<Byte>, uboot: seq<Byte>, dump: Option<seq<Byte>>)
    requires |d| >= SECTOR * (UBOOT_PART_END + 1)
    requires |idb| >= SECTOR * IDBLOADER_COPY_SECTORS && |uboot| <= SECTOR * UBOOT_SLOT_SECTORS
    requires dump.Some? ==> |dump.value| >= SECTOR * (FACTORY_WINDOW_SEEK + FACTORY_WINDOW_SECTORS)
    ensures var ids := Repeat(Padded(idb, SECTOR * IDBLOADER_COPY_SECTORS), IDBLOADER_COPIES);
            var fits := Repeat(Padded(uboot, SECTOR * UBOOT_SLOT_SECTORS), UBOOT_COPIES);
            && |ids| == SECTOR * 5120 && |fits| == SECTOR * 8192
            && Overwrite(Overwrite(Overwrite(d, SECTOR * FACTORY_WINDOW_SEEK, Window(d, dump)), SECTOR * IDBLOADER_SEEK, ids),
                         SECTOR * UBOOT_SEEK, fits)
               == Layout(d, idb, uboot, dump)
  {
    var slot, fit := Sectors(idb, 0, IDBLOADER_COPY_SECTORS), uboot + Zeros(SECTOR * UBOOT_SLOT_SECTORS - |uboot|);
    IdbloaderSlots(idb);
    UbootSlots(uboot);
    WritesAreLayout(d, Window(d, dump), slot + slot + slot + slot + slot, fit + fit);
    SlotsInARow(Sectors(d, 0, 64), slot, Sectors(d, 5184, 1984) + Window(d, dump), fit, d[SECTOR * 24576..]);
  }

  lemma SlotsInARow(head: seq<Byte>, slot: seq<Byte>, middle: seq<Byte>, fit: seq<Byte>, tail: seq<Byte>)
    ensures head + (slot + slot + slot + slot + slot) + middle + (fit + fit) + tail
            == head + slot + slot + slot + slot + slot + middle + fit + fit + tail
  {
  }

  /** Sectors the script may write: the loaders, the factory window and the U-Boot slots. */
  predicate Written(sector: nat) {
    64 <= sector < 5184 || 7168 <= sector < 24576
  }

  /** A sector that is not written is as it was. */
  lemma SectorKept(d: seq<Byte>, idb: seq<Byte>, uboot: seq<Byte>, dump: Option<seq<Byte>>, sector: nat)
    requires |d| >= SECTOR * (UBOOT_PART_END + 1) && Refuses(d, idb, uboot, dump).None?
    requires !Written(sector)
    ensures var after := Layout(d, idb, uboot, dump);
            forall i | SECTOR * sector <= i < SECTOR * (sector + 1) && i < |d| :: after[i] == d[i]
  {
  }

  /** The image, byte by byte: `at` counts from the start of the stretch it is in. */
  function LaidByte(d: seq<Byte>, idb: seq<Byte>, uboot: seq<Byte>, dump: Option<seq<Byte>>, i: nat): Byte
    requires i < |d| && |idb| >= 0x80000 && (dump.Some? ==> |dump.value| >= 0x800000)
  {
    if 0x8000 <= i < 0x288000 then idb[(i - 0x8000) % 0x80000]
    else if 0x380000 <= i < 0x800000 then if dump.Some? then dump.value[i] else d[i]
    else if 0x800000 <= i < 0xc00000 then
      var at := (i - 0x800000) % 0x200000;
      if at < |uboot| then uboot[at] else 0
    else d[i]
  }

  lemma FiveTimes(slot: seq<Byte>, k: nat)
    requires |slot| == 0x80000 && k < 0x280000
    ensures (slot + slot + slot + slot + slot)[k] == slot[k % 0x80000]
  {
  }

  lemma Twice(fit: seq<Byte>, k: nat)
    requires |fit| == 0x200000 && k < 0x400000
    ensures (fit + fit)[k] == fit[k % 0x200000]
  {
  }

  lemma FromStretches(a: seq<Byte>, ids: seq<Byte>, b: seq<Byte>, w: seq<Byte>, fits: seq<Byte>, tail: seq<Byte>, i: nat)
    requires |a| == 0x8000 && |ids| == 0x280000 && |b| == 0xf8000 && |w| == 0x480000 && |fits| == 0x400000
    requires i < |a + ids + (b + w) + fits + tail|
    ensures (a + ids + (b + w) + fits + tail)[i]
            == if i < 0x8000 then a[i] else if i < 0x288000 then ids[i - 0x8000] else if i < 0x380000 then b[i - 0x288000]
               else if i < 0x800000 then w[i - 0x380000] else if i < 0xc00000 then fits[i - 0x800000] else tail[i - 0xc00000]
  {
  }

  /** What the layout puts at every byte. */
  lemma LayoutBytes(d: seq<Byte>, idb: seq<Byte>, uboot: seq<Byte>, dump: Option<seq<Byte>>, i: nat)
    requires |d| >= 0xc00000 && i < |d| && |idb| >= 0x80000 && |uboot| <= 0x200000
    requires dump.Some? ==> |dump.value| >= 0x800000
    ensures Layout(d, idb, uboot, dump)[i] == LaidByte(d, idb, uboot, dump, i)
  {
    var slot, fit := Sectors(idb, 0, IDBLOADER_COPY_SECTORS), uboot + Zeros(SECTOR * UBOOT_SLOT_SECTORS - |uboot|);
    var ids, fits := slot + slot + slot + slot + slot, fit + fit;
    SlotsInARow(Sectors(d, 0, 64), slot, Sectors(d, 5184, 1984) + Window(d, dump), fit, d[SECTOR * 24576..]);
    FromStretches(Sectors(d, 0, 64), ids, Sectors(d, 5184, 1984), Window(d, dump), fits, d[SECTOR * 24576..], i);
    if 0x8000 <= i < 0x288000 {
      FiveTimes(slot, i - 0x8000);
    }
    if 0x800000 <= i < 0xc00000 {
      Twice(fit, i - 0x800000);
    }
  }

  /** A GPT whose three reads are kept names the same start. */
  lemma GptKept(d: seq<Byte>, e: seq<Byte>, rootfs: nat)
    requires |d| == |e| && GptNames(d, rootfs)
    requires forall i | 512 <= i < 592 :: d[i] == e[i]
    requires var entries := NumberAt(d, 584); forall i | 512 * entries + 32 <= i < 512 * entries + 40 :: d[i] == e[i]
    ensures GptNames(e, rootfs)
  {
    var entries := NumberAt(d, 584);
    assert NumberAt(e, 584) == entries;
    assert NumberAt(e, 512 * entries + 32) == NumberAt(d, 512 * entries + 32);
  }

  lemma LayoutKeeps(d: seq<Byte>, idb: seq<Byte>, uboot: seq<Byte>, dump: Option<seq<Byte>>)
    requires |d| >= SECTOR * (UBOOT_PART_END + 1) && Refuses(d, idb, uboot, dump).None?
    ensures var after := Layout(d, idb, uboot, dump);
            && (forall i | 0 <= i < 0x8000 :: after[i] == d[i]) && (forall i | 0xc00000 <= i < |d| :: after[i] == d[i])
            && after[..0x8000] == d[..0x8000]
            && forall at | 0xc00000 <= at <= |d| :: after[at..] == d[at..]
  {
    var after := Layout(d, idb, uboot, dump);
    RefusedWhen(d, idb, uboot, dump);
    forall i | 0 <= i < |d| && (i < 0x8000 || 0xc00000 <= i) ensures after[i] == d[i] {
      LayoutBytes(d, idb, uboot, dump, i);
    }
    SameSlice(after, d, 0, 0x8000);
    assert after[0..0x8000] == after[..0x8000] && d[0..0x8000] == d[..0x8000];
    forall at | 0xc00000 <= at <= |d| ensures after[at..] == d[at..] {
      SameSlice(after, d, at, |d|);
      assert after[at..|d|] == after[at..] && d[at..|d|] == d[at..];
    }
  }

  lemma SameSlice(a: seq<Byte>, b: seq<Byte>, from: nat, to: nat)
    requires from <= to <= |a| == |b| && forall i | from <= i < to :: a[i] == b[i]
    ensures a[from..to] == b[from..to]
  {
  }

  /**
   Nothing before the loaders or from the first partition on is touched, and the GPT names the same start
   if its first entry does not stand in a sector that is written.
   */
  lemma PartitionsUntouched(d: seq<Byte>, idb: seq<Byte>, uboot: seq<Byte>, dump: Option<seq<Byte>>, rootfs: nat)
    requires |d| >= SECTOR * (UBOOT_PART_END + 1) && Refuses(d, idb, uboot, dump).None? && GptNames(d, rootfs)
    ensures var after := Layout(d, idb, uboot, dump);
            && after[..0x8000] == d[..0x8000]
            && (512 * rootfs <= |d| ==> after[512 * rootfs..] == d[512 * rootfs..])
            && (!Written(NumberAt(d, 584)) ==> GptNames(after, rootfs))
  {
    GptReads(d, rootfs);
    LayoutKeeps(d, idb, uboot, dump);
    if !Written(NumberAt(d, 584)) {
      SectorKept(d, idb, uboot, dump, NumberAt(d, 584));
      GptKept(d, Layout(d, idb, uboot, dump), rootfs);
    }
  }
}
