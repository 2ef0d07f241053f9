/** Raw-sector writes: what dd does to a disk, and build-image.sh's `replicate`. */
module RawDisk {
  type Byte = b: int | 0 <= b < 256

  const SECTOR := 512

  function Zeros(n: nat): seq<Byte> {
    seq(n, _ => 0)
  }

  /** `d` with `s` written at byte `off`. */
  function Overwrite(d: seq<Byte>, off: nat, s: seq<Byte>): (r: seq<Byte>)
    requires off + |s| <= |d|
    ensures |r| == |d|
  {
    d[..off] + s + d[off + |s|..]
  }

  /** The first `n` bytes, or all of them. */
  function Head(s: seq<Byte>, n: nat): seq<Byte> {
    if n <= |s| then s[..n] else s
  }

  /** A blob filling a slot: cut off at its end, or zeros after it. */
  function Padded(s: seq<Byte>, len: nat): (p: seq<Byte>)
    ensures |p| == len
  {
    Head(s, len) + Zeros(len - |Head(s, len)|)
  }

  function Repeat(s: seq<Byte>, n: nat): (r: seq<Byte>)
    ensures |r| == n * |s|
  {
    if n == 0 then [] else Repeat(s, n - 1) + s
  }

  function LittleEndian(s: seq<Byte>): nat {
    if s == [] then 0 else s[0] + 256 * LittleEndian(s[1..])
  }

  /** `dd of=disk bs=512 seek=at count=count conv=notrunc` */
  method Dd(disk: array<Byte>, src: seq<Byte>, at: nat, count: nat)
    requires SECTOR * (at + count) <= disk.Length
    modifies disk
    ensures disk[..] == Overwrite(old(disk[..]), SECTOR * at, Head(src, SECTOR * count))
  {
    var s := Head(src, SECTOR * count);
    forall i | 0 <= i < |s| {
      disk[SECTOR * at + i] := s[i];
    }
  }

  /** Clearing a slot and then writing the blob leaves no byte of what the slot held. */
  lemma ClearThenWrite(d: seq<Byte>, off: nat, src: seq<Byte>, len: nat)
    requires off + len <= |d|
    ensures Overwrite(Overwrite(d, off, Zeros(len)), off, Head(src, len)) == Overwrite(d, off, Padded(src, len))
  {
  }

  /** One more slot after those already written. */
  lemma SlotAfterSlots(d: seq<Byte>, off: nat, done: seq<Byte>, slot: seq<Byte>)
    requires off + |done| + |slot| <= |d|
    ensures Overwrite(Overwrite(d, off, done), off + |done|, slot) == Overwrite(d, off, done + slot)
  {
  }

  /** One slot, cleared and then written. */
  method FillSlot(disk: array<Byte>, src: seq<Byte>, at: nat, sectors: nat)
    requires SECTOR * (at + sectors) <= disk.Length
    modifies disk
    ensures disk[..] == Overwrite(old(disk[..]), SECTOR * at, Padded(src, SECTOR * sectors))
  {
    ghost var d, off, len := disk[..], SECTOR * at, SECTOR * sectors;
    assert off + len <= |d|;
    Dd(disk, Zeros(SECTOR * sectors), at, sectors);
    assert disk[..] == Overwrite(d, off, Zeros(len));
    Dd(disk, src, at, sectors);
    ClearThenWrite(d, off, src, len);
  }

  /** `replicate`: `src` into `copies` slots of `sectors` sectors from sector `seek`. */
  method Replicate(disk: array<Byte>, src: seq<Byte>, copies: nat, sectors: nat, seek: nat)
    requires SECTOR * (seek + copies * sectors) <= disk.Length
    modifies disk
    ensures SECTOR * seek + |Repeat(Padded(src, SECTOR * sectors), copies)| <= disk.Length
    ensures disk[..] == Overwrite(old(disk[..]), SECTOR * seek, Repeat(Padded(src, SECTOR * sectors), copies))
  {
    var slot := Padded(src, SECTOR * sectors);
    for i := 0 to copies
      invariant SECTOR * seek + |Repeat(slot, i)| <= disk.Length
      invariant disk[..] == Overwrite(old(disk[..]), SECTOR * seek, Repeat(slot, i))
    {
      SlotBounds(i, copies, sectors, seek);
      FillSlot(disk, src, seek + i * sectors, sectors);
      SlotAfterSlots(old(disk[..]), SECTOR * seek, Repeat(slot, i), slot);
    }
  }

  lemma SlotBounds(i: nat, copies: nat, sectors: nat, seek: nat)
    requires i < copies
    ensures SECTOR * (seek + i * sectors) == SECTOR * seek + i * (SECTOR * sectors)
    ensures SECTOR * (seek + i * sectors + sectors) <= SECTOR * (seek + copies * sectors)
  {
    MulMonotone(i + 1, copies, sectors);
  }

  lemma MulMonotone(a: nat, b: nat, c: nat)
    requires a <= b
    ensures a * c <= b * c
  {
  }

  /** Every copy is there. */
  lemma {:induction false} RepeatAt(s: seq<Byte>, n: nat, i: nat)
    requires i < n
    ensures i * |s| + |s| <= |Repeat(s, n)| && Repeat(s, n)[i * |s|..i * |s| + |s|] == s
    decreases n
  {
    if i < n - 1 {
      RepeatAt(s, n - 1, i);
    } else {
      assert |Repeat(s, n - 1)| == i * |s|;
    }
  }
}
