/** The bitmap physical memory manager. One bit per frame, packed in 64-bit words that
    live in the very memory they describe: a set bit is a frame in use. */
module Pmm {
  import opened Arith
  import opened Bits

  const PAGE_SIZE: nat := 4096
  const CONVENTIONAL: nat := 7

  /** The fields of a UEFI memory descriptor that the kernel reads. */
  datatype Descriptor = Descriptor(kind: nat, physStart: nat, pageCount: nat)

  /** The descriptor stored at byte address `a`: type at offset 0, start at 8, pages at 24. */
  function DescriptorAt(m: seq<Byte>, a: nat): Descriptor
    requires a + 40 <= |m|
  {
    Descriptor(Le(m[a..a + 4]), Word(m, a + 8), Word(m, a + 24))
  }

  lemma DescriptorFrame(m: seq<Byte>, m': seq<Byte>, a: nat)
    requires |m| == |m'| && a + 40 <= |m|
    requires forall i :: a <= i < a + 40 ==> m[i] == m'[i]
    ensures DescriptorAt(m, a) == DescriptorAt(m', a)
  {
    assert m[a..a + 4] == m'[a..a + 4];
    WordFrame(m, m', a + 8);
    WordFrame(m, m', a + 24);
  }

  /** Where the firmware left the memory map: `len` descriptors, `step` bytes apart. */
  datatype MapInfo = MapInfo(addr: nat, len: nat, step: nat) {
    function At(i: nat): nat { addr + i * step }

    function End(): nat { addr + len * step }

    lemma AtInside(i: nat)
      requires i < len && 40 <= step
      ensures addr <= At(i) && At(i) + 40 <= End()
    {
      MulSplit(i, len - i, step);
      MulLe(1, len - i, step);
    }
  }

  function Entry(m: seq<Byte>, info: MapInfo, i: nat): Descriptor
    requires 40 <= info.step && info.End() <= |m| && i < info.len
  {
    info.AtInside(i);
    DescriptorAt(m, info.At(i))
  }

  /** Frame `f` lies in the region of descriptor `d`. */
  predicate Covers(d: Descriptor, f: nat) {
    d.physStart / PAGE_SIZE <= f < d.physStart / PAGE_SIZE + d.pageCount
  }

  /** One of the first `n` descriptors is usable RAM holding frame `f`. */
  ghost predicate Conventional(m: seq<Byte>, info: MapInfo, n: nat, f: nat)
    requires 40 <= info.step && info.End() <= |m| && n <= info.len
  {
    exists i :: 0 <= i < n && Entry(m, info, i).kind == CONVENTIONAL && Covers(Entry(m, info, i), f)
  }

  /** What the firmware and the bootloader promise about the map: usable regions are page
      aligned, end below `maxPhys`, and do not hold the map itself. */
  ghost predicate MapPromise(m: seq<Byte>, info: MapInfo, maxPhys: nat) {
    && PAGE_SIZE <= maxPhys <= |m|
    && 40 <= info.step && info.End() <= |m|
    && forall i :: 0 <= i < info.len && Entry(m, info, i).kind == CONVENTIONAL ==>
         var d := Entry(m, info, i);
         && d.physStart % PAGE_SIZE == 0
         && d.physStart + d.pageCount * PAGE_SIZE <= maxPhys
         && (d.physStart + d.pageCount * PAGE_SIZE <= info.addr || info.End() <= d.physStart)
  }

  /** A memory descriptor as the firmware writes it, EFI_MEMORY_DESCRIPTOR of section 7.2 of the UEFI
      Specification 2.10. */
  datatype Record = Record(kind: nat, pad: nat, physStart: nat, virtStart: nat, pageCount: nat, attribute: nat)

  /** Its forty bytes: two words of four bytes, then four of eight. */
  function RecordBytes(r: Record): (bs: seq<Byte>)
    ensures |bs| == 40
  {
    LeBytes(r.kind, 4) + LeBytes(r.pad, 4) + LeBytes(r.physStart, 8) + LeBytes(r.virtStart, 8)
    + LeBytes(r.pageCount, 8) + LeBytes(r.attribute, 8)
  }

  predicate InRange(r: Record) {
    r.kind < 0x1_0000_0000 && r.physStart <= MAX64 && r.pageCount <= MAX64
  }

  /** Record `i` lies in memory `i` steps after the start of the map. */
  ghost predicate HoldsRecord(m: seq<Byte>, info: MapInfo, rs: seq<Record>, i: nat)
    requires 40 <= info.step && info.End() <= |m| && i < info.len && |rs| == info.len
  {
    info.AtInside(i);
    InRange(rs[i]) && m[info.addr + i * info.step..info.addr + i * info.step + 40] == RecordBytes(rs[i])
  }

  /** Memory holds these records, and there are no others. */
  ghost predicate HoldsRecords(m: seq<Byte>, info: MapInfo, rs: seq<Record>) {
    && 40 <= info.step && info.End() <= |m| && |rs| == info.len
    && forall i :: 0 <= i < |rs| ==> HoldsRecord(m, info, rs, i)
  }

  /** The fields that the kernel reads are the type, the physical start and the number of pages. */
  lemma EntryOfRecord(m: seq<Byte>, info: MapInfo, rs: seq<Record>, i: nat)
    requires HoldsRecords(m, info, rs) && i < info.len
    ensures Entry(m, info, i) == Descriptor(rs[i].kind, rs[i].physStart, rs[i].pageCount)
  {
    info.AtInside(i);
    assert HoldsRecord(m, info, rs, i);
    FieldsOfRecord(m, info.At(i), rs[i]);
  }

  lemma FieldsOfRecord(m: seq<Byte>, a: nat, r: Record)
    requires a + 40 <= |m| && InRange(r) && m[a..a + 40] == RecordBytes(r)
    ensures DescriptorAt(m, a) == Descriptor(r.kind, r.physStart, r.pageCount)
  {
    hide LeBytes, Le;
    var bs := RecordBytes(r);
    SliceOfSlice(m, a, 40, 0, 4);
    SliceOfSlice(m, a, 40, 8, 16);
    SliceOfSlice(m, a, 40, 24, 32);
    assert bs[0..4] == LeBytes(r.kind, 4);
    assert bs[8..16] == LeBytes(r.physStart, 8);
    assert bs[24..32] == LeBytes(r.pageCount, 8);
    LeRoundTrip32(r.kind);
    LeRoundTrip64(r.physStart);
    LeRoundTrip64(r.pageCount);
  }

  /** Frame `f` lies in a region of usable RAM: type 7. */
  ghost predicate InUsableRegion(rs: seq<Record>, f: nat) {
    exists i :: 0 <= i < |rs| && rs[i].kind == 7 && Surrounds(rs[i], f)
  }

  predicate Surrounds(r: Record, f: nat) {
    r.physStart <= f * 4096 && (f + 1) * 4096 <= r.physStart + r.pageCount * 4096
  }

  lemma ConventionalOfRecords(m: seq<Byte>, info: MapInfo, maxPhys: nat, rs: seq<Record>, f: nat)
    requires MapPromise(m, info, maxPhys) && HoldsRecords(m, info, rs)
    ensures Conventional(m, info, info.len, f) <==> InUsableRegion(rs, f)
  {
    assert |rs| == info.len;
    hide HoldsRecords, Entry;
    forall i | 0 <= i < info.len
      ensures Entry(m, info, i) == Descriptor(rs[i].kind, rs[i].physStart, rs[i].pageCount)
    {
      EntryOfRecord(m, info, rs, i);
    }
    if Conventional(m, info, info.len, f) {
      var i :| 0 <= i < info.len && Entry(m, info, i).kind == CONVENTIONAL && Covers(Entry(m, info, i), f);
      assert rs[i].kind == 7 && Surrounds(rs[i], f);
    }
    if InUsableRegion(rs, f) {
      var i :| 0 <= i < |rs| && rs[i].kind == 7 && Surrounds(rs[i], f);
      assert Covers(Entry(m, info, i), f);
    }
  }

  /** Region `r` can hold a bitmap of `bytes` bytes. */
  predicate CanHold(r: Record, bytes: nat) {
    r.kind == 7 && r.physStart != 0 && r.pageCount * 4096 >= bytes
  }

  /** The bitmap lies at the start of the first region that can hold it. */
  ghost predicate PlacedFirst(rs: seq<Record>, bytes: nat, bitmap: nat) {
    exists i :: 0 <= i < |rs| && CanHold(rs[i], bytes) && bitmap == rs[i].physStart
                && forall j :: 0 <= j < i ==> !CanHold(rs[j], bytes)
  }

  /** The free set, in terms of the firmware's records: usable RAM below the end of memory, without
      frame 0 and without every frame that holds a byte of the bitmap. */
  ghost predicate FreeExactly(free: set<nat>, rs: seq<Record>, maxPhys: nat, bitmap: nat) {
    var bytes := (maxPhys / 4096 + 63) / 64 * 8;
    forall f: nat :: f in free <==>
      && f != 0 && f < maxPhys / 4096 && InUsableRegion(rs, f)
      && !(f * 4096 < bitmap + bytes && bitmap < (f + 1) * 4096)
  }

  /** Descriptor `d` can hold a bitmap of `bytes` bytes. */
  predicate Fits(d: Descriptor, bytes: nat) {
    d.kind == CONVENTIONAL && d.physStart != 0 && d.pageCount * PAGE_SIZE >= bytes
  }

  /** The outcome of the search for a region, over the records. */
  ghost predicate RegionOfRecords(rs: seq<Record>, bytes: nat, r: Option<nat>) {
    && (r.None? ==> forall i :: 0 <= i < |rs| ==> !CanHold(rs[i], bytes))
    && (r.Some? ==> r.value < |rs| && CanHold(rs[r.value], bytes))
    && (r.Some? ==> forall i :: 0 <= i < r.value ==> !CanHold(rs[i], bytes))
  }

  lemma RegionFromRecords(m: seq<Byte>, info: MapInfo, rs: seq<Record>, bytes: nat, r: Option<nat>)
    requires HoldsRecords(m, info, rs)
    requires r.None? ==> forall i :: 0 <= i < info.len ==> !Fits(Entry(m, info, i), bytes)
    requires r.Some? ==> r.value < info.len && Fits(Entry(m, info, r.value), bytes)
    requires r.Some? ==> forall i :: 0 <= i < r.value ==> !Fits(Entry(m, info, i), bytes)
    ensures RegionOfRecords(rs, bytes, r)
  {
    forall i | 0 <= i < info.len
      ensures Fits(Entry(m, info, i), bytes) == CanHold(rs[i], bytes)
    {
      EntryOfRecord(m, info, rs, i);
    }
  }

  lemma PlacedFromRecords(m: seq<Byte>, info: MapInfo, rs: seq<Record>, bytes: nat, i: nat)
    requires HoldsRecords(m, info, rs) && i < info.len && RegionOfRecords(rs, bytes, Some(i))
    ensures PlacedFirst(rs, bytes, Entry(m, info, i).physStart)
  {
    EntryOfRecord(m, info, rs, i);
    assert CanHold(rs[i], bytes);
  }

  /** Some region was found exactly if some record can hold the bitmap. */
  lemma FoundIff(rs: seq<Record>, bytes: nat, r: Option<nat>)
    requires RegionOfRecords(rs, bytes, r)
    ensures r.Some? <==> exists i :: 0 <= i < |rs| && CanHold(rs[i], bytes)
  {
  }

  lemma PromiseShape(m: seq<Byte>, info: MapInfo, maxPhys: nat)
    requires MapPromise(m, info, maxPhys)
    ensures PAGE_SIZE <= maxPhys <= |m| && 40 <= info.step && info.End() <= |m|
  {
  }

  /** A region that can hold the bitmap holds all its frames. */
  lemma RegionHolds(d: Descriptor, words: nat, maxPhys: nat)
    requires Fits(d, 8 * words) && d.physStart % PAGE_SIZE == 0 && d.physStart + d.pageCount * PAGE_SIZE <= maxPhys
    ensures d.physStart / PAGE_SIZE + (8 * words + PAGE_SIZE - 1) / PAGE_SIZE <= maxPhys / PAGE_SIZE
    ensures d.physStart + 8 * words <= d.physStart + d.pageCount * PAGE_SIZE
  {
    assert (8 * words + PAGE_SIZE - 1) / PAGE_SIZE <= d.pageCount;
  }

  lemma PromiseRegion(m: seq<Byte>, info: MapInfo, maxPhys: nat, i: nat)
    requires MapPromise(m, info, maxPhys) && i < info.len && Entry(m, info, i).kind == CONVENTIONAL
    ensures var d := Entry(m, info, i);
      && d.physStart % PAGE_SIZE == 0 && d.physStart + d.pageCount * PAGE_SIZE <= maxPhys
      && (d.physStart + d.pageCount * PAGE_SIZE <= info.addr || info.End() <= d.physStart)
  {
  }

  /** Bit `f` of the bitmap at `bitmap`. */
  predicate Used(m: seq<Byte>, bitmap: nat, f: nat)
    requires bitmap + 8 * (f / 64) + 8 <= |m|
  {
    Bit(Word(m, bitmap + 8 * (f / 64)), f % 64)
  }

  /** The bitmap is a function of its own bytes. */
  lemma UsedFrame(m: seq<Byte>, m': seq<Byte>, bitmap: nat, words: nat, f: nat)
    requires |m| == |m'| && bitmap + 8 * words <= |m| && f / 64 < words
    requires forall i :: bitmap <= i < bitmap + 8 * words ==> m[i] == m'[i]
    ensures Used(m, bitmap, f) == Used(m', bitmap, f)
  {
    WordFrame(m, m', bitmap + 8 * (f / 64));
  }

  /** Rewriting the word of `frame` with that one bit set or cleared changes no other bit. */
  lemma UsedAfterUpdate(m: seq<Byte>, m': seq<Byte>, bitmap: nat, words: nat, frame: nat, used: bool, f: nat)
    requires |m| == |m'| && bitmap + 8 * words <= |m| && frame / 64 < words && f / 64 < words
    requires var a := bitmap + 8 * (frame / 64);
      && Word(m', a) == (if used then SetBit(Word(m, a), frame % 64) else ClearBit(Word(m, a), frame % 64))
      && forall i :: 0 <= i < |m| && !(a <= i < a + 8) ==> m'[i] == m[i]
    ensures Used(m', bitmap, f) == if f == frame then used else Used(m, bitmap, f)
  {
    var a := bitmap + 8 * (frame / 64);
    if f / 64 == frame / 64 {
      SetBitExact(Word(m, a), frame % 64, f % 64);
      ClearBitExact(Word(m, a), frame % 64, f % 64);
    } else {
      WordFrame(m, m', bitmap + 8 * (f / 64));
    }
  }

  class BitmapPmm {
    const ram: array<Byte>
    var bitmap: nat       // physical address of the bitmap
    var totalFrames: nat
    var words: nat        // bitmap size in 64-bit words

    constructor (ram: array<Byte>)
      ensures this.ram == ram
    {
      this.ram := ram;
      bitmap, totalFrames, words := 0, 0, 0;
    }

    /** The bitmap lies in memory and has a bit for every frame. */
    ghost predicate Shaped()
      reads this
    {
      && bitmap + 8 * words <= ram.Length
      && totalFrames * PAGE_SIZE <= ram.Length
      && words == (totalFrames + 63) / 64
    }

    ghost predicate IsUsed(f: nat)
      reads this, ram
      requires Shaped() && f < 64 * words
    {
      Used(ram[..], bitmap, f)
    }

    /** Address `a` is one of the bitmap's bytes. */
    ghost predicate InBitmap(a: int)
      reads this
    {
      bitmap <= a < bitmap + 8 * words
    }

    /** The frames that hold the bitmap. */
    ghost predicate IsBitmapFrame(f: int)
      reads this
    {
      bitmap / PAGE_SIZE <= f < bitmap / PAGE_SIZE + (8 * words + PAGE_SIZE - 1) / PAGE_SIZE
    }

    ghost function Free(): (s: set<nat>)
      reads this, ram
      requires Shaped()
    {
      set f | 0 <= f < totalFrames && !IsUsed(f)
    }

    /** The manager's invariant: padding bits, the bitmap's own frames and frame 0 are in use. */
    ghost predicate Valid()
      reads this, ram
    {
      && Shaped()
      && bitmap % PAGE_SIZE == 0
      && (forall f :: totalFrames <= f < 64 * words ==> IsUsed(f))
      && (forall f :: 0 <= f < totalFrames && (f == 0 || IsBitmapFrame(f)) ==> IsUsed(f))
    }

    /** Memory writes that leave the bitmap's bytes alone leave the free set alone. */
    twostate lemma Stable()
      requires old(Shaped()) && unchanged(this)
      requires forall a :: 0 <= a < ram.Length && InBitmap(a) ==> ram[a] == old(ram[a])
      ensures Shaped() && Free() == old(Free()) && (old(Valid()) ==> Valid())
    {
      forall f | 0 <= f < 64 * words
        ensures IsUsed(f) == old(IsUsed(f))
      {
        UsedFrame(old(ram[..]), ram[..], bitmap, words, f);
      }
      assert forall f :: 0 <= f < totalFrames ==> f / 64 < words;
    }

    method MarkUsed(frame: nat)
      requires Shaped() && frame < 64 * words
      modifies ram
      ensures forall f :: 0 <= f < 64 * words ==> IsUsed(f) == (f == frame || old(IsUsed(f)))
      ensures forall a :: 0 <= a < ram.Length && !InBitmap(a) ==> ram[a] == old(ram[a])
    {
      UpdateWord(frame, true);
    }

    method MarkFree(frame: nat)
      requires Shaped() && frame < 64 * words
      modifies ram
      ensures forall f :: 0 <= f < 64 * words ==> IsUsed(f) == (f != frame && old(IsUsed(f)))
      ensures forall a :: 0 <= a < ram.Length && !InBitmap(a) ==> ram[a] == old(ram[a])
    {
      UpdateWord(frame, false);
    }

    /** The read-modify-write of one bitmap word that both marks share. */
    method UpdateWord(frame: nat, used: bool)
      requires Shaped() && frame < 64 * words
      modifies ram
      ensures forall f :: 0 <= f < 64 * words ==> IsUsed(f) == if f == frame then used else old(IsUsed(f))
      ensures forall a :: 0 <= a < ram.Length && !InBitmap(a) ==> ram[a] == old(ram[a])
    {
      hide Bit, SetBit, ClearBit, Le, LeBytes;
      var a, bit := bitmap + 8 * (frame / 64), frame % 64;
      var w := Word(ram[..], a);
      WordBound(ram[..], a);
      UpdateIn64(w, bit);
      var w' := if used then SetBit(w, bit) else ClearBit(w, bit);
      WriteWord(ram, a, w');
      forall f | 0 <= f < 64 * words
        ensures IsUsed(f) == if f == frame then used else old(IsUsed(f))
      {
        UsedAfterUpdate(old(ram[..]), ram[..], bitmap, words, frame, used, f);
      }
    }

    method MarkRegionUsed(start: nat, count: nat)
      requires Shaped() && start / PAGE_SIZE + count <= 64 * words
      modifies ram
      ensures forall f :: 0 <= f < 64 * words ==>
        IsUsed(f) == (start / PAGE_SIZE <= f < start / PAGE_SIZE + count || old(IsUsed(f)))
      ensures forall a :: 0 <= a < ram.Length && !InBitmap(a) ==> ram[a] == old(ram[a])
    {
      var first := start / PAGE_SIZE;
      for i := 0 to count
        invariant forall f :: 0 <= f < 64 * words ==> IsUsed(f) == (first <= f < first + i || old(IsUsed(f)))
        invariant forall a :: 0 <= a < ram.Length && !InBitmap(a) ==> ram[a] == old(ram[a])
      {
        MarkUsed(first + i);
      }
    }

    /** Frames at or above `totalFrames` are skipped, so any region may be given. */
    method MarkRegionFree(start: nat, count: nat)
      requires Shaped()
      modifies ram
      ensures forall f :: 0 <= f < 64 * words ==>
        IsUsed(f) == (!(start / PAGE_SIZE <= f < start / PAGE_SIZE + count && f < totalFrames) && old(IsUsed(f)))
      ensures forall a :: 0 <= a < ram.Length && !InBitmap(a) ==> ram[a] == old(ram[a])
    {
      var first := start / PAGE_SIZE;
      for i := 0 to count
        invariant forall f :: 0 <= f < 64 * words ==>
          IsUsed(f) == (!(first <= f < first + i && f < totalFrames) && old(IsUsed(f)))
        invariant forall a :: 0 <= a < ram.Length && !InBitmap(a) ==> ram[a] == old(ram[a])
      {
        if first + i < totalFrames {
          MarkFree(first + i);
        }
      }
    }

    /** First pass: the first descriptor with room for `bytes` bytes. */
    method FindRegion(info: MapInfo, bytes: nat) returns (r: Option<nat>)
      requires 40 <= info.step && info.End() <= ram.Length
      ensures r.None? ==> forall i :: 0 <= i < info.len ==> !Fits(Entry(ram[..], info, i), bytes)
      ensures r.Some? ==> r.value < info.len && Fits(Entry(ram[..], info, r.value), bytes)
      ensures r.Some? ==> forall i :: 0 <= i < r.value ==> !Fits(Entry(ram[..], info, i), bytes)
    {
      for i := 0 to info.len
        invariant forall j :: 0 <= j < i ==> !Fits(Entry(ram[..], info, j), bytes)
      {
        var d := Entry(ram[..], info, i);
        if d.kind == CONVENTIONAL && d.physStart != 0 {
          if d.pageCount * PAGE_SIZE >= bytes {
            return Some(i);
          }
        }
      }
      r := None;
    }

    /** The outcome over the records that the firmware left in `m`: a bitmap exactly if a region can
        hold it, at the start of the first such region, and with the right frames free. */
    ghost predicate FollowsRecords(m: seq<Byte>, info: MapInfo, maxPhys: nat, ok: bool)
      reads this, ram
    {
      forall rs :: HoldsRecords(m, info, rs) ==>
        && (ok <==> exists i :: 0 <= i < |rs| && CanHold(rs[i], (maxPhys / 4096 + 63) / 64 * 8))
        && (ok ==> PlacedFirst(rs, (maxPhys / 4096 + 63) / 64 * 8, bitmap))
        && (ok ==> Shaped() && FreeExactly(Free(), rs, maxPhys, bitmap))
    }

    /** Builds the bitmap from the firmware's memory map. The second pass reads the map again
        after the bitmap has been written into memory; it still sees the same descriptors. */
    method Init(info: MapInfo, maxPhys: nat) returns (ok: bool)
      requires MapPromise(ram[..], info, maxPhys)
      modifies this, ram
      ensures totalFrames == maxPhys / PAGE_SIZE && words == (totalFrames + 63) / 64
      ensures ok <==> exists i :: 0 <= i < info.len && Fits(old(Entry(ram[..], info, i)), 8 * words)
      ensures !ok ==> ram[..] == old(ram[..])
      ensures ok ==> Valid()
      ensures ok ==> exists i ::
        && 0 <= i < info.len && Fits(old(Entry(ram[..], info, i)), 8 * words)
        && bitmap == old(Entry(ram[..], info, i)).physStart
      ensures FollowsRecords(old(ram[..]), info, maxPhys, ok)
      ensures ok ==> forall f :: f in Free() <==>
        (0 < f < totalFrames && old(Conventional(ram[..], info, info.len, f)) && !IsBitmapFrame(f))
      ensures ok ==> forall a :: 0 <= a < ram.Length && !InBitmap(a) ==> ram[a] == old(ram[a])
    {
      hide Entry, HoldsRecords, BitmapPmm.Valid, BitmapPmm.IsUsed, BitmapPmm.Free, MapPromise, PlacedFirst,
           FreeExactly, RegionOfRecords, CanHold, Conventional;
      ghost var m := ram[..];
      PromiseShape(m, info, maxPhys);
      totalFrames := maxPhys / PAGE_SIZE;
      words := (totalFrames + 63) / 64;
      var bytes := 8 * words;
      var region := FindRegion(info, bytes);
      forall rs | HoldsRecords(m, info, rs)
        ensures RegionOfRecords(rs, bytes, region)
        ensures region.Some? <==> exists i :: 0 <= i < |rs| && CanHold(rs[i], bytes)
      {
        RegionFromRecords(m, info, rs, bytes, region);
        FoundIff(rs, bytes, region);
      }
      if region.None? {
        return false;
      }
      ghost var i := region.value;
      bitmap := Entry(ram[..], info, region.value).physStart;
      assert Fits(Entry(m, info, i), 8 * words) && bitmap == Entry(m, info, i).physStart;
      PromiseRegion(m, info, maxPhys, i);
      RegionHolds(Entry(m, info, i), words, maxPhys);
      hide Fits;
      Build(info);
      forall rs | HoldsRecords(m, info, rs)
        ensures PlacedFirst(rs, bytes, bitmap) && FreeExactly(Free(), rs, maxPhys, bitmap)
      {
        PlacedFromRecords(m, info, rs, bytes, i);
        FreeFromRecords(m, info, maxPhys, rs);
      }
      return true;
    }

    /** The free set over the records, from the free set over the descriptors read. */
    lemma FreeFromRecords(m: seq<Byte>, info: MapInfo, maxPhys: nat, rs: seq<Record>)
      requires Shaped() && MapPromise(m, info, maxPhys) && HoldsRecords(m, info, rs)
      requires totalFrames == maxPhys / PAGE_SIZE && bitmap % PAGE_SIZE == 0 && 0 < words
      requires forall f :: f in Free() <==>
        (0 < f < totalFrames && Conventional(m, info, info.len, f) && !IsBitmapFrame(f))
      ensures FreeExactly(Free(), rs, maxPhys, bitmap)
    {
      PromiseShape(m, info, maxPhys);
      hide Conventional, InUsableRegion, HoldsRecords, MapPromise, BitmapPmm.Free;
      forall f: nat
        ensures Conventional(m, info, info.len, f) <==> InUsableRegion(rs, f)
        ensures IsBitmapFrame(f) <==> f * 4096 < bitmap + 8 * words && bitmap < (f + 1) * 4096
      {
        ConventionalOfRecords(m, info, maxPhys, rs, f);
        BitmapFrameIs(f);
      }
    }

    /** A frame is one of the bitmap's exactly if it holds one of the bitmap's bytes. */
    lemma BitmapFrameIs(f: nat)
      requires bitmap % PAGE_SIZE == 0 && 0 < words
      ensures IsBitmapFrame(f) <==> f * 4096 < bitmap + 8 * words && bitmap < (f + 1) * 4096
    {
    }

    /** Fills the bitmap at its chosen place. */
    method Build(info: MapInfo)
      requires Shaped() && 0 < totalFrames && bitmap % PAGE_SIZE == 0
      requires bitmap / PAGE_SIZE + (8 * words + PAGE_SIZE - 1) / PAGE_SIZE <= totalFrames
      requires 40 <= info.step && info.End() <= ram.Length
      requires bitmap + 8 * words <= info.addr || info.End() <= bitmap
      modifies ram
      ensures Valid()
      ensures forall f :: f in Free() <==>
        (0 < f < totalFrames && old(Conventional(ram[..], info, info.len, f)) && !IsBitmapFrame(f))
      ensures forall a :: 0 <= a < ram.Length && !InBitmap(a) ==> ram[a] == old(ram[a])
    {
      FillBytes(ram, bitmap, 8 * words, 0xFF);
      AllUsedAfterFill();
      FreeConventional(info, old(ram[..]));
      var pages := (8 * words + PAGE_SIZE - 1) / PAGE_SIZE;
      MarkRegionUsed(bitmap, pages);
      MarkUsed(0);
    }

    lemma AllUsedAfterFill()
      requires Shaped()
      requires forall a :: 0 <= a < ram.Length && InBitmap(a) ==> ram[a] == 0xFF
      ensures forall f :: 0 <= f < 64 * words ==> IsUsed(f)
    {
      forall f | 0 <= f < 64 * words
        ensures IsUsed(f)
      {
        var a := bitmap + 8 * (f / 64);
        WordAllOnes(ram[..], a);
        AllOnes64(f % 64);
      }
    }

    /** Second pass: every usable region becomes free. `m0` is memory as the first pass saw it. */
    method FreeConventional(info: MapInfo, ghost m0: seq<Byte>)
      requires Shaped() && |m0| == ram.Length
      requires 40 <= info.step && info.End() <= ram.Length
      requires bitmap + 8 * words <= info.addr || info.End() <= bitmap
      requires forall a :: 0 <= a < ram.Length && !InBitmap(a) ==> ram[a] == m0[a]
      requires forall f :: 0 <= f < 64 * words ==> IsUsed(f)
      modifies ram
      ensures forall f :: 0 <= f < 64 * words ==> IsUsed(f) == !(f < totalFrames && Conventional(m0, info, info.len, f))
      ensures forall a :: 0 <= a < ram.Length && !InBitmap(a) ==> ram[a] == m0[a]
    {
      for i := 0 to info.len
        invariant forall f :: 0 <= f < 64 * words ==> IsUsed(f) == !(f < totalFrames && Conventional(m0, info, i, f))
        invariant forall a :: 0 <= a < ram.Length && !InBitmap(a) ==> ram[a] == m0[a]
      {
        info.AtInside(i);
        DescriptorFrame(m0, ram[..], info.At(i));
        var d := Entry(ram[..], info, i);
        assert d == Entry(m0, info, i);
        ConventionalStep(m0, info, i);
        if d.kind == CONVENTIONAL {
          MarkRegionFree(d.physStart, d.pageCount);
        }
      }
    }

    /** Allocation takes the least free frame. */
    method AllocateFrame() returns (r: Option<nat>)
      requires Valid()
      modifies ram
      ensures Valid()
      ensures r.None? <==> old(Free()) == {}
      ensures r.None? ==> Free() == {} && ram[..] == old(ram[..])
      ensures r.Some? ==> r.value % PAGE_SIZE == 0 && IsLeast(r.value / PAGE_SIZE, old(Free()))
      ensures r.Some? ==> Free() == old(Free()) - {r.value / PAGE_SIZE}
      ensures forall a :: 0 <= a < ram.Length && !InBitmap(a) ==> ram[a] == old(ram[a])
    {
      hide BitmapPmm.Valid, BitmapPmm.Free, IsLeast;
      var frame := FirstFree();
      if frame.None? {
        return None;
      }
      Take(frame.value);
      return Some(frame.value * PAGE_SIZE);
    }

    /** The scan for the first zero bit. Its out-of-bounds exit is never taken: the padding
        bits of the last word are set. */
    method FirstFree() returns (r: Option<nat>)
      requires Valid()
      ensures r.None? <==> Free() == {}
      ensures r.Some? ==> IsLeast(r.value, Free())
    {
      hide TrailingZeros, Word, Le, BitmapPmm.IsUsed, BitmapPmm.Free, IsLeast;
      for idx := 0 to words
        invariant forall f :: 0 <= f < 64 * idx ==> IsUsed(f)
      {
        var entry := Word(ram[..], bitmap + 8 * idx);
        WordBound(ram[..], bitmap + 8 * idx);
        if entry != MAX64 {
          var bit := TrailingZeros(MAX64 - entry);
          var frame := idx * 64 + bit;
          LeastUnused(idx);
          if frame >= totalFrames {
            assert false;
            return None;
          }
          return Some(frame);
        }
        FullWord(idx);
      }
      NoneFree();
      r := None;
    }

    /** Marks a free frame as used. */
    method Take(frame: nat)
      requires Valid() && IsLeast(frame, Free())
      modifies ram
      ensures Valid() && Free() == old(Free()) - {frame}
      ensures forall a :: 0 <= a < ram.Length && !InBitmap(a) ==> ram[a] == old(ram[a])
    {
      MarkUsed(frame);
    }

    lemma NoneFree()
      requires Valid() && forall f :: 0 <= f < 64 * words ==> IsUsed(f)
      ensures Free() == {}
    {
    }

    /** A word of ones means sixty-four frames in use. */
    lemma FullWord(idx: nat)
      requires Shaped() && idx < words
      requires Word(ram[..], bitmap + 8 * idx) == MAX64
      ensures forall f :: 64 * idx <= f < 64 * (idx + 1) ==> IsUsed(f)
    {
      forall f | 64 * idx <= f < 64 * (idx + 1)
        ensures IsUsed(f)
      {
        assert f / 64 == idx;
        AllOnes64(f % 64);
      }
    }

    /** The lowest zero bit of the first word that is not full is the least frame not in use. */
    lemma LeastUnused(idx: nat)
      requires Valid() && idx < words
      requires Word(ram[..], bitmap + 8 * idx) < MAX64
      requires forall f :: 0 <= f < 64 * idx ==> IsUsed(f)
      ensures var f := idx * 64 + TrailingZeros(MAX64 - Word(ram[..], bitmap + 8 * idx));
        f < totalFrames && IsLeast(f, Free()) && Free() != {}
    {
      hide TrailingZeros, Word, Le;
      var w := Word(ram[..], bitmap + 8 * idx);
      var z := TrailingZeros(MAX64 - w);
      LowestZero(w, 0);
      var f := idx * 64 + z;
      assert f / 64 == idx && f % 64 == z;
      assert !IsUsed(f);
      forall g | g in Free()
        ensures f <= g
      {
        if g < f {
          assert g / 64 == idx;
          LowestZero(w, g % 64);
        }
      }
    }
  }

  lemma ConventionalStep(m: seq<Byte>, info: MapInfo, i: nat)
    requires 40 <= info.step && info.End() <= |m| && i < info.len
    ensures forall f :: Conventional(m, info, i + 1, f) <==>
      (Conventional(m, info, i, f) || (Entry(m, info, i).kind == CONVENTIONAL && Covers(Entry(m, info, i), f)))
  {
  }

  ghost predicate IsLeast(f: nat, s: set<nat>) {
    f in s && forall g :: g in s ==> f <= g
  }

  /** The result of `n` calls in a row on a manager whose free set is `s`. */
  ghost predicate IsRun(s: set<nat>, rs: seq<Option<nat>>)
    decreases |rs|
  {
    rs == [] ||
    if rs[0].None? then s == {} && IsRun(s, rs[1..])
    else IsLeast(rs[0].value / PAGE_SIZE, s) && rs[0].value % PAGE_SIZE == 0
         && IsRun(s - {rs[0].value / PAGE_SIZE}, rs[1..])
  }

  /** Any number of calls in a row. */
  method AllocateMany(pmm: BitmapPmm, n: nat) returns (rs: seq<Option<nat>>)
    requires pmm.Valid()
    modifies pmm.ram
    ensures pmm.Valid() && |rs| == n && IsRun(old(pmm.Free()), rs)
    decreases n
  {
    if n == 0 {
      return [];
    }
    var r := pmm.AllocateFrame();
    var rest := AllocateMany(pmm, n - 1);
    rs := [r] + rest;
    assert rs[1..] == rest;
  }

  /** Over any run the number of successes is the number of free frames, or of calls if fewer:
      exactly the first `|s|` calls succeed, every address is a frame of `s`, and addresses
      strictly increase, so no frame is handed out twice. */
  lemma {:induction false} RunTheorem(s: set<nat>, rs: seq<Option<nat>>)
    requires IsRun(s, rs)
    ensures forall i :: 0 <= i < |rs| ==> (rs[i].Some? <==> i < |s|)
    ensures forall i :: 0 <= i < |rs| && rs[i].Some? ==> rs[i].value % PAGE_SIZE == 0 && rs[i].value / PAGE_SIZE in s
    ensures forall i, j :: 0 <= i < j < |rs| && rs[i].Some? && rs[j].Some? ==> rs[i].value < rs[j].value
    decreases |rs|
  {
    if rs != [] {
      var rest := rs[1..];
      if rs[0].None? {
        RunTheorem(s, rest);
        assert forall i :: 1 <= i < |rs| ==> rs[i] == rest[i - 1];
      } else {
        var f := rs[0].value / PAGE_SIZE;
        RunTheorem(s - {f}, rest);
        assert |s - {f}| == |s| - 1;
        assert forall i :: 1 <= i < |rs| ==> rs[i] == rest[i - 1];
      }
    }
  }
}
