/** The bootloader's way of loading the kernel: every segment in one piece of physical memory,
    mapped page after page. */
module BootImage {
  import opened Bits
  import opened Pmm
  import opened PageTables
  import opened Paging
  import opened ElfLoader
  import opened BootPaging

  /** The byte that segment `s` should have at distance `k` from its start. */
  function SegByte(s: Segment, file: seq<Byte>, k: nat): Byte {
    if k < s.filesz && s.offset + k < |file| then file[s.offset + k] else 0
  }

  /** The size of the piece of memory that UEFI is asked for. */
  function Room(s: Segment): nat {
    (s.memsz + PAGE_SIZE - 1) / PAGE_SIZE * PAGE_SIZE
  }

  /** Where the page tables lead: page `i` of the segment is frame `i` of its piece. */
  function PhysOf(place: nat, vaddr: nat, va: nat): nat
    requires vaddr <= va
  {
    (place / PAGE_SIZE + (va / PAGE_SIZE - vaddr / PAGE_SIZE)) * PAGE_SIZE + va % PAGE_SIZE
  }

  /** Copies the file bytes to the start of the piece and zeroes the rest of the segment. */
  method LoadPiece(ram: array<Byte>, place: nat, s: Segment, file: seq<Byte>) returns (ok: bool)
    requires place + Room(s) <= ram.Length && s.filesz <= s.memsz
    modifies ram
    ensures ok <==> s.offset + s.filesz <= |file|
    ensures ok ==> ram[..] == After(old(ram[..]), place, s, file)
    ensures !ok ==> ram[..] == old(ram[..])
  {
    if s.offset + s.filesz > |file| {
      return false;
    }
    assert s.memsz <= Room(s);
    CopyBytes(ram, place, file[s.offset..s.offset + s.filesz]);
    if s.memsz > s.filesz {
      FillBytes(ram, place + s.filesz, s.memsz - s.filesz, 0);
    }
    return true;
  }

  function ByteAfter(m: seq<Byte>, place: nat, s: Segment, file: seq<Byte>, i: nat): Byte
    requires i < |m|
  {
    if place <= i < place + s.memsz then SegByte(s, file, i - place) else m[i]
  }

  /** Memory after one piece is loaded. */
  function After(m: seq<Byte>, place: nat, s: Segment, file: seq<Byte>): seq<Byte> {
    seq(|m|, i requires 0 <= i < |m| => ByteAfter(m, place, s, file, i))
  }

  /** What a program reads at distance `k` from the start of the segment. */
  function SeenByte(m: seq<Byte>, place: nat, s: Segment, k: nat): Option<Byte> {
    ReadAt(m, PhysOf(place, s.vaddr, s.vaddr + k))
  }

  /** A program that reads the segment through the page tables finds the segment. */
  ghost predicate RightImage(m: seq<Byte>, place: nat, s: Segment, file: seq<Byte>) {
    forall k :: 0 <= k < s.memsz ==> SeenByte(m, place, s, k) == Some(SegByte(s, file, k))
  }

  /** An address is as far into the piece as it is above the start of the segment's first page. */
  lemma PhysOffset(place: nat, vaddr: nat, k: nat)
    requires place % PAGE_SIZE == 0
    ensures PhysOf(place, vaddr, vaddr + k) == place + vaddr % PAGE_SIZE + k
  {
    var va := vaddr + k;
    assert va == va / PAGE_SIZE * PAGE_SIZE + va % PAGE_SIZE;
    assert vaddr == vaddr / PAGE_SIZE * PAGE_SIZE + vaddr % PAGE_SIZE;
    assert place == place / PAGE_SIZE * PAGE_SIZE;
  }

  lemma AlignedImage(m: seq<Byte>, place: nat, s: Segment, file: seq<Byte>)
    requires place % PAGE_SIZE == 0 && s.vaddr % PAGE_SIZE == 0 && place + s.memsz <= |m|
    ensures RightImage(After(m, place, s, file), place, s, file)
  {
    forall k | 0 <= k < s.memsz
      ensures SeenByte(After(m, place, s, file), place, s, k) == Some(SegByte(s, file, k))
    {
      PhysOffset(place, s.vaddr, k);
    }
  }

  /** A file of zeros in a memory of ones tells the difference: the last byte of the segment is
      read above its piece. */
  lemma MisalignedImage(place: nat, s: Segment) returns (m: seq<Byte>, file: seq<Byte>)
    requires place % PAGE_SIZE == 0 && s.vaddr % PAGE_SIZE != 0 && 0 < s.memsz && s.filesz <= s.memsz
    ensures place + s.memsz <= |m| && s.offset + s.filesz <= |file|
    ensures !RightImage(After(m, place, s, file), place, s, file)
  {
    var o, k := s.vaddr % PAGE_SIZE, s.memsz - 1;
    file := seq<Byte>(s.offset + s.filesz, i => 0);
    m := seq<Byte>(place + s.memsz + PAGE_SIZE, i => 1);
    PhysOffset(place, s.vaddr, k);
    assert SegByte(s, file, k) == 0;
    assert SeenByte(After(m, place, s, file), place, s, k) == Some(ByteAfter(m, place, s, file, place + o + k));
  }

  /** The bootloader's image is right for every file and every memory exactly if the segment
      starts on a page boundary. */
  lemma RightIffAligned(place: nat, s: Segment)
    requires place % PAGE_SIZE == 0 && 0 < s.memsz && s.filesz <= s.memsz
    ensures s.vaddr % PAGE_SIZE == 0 <==>
      forall m, file ::
        place + s.memsz <= |m| && s.offset + s.filesz <= |file| ==> RightImage(After(m, place, s, file), place, s, file)
  {
    if s.vaddr % PAGE_SIZE == 0 {
      forall m, file | place + s.memsz <= |m| && s.offset + s.filesz <= |file|
        ensures RightImage(After(m, place, s, file), place, s, file)
      {
        AlignedImage(m, place, s, file);
      }
    } else {
      var m, file := MisalignedImage(place, s);
    }
  }

  ghost predicate PlacesApart(segs: seq<Segment>, places: seq<nat>, size: nat) {
    && |segs| == |places|
    && (forall i :: 0 <= i < |segs| ==> places[i] % PAGE_SIZE == 0 && places[i] + Room(segs[i]) <= size)
    && (forall i, j :: 0 <= i < j < |segs| ==>
          places[i] + Room(segs[i]) <= places[j] || places[j] + Room(segs[j]) <= places[i])
  }

  /** Every piece holds its segment. */
  ghost predicate PiecesLoaded(m: seq<Byte>, segs: seq<Segment>, places: seq<nat>, file: seq<Byte>) {
    && |segs| == |places|
    && forall i, k :: 0 <= i < |segs| && 0 <= k < segs[i].memsz ==>
         PieceByte(m, places[i], k) == Some(SegByte(segs[i], file, k))
  }

  /** All the segments of the kernel, each in its own piece of memory. */
  method LoadKernel(ram: array<Byte>, segs: seq<Segment>, places: seq<nat>, file: seq<Byte>) returns (ok: bool)
    requires PlacesApart(segs, places, ram.Length)
    requires forall i :: 0 <= i < |segs| ==> segs[i].load && 0 < segs[i].memsz && segs[i].filesz <= segs[i].memsz
    modifies ram
    ensures ok <==> forall i :: 0 <= i < |segs| ==> segs[i].offset + segs[i].filesz <= |file|
    ensures ok ==> PiecesLoaded(ram[..], segs, places, file)
  {
    hide SegByte;
    for n := 0 to |segs|
      invariant forall i :: 0 <= i < n ==> segs[i].offset + segs[i].filesz <= |file|
      invariant forall i, k :: 0 <= i < n && 0 <= k < segs[i].memsz ==>
        PieceByte(ram[..], places[i], k) == Some(SegByte(segs[i], file, k))
    {
      ghost var m := ram[..];
      ok := LoadPiece(ram, places[n], segs[n], file);
      if !ok {
        return;
      }
      forall i, k | 0 <= i <= n && 0 <= k < segs[i].memsz
        ensures PieceByte(ram[..], places[i], k) == Some(SegByte(segs[i], file, k))
      {
        assert segs[i].memsz <= Room(segs[i]);
        if i < n {
          assert PieceByte(m, places[i], k) == Some(SegByte(segs[i], file, k));
        }
      }
    }
    return true;
  }

  function PieceByte(m: seq<Byte>, place: nat, k: nat): Option<Byte> {
    ReadAt(m, place + k)
  }

  /** The pages of a segment that was loaded at `place`, as the mapping loop takes them. */
  function PagesOf(s: Segment, place: nat): SegmentPages
    requires 0 < s.memsz
  {
    SegmentPages(s.vaddr / PAGE_SIZE, (s.vaddr + s.memsz - 1) / PAGE_SIZE - s.vaddr / PAGE_SIZE + 1, place / PAGE_SIZE)
  }

  /** The mapping loop leads every address of the segment to its place in the piece. */
  lemma PlacedTranslates(leaves: map<nat, nat>, s: Segment, place: nat, k: nat)
    requires k < s.memsz && PagesOf(s, place).Placed(leaves)
    ensures var va := s.vaddr + k;
      va / PAGE_SIZE in leaves && leaves[va / PAGE_SIZE] * PAGE_SIZE + va % PAGE_SIZE == PhysOf(place, s.vaddr, va)
  {
    var p := (s.vaddr + k) / PAGE_SIZE;
    assert s.vaddr / PAGE_SIZE <= p <= (s.vaddr + s.memsz - 1) / PAGE_SIZE;
  }

  /** Through the tables that the bootloader made, every byte of every page-aligned segment is the
      byte of the image. */
  lemma BootBytes(m: seq<Byte>, leaves: map<nat, nat>, segs: seq<Segment>, places: seq<nat>, file: seq<Byte>, i: nat,
                  k: nat)
    requires DisjointRanges(segs) && PlacesApart(segs, places, |m|)
    requires forall j :: 0 <= j < |segs| ==> segs[j].load && segs[j].Proper() && segs[j].vaddr % PAGE_SIZE == 0
    requires forall j :: 0 <= j < |segs| ==> segs[j].offset + segs[j].filesz <= |file|
    requires PiecesLoaded(m, segs, places, file)
    requires i < |segs| && k < segs[i].memsz && PagesOf(segs[i], places[i]).Placed(leaves)
    ensures TranslatedByte(m, leaves, segs[i].vaddr + k) == Some(Image(segs, 0, file, segs[i].vaddr + k))
  {
    hide Image, SegmentPages.Placed, PhysOf, Room, DisjointRanges, PagesOf, ReadAt;
    PlacedTranslates(leaves, segs[i], places[i], k);
    PhysOffset(places[i], segs[i].vaddr, k);
    assert PieceByte(m, places[i], k) == Some(SegByte(segs[i], file, k));
    SegmentImage(segs, 0, file, i, k);
  }

  /** The byte behind a virtual address, through tables of 4 KiB pages. */
  function TranslatedByte(m: seq<Byte>, leaves: map<nat, nat>, va: nat): Option<Byte> {
    if va / PAGE_SIZE in leaves then ReadAt(m, leaves[va / PAGE_SIZE] * PAGE_SIZE + va % PAGE_SIZE) else None
  }

  /** The two loaders agree: if the kernel's page-by-page loader, given the same headers and file,
      ends in `t`, a program reads the same byte there as through the bootloader's tables. */
  lemma LoadersAgree(m: seq<Byte>, leaves: map<nat, nat>, segs: seq<Segment>, places: seq<nat>, file: seq<Byte>,
                     s: Space, t: Space, extra: set<nat>, i: nat, k: nat)
    requires DisjointRanges(segs) && PlacesApart(segs, places, |m|)
    requires forall j :: 0 <= j < |segs| ==> segs[j].load && segs[j].Proper() && segs[j].vaddr % PAGE_SIZE == 0
    requires forall j :: 0 <= j < |segs| ==> segs[j].offset + segs[j].filesz <= |file|
    requires PiecesLoaded(m, segs, places, file)
    requires i < |segs| && k < segs[i].memsz && PagesOf(segs[i], places[i]).Placed(leaves)
    requires Loaded(s, t, segs, extra, 0, file) && forall p :: segs[i].Touches(0, p) ==> p !in s.leaves
    ensures var va := segs[i].vaddr + k;
      InView(t.view, va) && TranslatedByte(m, leaves, va) == Some(ByteAt(t.view, va))
  {
    hide PlacesApart, PiecesLoaded, Image, FirstFlags, TranslatedByte, SegmentPages.Placed;
    BootBytes(m, leaves, segs, places, file, i, k);
    var va := segs[i].vaddr + k;
    assert segs[i].Touches(0, va / PAGE_SIZE) && Touched(segs, 0, va / PAGE_SIZE);
  }

  /** The plan that the bootloader makes for the kernel's segments. */
  function PlanSegments(segs: seq<Segment>, places: seq<nat>): (ps: seq<SegmentPages>)
    requires |segs| == |places| && forall i :: 0 <= i < |segs| ==> 0 < segs[i].memsz
    ensures |ps| == |segs|
  {
    seq(|segs|, i requires 0 <= i < |segs| => PagesOf(segs[i], places[i]))
  }

  /** Segments on different pages have different addresses. */
  lemma PagesThenRanges(segs: seq<Segment>, places: seq<nat>)
    requires |segs| == |places| && forall i :: 0 <= i < |segs| ==> 0 < segs[i].memsz
    requires forall i, j :: 0 <= i < j < |segs| ==> PagesOf(segs[i], places[i]).Beside(PagesOf(segs[j], places[j]))
    ensures DisjointRanges(segs)
  {
    forall i, j | 0 <= i < j < |segs|
      ensures segs[i].vaddr + segs[i].memsz <= segs[j].vaddr || segs[j].vaddr + segs[j].memsz <= segs[i].vaddr
    {
      assert PagesOf(segs[i], places[i]).Beside(PagesOf(segs[j], places[j]));
    }
  }

  /** Byte `k` of segment `i`, read through the tables, is the image's byte. */
  ghost predicate ShowsImage(m: seq<Byte>, leaves: map<nat, nat>, segs: seq<Segment>, file: seq<Byte>, i: nat, k: nat)
    requires i < |segs|
  {
    TranslatedByte(m, leaves, segs[i].vaddr + k) == Some(Image(segs, 0, file, segs[i].vaddr + k))
  }

  /** Loads the kernel, then maps everything: the kernel that the CPU finds is the kernel's image. */
  method BootKernel(ram: array<Byte>, segs: seq<Segment>, places: seq<nat>, file: seq<Byte>, start: nat,
                    memory: nat, rip: nat, fbFrame: nat, fbPages: nat) returns (ok: bool, mapper: BootMapper?)
    requires PlacesApart(segs, places, ram.Length) && start % PAGE_SIZE == 0
    requires forall i :: 0 <= i < |segs| ==> segs[i].load && 0 < segs[i].memsz && segs[i].Proper()
    requires forall i :: 0 <= i < |segs| ==> segs[i].vaddr % PAGE_SIZE == 0
    requires LaidOut(Plan(PlanSegments(segs, places), memory, rip, fbFrame, fbPages))
    modifies ram
    ensures ok ==> mapper != null && forall i, k :: 0 <= i < |segs| && 0 <= k < segs[i].memsz ==>
      ShowsImage(ram[..], mapper.leaves, segs, file, i, k)
    ensures PlanCost(Plan(PlanSegments(segs, places), memory, rip, fbFrame, fbPages)) + 1 + STACK_PAGES <= POOL_SIZE ==>
      (ok <==> forall i :: 0 <= i < |segs| ==> segs[i].offset + segs[i].filesz <= |file|)
  {
    assert |segs| == |places|;
    hide Image, TranslatedByte, PlacesApart, PlanCost, BootMapper.Sound, Laid, OwnFrames, HhdmComplete, StackApart,
         PiecesLoaded, LaidOut, Budget, PagesOf, DisjointRanges;
    mapper := null;
    ok := LoadKernel(ram, segs, places, file);
    if !ok {
      return;
    }
    var plan := Plan(PlanSegments(segs, places), memory, rip, fbFrame, fbPages);
    PlanRanges(segs, places, plan);
    ok, mapper := Setup(start, plan);
    if ok {
      forall i, k | 0 <= i < |segs| && 0 <= k < segs[i].memsz
        ensures ShowsImage(ram[..], mapper.leaves, segs, file, i, k)
      {
        assert plan.segs[i].Placed(mapper.leaves);
        BootBytes(ram[..], mapper.leaves, segs, places, file, i, k);
      }
    }
  }

  lemma PlanRanges(segs: seq<Segment>, places: seq<nat>, plan: Plan)
    requires |segs| == |places| && forall i :: 0 <= i < |segs| ==> 0 < segs[i].memsz
    requires plan.segs == PlanSegments(segs, places) && LaidOut(plan)
    ensures DisjointRanges(segs)
  {
    forall i, j | 0 <= i < j < |segs|
      ensures PagesOf(segs[i], places[i]).Beside(PagesOf(segs[j], places[j]))
    {
      assert plan.segs[i].Beside(plan.segs[j]);
    }
    PagesThenRanges(segs, places);
  }

  function ReadAt(m: seq<Byte>, a: nat): Option<Byte> {
    if a < |m| then Some(m[a]) else None
  }
}
