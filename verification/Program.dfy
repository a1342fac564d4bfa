/** What the user program finds when it starts: its pages, their rights and its bytes, first by the
    page map and then by what the CPU reads in memory. */
module Program {
  import opened Bits
  import opened Pmm
  import opened PageTables
  import opened Paging
  import opened ElfLoader
  import opened UserStack

  /** The user program as it should find its memory. `l0` are the pages mapped before the boot
      run, `l` and `v` the pages and bytes after it. */
  ghost predicate UserReady(l0: map<nat, Leaf>, l: map<nat, Leaf>, v: map<nat, seq<Byte>>, elf: Elf, sp: nat) {
    && Paged(v) && v.Keys == l.Keys - l0.Keys
    && (forall p :: p in l <==>
          (p in l0 || p in POOL_PAGES || p in HEAP_PAGES || Touched(elf.segs, elf.Bias(), p) || OnStack(p)))
    && (forall p :: p in l0 ==> l[p] == l0[p])
    && (forall p :: OnStack(p) ==> !Touched(elf.segs, elf.Bias(), p))
    && (forall p :: p in v ==> l[p].flags == if OnStack(p) then POOL_FLAGS else FirstFlags(elf.segs, elf.Bias(), p))
    && (forall va: nat :: InView(v, va) && !OnStack(va / PAGE_SIZE) ==>
          ByteAt(v, va) == Image(elf.segs, elf.Bias(), elf.file, va))
    && Read(WordsAt(v, sp, 32)) == Some(KernelStartup(elf, sp))
    && (forall va: nat :: sp + 240 <= va < sp + 256 ==> InView(v, va) && ByteAt(v, va) == 0)
    && (forall va: nat :: STACK_TOP - STACK_SIZE <= va < sp ==> InView(v, va) && ByteAt(v, va) == 0)
  }

  lemma LoadedThenStack(s: Space, t: Space, l: map<nat, Leaf>, v: map<nat, seq<Byte>>, elf: Elf, sp: nat)
    requires v.Keys == l.Keys - s.leaves.Keys
    ensures Loaded(s, t, elf.segs, POOL_PAGES + HEAP_PAGES, elf.Bias(), elf.file)
            && StackMapped(t.leaves, l) && StackBuilt(t.view, v, elf, sp)
            ==> UserReady(s.leaves, l, v, elf, sp)
  {
    hide POOL_PAGES, HEAP_PAGES, Read, WordsAt, KernelStartup, Image, FirstFlags, Touched, Pages;
    if Loaded(s, t, elf.segs, POOL_PAGES + HEAP_PAGES, elf.Bias(), elf.file)
       && StackMapped(t.leaves, l) && StackBuilt(t.view, v, elf, sp)
    {
      forall va: nat | InView(v, va) && !OnStack(va / PAGE_SIZE)
        ensures ByteAt(v, va) == Image(elf.segs, elf.Bias(), elf.file, va)
      {
        assert InView(t.view, va);
      }
    }
  }

  lemma ReadyKeeps(l0: map<nat, Leaf>, l: map<nat, Leaf>, v: map<nat, seq<Byte>>, elf: Elf, sp: nat)
    requires UserReady(l0, l, v, elf, sp)
    ensures forall p :: p in l0 ==> p in l && l[p] == l0[p]
  {
    hide POOL_PAGES, HEAP_PAGES, Read, WordsAt, KernelStartup, Image, FirstFlags, Touched;
  }

  /** All the pages of the user program. */
  ghost function UserPages(elf: Elf): set<nat> {
    SegPages(elf.segs, elf.Bias()) + POOL_PAGES + HEAP_PAGES + STACK_PAGES
  }

  lemma UserPagesAre(elf: Elf)
    ensures UserPages(elf) == SegPages(elf.segs, elf.Bias()) + POOL_PAGES + HEAP_PAGES + STACK_PAGES
  {
  }

  lemma ReadyPages(l0: map<nat, Leaf>, l: map<nat, Leaf>, v: map<nat, seq<Byte>>, elf: Elf, sp: nat)
    requires UserReady(l0, l, v, elf, sp)
    ensures l.Keys - l0.Keys == UserPages(elf) - l0.Keys
  {
    hide POOL_PAGES, HEAP_PAGES, Read, WordsAt, KernelStartup, Image, FirstFlags, Touched, SegPages;
    forall p: nat
      ensures p in SegPages(elf.segs, elf.Bias()) <==> Touched(elf.segs, elf.Bias(), p)
      ensures p in STACK_PAGES <==> OnStack(p)
    {
      SegPagesAre(elf.segs, elf.Bias(), p);
      assert Between(FIRST_PAGE, p, NEXT_PAGE) <==> OnStack(p);
    }
  }

  /** Byte `k` of a segment is at `va`. */
  ghost predicate SegmentByteAt(v: map<nat, seq<Byte>>, seg: Segment, file: seq<Byte>, k: nat, va: nat) {
    && Paged(v) && InView(v, va)
    && (k < seg.filesz ==> seg.offset + k < |file| && ByteAt(v, va) == file[seg.offset + k])
    && (k >= seg.filesz ==> ByteAt(v, va) == 0)
  }

  /** What the program finds in its memory: every segment's file bytes, followed by zeros. */
  lemma UserImage(l0: map<nat, Leaf>, l: map<nat, Leaf>, v: map<nat, seq<Byte>>, elf: Elf, sp: nat, i: nat, k: nat)
    requires UserReady(l0, l, v, elf, sp) && ElfPromise(elf, l0.Keys) && elf.InFile() && DisjointRanges(elf.segs)
    requires forall j :: 0 <= j < |elf.segs| ==> elf.segs[j].Proper()
    requires i < |elf.segs| && elf.segs[i].load && k < elf.segs[i].memsz
    ensures elf.pie ==> SegmentByteAt(v, elf.segs[i], elf.file, k, 0x40_0000 + elf.segs[i].vaddr + k)
    ensures !elf.pie ==> SegmentByteAt(v, elf.segs[i], elf.file, k, elf.segs[i].vaddr + k)
  {
    hide POOL_PAGES, HEAP_PAGES, Read, WordsAt, KernelStartup, Image, FirstFlags;
    var seg := elf.segs[i];
    var va := elf.Bias() + seg.vaddr + k;
    assert seg.Touches(elf.Bias(), va / PAGE_SIZE);
    SegmentImage(elf.segs, elf.Bias(), elf.file, i, k);
  }

  /** The permissions after the run: every segment has its own on all its pages if and only if
      segments that share a page agree on them. */
  lemma UserFlags(l0: map<nat, Leaf>, l: map<nat, Leaf>, v: map<nat, seq<Byte>>, elf: Elf, sp: nat)
    requires UserReady(l0, l, v, elf, sp) && ElfPromise(elf, l0.Keys)
    ensures FlagsAgree(elf.segs, elf.Bias()) <==>
      forall i, p :: 0 <= i < |elf.segs| && elf.segs[i].Touches(elf.Bias(), p) ==>
        p in l && l[p].flags == elf.segs[i].PageFlags()
  {
    hide POOL_PAGES, HEAP_PAGES, Read, WordsAt, KernelStartup, Image, FirstFlags, FlagsAgree, Segment.Touches;
    OwnFlagsIff(elf.segs, elf.Bias());
    forall i, p | 0 <= i < |elf.segs| && elf.segs[i].Touches(elf.Bias(), p)
      ensures p in l && l[p].flags == FirstFlags(elf.segs, elf.Bias(), p)
    {
      assert elf.segs[i].Reaches(elf.Bias(), p) && Touched(elf.segs, elf.Bias(), p);
      assert p in v;
    }
  }

  /** The CPU reads byte `k` of the segment at `base + vaddr + k`: a byte of the file, or zero. */
  ghost predicate ShowsByte(m: seq<Byte>, root: nat, base: nat, seg: Segment, file: seq<Byte>, k: nat) {
    CpuByte(m, root, base + seg.vaddr + k) ==
      Some(if k < seg.filesz && seg.offset + k < |file| then file[seg.offset + k] else 0)
  }

  /** The segment is in memory, from its first byte to its last. */
  ghost predicate ShowsSegment(m: seq<Byte>, root: nat, base: nat, seg: Segment, file: seq<Byte>) {
    forall k: nat :: k < seg.memsz ==> ShowsByte(m, root, base, seg, file, k)
  }

  /** Byte `k` of the segment may be used by the program, written exactly if the header has W and
      executed exactly if it has X. */
  ghost predicate RightsOfByte(m: seq<Byte>, root: nat, base: nat, seg: Segment, k: nat) {
    match Walk(m, root, (base + seg.vaddr + k) / 4096)
    case None => false
    case Some(leaf) =>
      leaf.flags.user && (leaf.flags.writable <==> seg.write) && (leaf.flags.noExecute <==> !seg.exec)
  }

  ghost predicate GivesRights(m: seq<Byte>, root: nat, base: nat, seg: Segment) {
    forall k: nat :: k < seg.memsz ==> RightsOfByte(m, root, base, seg, k)
  }

  /** Headers that follow the gABI and overlap nowhere. */
  ghost predicate Orderly(elf: Elf) {
    DisjointRanges(elf.segs) && forall i :: 0 <= i < |elf.segs| ==> elf.segs[i].Proper()
  }

  /** Segments that share a page have the same W and X. */
  ghost predicate SameRightsOnPages(elf: Elf) {
    forall i, j :: 0 <= i < j < |elf.segs| && SharePage(elf.segs[i], elf.segs[j], 0) ==>
      elf.segs[i].write == elf.segs[j].write && elf.segs[i].exec == elf.segs[j].exec
  }

  /** A position-independent program lies 4 MiB up, any other at its own addresses. */
  ghost predicate ProgramShown(m: seq<Byte>, root: nat, elf: Elf) {
    forall i :: 0 <= i < |elf.segs| && elf.segs[i].load ==>
      && (elf.pie ==> ShowsSegment(m, root, 0x40_0000, elf.segs[i], elf.file))
      && (!elf.pie ==> ShowsSegment(m, root, 0, elf.segs[i], elf.file))
  }

  ghost predicate ProgramRights(m: seq<Byte>, root: nat, elf: Elf) {
    forall i :: 0 <= i < |elf.segs| && elf.segs[i].load ==>
      && (elf.pie ==> GivesRights(m, root, 0x40_0000, elf.segs[i]))
      && (!elf.pie ==> GivesRights(m, root, 0, elf.segs[i]))
  }

  lemma BiasIs(elf: Elf)
    ensures elf.pie ==> elf.Bias() == 0x40_0000
    ensures !elf.pie ==> elf.Bias() == 0
  {
  }

  /** The page map `l` and the bytes `v` are what the CPU finds in memory `m`. */
  ghost predicate CpuFinds(m: seq<Byte>, root: nat, l: map<nat, Leaf>, v: map<nat, seq<Byte>>) {
    && Paged(v)
    && (forall va: nat :: InView(v, va) ==> CpuByte(m, root, va) == Some(ByteAt(v, va)))
    && (forall p: nat :: p < MAX_PAGES ==> Walk(m, root, p) == if p in l then Some(l[p]) else None)
  }

  /** The whole program is in memory where it should be. */
  lemma ProgramIsShown(m: seq<Byte>, root: nat, l0: map<nat, Leaf>, l: map<nat, Leaf>, v: map<nat, seq<Byte>>, elf: Elf,
                       sp: nat)
    requires CpuFinds(m, root, l, v) && UserReady(l0, l, v, elf, sp) && ElfPromise(elf, l0.Keys) && elf.InFile()
    requires Orderly(elf)
    ensures ProgramShown(m, root, elf)
  {
    BiasIs(elf);
    hide UserReady, CpuByte, Walk, InView, ByteAt, Elf.Bias, ElfPromise;
    forall i, k: nat | 0 <= i < |elf.segs| && elf.segs[i].load && k < elf.segs[i].memsz
      ensures ShowsByte(m, root, elf.Bias(), elf.segs[i], elf.file, k)
    {
      UserImage(l0, l, v, elf, sp, i, k);
    }
  }

  /** And the CPU gives it the rights that its headers ask for. */
  lemma ProgramHasRights(m: seq<Byte>, root: nat, l0: map<nat, Leaf>, l: map<nat, Leaf>, v: map<nat, seq<Byte>>,
                         elf: Elf,
                         sp: nat)
    requires CpuFinds(m, root, l, v) && UserReady(l0, l, v, elf, sp) && ElfPromise(elf, l0.Keys)
    requires SameRightsOnPages(elf)
    ensures ProgramRights(m, root, elf)
  {
    BiasIs(elf);
    hide UserReady, Walk, CpuByte, Elf.Bias, FlagsAgree, SameRightsOnPages, RightsOfByte, InView, ByteAt;
    AgreeAnywhere(elf);
    UserFlags(l0, l, v, elf, sp);
    forall i, k: nat | 0 <= i < |elf.segs| && elf.segs[i].load && k < elf.segs[i].memsz
      ensures RightsOfByte(m, root, elf.Bias(), elf.segs[i], k)
    {
      var p := (elf.Bias() + elf.segs[i].vaddr + k) / PAGE_SIZE;
      assert elf.segs[i].Touches(elf.Bias(), p) && elf.segs[i].Loadable(elf.Bias());
      RightsFrom(m, root, elf.Bias(), elf.segs[i], k, l[p]);
    }
  }

  lemma RightsFrom(m: seq<Byte>, root: nat, base: nat, seg: Segment, k: nat, leaf: Leaf)
    requires Walk(m, root, (base + seg.vaddr + k) / PAGE_SIZE) == Some(leaf) && leaf.flags == seg.PageFlags()
    ensures RightsOfByte(m, root, base, seg, k)
  {
    hide Walk;
  }

  /** Moving a program by whole pages does not change which segments share one. */
  lemma AgreeAnywhere(elf: Elf)
    requires SameRightsOnPages(elf)
    ensures FlagsAgree(elf.segs, elf.Bias())
  {
    forall i, j | 0 <= i < j < |elf.segs| && SharePage(elf.segs[i], elf.segs[j], elf.Bias())
      ensures elf.segs[i].PageFlags() == elf.segs[j].PageFlags()
    {
      assert SharePage(elf.segs[i], elf.segs[j], 0);
    }
  }

  /** The pages that every program gets: 512 KiB for mmap from 0x48_0000 on, 1 MiB of heap from
      0x800_0000 on, and a stack of 64 KiB below 0x7FFF_FFFF_0000. */
  predicate ZonePage(p: nat) {
    0x480 <= p < 0x500 || 0x8000 <= p < 0x8100 || 0x7_FFFF_FFE0 <= p < 0x7_FFFF_FFF0
  }

  /** A page holds a byte of some segment. */
  ghost predicate ProgramPage(elf: Elf, base: nat, p: nat) {
    exists i, k: nat :: 0 <= i < |elf.segs| && elf.segs[i].load && OnPage(elf.segs[i], base, k, p)
  }

  /** What the CPU knows of the lower half: pages that were there, pages of the program and the zones,
      and no others; zone pages that no segment shares may be read and written but not executed. */
  ghost predicate LowerHalf(m: seq<Byte>, root: nat, before: set<nat>, elf: Elf, base: nat) {
    forall p: nat :: p < 0x8_0000_0000 ==>
      && (Walk(m, root, p).Some? <==> p in before || ZonePage(p) || ProgramPage(elf, base, p))
      && (ZonePage(p) && p !in before && !ProgramPage(elf, base, p) ==>
            Walk(m, root, p).value.flags == Flags(true, true, true))
  }

  lemma TouchedIs(elf: Elf, p: nat)
    ensures Touched(elf.segs, elf.Bias(), p) <==> ProgramPage(elf, elf.Bias(), p)
  {
    forall i | 0 <= i < |elf.segs| && elf.segs[i].load
      ensures elf.segs[i].Touches(elf.Bias(), p) <==> exists k: nat :: OnPage(elf.segs[i], elf.Bias(), k, p)
    {
      TouchesIs(elf.segs[i], elf.Bias(), p);
    }
  }

  lemma ZonesAre(p: nat)
    ensures ZonePage(p) <==> p in POOL_PAGES || p in HEAP_PAGES || OnStack(p)
  {
    assert p in POOL_PAGES <==> Between(POOL_START / PAGE_SIZE, p, POOL_END / PAGE_SIZE);
    assert p in HEAP_PAGES <==> Between(HEAP_START / PAGE_SIZE, p, HEAP_END / PAGE_SIZE);
  }

  lemma LowerHalfIs(m: seq<Byte>, root: nat, before: set<nat>, l0: map<nat, Leaf>, l: map<nat, Leaf>,
                    v: map<nat, seq<Byte>>, elf: Elf, sp: nat)
    requires CpuFinds(m, root, l, v) && UserReady(l0, l, v, elf, sp)
    requires forall p: nat :: p < 0x8_0000_0000 ==> (p in l0 <==> p in before)
    ensures LowerHalf(m, root, before, elf, elf.Bias())
  {
    hide Walk, CpuByte, Elf.Bias, ProgramPage, Touched, POOL_PAGES, HEAP_PAGES, Read, WordsAt, KernelStartup, Image,
         ZonePage, OnStack, FirstFlags;
    forall p: nat | p < 0x8_0000_0000
      ensures Walk(m, root, p).Some? <==> p in before || ZonePage(p) || ProgramPage(elf, elf.Bias(), p)
      ensures ZonePage(p) && p !in before && !ProgramPage(elf, elf.Bias(), p) ==>
        Walk(m, root, p).value.flags == Flags(true, true, true)
    {
      TouchedIs(elf, p);
      ZonesAre(p);
      if !Touched(elf.segs, elf.Bias(), p) {
        FirstFlagsDefault(elf.segs, elf.Bias(), p);
      }
    }
  }

  lemma EntryIsAt(elf: Elf)
    ensures elf.pie ==> elf.Entry() == (0x40_0000 + elf.entry) % 0x1_0000_0000_0000_0000
    ensures !elf.pie ==> elf.Entry() == elf.entry % 0x1_0000_0000_0000_0000
  {
  }

  /** What holds of the program at the end, in terms of memory and the CPU alone. `before` are the
      pages of the lower half that were mapped at the start. */
  lemma ProgramFacts(m: seq<Byte>, root: nat, before: set<nat>, l0: map<nat, Leaf>, l: map<nat, Leaf>,
                     v: map<nat, seq<Byte>>, elf: Elf, sp: nat)
    requires CpuFinds(m, root, l, v) && UserReady(l0, l, v, elf, sp) && ElfPromise(elf, l0.Keys) && elf.InFile()
    requires forall p: nat :: p < 0x8_0000_0000 ==> (p in l0 <==> p in before)
    ensures Orderly(elf) ==> ProgramShown(m, root, elf)
    ensures SameRightsOnPages(elf) ==> ProgramRights(m, root, elf)
    ensures elf.pie ==> LowerHalf(m, root, before, elf, 0x40_0000)
    ensures !elf.pie ==> LowerHalf(m, root, before, elf, 0)
  {
    BiasIs(elf);
    hide UserReady, Elf.Bias, Elf.InFile, ProgramShown, ProgramRights, LowerHalf, ElfPromise, Orderly,
         SameRightsOnPages, CpuFinds;
    if Orderly(elf) {
      ProgramIsShown(m, root, l0, l, v, elf, sp);
    }
    if SameRightsOnPages(elf) {
      ProgramHasRights(m, root, l0, l, v, elf, sp);
    }
    LowerHalfIs(m, root, before, l0, l, v, elf, sp);
  }
}
