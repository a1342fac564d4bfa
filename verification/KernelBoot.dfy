/** The boot run from the firmware's memory map to a user program that is ready to start:
    build the frame bitmap, take over the active page tables, load the program, build its stack. */
module KernelBoot {
  import opened Bits
  import opened Pmm
  import opened PageTables
  import opened Paging
  import opened ElfLoader
  import opened UserStack
  import opened Program

  /** The page tables that the bootloader left active, the root among `nodes`. */
  datatype Tables = Tables(root: nat, nodes: map<Node, nat>, leaves: map<nat, Leaf>, huge: set<nat>)

  /** The active tables are exactly those that `t` describes, and lie in regions that are not usable RAM. */
  ghost predicate TablesPromise(m: seq<Byte>, info: MapInfo, maxPhys: nat, t: Tables)
    requires 40 <= info.step && info.End() <= |m|
  {
    && maxPhys <= MAX_FRAMES * PAGE_SIZE
    && Wired(m, t.root, t.nodes, t.leaves, t.huge)
    && forall n :: n in t.nodes ==> t.nodes[n] < maxPhys / PAGE_SIZE && !Conventional(m, info, info.len, t.nodes[n])
  }

  /** A page of the stack is taken: it was mapped before, a segment reaches it, or it lies in
      a 2 MiB page. */
  ghost predicate StackTaken(mapped: set<nat>, huge: set<nat>, elf: Elf) {
    exists p: nat :: OnStack(p) && (p in mapped || Touched(elf.segs, elf.Bias(), p) || p / 512 in huge)
  }

  lemma TakenBy(s: Space, t: Space, huge: set<nat>, elf: Elf)
    requires Loaded(s, t, elf.segs, POOL_PAGES + HEAP_PAGES, elf.Bias(), elf.file)
    ensures StackMet(t.leaves.Keys, huge) ==> StackTaken(s.leaves.Keys, huge, elf)
  {
    hide Image, FirstFlags, Touched;
    if StackMet(t.leaves.Keys, huge) {
      var p: nat :| OnStack(p) && (p in t.leaves || p / 512 in huge);
      assert p !in POOL_PAGES && p !in HEAP_PAGES;
    }
  }

  /** Every reason for which the run stops. */
  ghost predicate Explained(reason: Reason, mapped: set<nat>, huge: set<nat>, elf: Elf) {
    elf.Explains(reason, huge) || (reason == MapFailed && StackTaken(mapped, huge, elf))
  }

  const HEAP_PAGE: nat := 0x9_0000_0000     // page of 0xffff_9000_0000_0000, on 48 bits
  const HEAP_NEXT: nat := HEAP_PAGE + 25    // 100 KiB

  const KERNEL_HEAP: set<nat> := Pages(HEAP_PAGE, HEAP_NEXT)

  predicate InHeap(p: nat) {
    HEAP_PAGE <= p < HEAP_NEXT
  }

  /** `l'` is `l` with the pages of the kernel heap below `next`, writable and not for users. */
  ghost predicate HeapMapped(l: map<nat, Leaf>, l': map<nat, Leaf>, next: nat) {
    && (forall p :: p in l' <==> (p in l || HEAP_PAGE <= p < next))
    && (forall p :: p in l ==> l'[p] == l[p])
    && (forall p :: HEAP_PAGE <= p < next ==> p !in l && l'[p].flags == Flags(false, true, false))
  }

  lemma HeapMappedNext(l: map<nat, Leaf>, l': map<nat, Leaf>, next: nat, frame: nat)
    requires HeapMapped(l, l', next) && HEAP_PAGE <= next && next !in l'
    ensures HeapMapped(l, l'[next := Leaf(frame, Flags(false, true, false))], next + 1)
  {
  }

  /** A page of the kernel heap is taken. */
  ghost predicate HeapTaken(mapped: set<nat>, huge: set<nat>) {
    exists p: nat :: InHeap(p) && (p in mapped || p / 512 in huge)
  }

  /** Maps the kernel heap. */
  method InitHeap(a: AddressSpace) returns (r: Outcome)
    requires a.Valid({}) && a.base == a.leaves.Keys
    modifies a, a.ram
    ensures unchanged(a.pmm) && a.BooksKept()
    ensures r.Done? ==> a.Valid({}) && a.Keeps() && HeapMapped(old(a.leaves), a.leaves, HEAP_NEXT)
    ensures r.Panic? ==> r.reason == OutOfFrames || r.reason == MapFailed
    ensures r == Panic(OutOfFrames) ==>
      a.pmm.Free() == {} && (a.Short(KERNEL_HEAP) || HeapTaken(old(a.leaves.Keys), {}))
    ensures r == Panic(MapFailed) ==> HeapTaken(old(a.leaves.Keys), a.huge)
  {
    hide Wired, Ledger.Balanced, AddressSpace.Places, BitmapPmm.Free, HeapMapped, AddressSpace.Short;
    NoHeapYet(a.leaves);
    for page := HEAP_PAGE to HEAP_NEXT
      invariant unchanged(a.pmm) && a.Valid({}) && a.Grows()
      invariant HeapMapped(old(a.leaves), a.leaves, page)
    {
      ghost var l := a.leaves;
      assert InHeap(page);
      HeapPageFree(old(a.leaves), l, page);
      var m, f := a.MapFresh(page, Flags(false, true, false));
      if m == NoFrame {
        if page !in old(a.leaves) {
          a.ShortGrows(l.Keys - a.base + {page}, KERNEL_HEAP);
        }
        return Panic(OutOfFrames);
      } else if m != Mapped {
        return Panic(MapFailed);
      }
      HeapMappedNext(old(a.leaves), l, page, f);
    }
    a.GrowsKeeps();
    return Done;
  }

  lemma NoHeapYet(l: map<nat, Leaf>)
    ensures HeapMapped(l, l, HEAP_PAGE)
  {
  }

  lemma HeapPageFree(l: map<nat, Leaf>, l': map<nat, Leaf>, next: nat)
    requires HeapMapped(l, l', next) && InHeap(next)
    ensures next in l' ==> next in l
    ensures l'.Keys - l.Keys + {next} <= KERNEL_HEAP
  {
    forall p | p in l'.Keys - l.Keys + {next}
      ensures p in KERNEL_HEAP
    {
      assert Between(HEAP_PAGE, p, HEAP_NEXT);
    }
  }

  /** The frames of the heap's pages come from `supply`, are different, and out of the loader's scope. */
  ghost predicate HeapApart(a: AddressSpace, supply: set<nat>)
    reads a, a.pmm
  {
    && (forall p :: InHeap(p) ==> p in a.leaves && a.leaves[p].frame in supply && a.leaves[p].frame !in a.Scope())
    && (forall p, q :: InHeap(p) && InHeap(q) && p != q ==> a.leaves[p].frame != a.leaves[q].frame)
  }

  /** The heap, from then on part of what is mapped before the loader starts. */
  method PrepareHeap(a: AddressSpace) returns (r: Outcome)
    requires a.Valid({}) && a.base == a.leaves.Keys
    modifies a, a.ram
    ensures unchanged(a.pmm)
    ensures r.Done? ==> a.Valid({}) && a.base == a.leaves.Keys
    ensures r.Done? ==> HeapMapped(old(a.leaves), a.leaves, HEAP_NEXT) && HeapApart(a, old(a.supply))
    ensures r.Done? ==> a.supply <= old(a.supply) && a.Scope() <= old(a.Scope()) && a.Untouched(old(a.Scope()))
    ensures r.Done? ==> |old(a.supply)| == |a.supply| + Cost(KERNEL_HEAP, old(a.baseTables))
    ensures r.Done? ==> a.baseTables == old(a.baseTables) + PathsOf(KERNEL_HEAP) && a.tables.Keys == a.baseTables
    ensures r.Done? ==> a.TablesStay() && forall n :: n in a.tables ==>
      n in old(a.baseTables) || a.tables[n] in old(a.supply)
    ensures r.Panic? ==> r.reason == OutOfFrames || r.reason == MapFailed
    ensures r == Panic(OutOfFrames) ==> a.pmm.Free() == {}
    ensures r == Panic(OutOfFrames) ==>
      |old(a.supply)| < Cost(KERNEL_HEAP, old(a.baseTables)) || HeapTaken(old(a.leaves.Keys), {})
    ensures r == Panic(MapFailed) ==> HeapTaken(old(a.leaves.Keys), a.huge)
  {
    hide Wired, Ledger.Balanced, AddressSpace.Places, BitmapPmm.Free, BitmapPmm.IsUsed, AddressSpace.Scope,
         BitmapPmm.Valid, HeapMapped, HeapTaken, Cost, KERNEL_HEAP;
    r := InitHeap(a);
    if r.Done? {
      HeapIs(old(a.leaves), a.leaves);
      assert forall p :: InHeap(p) ==> a.Owned(p);
      a.Spent();
      a.TableFrames();
      a.Rebase();
    }
  }

  lemma HeapIs(l: map<nat, Leaf>, l': map<nat, Leaf>)
    requires HeapMapped(l, l', HEAP_NEXT)
    ensures l'.Keys == l.Keys + KERNEL_HEAP && l'.Keys - l.Keys == KERNEL_HEAP
    ensures forall p :: InHeap(p) ==> p in l' && p !in l
  {
    forall p
      ensures p in KERNEL_HEAP <==> p in l' && p !in l
    {
      assert p in KERNEL_HEAP ==> Between(HEAP_PAGE, p, HEAP_NEXT);
      assert HEAP_PAGE <= p < HEAP_NEXT ==> Between(HEAP_PAGE, p, HEAP_NEXT);
    }
  }

  /** The part of the run after the bitmap is built. */
  method StartUser(a: AddressSpace, elf: Elf) returns (r: Outcome, entry: nat, sp: nat)
    requires a.Valid({}) && a.base == a.leaves.Keys && ElfPromise(elf, a.base)
    requires elf.phent <= MAX64 && elf.phnum <= MAX64
    modifies a, a.ram
    ensures unchanged(a.pmm)
    ensures r.Done? ==> a.Valid({}) && a.Keeps()
    ensures r.Done? ==> UserReady(old(a.leaves), a.leaves, a.View(), elf, sp) && elf.InFile()
    ensures r.Done? ==> entry == elf.Entry() && sp == 0x7FFF_FFFE_FF00 && sp % 16 == 0
    ensures r.Done? ==> BlockTells(a.View(), elf, sp)
    ensures r.Done? ==> |a.supply| == |a.pmm.Free()| + Cost(UserPages(elf) - old(a.leaves.Keys), old(a.baseTables))
    ensures r.Panic? ==> Explained(r.reason, old(a.leaves.Keys), a.huge, elf)
    ensures r == Panic(OutOfFrames) ==> a.pmm.Free() == {}
    ensures r == Panic(OutOfFrames) ==>
      || |old(a.supply)| < Cost(UserPages(elf) - old(a.leaves.Keys), old(a.baseTables))
      || StackTaken(old(a.leaves.Keys), {}, elf)
  {
    hide Wired, Ledger.Balanced, AddressSpace.Places, BitmapPmm.Free, ViewOf, Loaded, StackBuilt, StackMapped,
         UserReady, StackTaken, AddressSpace.Short, StackMet, Cost, UserPages;
    ghost var s := SpaceOf(a);
    UserPagesAre(elf);
    sp := 0;
    r, entry := LoadUserElf(a, elf);
    if r.Panic? {
      if r.reason == OutOfFrames {
        a.ShortGrows(SegPages(elf.segs, elf.Bias()) + POOL_PAGES + HEAP_PAGES - a.base, UserPages(elf) - a.base);
        ShortIs(a, UserPages(elf) - a.base);
      }
      return;
    }
    ghost var t := SpaceOf(a);
    LoadedPages(s, t, elf.segs, POOL_PAGES + HEAP_PAGES, elf.Bias(), elf.file);
    r, sp := SetupUserStack(a, elf);
    if r.Panic? {
      TakenBy(s, t, a.huge, elf);
      TakenBy(s, t, {}, elf);
      if r.reason == OutOfFrames && !StackTaken(s.leaves.Keys, {}, elf) {
        a.ShortGrows(t.leaves.Keys - a.base + STACK_PAGES - a.base, UserPages(elf) - a.base);
        ShortIs(a, UserPages(elf) - a.base);
      }
      return;
    }
    SpaceKeys(a);
    LoadedThenStack(s, t, a.leaves, a.View(), elf, sp);
    ghost var ready := UserReady(s.leaves, a.leaves, a.View(), elf, sp);
    assert ready;
    ReadyPages(s.leaves, a.leaves, a.View(), elf, sp);
    a.Spent();
  }

  lemma ShortIs(a: AddressSpace, pages: set<nat>)
    requires a.Short(pages)
    ensures |a.supply| < Cost(pages, a.baseTables)
  {
  }

  /** The bitmap's own frames are usable RAM: it was placed at the start of a region that holds it. */
  lemma BitmapIsConventional(m: seq<Byte>, info: MapInfo, i: nat, bitmap: nat, words: nat, f: nat)
    requires 40 <= info.step && info.End() <= |m| && i < info.len
    requires Fits(Entry(m, info, i), 8 * words) && bitmap == Entry(m, info, i).physStart
    requires bitmap / PAGE_SIZE <= f < bitmap / PAGE_SIZE + (8 * words + PAGE_SIZE - 1) / PAGE_SIZE
    ensures Conventional(m, info, info.len, f)
  {
    assert Covers(Entry(m, info, i), f);
  }

  /** Frame `f` may be handed out: usable RAM, not frame 0, not part of the bitmap. */
  ghost predicate Usable(pmm: BitmapPmm, m: seq<Byte>, info: MapInfo, f: nat)
    requires 40 <= info.step && info.End() <= |m|
    reads pmm
  {
    0 < f < pmm.totalFrames && Conventional(m, info, info.len, f) && !pmm.IsBitmapFrame(f)
  }

  /** The frames that are free after the bitmap is built. */
  ghost function Supply(pmm: BitmapPmm, m: seq<Byte>, info: MapInfo): set<nat>
    requires 40 <= info.step && info.End() <= |m|
    reads pmm
  {
    set f | 0 <= f < pmm.totalFrames && Usable(pmm, m, info, f)
  }

  /** The frame of every table is one of the bootloader's tables, or was handed out. */
  ghost predicate TablesUsable(a: AddressSpace, t: Tables, m: seq<Byte>, info: MapInfo)
    requires 40 <= info.step && info.End() <= |m|
    reads a, a.pmm
  {
    forall n :: n in a.tables ==> a.tables[n] in t.nodes.Values || Usable(a.pmm, m, info, a.tables[n])
  }

  /** The frame of every page mapped by the kernel, for its heap or for the program, was handed out. */
  ghost predicate PagesUsable(a: AddressSpace, m: seq<Byte>, info: MapInfo)
    requires 40 <= info.step && info.End() <= |m|
    reads a, a.pmm
  {
    forall p :: p in a.leaves && (InHeap(p) || a.Owned(p)) ==> Usable(a.pmm, m, info, a.leaves[p].frame)
  }

  /** What was written lies in usable RAM or in the bootloader's tables. */
  twostate predicate OnlyUsable(ram: array<Byte>, t: Tables, m: seq<Byte>, info: MapInfo, frames: nat)
    requires 40 <= info.step && info.End() <= |m| && frames * PAGE_SIZE <= ram.Length
    reads ram
  {
    forall f, off ::
      0 <= f < frames && 0 <= off < PAGE_SIZE && f !in t.nodes.Values && !Conventional(m, info, info.len, f) ==>
        FrameByte(ram, f, off) == old(FrameByte(ram, f, off))
  }

  /** Frames outside usable RAM and outside the tables are not in the loader's scope. */
  lemma ForeignFrames(a: AddressSpace, m: seq<Byte>, info: MapInfo)
    requires 40 <= info.step && info.End() <= |m|
    requires forall f :: f in a.supply ==> Conventional(m, info, info.len, f)
    requires forall f: nat :: a.pmm.IsBitmapFrame(f) ==> Conventional(m, info, info.len, f)
    ensures forall f :: f in a.Scope() && !a.IsTable(f) ==> Conventional(m, info, info.len, f)
  {
  }

  /** Sets up the memory manager and the address space. */
  method Prepare(ram: array<Byte>, info: MapInfo, maxPhys: nat, t: Tables) returns (a: AddressSpace?)
    requires MapPromise(ram[..], info, maxPhys) && TablesPromise(ram[..], info, maxPhys, t)
    modifies ram
    ensures a == null <==> forall i :: 0 <= i < info.len ==>
      !Fits(old(Entry(ram[..], info, i)), 8 * ((maxPhys / PAGE_SIZE + 63) / 64))
    ensures a != null ==> fresh(a) && fresh(a.pmm) && a.ram == ram && a.pmm.totalFrames == maxPhys / PAGE_SIZE
    ensures a != null ==> a.Valid({}) && a.leaves == t.leaves && a.base == t.leaves.Keys && a.owner == map[]
    ensures a != null ==> a.huge == t.huge && a.root == t.root && a.tables == t.nodes && a.baseTables == t.nodes.Keys
    ensures a != null ==> a.supply == Supply(a.pmm, old(ram[..]), info)
    ensures a != null ==> forall f :: f in a.Scope() ==>
      f in t.nodes.Values || old(Conventional(ram[..], info, info.len, f))
    ensures a != null ==> OnlyUsable(ram, t, old(ram[..]), info, a.pmm.totalFrames)
  {
    hide Wired, BitmapPmm.IsUsed, Conventional, BitmapPmm.Free, Fits;
    ghost var m := ram[..];
    var pmm := PreparePmm(ram, info, maxPhys);
    if pmm == null {
      return null;
    }
    TablesKept(pmm, m, t);
    a := new AddressSpace(pmm, t.root, t.nodes, t.leaves, t.huge);
    SupplyIs(a, m, info);
    ForeignFrames(a, m, info);
  }

  /** Sets up the memory manager: its free frames and its bitmap are usable RAM. */
  method PreparePmm(ram: array<Byte>, info: MapInfo, maxPhys: nat) returns (pmm: BitmapPmm?)
    requires MapPromise(ram[..], info, maxPhys)
    modifies ram
    ensures pmm == null <==> forall i :: 0 <= i < info.len ==>
      !Fits(old(Entry(ram[..], info, i)), 8 * ((maxPhys / PAGE_SIZE + 63) / 64))
    ensures pmm != null ==> fresh(pmm) && pmm.ram == ram && pmm.Valid() && pmm.totalFrames == maxPhys / PAGE_SIZE
    ensures pmm != null ==> forall f :: f in pmm.Free() <==>
      (0 < f < pmm.totalFrames && old(Conventional(ram[..], info, info.len, f)) && !pmm.IsBitmapFrame(f))
    ensures pmm != null ==> forall f: nat :: pmm.IsBitmapFrame(f) ==> old(Conventional(ram[..], info, info.len, f))
    ensures pmm != null ==> forall x :: 0 <= x < ram.Length && !pmm.InBitmap(x) ==> ram[x] == old(ram[x])
  {
    PromiseShape(ram[..], info, maxPhys);
    hide BitmapPmm.IsUsed, Conventional, BitmapPmm.Free, BitmapPmm.Valid, MapPromise, Entry, Fits;
    pmm := new BitmapPmm(ram);
    var ok := InitBitmap(pmm, info, maxPhys);
    if !ok {
      return null;
    }
  }

  /** `pmm::init`, with what the run needs of it. */
  method InitBitmap(pmm: BitmapPmm, info: MapInfo, maxPhys: nat) returns (ok: bool)
    requires MapPromise(pmm.ram[..], info, maxPhys)
    modifies pmm, pmm.ram
    ensures !ok <==> forall i :: 0 <= i < info.len ==>
      !Fits(old(Entry(pmm.ram[..], info, i)), 8 * ((maxPhys / PAGE_SIZE + 63) / 64))
    ensures ok ==> pmm.Valid() && pmm.totalFrames == maxPhys / PAGE_SIZE
    ensures ok ==> forall f :: f in pmm.Free() <==>
      (0 < f < pmm.totalFrames && old(Conventional(pmm.ram[..], info, info.len, f)) && !pmm.IsBitmapFrame(f))
    ensures ok ==> forall f: nat :: pmm.IsBitmapFrame(f) ==> old(Conventional(pmm.ram[..], info, info.len, f))
    ensures ok ==> forall x :: 0 <= x < pmm.ram.Length && !pmm.InBitmap(x) ==> pmm.ram[x] == old(pmm.ram[x])
  {
    PromiseShape(pmm.ram[..], info, maxPhys);
    hide BitmapPmm.IsUsed, Conventional, BitmapPmm.Free, BitmapPmm.Valid, BitmapPmm.FollowsRecords, MapPromise, Entry,
         Fits, BitmapPmm.IsBitmapFrame, BitmapPmm.InBitmap;
    ghost var m := pmm.ram[..];
    ok := pmm.Init(info, maxPhys);
    assert pmm.words == (maxPhys / PAGE_SIZE + 63) / 64;
    if ok {
      BitmapUsable(pmm, m, info);
    }
  }

  /** The bitmap's own frames are usable RAM. */
  lemma BitmapUsable(pmm: BitmapPmm, m: seq<Byte>, info: MapInfo)
    requires 40 <= info.step && info.End() <= |m|
    requires exists i ::
      && 0 <= i < info.len && Fits(Entry(m, info, i), 8 * pmm.words) && pmm.bitmap == Entry(m, info, i).physStart
    ensures forall f: nat :: pmm.IsBitmapFrame(f) ==> Conventional(m, info, info.len, f)
  {
    hide Entry, Conventional;
    var i :| 0 <= i < info.len && Fits(Entry(m, info, i), 8 * pmm.words) && pmm.bitmap == Entry(m, info, i).physStart;
    forall f: nat | pmm.IsBitmapFrame(f)
      ensures Conventional(m, info, info.len, f)
    {
      BitmapIsConventional(m, info, i, pmm.bitmap, pmm.words, f);
    }
  }

  /** Writing the bitmap leaves the tables alone. */
  lemma TablesKept(pmm: BitmapPmm, m: seq<Byte>, t: Tables)
    requires pmm.Shaped() && |m| == pmm.ram.Length && pmm.bitmap % PAGE_SIZE == 0
    requires forall x :: 0 <= x < |m| && !pmm.InBitmap(x) ==> pmm.ram[x] == m[x]
    requires forall f :: f in t.nodes.Values ==> f < pmm.totalFrames && !pmm.IsBitmapFrame(f)
    requires Wired(m, t.root, t.nodes, t.leaves, t.huge)
    ensures Wired(pmm.ram[..], t.root, t.nodes, t.leaves, t.huge)
  {
    hide Wired, SameEntries;
    forall f | f in t.nodes.Values
      ensures (f + 1) * PAGE_SIZE <= |m| && PageOf(m, f) == PageOf(pmm.ram[..], f)
    {
      FrameKept(pmm, m, f);
    }
    EntriesSame(m, pmm.ram[..], t.nodes);
    WiredSame(m, pmm.ram[..], t.root, t.nodes, t.leaves, t.huge);
  }

  lemma FrameKept(pmm: BitmapPmm, m: seq<Byte>, f: nat)
    requires pmm.Shaped() && |m| == pmm.ram.Length && f < pmm.totalFrames && !pmm.IsBitmapFrame(f)
    requires pmm.bitmap % PAGE_SIZE == 0
    requires forall x :: 0 <= x < |m| && !pmm.InBitmap(x) ==> pmm.ram[x] == m[x]
    ensures (f + 1) * PAGE_SIZE <= |m| && PageOf(m, f) == PageOf(pmm.ram[..], f)
  {
    forall x | f * PAGE_SIZE <= x < (f + 1) * PAGE_SIZE
      ensures pmm.ram[x] == m[x]
    {
      assert !pmm.InBitmap(x);
    }
  }

  /** Segments lie in the lower half, so they do not meet the heap. */
  lemma PromiseKept(elf: Elf, l: map<nat, Leaf>, l': map<nat, Leaf>)
    requires ElfPromise(elf, l.Keys) && HeapMapped(l, l', HEAP_NEXT)
    ensures ElfPromise(elf, l'.Keys)
  {
    forall i, p | 0 <= i < |elf.segs| && elf.segs[i].Reaches(elf.Bias(), p)
      ensures p !in l'
    {
      assert elf.segs[i].Loadable(elf.Bias());
    }
  }

  /** The heap explains no failure of what comes after it. */
  lemma ExplainedBefore(reason: Reason, l: map<nat, Leaf>, l': map<nat, Leaf>, huge: set<nat>, elf: Elf)
    requires HeapMapped(l, l', HEAP_NEXT)
    ensures Explained(reason, l'.Keys, huge, elf) ==> Explained(reason, l.Keys, huge, elf)
  {
    hide Touched, Elf.Explains;
  }

  /** The state in which the loader starts: the heap is mapped, the frames handed out so far and
      those left are usable RAM, and so is whatever the loader may write, tables apart. */
  ghost predicate KernelUp(a: AddressSpace, t: Tables, m: seq<Byte>, info: MapInfo)
    requires 40 <= info.step && info.End() <= |m|
    reads a, a.pmm, a.ram
  {
    && a.Valid({}) && a.base == a.leaves.Keys && a.root == t.root && a.huge == t.huge
    && HeapMapped(t.leaves, a.leaves, HEAP_NEXT) && HeapApart(a, Supply(a.pmm, m, info))
    && a.supply <= Supply(a.pmm, m, info) && TablesUsable(a, t, m, info)
    && |Supply(a.pmm, m, info)| == |a.supply| + Cost(KERNEL_HEAP, t.nodes.Keys)
    && a.baseTables == t.nodes.Keys + PathsOf(KERNEL_HEAP) && a.tables.Keys == a.baseTables
    && (forall f :: f in a.Scope() ==> f in t.nodes.Values || Conventional(m, info, info.len, f))
  }

  /** Bitmap, page map and kernel heap. What the loader may write to afterwards is usable RAM and
      the page tables, and nothing else has been written so far. */
  method PrepareKernel(ram: array<Byte>, info: MapInfo, maxPhys: nat, t: Tables)
      returns (r: Option<Outcome>, a: AddressSpace?)
    requires MapPromise(ram[..], info, maxPhys) && TablesPromise(ram[..], info, maxPhys, t)
    modifies ram
    ensures r.None? <==> a == null
    ensures r.None? <==> forall i :: 0 <= i < info.len ==>
      !Fits(old(Entry(ram[..], info, i)), 8 * ((maxPhys / PAGE_SIZE + 63) / 64))
    ensures r.Some? ==> fresh(a) && fresh(a.pmm) && a.ram == ram && a.pmm.ram == ram && a.pmm.Shaped()
    ensures r.Some? ==> a.pmm.totalFrames == maxPhys / PAGE_SIZE
    ensures r.Some? && r.value.Panic? && r.value.reason != OutOfFrames ==>
      r.value.reason == MapFailed && HeapTaken(t.leaves.Keys, t.huge)
    ensures r == Some(Panic(OutOfFrames)) ==> a.pmm.Free() == {}
    ensures r == Some(Panic(OutOfFrames)) ==>
      |Supply(a.pmm, old(ram[..]), info)| < Cost(KERNEL_HEAP, t.nodes.Keys) || HeapTaken(t.leaves.Keys, {})
    ensures r == Some(Done) ==> KernelUp(a, t, old(ram[..]), info)
    ensures r == Some(Done) ==> OnlyUsable(ram, t, old(ram[..]), info, a.pmm.totalFrames)
  {
    hide Wired, Ledger.Balanced, AddressSpace.Places, AddressSpace.Scope, BitmapPmm.Free, BitmapPmm.IsUsed, HeapTaken,
         Conventional, Fits, TablesPromise, HeapMapped, HeapApart, Cost, Usable;
    a := Prepare(ram, info, maxPhys, t);
    if a == null {
      return None, a;
    }
    var o := PrepareHeap(a);
    r := Some(o);
  }

  lemma SupplyIs(a: AddressSpace, m: seq<Byte>, info: MapInfo)
    requires 40 <= info.step && info.End() <= |m|
    requires forall f :: f in a.supply <==>
      (0 < f < a.pmm.totalFrames && Conventional(m, info, info.len, f) && !a.pmm.IsBitmapFrame(f))
    ensures a.supply == Supply(a.pmm, m, info)
  {
    hide Conventional;
  }

  /** Nothing stands in the way of the run: the file and its headers are in order, and no page that
      is wanted is part of a 2 MiB page or, for heap and stack, mapped or wanted twice. */
  ghost predicate Unhindered(t: Tables, elf: Elf) {
    && elf.InFile() && (forall i :: 0 <= i < |elf.segs| ==> elf.segs[i].Proper())
    && !elf.Explains(MapFailed, t.huge)
    && !StackTaken(t.leaves.Keys, t.huge, elf) && !HeapTaken(t.leaves.Keys, t.huge)
  }

  /** The frames that the whole run takes. */
  ghost function RunCost(t: Tables, elf: Elf): nat {
    Cost(KERNEL_HEAP + (UserPages(elf) - t.leaves.Keys), t.nodes.Keys)
  }

  /** The whole run. On success the program is ready on top of the pages `l0`, which are those of
      the bootloader and the kernel heap; the CPU knows exactly the pages of the final map, with
      their rights; every frame handed out is usable RAM; and every byte outside usable RAM and
      outside the bootloader's tables is as it was. Where nothing stands in the way, the run succeeds
      exactly if there are as many free frames as new pages and tables on the ways to them. */
  method BootUser(ram: array<Byte>, info: MapInfo, maxPhys: nat, t: Tables, elf: Elf)
      returns (r: Option<Outcome>, entry: nat, sp: nat, a: AddressSpace?, ghost l0: map<nat, Leaf>)
    requires MapPromise(ram[..], info, maxPhys) && TablesPromise(ram[..], info, maxPhys, t)
    requires ElfPromise(elf, t.leaves.Keys) && elf.phent <= MAX64 && elf.phnum <= MAX64
    modifies ram
    ensures r.None? <==> a == null
    ensures r.None? <==> forall i :: 0 <= i < info.len ==>
      !Fits(old(Entry(ram[..], info, i)), 8 * ((maxPhys / PAGE_SIZE + 63) / 64))
    ensures r.Some? ==> a.ram == ram && a.pmm.ram == ram && a.pmm.Shaped() && a.pmm.totalFrames == maxPhys / PAGE_SIZE
    ensures r.Some? && r.value.Panic? && r.value.reason != OutOfFrames ==>
      || Explained(r.value.reason, t.leaves.Keys, t.huge, elf)
      || (r.value.reason == MapFailed && HeapTaken(t.leaves.Keys, t.huge))
    ensures r == Some(Panic(OutOfFrames)) ==> a.pmm.Free() == {}
    ensures r.Some? && Unhindered(t, elf) ==>
      (r == Some(Done) <==> RunCost(t, elf) <= |Supply(a.pmm, old(ram[..]), info)|)
    ensures r == Some(Done) ==> |Supply(a.pmm, old(ram[..]), info)| == |a.pmm.Free()| + RunCost(t, elf)
    ensures r == Some(Done) ==> HeapMapped(t.leaves, l0, HEAP_NEXT) && HeapApart(a, Supply(a.pmm, old(ram[..]), info))
    ensures r == Some(Done) ==> a.Valid({}) && UserReady(l0, a.leaves, a.View(), elf, sp) && elf.InFile()
    ensures r == Some(Done) && elf.pie ==> entry == (0x40_0000 + elf.entry) % 0x1_0000_0000_0000_0000
    ensures r == Some(Done) && !elf.pie ==> entry == elf.entry % 0x1_0000_0000_0000_0000
    ensures r == Some(Done) ==> sp == 0x7FFF_FFFE_FF00 && BlockTells(a.View(), elf, sp)
    ensures r == Some(Done) && Orderly(elf) ==> ProgramShown(ram[..], t.root, elf)
    ensures r == Some(Done) && SameRightsOnPages(elf) ==> ProgramRights(ram[..], t.root, elf)
    ensures r == Some(Done) && elf.pie ==> LowerHalf(ram[..], t.root, t.leaves.Keys, elf, 0x40_0000)
    ensures r == Some(Done) && !elf.pie ==> LowerHalf(ram[..], t.root, t.leaves.Keys, elf, 0)
    ensures r == Some(Done) ==> forall rs :: old(HoldsRecords(ram[..], info, rs)) ==>
      FreeExactly(Supply(a.pmm, old(ram[..]), info), rs, maxPhys, a.pmm.bitmap)
    ensures r == Some(Done) ==> HeapKnown(ram[..], t.root)
    ensures r == Some(Done) ==> a.root == t.root && Paged(a.View())
    ensures r == Some(Done) ==> forall va: nat :: InView(a.View(), va) ==>
      CpuByte(ram[..], t.root, va) == Some(ByteAt(a.View(), va))
    ensures r == Some(Done) ==> forall p: nat :: p < MAX_PAGES ==>
      Walk(ram[..], t.root, p) == if p in a.leaves then Some(a.leaves[p]) else None
    ensures r == Some(Done) ==> PagesUsable(a, old(ram[..]), info) && TablesUsable(a, t, old(ram[..]), info)
    ensures r == Some(Done) ==> OnlyUsable(ram, t, old(ram[..]), info, a.pmm.totalFrames)
  {
    hide Wired, Ledger.Balanced, AddressSpace.Places, AddressSpace.Scope, BitmapPmm.Free, BitmapPmm.IsUsed, ViewOf,
         UserReady, Explained, HeapTaken, StackTaken, Conventional, CpuByte, Walk, InView, ByteAt, Fits,
         TablesPromise, HeapMapped, HeapApart, Cost, Usable, UserPages, RunCost, Elf.InFile, KernelUp, PagesUsable,
         TablesUsable, Supply, Unhindered, ElfPromise, BlockTells, Orderly, SameRightsOnPages, ProgramShown,
         ProgramRights, LowerHalf, Elf.Entry, HeapKnown, HoldsRecords, FreeExactly;
    ghost var m := ram[..];
    entry, sp, l0 := 0, 0, map[];
    r, a := PrepareKernel(ram, info, maxPhys, t);
    if r.None? {
      return;
    }
    if r.value.Panic? {
      HeapCost(t, elf);
      Verdict(r.value, t, elf, |Supply(a.pmm, m, info)|);
      return;
    }
    l0 := a.leaves;
    KernelUpIs(a, t, m, info);
    var o;
    o, entry, sp := RunUser(a, m, info, t, elf);
    r := Some(o);
    Verdict(o, t, elf, |Supply(a.pmm, m, info)|);
    EntryIsAt(elf);
    if o.Done? {
      SupplyRight(a.pmm, m, info, maxPhys);
      CpuSeesView(a);
      CpuKnows(a);
      ReadyKeeps(l0, a.leaves, a.View(), elf, sp);
      HeapIsKnown(ram[..], t.root, t.leaves, l0, a.leaves);
      HeapBelow(t.leaves, l0);
      PromiseKept(elf, t.leaves, l0);
      ProgramFacts(ram[..], t.root, t.leaves.Keys, l0, a.leaves, a.View(), elf, sp);
    }
  }

  lemma KernelUpIs(a: AddressSpace, t: Tables, m: seq<Byte>, info: MapInfo)
    requires 40 <= info.step && info.End() <= |m| && KernelUp(a, t, m, info)
    ensures a.root == t.root && HeapMapped(t.leaves, a.leaves, HEAP_NEXT)
  {
  }

  /** The pages and rights that the CPU knows. */
  lemma CpuKnows(a: AddressSpace)
    requires a.Valid({})
    ensures forall p: nat :: p < MAX_PAGES ==>
      Walk(a.ram[..], a.root, p) == if p in a.leaves then Some(a.leaves[p]) else None
  {
    hide Wired, Ledger.Balanced, AddressSpace.Places, BitmapPmm.Free, Walk;
    forall p: nat | p < MAX_PAGES
      ensures Walk(a.ram[..], a.root, p) == if p in a.leaves then Some(a.leaves[p]) else None
    {
      a.CpuWalks(p);
    }
  }

  /** The heap alone costs less than the whole run. */
  lemma HeapCost(t: Tables, elf: Elf)
    ensures Cost(KERNEL_HEAP, t.nodes.Keys) <= RunCost(t, elf)
  {
    hide Cost, UserPages, KERNEL_HEAP;
    CostGrows(KERNEL_HEAP, KERNEL_HEAP + (UserPages(elf) - t.leaves.Keys), t.nodes.Keys);
  }

  /** The cost of the run is the cost of the heap and, with the heap's tables there, of the program. */
  lemma CostSplits(t: Tables, elf: Elf, l0: map<nat, Leaf>)
    requires ElfPromise(elf, t.leaves.Keys) && HeapMapped(t.leaves, l0, HEAP_NEXT)
    ensures RunCost(t, elf) ==
      Cost(KERNEL_HEAP, t.nodes.Keys) + Cost(UserPages(elf) - l0.Keys, t.nodes.Keys + PathsOf(KERNEL_HEAP))
  {
    HeapAbove(elf);
    hide PathsOf, UserPages, KERNEL_HEAP, HeapMapped, Cost;
    UserPagesLeft(elf, t.leaves, l0);
    CostJoin(KERNEL_HEAP, UserPages(elf) - t.leaves.Keys, t.nodes.Keys);
  }

  lemma UserPagesLeft(elf: Elf, l: map<nat, Leaf>, l': map<nat, Leaf>)
    requires UserPages(elf) !! KERNEL_HEAP && HeapMapped(l, l', HEAP_NEXT)
    ensures UserPages(elf) - l'.Keys == UserPages(elf) - l.Keys
  {
    hide UserPages, KERNEL_HEAP, HeapMapped;
    HeapIs(l, l');
  }

  lemma CostJoin(h: set<nat>, u: set<nat>, there: set<Node>)
    requires h !! u
    ensures Cost(h + u, there) == Cost(h, there) + Cost(u, there + PathsOf(h))
  {
    PathsJoin(h, u);
    hide PathsOf;
    assert |h + u| == |h| + |u|;
    var a, b := PathsOf(h) - there, PathsOf(u) - (there + PathsOf(h));
    assert PathsOf(h + u) - there == a + b && a !! b;
    assert |a + b| == |a| + |b|;
  }

  lemma PathsJoin(a: set<nat>, b: set<nat>)
    ensures PathsOf(a + b) == PathsOf(a) + PathsOf(b)
  {
  }

  /** Where nothing stands in the way, the number of frames decides. */
  lemma Verdict(o: Outcome, t: Tables, elf: Elf, n: nat)
    requires o.Panic? && o.reason != OutOfFrames ==>
      Explained(o.reason, t.leaves.Keys, t.huge, elf) || (o.reason == MapFailed && HeapTaken(t.leaves.Keys, t.huge))
    requires o == Panic(OutOfFrames) ==>
      n < RunCost(t, elf) || StackTaken(t.leaves.Keys, {}, elf) || HeapTaken(t.leaves.Keys, {})
    requires o.Done? ==> RunCost(t, elf) <= n
    ensures Unhindered(t, elf) ==> (o.Done? <==> RunCost(t, elf) <= n)
  {
    hide RunCost, Touched;
  }

  /** The program's pages are in the lower half, the kernel heap is not. */
  lemma HeapAbove(elf: Elf)
    requires forall i :: 0 <= i < |elf.segs| ==> elf.segs[i].Loadable(elf.Bias())
    ensures UserPages(elf) !! KERNEL_HEAP
  {
    forall p | p in UserPages(elf)
      ensures p !in KERNEL_HEAP
    {
      if p in SegPages(elf.segs, elf.Bias()) {
        SegPagesAre(elf.segs, elf.Bias(), p);
        var i :| 0 <= i < |elf.segs| && elf.segs[i].Touches(elf.Bias(), p);
        assert elf.segs[i].Loadable(elf.Bias());
      }
    }
  }

  /** Loader and stack on a kernel that is up. `m` is memory before the run. */
  method RunUser(a: AddressSpace, ghost m: seq<Byte>, ghost info: MapInfo, ghost t: Tables, elf: Elf)
      returns (r: Outcome, entry: nat, sp: nat)
    requires 40 <= info.step && info.End() <= |m| && KernelUp(a, t, m, info)
    requires ElfPromise(elf, t.leaves.Keys) && elf.phent <= MAX64 && elf.phnum <= MAX64
    modifies a, a.ram
    ensures unchanged(a.pmm)
    ensures r.Panic? ==> Explained(r.reason, t.leaves.Keys, t.huge, elf)
    ensures r == Panic(OutOfFrames) ==> a.pmm.Free() == {}
    ensures r == Panic(OutOfFrames) && !StackTaken(t.leaves.Keys, {}, elf) ==>
      |Supply(a.pmm, m, info)| < RunCost(t, elf)
    ensures r.Done? ==> |Supply(a.pmm, m, info)| == |a.pmm.Free()| + RunCost(t, elf)
    ensures r.Done? ==> a.Valid({}) && UserReady(old(a.leaves), a.leaves, a.View(), elf, sp) && elf.InFile()
    ensures r.Done? ==> entry == elf.Entry() && sp == 0x7FFF_FFFE_FF00 && BlockTells(a.View(), elf, sp)
    ensures r.Done? ==> HeapApart(a, Supply(a.pmm, m, info)) && PagesUsable(a, m, info) && TablesUsable(a, t, m, info)
    ensures r.Done? ==> OnlyUsable(a.ram, t, m, info, a.pmm.totalFrames)
  {
    hide Wired, Ledger.Balanced, AddressSpace.Places, AddressSpace.Scope, BitmapPmm.Free, BitmapPmm.IsUsed, ViewOf,
         UserReady, Explained, StackTaken, Conventional, InView, ByteAt, HeapMapped, Cost, Usable, UserPages, RunCost,
         Elf.InFile, PagesUsable, Supply, KERNEL_HEAP;
    ghost var l0, tables0 := a.leaves, a.tables;
    PromiseKept(elf, t.leaves, l0);
    HeapIsMapped(t.leaves, l0);
    CostSplits(t, elf, l0);
    r, entry, sp := StartUser(a, elf);
    if r.Done? {
      ReadyKeeps(l0, a.leaves, a.View(), elf, sp);
      FramesInOrder(a, tables0, t, m, info);
    } else {
      ExplainedBefore(r.reason, t.leaves, l0, t.huge, elf);
      TakenBefore(t.leaves, l0, {}, elf);
    }
  }

  /** Every frame in use at the end was a table of the bootloader or has been handed out. */
  lemma FramesInOrder(a: AddressSpace, tables0: map<Node, nat>, t: Tables, m: seq<Byte>, info: MapInfo)
    requires 40 <= info.step && info.End() <= |m| && a.Valid({}) && a.supply <= Supply(a.pmm, m, info)
    requires a.baseTables == tables0.Keys && forall n :: n in tables0 ==> n in a.tables && a.tables[n] == tables0[n]
    requires forall n :: n in tables0 ==> tables0[n] in t.nodes.Values || Usable(a.pmm, m, info, tables0[n])
    requires forall p :: InHeap(p) ==> p in a.leaves && a.leaves[p].frame in Supply(a.pmm, m, info)
    ensures PagesUsable(a, m, info) && TablesUsable(a, t, m, info)
  {
    hide Wired, Ledger.Balanced, BitmapPmm.Free, Usable;
    a.TableFrames();
    forall p | a.Owned(p)
      ensures a.leaves[p].frame in a.supply
    {
      a.OwnedFrame(p);
    }
  }

  lemma TakenBefore(l: map<nat, Leaf>, l': map<nat, Leaf>, huge: set<nat>, elf: Elf)
    requires HeapMapped(l, l', HEAP_NEXT)
    ensures StackTaken(l'.Keys, huge, elf) ==> StackTaken(l.Keys, huge, elf)
  {
    hide Touched;
  }

  /** The frames to hand out, in terms of the firmware's records. */
  lemma SupplyRight(pmm: BitmapPmm, m: seq<Byte>, info: MapInfo, maxPhys: nat)
    requires MapPromise(m, info, maxPhys) && pmm.Valid() && pmm.totalFrames == maxPhys / PAGE_SIZE
    ensures 40 <= info.step && info.End() <= |m|
    ensures forall rs :: HoldsRecords(m, info, rs) ==> FreeExactly(Supply(pmm, m, info), rs, maxPhys, pmm.bitmap)
  {
    PromiseShape(m, info, maxPhys);
    hide HoldsRecords, MapPromise, Supply, FreeExactly, BitmapPmm.IsUsed;
    forall rs | HoldsRecords(m, info, rs)
      ensures FreeExactly(Supply(pmm, m, info), rs, maxPhys, pmm.bitmap)
    {
      SupplyOfRecords(pmm, m, info, maxPhys, rs);
    }
  }

  lemma SupplyOfRecords(pmm: BitmapPmm, m: seq<Byte>, info: MapInfo, maxPhys: nat, rs: seq<Record>)
    requires MapPromise(m, info, maxPhys) && HoldsRecords(m, info, rs)
    requires pmm.Shaped() && pmm.bitmap % PAGE_SIZE == 0 && pmm.totalFrames == maxPhys / PAGE_SIZE
    ensures FreeExactly(Supply(pmm, m, info), rs, maxPhys, pmm.bitmap)
  {
    PromiseShape(m, info, maxPhys);
    hide Conventional, InUsableRegion, HoldsRecords, MapPromise;
    forall f: nat
      ensures Conventional(m, info, info.len, f) <==> InUsableRegion(rs, f)
      ensures pmm.IsBitmapFrame(f) <==> f * 4096 < pmm.bitmap + 8 * pmm.words && pmm.bitmap < (f + 1) * 4096
    {
      ConventionalOfRecords(m, info, maxPhys, rs, f);
      pmm.BitmapFrameIs(f);
    }
  }

  /** The kernel heap, 25 pages from 0xffff_9000_0000_0000 on: for the kernel alone, and writable. */
  ghost predicate HeapKnown(m: seq<Byte>, root: nat) {
    forall p: nat :: 0x9_0000_0000 <= p < 0x9_0000_0019 ==>
      Walk(m, root, p).Some? && Walk(m, root, p).value.flags == Flags(false, true, false)
  }

  lemma HeapIsKnown(m: seq<Byte>, root: nat, before: map<nat, Leaf>, l0: map<nat, Leaf>, l: map<nat, Leaf>)
    requires HeapMapped(before, l0, HEAP_NEXT) && forall p :: p in l0 ==> p in l && l[p] == l0[p]
    requires forall p: nat :: p < MAX_PAGES ==> Walk(m, root, p) == if p in l then Some(l[p]) else None
    ensures HeapKnown(m, root)
  {
    hide Walk;
  }

  /** The heap is not in the lower half. */
  lemma HeapBelow(l: map<nat, Leaf>, l': map<nat, Leaf>)
    requires HeapMapped(l, l', HEAP_NEXT)
    ensures forall p: nat :: p < 0x8_0000_0000 ==> (p in l' <==> p in l.Keys)
  {
  }

  lemma HeapIsMapped(l: map<nat, Leaf>, l': map<nat, Leaf>)
    requires HeapMapped(l, l', HEAP_NEXT)
    ensures forall p :: InHeap(p) ==> p in l'
  {
  }

  lemma CpuSeesView(a: AddressSpace)
    requires a.Valid({})
    ensures Paged(a.View())
    ensures forall va: nat :: InView(a.View(), va) ==> CpuByte(a.ram[..], a.root, va) == Some(ByteAt(a.View(), va))
  {
    hide Wired, Ledger.Balanced, AddressSpace.Places, BitmapPmm.Free, CpuByte, Walk;
    a.ViewPaged();
    forall va: nat | InView(a.View(), va)
      ensures CpuByte(a.ram[..], a.root, va) == Some(ByteAt(a.View(), va))
    {
      a.CpuSees(va);
    }
  }
}
