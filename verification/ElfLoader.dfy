/** The loader of the user program: maps the pages of every LOAD segment, copies the file
    bytes through the page map, then maps the mmap pool and the heap. */
module ElfLoader {
  import opened Bits
  import opened Pmm
  import opened PageTables
  import opened Paging

  const USER_BASE_ADDR: nat := 0x40_0000
  const POOL_START: nat := 0x48_0000
  const POOL_END: nat := 0x50_0000
  const HEAP_START: nat := 0x800_0000
  const HEAP_END: nat := 0x810_0000
  const USER_END: nat := 0x8000_0000_0000

  const POOL_FLAGS: Flags := Flags(true, true, true)

  datatype Reason = OutOfFrames | MapFailed | NotMapped | FileTooShort

  datatype Outcome = Done | Panic(reason: Reason)

  predicate Between(first: nat, p: nat, next: nat) {
    first <= p < next
  }

  /** Pages `first` up to `next`. */
  function Pages(first: nat, next: nat): set<nat> {
    set p | 0 <= p < next && Between(first, p, next)
  }

  /** Page `p` holds one of the `n` addresses from `start` on. */
  predicate PageIn(start: nat, n: nat, p: nat) {
    n > 0 && start / PAGE_SIZE <= p <= (start + n - 1) / PAGE_SIZE
  }

  /** A program header. `load` tells a LOAD segment from the others. */
  datatype Segment = Segment(load: bool, vaddr: nat, memsz: nat, filesz: nat, offset: nat, write: bool, exec: bool) {
    /** The pages of the segment: none when it is empty. */
    predicate Touches(bias: nat, page: nat) {
      load && memsz > 0 && (bias + vaddr) / PAGE_SIZE <= page <= (bias + vaddr + memsz - 1) / PAGE_SIZE
    }

    /** `va` is one of the addresses that get a byte of the file. */
    predicate Fills(bias: nat, va: nat) {
      load && memsz > 0 && bias + vaddr <= va < bias + vaddr + filesz
    }

    /** The rule of the System V gABI, chapter 5. */
    predicate Proper() { load ==> filesz <= memsz }

    /** Everything the header speaks of lies within user space. */
    predicate Loadable(bias: nat) {
      load ==> bias + vaddr + memsz <= USER_END && bias + vaddr + filesz <= USER_END
    }

    /** Page `page` is mapped for the segment or gets bytes of the file. In a proper header the
        second implies the first. */
    predicate Reaches(bias: nat, page: nat) {
      Touches(bias, page) || (load && memsz > 0 && PageIn(bias + vaddr, filesz, page))
    }

    /** The pages that are mapped for the segment. */
    function PageSet(bias: nat): set<nat> {
      if load && memsz > 0 then Pages((bias + vaddr) / PAGE_SIZE, (bias + vaddr + memsz - 1) / PAGE_SIZE + 1) else {}
    }

    /** The file has all the bytes that the loader copies. */
    predicate InFile(file: seq<Byte>) {
      load && 0 < memsz && 0 < filesz ==> offset + filesz <= |file|
    }

    /** One of the segment's pages lies in a 2 MiB page. */
    ghost predicate Blocked(bias: nat, huge: set<nat>) {
      exists p: nat :: Touches(bias, p) && p / 512 in huge
    }

    function PageFlags(): Flags { Flags(true, write, !exec) }
  }

  /** Byte `k` of the segment lies on page `p`. */
  predicate OnPage(s: Segment, base: nat, k: nat, p: nat) {
    k < s.memsz && (base + s.vaddr + k) / 4096 == p
  }

  /** The pages of a segment are those that hold one of its bytes. */
  lemma TouchesIs(s: Segment, base: nat, p: nat)
    requires s.load
    ensures s.Touches(base, p) <==> exists k: nat :: OnPage(s, base, k, p)
  {
    if s.Touches(base, p) {
      var k := if p * PAGE_SIZE < base + s.vaddr then 0 else p * PAGE_SIZE - (base + s.vaddr);
      assert OnPage(s, base, k, p);
    }
  }

  /** The byte a program should find at `va`: the file byte of the last segment that covers
      the address, zero where no segment has one. */
  function Image(segs: seq<Segment>, bias: nat, file: seq<Byte>, va: nat): Byte {
    if segs == [] then 0
    else
      var s := segs[|segs| - 1];
      if s.Fills(bias, va) && s.offset + (va - bias - s.vaddr) < |file| then file[s.offset + (va - bias - s.vaddr)]
      else Image(segs[..|segs| - 1], bias, file, va)
  }

  ghost predicate Touched(segs: seq<Segment>, bias: nat, page: nat) {
    exists i :: 0 <= i < |segs| && segs[i].Touches(bias, page)
  }

  /** The flags a page should have: those of the first segment that touches it. */
  function FirstFlags(segs: seq<Segment>, bias: nat, page: nat): Flags {
    if segs == [] then POOL_FLAGS
    else if segs[0].Touches(bias, page) then segs[0].PageFlags()
    else FirstFlags(segs[1..], bias, page)
  }

  /** What is mapped, with which flags, and the bytes of the pages mapped by the loader. */
  datatype Space = Space(leaves: map<nat, Leaf>, view: map<nat, seq<Byte>>)

  ghost function SpaceOf(a: AddressSpace): Space
    reads a, a.ram
  {
    Space(a.leaves, a.View())
  }

  /** `t` is `s` with the pages from `first` up to `next` added where they were missing:
      old pages keep their frame, flags and bytes, new ones are zero. */
  ghost predicate Extends(s: Space, t: Space, first: nat, next: nat, flags: Flags) {
    && s.view.Keys <= s.leaves.Keys
    && (forall p :: p in t.leaves <==> (p in s.leaves || first <= p < next))
    && (forall p :: p in s.leaves ==> t.leaves[p] == s.leaves[p])
    && (forall p :: p in t.leaves && p !in s.leaves ==> t.leaves[p].flags == flags)
    && (forall p :: p in t.view <==> (p in s.view || (p in t.leaves && p !in s.leaves)))
    && (forall p :: p in t.view ==> t.view[p] == if p in s.view then s.view[p] else ZeroPage())
  }

  lemma ExtendsNone(s: Space, first: nat, flags: Flags)
    requires s.view.Keys <= s.leaves.Keys
    ensures Extends(s, s, first, first, flags)
  {
  }

  /** The view covers the mapped pages outside the base. */
  lemma SpaceKeys(a: AddressSpace)
    ensures a.View().Keys == a.leaves.Keys - a.base
  {
  }

  lemma BaseMapped(a: AddressSpace)
    requires a.Valid({})
    ensures a.base <= a.leaves.Keys
  {
    hide Wired, AddressSpace.Places;
  }

  lemma ExtendsOne(s: Space, t: Space, first: nat, next: nat, flags: Flags, frame: nat)
    requires Extends(s, t, first, next, flags) && first <= next && next !in t.leaves
    ensures Extends(s, Space(t.leaves[next := Leaf(frame, flags)], t.view[next := ZeroPage()]), first, next + 1, flags)
  {
  }

  lemma ExtendsSkip(s: Space, t: Space, first: nat, next: nat, flags: Flags)
    requires Extends(s, t, first, next, flags) && first <= next && next in t.leaves
    ensures Extends(s, t, first, next + 1, flags)
  {
  }

  /** What has been mapped so far, and one page more. */
  lemma ExtendsPages(s: Space, t: Space, first: nat, page: nat, next: nat, flags: Flags, base: set<nat>)
    requires Extends(s, t, first, page, flags) && first <= page < next
    ensures t.leaves.Keys - base + {page} <= s.leaves.Keys - base + Pages(first, next)
  {
    forall p | p in t.leaves.Keys - base + {page}
      ensures p in s.leaves.Keys - base + Pages(first, next)
    {
      assert Between(first, p, next) || p in s.leaves;
    }
  }

  /** Maps every page from `first` to `last` that is not mapped yet to a fresh zeroed frame. */
  method MapRange(a: AddressSpace, first: nat, last: nat, flags: Flags) returns (r: Outcome)
    requires a.Valid({}) && first <= last < MAX_PAGES
    modifies a, a.ram
    ensures unchanged(a.pmm)
    ensures r.Done? ==> a.Valid({}) && a.Keeps() && Extends(old(SpaceOf(a)), SpaceOf(a), first, last + 1, flags)
    ensures r.Done? ==> Paged(a.View())
    ensures r.Panic? ==> r.reason == OutOfFrames || r.reason == MapFailed
    ensures r == Panic(OutOfFrames) ==>
      a.pmm.Free() == {} && a.Short(old(a.DataPages()) + Pages(first, last + 1) - a.base)
    ensures r == Panic(MapFailed) ==> exists p: nat :: first <= p <= last && p / 512 in a.huge
    ensures a.BooksKept()
  {
    hide Wired, Ledger.Balanced, AddressSpace.Places, BitmapPmm.Free, ViewOf, Extends, Pages, AddressSpace.Short,
         AddressSpace.Translate;
    SpaceKeys(a);
    ExtendsNone(SpaceOf(a), first, flags);
    for page := first to last + 1
      invariant unchanged(a.pmm) && a.Valid({}) && a.Grows()
      invariant Extends(old(SpaceOf(a)), SpaceOf(a), first, page, flags)
    {
      a.TranslateIs(page);
      if a.Translate(page).None? {
        ghost var s := SpaceOf(a);
        BaseMapped(a);
        var m := a.MapZeroed(page, flags);
        if m == NoFrame {
          ExtendsPages(old(SpaceOf(a)), s, first, page, last + 1, flags, a.base);
          a.ShortGrows(s.leaves.Keys - a.base + {page}, old(a.DataPages()) + Pages(first, last + 1) - a.base);
          return Panic(OutOfFrames);
        } else if m != Mapped {
          return Panic(MapFailed);
        }
        ExtendsOne(old(SpaceOf(a)), s, first, page, flags, a.leaves[page].frame);
      } else {
        ExtendsSkip(old(SpaceOf(a)), SpaceOf(a), first, page, flags);
      }
    }
    a.GrowsKeeps();
    a.ViewPaged();
    return Done;
  }

  /** `va` lies on one of the pages of `v`. */
  ghost predicate InView(v: map<nat, seq<Byte>>, va: nat) {
    va / PAGE_SIZE in v
  }

  /** The byte at virtual address `va`. */
  ghost function ByteAt(v: map<nat, seq<Byte>>, va: nat): Byte
    requires Paged(v) && InView(v, va)
  {
    v[va / PAGE_SIZE][va % PAGE_SIZE]
  }

  lemma SpliceByte(v: map<nat, seq<Byte>>, page: nat, off: nat, bs: seq<Byte>, va: nat)
    requires Paged(v) && page in v && off + |bs| <= PAGE_SIZE && InView(v, va)
    ensures var v' := v[page := Splice(v[page], off, bs)]; var at := page * PAGE_SIZE + off;
      Paged(v') && ByteAt(v', va) == if at <= va < at + |bs| then bs[va - at] else ByteAt(v, va)
  {
  }

  /** `v'` is `v` with `data` written from address `start` on. */
  ghost predicate Written(v: map<nat, seq<Byte>>, v': map<nat, seq<Byte>>, start: nat, data: seq<Byte>) {
    && Paged(v) && Paged(v') && v.Keys == v'.Keys
    && forall va: nat :: InView(v, va) ==>
         ByteAt(v', va) == if start <= va < start + |data| then data[va - start] else ByteAt(v, va)
  }

  lemma WrittenNothing(v: map<nat, seq<Byte>>, start: nat)
    requires Paged(v)
    ensures Written(v, v, start, [])
  {
  }

  /** A write within one page. */
  lemma SpliceWritten(v: map<nat, seq<Byte>>, page: nat, off: nat, bs: seq<Byte>)
    requires Paged(v) && page in v && off + |bs| <= PAGE_SIZE
    ensures Written(v, v[page := Splice(v[page], off, bs)], page * PAGE_SIZE + off, bs)
  {
    var v' := v[page := Splice(v[page], off, bs)];
    forall va: nat | InView(v, va)
      ensures Paged(v') && ByteAt(v', va) ==
        if page * PAGE_SIZE + off <= va < page * PAGE_SIZE + off + |bs| then bs[va - (page * PAGE_SIZE + off)]
        else ByteAt(v, va)
    {
      SpliceByte(v, page, off, bs, va);
    }
  }

  /** Two writes, one after the other, are one write of both. */
  lemma WrittenTwice(v: map<nat, seq<Byte>>, v': map<nat, seq<Byte>>, v'': map<nat, seq<Byte>>, start: nat,
                     d: seq<Byte>, e: seq<Byte>)
    ensures Written(v, v', start, d) && Written(v', v'', start + |d|, e) ==> Written(v, v'', start, d + e)
  {
    if Written(v, v', start, d) && Written(v', v'', start + |d|, e) {
      forall va: nat | InView(v, va)
        ensures ByteAt(v'', va) == if start <= va < start + |d + e| then (d + e)[va - start] else ByteAt(v, va)
      {
        assert InView(v', va);
      }
    }
  }

  /** A chunk that ends at a page end or at the end of the data covers no other page. */
  lemma ChunkPage(start: nat, done: nat, n: nat, p: nat)
    requires n > 0 && (start + done) % PAGE_SIZE + n <= PAGE_SIZE
    ensures PageIn(start, done + n, p) <==> (PageIn(start, done, p) || p == (start + done) / PAGE_SIZE)
  {
    assert (start + done + n - 1) / PAGE_SIZE == (start + done) / PAGE_SIZE;
  }

  /** Copies file bytes to a mapped range, page by page. Every chunk is at least one byte long
      and stays in one page; the copy fails only if a page of the range is not mapped. */
  method CopyIn(a: AddressSpace, start: nat, data: seq<Byte>) returns (r: Outcome)
    requires a.Valid({}) && start + |data| <= USER_END && forall p :: PageIn(start, |data|, p) ==> p !in a.base
    modifies a.ram
    ensures unchanged(a.pmm) && a.Valid({}) && a.Keeps() && a.pmm.Free() == old(a.pmm.Free())
    ensures r.Done? ==> Written(old(a.View()), a.View(), start, data)
    ensures r.Panic? <==> exists p :: PageIn(start, |data|, p) && p !in a.leaves
    ensures r.Panic? ==> r.reason == NotMapped
  {
    hide Wired, Ledger.Balanced, AddressSpace.Places, BitmapPmm.Free, ViewOf, Written, AddressSpace.Translate;
    a.ViewPaged();
    var copied := 0;
    assert data[..0] == [];
    WrittenNothing(a.View(), start);
    while copied < |data|
      invariant copied <= |data| && unchanged(a.pmm) && a.Valid({}) && a.Keeps()
      invariant a.pmm.Free() == old(a.pmm.Free())
      invariant Written(old(a.View()), a.View(), start, data[..copied])
      invariant forall p :: PageIn(start, copied, p) ==> p in a.leaves
    {
      var current := start + copied;
      var page, off := current / PAGE_SIZE, current % PAGE_SIZE;
      var n := ChunkLength(off, |data| - copied);
      assert PageIn(start, |data|, page);
      a.TranslateIs(page);
      var frame := a.Translate(page);
      if frame.None? {
        return Panic(NotMapped);
      }
      a.ViewPaged();
      CopyNext(a, frame.value, start, data, copied, n, old(a.View()));
      forall p | PageIn(start, copied + n, p) ensures p in a.leaves {
        ChunkPage(start, copied, n, p);
      }
      copied := copied + n;
    }
    assert data[..copied] == data;
    return Done;
  }

  function ChunkLength(off: nat, left: nat): (n: nat)
    requires off < PAGE_SIZE && left > 0
    ensures 0 < n <= left && off + n <= PAGE_SIZE
  {
    if PAGE_SIZE - off < left then PAGE_SIZE - off else left
  }

  /** Copies the chunk of `n` bytes that comes after `done` bytes. */
  method CopyNext(a: AddressSpace, frame: nat, start: nat, data: seq<Byte>, done: nat, n: nat, ghost v0: map<nat,
                  seq<Byte>>)
    requires a.Valid({}) && done + n <= |data| && (start + done) % PAGE_SIZE + n <= PAGE_SIZE
    requires a.Owned((start + done) / PAGE_SIZE) && a.leaves[(start + done) / PAGE_SIZE].frame == frame
    requires Paged(a.View()) && Written(v0, a.View(), start, data[..done])
    modifies a.ram
    ensures unchanged(a.pmm) && a.Valid({}) && a.Keeps() && a.pmm.Free() == old(a.pmm.Free())
    ensures Written(v0, a.View(), start, data[..done + n])
  {
    hide Wired, Ledger.Balanced, AddressSpace.Places, BitmapPmm.Free, ViewOf, Written;
    ghost var v := a.View();
    SpaceKeys(a);
    var page, off, chunk := (start + done) / PAGE_SIZE, (start + done) % PAGE_SIZE, data[done..done + n];
    a.CopyChunk(page, frame, off, chunk);
    ghost var v' := a.View();
    SpliceWritten(v, page, off, chunk);
    WrittenTwice(v0, v, v', start, data[..done], chunk);
    assert data[..done] + chunk == data[..done + n];
    ghost var written := Written(v0, v', start, data[..done + n]);
    assert written;
  }

  /** What loading one segment does to a space `s`: its pages are there, old pages keep frame
      and flags, and the only bytes that change are those the file provides. */
  ghost predicate SegmentLoaded(s: Space, t: Space, seg: Segment, bias: nat, file: seq<Byte>) {
    && s.view.Keys <= s.leaves.Keys && Paged(s.view) && Paged(t.view)
    && (forall p :: p in t.leaves <==> (p in s.leaves || seg.Touches(bias, p)))
    && (forall p :: p in s.leaves ==> t.leaves[p] == s.leaves[p])
    && (forall p :: p in t.leaves && p !in s.leaves ==> t.leaves[p].flags == seg.PageFlags())
    && (forall p :: p in t.view <==> (p in s.view || (p in t.leaves && p !in s.leaves)))
    && (forall va: nat :: seg.Fills(bias, va) ==> InView(t.view, va) && seg.offset + (va - bias - seg.vaddr) < |file|)
    && (forall va: nat :: InView(t.view, va) ==>
          ByteAt(t.view, va) ==
            if seg.Fills(bias, va) then file[seg.offset + (va - bias - seg.vaddr)]
            else if InView(s.view, va) then ByteAt(s.view, va) else 0)
  }

  lemma MappedThenWritten(s: Space, t: Space, v: map<nat, seq<Byte>>, seg: Segment, bias: nat, file: seq<Byte>)
    requires seg.load && seg.memsz > 0 && seg.offset + seg.filesz <= |file| && Paged(s.view)
    requires forall p :: PageIn(bias + seg.vaddr, seg.filesz, p) ==> p in t.view
    requires Extends(s, t, (bias + seg.vaddr) / PAGE_SIZE, (bias + seg.vaddr + seg.memsz - 1) / PAGE_SIZE + 1,
                     seg.PageFlags())
    ensures Written(t.view, v, bias + seg.vaddr, file[seg.offset..seg.offset + seg.filesz]) ==>
      SegmentLoaded(s, Space(t.leaves, v), seg, bias, file)
  {
    if Written(t.view, v, bias + seg.vaddr, file[seg.offset..seg.offset + seg.filesz]) {
      forall va: nat | seg.Fills(bias, va)
        ensures InView(t.view, va)
      {
        assert PageIn(bias + seg.vaddr, seg.filesz, va / PAGE_SIZE);
      }
      forall va: nat | InView(v, va)
        ensures ByteAt(v, va) ==
          if seg.Fills(bias, va) then file[seg.offset + (va - bias - seg.vaddr)]
          else if InView(s.view, va) then ByteAt(s.view, va) else 0
      {
        assert InView(t.view, va);
        assert ByteAt(t.view, va) == if InView(s.view, va) then ByteAt(s.view, va) else 0;
      }
    }
  }

  /** A page for the program: writable exactly with W, executable exactly with X. */
  predicate AsHeaderSays(flags: Flags, seg: Segment) {
    flags.user && (flags.writable <==> seg.write) && (flags.noExecute <==> !seg.exec)
  }

  lemma FlagsAsHeaderSays(s: Space, t: Space, seg: Segment, bias: nat, file: seq<Byte>)
    requires SegmentLoaded(s, t, seg, bias, file)
    ensures forall p :: p in t.leaves && p !in s.leaves ==> AsHeaderSays(t.leaves[p].flags, seg)
  {
    hide ByteAt;
  }

  /** Maps the pages of a segment, then copies its file bytes. In a proper segment the copy never
      meets an unmapped page: the mapping loop covered the segment. */
  method LoadSegment(a: AddressSpace, seg: Segment, bias: nat, file: seq<Byte>) returns (r: Outcome)
    requires a.Valid({}) && seg.load && seg.Loadable(bias)
    requires forall p :: seg.Reaches(bias, p) ==> p !in a.base
    modifies a, a.ram
    ensures unchanged(a.pmm)
    ensures r.Done? ==> a.Valid({}) && a.Keeps() && SegmentLoaded(old(SpaceOf(a)), SpaceOf(a), seg, bias, file)
    ensures r.Done? ==> forall p :: p in a.leaves && p !in old(a.leaves) ==> AsHeaderSays(a.leaves[p].flags, seg)
    ensures r == Panic(NotMapped) ==> !seg.Proper()
    ensures r == Panic(OutOfFrames) ==> a.pmm.Free() == {} && a.Short(old(a.DataPages()) + seg.PageSet(bias) - a.base)
    ensures r == Panic(MapFailed) ==> seg.Blocked(bias, a.huge)
    ensures r == Panic(FileTooShort) ==> !seg.InFile(file)
    ensures r.Done? ==> seg.InFile(file)
    ensures a.BooksKept()
  {
    hide Wired, Ledger.Balanced, AddressSpace.Places, BitmapPmm.Free, ViewOf, Extends, SegmentLoaded, Pages,
         AddressSpace.Short;
    a.ViewPaged();
    if seg.memsz == 0 {
      SpaceKeys(a);
      NothingLoaded(SpaceOf(a), seg, bias, file);
      return Done;
    }
    var start := bias + seg.vaddr;
    r := MapRange(a, start / PAGE_SIZE, (start + seg.memsz - 1) / PAGE_SIZE, seg.PageFlags());
    if r.Panic? {
      return;
    }
    r := CopySegment(a, seg, bias, file, old(SpaceOf(a)));
    if r.Done? {
      FlagsAsHeaderSays(old(SpaceOf(a)), SpaceOf(a), seg, bias, file);
    }
  }

  /** The copying half of a segment load. `s` is the space before its pages were mapped. */
  method CopySegment(a: AddressSpace, seg: Segment, bias: nat, file: seq<Byte>, ghost s: Space) returns (r: Outcome)
    requires a.Valid({}) && seg.load && seg.memsz > 0 && seg.Loadable(bias) && Paged(s.view)
    requires forall p :: seg.Reaches(bias, p) ==> p !in a.base
    requires Extends(s, SpaceOf(a), (bias + seg.vaddr) / PAGE_SIZE, (bias + seg.vaddr + seg.memsz - 1) / PAGE_SIZE + 1,
                     seg.PageFlags())
    modifies a.ram
    ensures unchanged(a.pmm) && a.Valid({}) && a.Keeps()
    ensures r.Done? ==> SegmentLoaded(s, SpaceOf(a), seg, bias, file)
    ensures r == Panic(FileTooShort) <==> !seg.InFile(file)
    ensures r == Panic(NotMapped) <==>
      seg.InFile(file) && exists p :: PageIn(bias + seg.vaddr, seg.filesz, p) && p !in a.leaves
    ensures r == Panic(NotMapped) ==> !seg.Proper()
    ensures r.Panic? ==> r.reason == FileTooShort || r.reason == NotMapped
  {
    hide Wired, Ledger.Balanced, AddressSpace.Places, BitmapPmm.Free, ViewOf, Written, SegmentLoaded;
    ghost var t := SpaceOf(a);
    a.ViewPaged();
    if seg.filesz > 0 {
      if seg.offset + seg.filesz > |file| {
        return Panic(FileTooShort);
      }
      FilePagesTouched(seg, bias);
      var start, data := bias + seg.vaddr, file[seg.offset..seg.offset + seg.filesz];
      ghost var v := a.View();
      SpaceKeys(a);
      r := CopyIn(a, start, data);
      assert forall p :: seg.Touches(bias, p) ==> p in t.leaves;
      if r.Done? {
        ghost var v' := a.View();
        MappedThenWritten(s, Space(t.leaves, v), v', seg, bias, file);
        ghost var loaded := SegmentLoaded(s, SpaceOf(a), seg, bias, file);
        assert loaded;
      }
      return;
    }
    MappedOnly(s, t, seg, bias, file);
    return Done;
  }

  lemma FilePagesTouched(seg: Segment, bias: nat)
    requires seg.load && seg.memsz > 0
    ensures forall p :: PageIn(bias + seg.vaddr, seg.filesz, p) ==> seg.Reaches(bias, p)
    ensures seg.Proper() ==> forall p :: PageIn(bias + seg.vaddr, seg.filesz, p) ==> seg.Touches(bias, p)
  {
  }

  lemma MappedOnly(s: Space, t: Space, seg: Segment, bias: nat, file: seq<Byte>)
    requires seg.load && seg.memsz > 0 && seg.filesz == 0 && Paged(s.view) && Paged(t.view)
    requires Extends(s, t, (bias + seg.vaddr) / PAGE_SIZE, (bias + seg.vaddr + seg.memsz - 1) / PAGE_SIZE + 1,
                     seg.PageFlags())
    ensures SegmentLoaded(s, t, seg, bias, file)
  {
  }

  /** Every byte of the file that a segment asks for has its place in `v`. */
  ghost predicate AllPlaced(segs: seq<Segment>, bias: nat, v: map<nat, seq<Byte>>) {
    forall i, va: nat :: 0 <= i < |segs| && segs[i].Fills(bias, va) ==> InView(v, va)
  }

  lemma AllPlacedAppend(segs: seq<Segment>, seg: Segment, bias: nat, v: map<nat, seq<Byte>>, v': map<nat, seq<Byte>>)
    requires AllPlaced(segs, bias, v) && (forall p :: p in v ==> p in v')
    requires forall va: nat :: seg.Fills(bias, va) ==> InView(v', va)
    ensures AllPlaced(segs + [seg], bias, v')
  {
    forall i, va: nat | 0 <= i < |segs + [seg]| && (segs + [seg])[i].Fills(bias, va)
      ensures InView(v', va)
    {
      if i < |segs| {
        assert segs[i].Fills(bias, va) && InView(v, va);
      }
    }
  }

  lemma AllPlacedGrows(segs: seq<Segment>, bias: nat, v: map<nat, seq<Byte>>, v': map<nat, seq<Byte>>)
    requires AllPlaced(segs, bias, v) && forall p :: p in v ==> p in v'
    ensures AllPlaced(segs, bias, v')
  {
    forall i, va: nat | 0 <= i < |segs| && segs[i].Fills(bias, va)
      ensures InView(v', va)
    {
      assert InView(v, va);
    }
  }

  /** The state of the address space once `segs` are loaded and the pages in `extra` mapped:
      which pages are mapped, their flags and every byte on them. `s` is the space before. */
  ghost predicate Loaded(s: Space, t: Space, segs: seq<Segment>, extra: set<nat>, bias: nat, file: seq<Byte>) {
    && Paged(t.view) && t.view.Keys == t.leaves.Keys - s.leaves.Keys
    && (forall p :: p in t.leaves <==> (p in s.leaves || p in extra || Touched(segs, bias, p)))
    && (forall p :: p in s.leaves ==> t.leaves[p] == s.leaves[p])
    && (forall p :: p in t.view ==> t.leaves[p].flags == FirstFlags(segs, bias, p))
    && AllPlaced(segs, bias, t.view)
    && (forall va: nat :: InView(t.view, va) ==> ByteAt(t.view, va) == Image(segs, bias, file, va))
  }

  /** An address on a page that no segment reaches has image byte zero. */
  lemma ImageUntouched(segs: seq<Segment>, bias: nat, file: seq<Byte>, va: nat)
    requires forall i :: 0 <= i < |segs| ==> !segs[i].Reaches(bias, va / PAGE_SIZE)
    ensures Image(segs, bias, file, va) == 0
  {
    forall i | 0 <= i < |segs|
      ensures !segs[i].Fills(bias, va)
    {
      assert !segs[i].Reaches(bias, va / PAGE_SIZE);
    }
    ImageNone(segs, bias, file, va);
  }

  lemma {:induction false} FirstFlagsAppend(segs: seq<Segment>, seg: Segment, bias: nat, p: nat)
    ensures FirstFlags(segs + [seg], bias, p) ==
      if Touched(segs, bias, p) then FirstFlags(segs, bias, p)
      else if seg.Touches(bias, p) then seg.PageFlags() else POOL_FLAGS
    ensures Touched(segs + [seg], bias, p) <==> Touched(segs, bias, p) || seg.Touches(bias, p)
  {
    var all := segs + [seg];
    assert all[|segs|] == seg && forall i :: 0 <= i < |segs| ==> all[i] == segs[i];
    if segs != [] {
      FirstFlagsAppend(segs[1..], seg, bias, p);
      assert all[1..] == segs[1..] + [seg];
      if Touched(segs[1..], bias, p) {
        var i :| 0 <= i < |segs[1..]| && segs[1..][i].Touches(bias, p);
        assert segs[i + 1].Touches(bias, p);
      }
      if Touched(segs, bias, p) && !segs[0].Touches(bias, p) {
        var i :| 0 <= i < |segs| && segs[i].Touches(bias, p);
        assert segs[1..][i - 1].Touches(bias, p);
      }
    }
  }

  /** Untouched pages have the flags of the pool. */
  lemma {:induction false} FirstFlagsDefault(segs: seq<Segment>, bias: nat, p: nat)
    requires !Touched(segs, bias, p)
    ensures FirstFlags(segs, bias, p) == POOL_FLAGS
  {
    if segs != [] {
      assert !segs[0].Touches(bias, p);
      assert forall i :: 0 <= i < |segs[1..]| ==> segs[1..][i] == segs[i + 1];
      FirstFlagsDefault(segs[1..], bias, p);
    }
  }

  lemma ImageAppend(segs: seq<Segment>, seg: Segment, bias: nat, file: seq<Byte>, va: nat)
    ensures Image(segs + [seg], bias, file, va) ==
      var at := seg.offset + (va - bias - seg.vaddr);
      if seg.Fills(bias, va) && at < |file| then file[at] else Image(segs, bias, file, va)
  {
    var all := segs + [seg];
    assert all[|all| - 1] == seg && all[..|all| - 1] == segs;
  }

  lemma LoadedStepBytes(s: Space, t: Space, u: Space, segs: seq<Segment>, seg: Segment, bias: nat, file: seq<Byte>,
                        va: nat)
    requires forall p :: seg.Touches(bias, p) ==> p !in s.leaves
    requires Loaded(s, t, segs, {}, bias, file) && SegmentLoaded(t, u, seg, bias, file) && InView(u.view, va)
    ensures ByteAt(u.view, va) == Image(segs + [seg], bias, file, va)
  {
    hide Image, ByteAt, Segment.Fills, Segment.Touches, Touched, FirstFlags;
    ImageAppend(segs, seg, bias, file, va);
    if !InView(t.view, va) {
      assert forall i :: 0 <= i < |segs| ==> !segs[i].Fills(bias, va);
      ImageNone(segs, bias, file, va);
    }
  }

  /** One more segment, with an image that stays last-writer-wins. */
  lemma LoadedStep(s: Space, t: Space, u: Space, segs: seq<Segment>, seg: Segment, bias: nat, file: seq<Byte>)
    requires forall p :: seg.Touches(bias, p) ==> p !in s.leaves
    ensures Loaded(s, t, segs, {}, bias, file) && SegmentLoaded(t, u, seg, bias, file) ==>
      Loaded(s, u, segs + [seg], {}, bias, file)
  {
    if Loaded(s, t, segs, {}, bias, file) && SegmentLoaded(t, u, seg, bias, file) {
      forall p: nat
        ensures Touched(segs + [seg], bias, p) <==> Touched(segs, bias, p) || seg.Touches(bias, p)
        ensures p in u.view ==> u.leaves[p].flags == FirstFlags(segs + [seg], bias, p)
      {
        FirstFlagsAppend(segs, seg, bias, p);
      }
      forall va: nat | InView(u.view, va)
        ensures ByteAt(u.view, va) == Image(segs + [seg], bias, file, va)
      {
        LoadedStepBytes(s, t, u, segs, seg, bias, file, va);
      }
      AllPlacedAppend(segs, seg, bias, t.view, u.view);
    }
  }

  /** A header that is not LOAD, or an empty one, changes nothing. */
  lemma NothingLoaded(t: Space, seg: Segment, bias: nat, file: seq<Byte>)
    requires (!seg.load || seg.memsz == 0) && t.view.Keys <= t.leaves.Keys && Paged(t.view)
    ensures SegmentLoaded(t, t, seg, bias, file)
  {
  }

  /** Mapping a further range keeps the image: the new pages are zero, as the image is there. */
  lemma LoadedRange(s: Space, t: Space, u: Space, segs: seq<Segment>, extra: set<nat>, first: nat, next: nat,
                    bias: nat, file: seq<Byte>)
    requires Paged(u.view)
    ensures Loaded(s, t, segs, extra, bias, file) && Extends(t, u, first, next, POOL_FLAGS) ==>
      Loaded(s, u, segs, extra + Pages(first, next), bias, file)
  {
    if Loaded(s, t, segs, extra, bias, file) && Extends(t, u, first, next, POOL_FLAGS) {
      forall p | p in u.view
        ensures u.leaves[p].flags == FirstFlags(segs, bias, p)
      {
        if p !in t.view {
          FirstFlagsDefault(segs, bias, p);
        }
      }
      forall va: nat | InView(u.view, va)
        ensures ByteAt(u.view, va) == Image(segs, bias, file, va)
      {
        if InView(t.view, va) {
          assert ByteAt(u.view, va) == ByteAt(t.view, va);
        } else {
          ImageNone(segs, bias, file, va);
        }
      }
      AllPlacedGrows(segs, bias, t.view, u.view);
    }
  }

  /** Page `p` belongs to the pool or the heap. */
  predicate UserZone(p: nat) {
    Between(POOL_START / PAGE_SIZE, p, POOL_END / PAGE_SIZE) || Between(HEAP_START / PAGE_SIZE, p, HEAP_END / PAGE_SIZE)
  }

  /** The parts of the ELF file that the kernel uses. */
  datatype Elf = Elf(pie: bool, entry: nat, segs: seq<Segment>, file: seq<Byte>, phoff: nat, phnum: nat, phent: nat) {
    function Bias(): nat { if pie then USER_BASE_ADDR else 0 }

    /** Where the program starts, in 64-bit arithmetic. */
    function Entry(): nat { Wrap(Bias() + entry) }

    predicate InFile() { forall i :: 0 <= i < |segs| ==> segs[i].InFile(file) }

    /** What must be the case when the loader gives up: a page it needs lies in a 2 MiB page, or
        the file is too short. A copy meets an unmapped page only if a header is not proper. */
    ghost predicate Explains(reason: Reason, huge: set<nat>) {
      match reason
      case OutOfFrames => true
      case MapFailed =>
        || (exists i :: 0 <= i < |segs| && segs[i].Blocked(Bias(), huge))
        || (exists p: nat :: UserZone(p) && p / 512 in huge)
      case FileTooShort => !InFile()
      case NotMapped => exists i :: 0 <= i < |segs| && !segs[i].Proper()
    }
  }

  /** The pages of all segments. */
  function SegPages(segs: seq<Segment>, bias: nat): set<nat> {
    if segs == [] then {} else SegPages(segs[..|segs| - 1], bias) + segs[|segs| - 1].PageSet(bias)
  }

  lemma SegPagesNext(segs: seq<Segment>, i: nat, bias: nat)
    requires i < |segs|
    ensures SegPages(segs[..i + 1], bias) == SegPages(segs[..i], bias) + segs[i].PageSet(bias)
  {
    assert segs[..i + 1][..i] == segs[..i];
  }

  lemma {:induction false} SegPagesPart(segs: seq<Segment>, i: nat, bias: nat)
    requires i <= |segs|
    ensures SegPages(segs[..i], bias) <= SegPages(segs, bias)
  {
    if i < |segs| {
      var init := segs[..|segs| - 1];
      SegPagesPart(init, i, bias);
      assert init[..i] == segs[..i];
    } else {
      assert segs[..i] == segs;
    }
  }

  lemma {:induction false} SegPagesAre(segs: seq<Segment>, bias: nat, p: nat)
    ensures p in SegPages(segs, bias) <==> Touched(segs, bias, p)
  {
    if segs != [] {
      var init, last := segs[..|segs| - 1], segs[|segs| - 1];
      SegPagesAre(init, bias, p);
      assert p in last.PageSet(bias) <==> last.Touches(bias, p);
      FirstFlagsAppend(init, last, bias, p);
      assert init + [last] == segs;
    }
  }

  /** The pages mapped since `s` are pages of segments and of the zones. */
  lemma LoadedPages(s: Space, t: Space, segs: seq<Segment>, extra: set<nat>, bias: nat, file: seq<Byte>)
    requires Loaded(s, t, segs, extra, bias, file)
    ensures t.leaves.Keys - s.leaves.Keys <= SegPages(segs, bias) + extra
  {
    hide SegPages, Touched;
    forall p | p in t.leaves && p !in s.leaves
      ensures p in SegPages(segs, bias) + extra
    {
      SegPagesAre(segs, bias, p);
    }
  }

  const POOL_PAGES: set<nat> := Pages(POOL_START / PAGE_SIZE, POOL_END / PAGE_SIZE)
  const HEAP_PAGES: set<nat> := Pages(HEAP_START / PAGE_SIZE, HEAP_END / PAGE_SIZE)

  /** What the loader demands: headers that follow the gABI, and no segment on a page that is
      mapped already. */
  ghost predicate ElfPromise(elf: Elf, mapped: set<nat>) {
    && (forall i :: 0 <= i < |elf.segs| ==> elf.segs[i].Loadable(elf.Bias()))
    && (forall i, p :: 0 <= i < |elf.segs| && elf.segs[i].Reaches(elf.Bias(), p) ==> p !in mapped)
  }

  /** Program header `i`, after those before it. `s` is the space before the first one. */
  method LoadHeader(a: AddressSpace, elf: Elf, i: nat, ghost s: Space) returns (r: Outcome)
    requires a.Valid({}) && a.base == s.leaves.Keys && i < |elf.segs| && ElfPromise(elf, a.base)
    requires Loaded(s, SpaceOf(a), elf.segs[..i], {}, elf.Bias(), elf.file)
    modifies a, a.ram
    ensures unchanged(a.pmm)
    ensures r.Done? ==> a.Valid({}) && a.Keeps()
    ensures r.Done? ==> Loaded(s, SpaceOf(a), elf.segs[..i + 1], {}, elf.Bias(), elf.file)
    ensures a.BooksKept() && (r.Done? ==> elf.segs[i].InFile(elf.file))
    ensures r.Panic? ==> elf.Explains(r.reason, a.huge)
    ensures r == Panic(OutOfFrames) ==> a.pmm.Free() == {} && a.Short(SegPages(elf.segs[..i + 1], elf.Bias()) - a.base)
  {
    hide Wired, Ledger.Balanced, AddressSpace.Places, BitmapPmm.Free, ViewOf, SegmentLoaded, AddressSpace.Short;
    var seg := elf.segs[i];
    ghost var t := SpaceOf(a);
    if seg.load {
      r := LoadSegment(a, seg, elf.Bias(), elf.file);
      if r.Panic? {
        if r.reason == OutOfFrames {
          LoadedPages(s, t, elf.segs[..i], {}, elf.Bias(), elf.file);
          SegPagesNext(elf.segs, i, elf.Bias());
          a.ShortGrows(t.leaves.Keys - s.leaves.Keys + seg.PageSet(elf.Bias()) - a.base,
                       SegPages(elf.segs[..i + 1], elf.Bias()) - a.base);
        }
        return;
      }
    } else {
      NothingLoaded(t, seg, elf.Bias(), elf.file);
      r := Done;
    }
    ghost var u := SpaceOf(a);
    assert elf.segs[..i] + [seg] == elf.segs[..i + 1];
    LoadedStep(s, t, u, elf.segs[..i], seg, elf.Bias(), elf.file);
    ghost var loaded := Loaded(s, u, elf.segs[..i + 1], {}, elf.Bias(), elf.file);
    assert loaded;
  }

  /** The LOAD segments in program order. */
  method LoadSegments(a: AddressSpace, elf: Elf) returns (r: Outcome)
    requires a.Valid({}) && a.base == a.leaves.Keys && ElfPromise(elf, a.base)
    modifies a, a.ram
    ensures unchanged(a.pmm)
    ensures r.Done? ==> a.Valid({}) && a.Keeps()
    ensures r.Done? ==> Loaded(old(SpaceOf(a)), SpaceOf(a), elf.segs, {}, elf.Bias(), elf.file)
    ensures a.BooksKept() && (r.Done? ==> elf.InFile())
    ensures r.Panic? ==> elf.Explains(r.reason, a.huge)
    ensures r == Panic(OutOfFrames) ==> a.pmm.Free() == {} && a.Short(SegPages(elf.segs, elf.Bias()) - a.base)
  {
    hide Wired, Ledger.Balanced, AddressSpace.Places, BitmapPmm.Free, ViewOf, Loaded, AddressSpace.Short, ElfPromise,
         Elf.Bias, Elf.Explains, SegPages, Segment.InFile;
    ghost var s := SpaceOf(a);
    SpaceKeys(a);
    assert s.view.Keys == {};
    NothingYet(s, elf.Bias(), elf.file);
    assert elf.segs[..0] == [];
    for i := 0 to |elf.segs|
      invariant unchanged(a.pmm) && a.Valid({}) && a.Keeps()
      invariant Loaded(s, SpaceOf(a), elf.segs[..i], {}, elf.Bias(), elf.file)
      invariant forall j :: 0 <= j < i ==> elf.segs[j].InFile(elf.file)
    {
      r := LoadHeader(a, elf, i, s);
      if r.Panic? {
        if r.reason == OutOfFrames {
          SegPagesPart(elf.segs, i + 1, elf.Bias());
          a.ShortGrows(SegPages(elf.segs[..i + 1], elf.Bias()) - a.base, SegPages(elf.segs, elf.Bias()) - a.base);
        }
        return;
      }
    }
    assert elf.segs[..|elf.segs|] == elf.segs;
    return Done;
  }

  lemma NothingYet(s: Space, bias: nat, file: seq<Byte>)
    requires s.view == map[]
    ensures Loaded(s, s, [], {}, bias, file)
  {
  }

  /** One of the two zones mapped after the segments. `s` is the space before the first segment. */
  method MapZone(a: AddressSpace, elf: Elf, first: nat, next: nat, ghost extra: set<nat>, ghost s: Space)
      returns (r: Outcome)
    requires a.Valid({}) && first < next <= MAX_PAGES && ElfPromise(elf, a.base)
    requires Loaded(s, SpaceOf(a), elf.segs, extra, elf.Bias(), elf.file)
    modifies a, a.ram
    ensures unchanged(a.pmm)
    ensures r.Done? ==> a.Valid({}) && a.Keeps()
    ensures r.Done? ==> Loaded(s, SpaceOf(a), elf.segs, extra + Pages(first, next), elf.Bias(), elf.file)
    ensures a.BooksKept()
    ensures r.Panic? ==>
      r.reason == OutOfFrames || (r.reason == MapFailed && exists p: nat :: first <= p < next && p / 512 in a.huge)
    ensures r == Panic(OutOfFrames) ==> a.pmm.Free() == {} && a.Short(old(a.DataPages()) + Pages(first, next) - a.base)
  {
    hide Wired, Ledger.Balanced, AddressSpace.Places, BitmapPmm.Free, ViewOf, Extends, Loaded, ElfPromise, Elf.Bias,
         AddressSpace.Short;
    ghost var t := SpaceOf(a);
    r := MapRange(a, first, next - 1, POOL_FLAGS);
    if r.Panic? {
      return;
    }
    ghost var u := SpaceOf(a);
    ghost var extended := Extends(t, u, first, next, POOL_FLAGS);
    assert extended;
    LoadedRange(s, t, u, elf.segs, extra, first, next, elf.Bias(), elf.file);
    ghost var loaded := Loaded(s, u, elf.segs, extra + Pages(first, next), elf.Bias(), elf.file);
    assert loaded;
  }

  /** Loads the user program. Afterwards the mapped pages are exactly the old ones, those of
      the segments, the pool and the heap; every byte on a new page is the image's byte, its
      flags are those of the first segment on it. */
  method LoadUserElf(a: AddressSpace, elf: Elf) returns (r: Outcome, entry: nat)
    requires a.Valid({}) && a.base == a.leaves.Keys && ElfPromise(elf, a.base)
    modifies a, a.ram
    ensures unchanged(a.pmm) && entry == elf.Entry()
    ensures elf.pie ==> entry == (0x40_0000 + elf.entry) % 0x1_0000_0000_0000_0000
    ensures !elf.pie ==> entry == elf.entry % 0x1_0000_0000_0000_0000
    ensures r.Done? ==> a.Valid({}) && a.Keeps()
    ensures r.Done? ==> Loaded(old(SpaceOf(a)), SpaceOf(a), elf.segs, POOL_PAGES + HEAP_PAGES, elf.Bias(), elf.file)
    ensures a.BooksKept() && (r.Done? ==> elf.InFile())
    ensures r.Panic? ==> elf.Explains(r.reason, a.huge)
    ensures r == Panic(OutOfFrames) ==>
      a.pmm.Free() == {} && a.Short(SegPages(elf.segs, elf.Bias()) + POOL_PAGES + HEAP_PAGES - a.base)
  {
    hide Wired, Ledger.Balanced, AddressSpace.Places, BitmapPmm.Free, ViewOf, Loaded, AddressSpace.Short;
    entry := elf.Entry();
    ghost var s := SpaceOf(a);
    r := LoadSegments(a, elf);
    ghost var all := SegPages(elf.segs, elf.Bias()) + POOL_PAGES + HEAP_PAGES;
    if r.Panic? {
      if r.reason == OutOfFrames {
        a.ShortGrows(SegPages(elf.segs, elf.Bias()) - a.base, all - a.base);
      }
      return;
    }
    LoadedPages(s, SpaceOf(a), elf.segs, {}, elf.Bias(), elf.file);
    ghost var data := a.DataPages();
    r := MapZone(a, elf, POOL_START / PAGE_SIZE, POOL_END / PAGE_SIZE, {}, s);
    if r.Panic? {
      if r.reason == OutOfFrames {
        a.ShortGrows(data + POOL_PAGES - a.base, all - a.base);
      }
      return;
    }
    assert {} + POOL_PAGES == POOL_PAGES;
    LoadedPages(s, SpaceOf(a), elf.segs, POOL_PAGES, elf.Bias(), elf.file);
    data := a.DataPages();
    r := MapZone(a, elf, HEAP_START / PAGE_SIZE, HEAP_END / PAGE_SIZE, POOL_PAGES, s);
    if r == Panic(OutOfFrames) {
      a.ShortGrows(data + HEAP_PAGES - a.base, all - a.base);
    }
  }

  /** Where one segment alone provides a byte, the image is that byte. */
  lemma {:induction false} ImageOne(segs: seq<Segment>, bias: nat, file: seq<Byte>, va: nat, i: nat)
    requires i < |segs| && segs[i].Fills(bias, va) && segs[i].offset + (va - bias - segs[i].vaddr) < |file|
    requires forall j :: 0 <= j < |segs| && j != i ==> !segs[j].Fills(bias, va)
    ensures Image(segs, bias, file, va) == file[segs[i].offset + (va - bias - segs[i].vaddr)]
  {
    if i < |segs| - 1 {
      assert !segs[|segs| - 1].Fills(bias, va);
      ImageOne(segs[..|segs| - 1], bias, file, va, i);
    }
  }

  lemma {:induction false} ImageNone(segs: seq<Segment>, bias: nat, file: seq<Byte>, va: nat)
    requires forall j :: 0 <= j < |segs| ==> !segs[j].Fills(bias, va)
    ensures Image(segs, bias, file, va) == 0
  {
    if segs != [] {
      ImageNone(segs[..|segs| - 1], bias, file, va);
    }
  }

  ghost predicate DisjointRanges(segs: seq<Segment>) {
    forall i, j :: 0 <= i < j < |segs| && segs[i].load && segs[j].load ==>
      segs[i].vaddr + segs[i].memsz <= segs[j].vaddr || segs[j].vaddr + segs[j].memsz <= segs[i].vaddr
  }

  /** The whole-image theorem: with disjoint address ranges, even on shared pages, every segment
      finds its file bytes followed by zeros. */
  lemma SegmentImage(segs: seq<Segment>, bias: nat, file: seq<Byte>, i: nat, k: nat)
    requires DisjointRanges(segs) && forall j :: 0 <= j < |segs| ==> segs[j].Proper()
    requires i < |segs| && segs[i].load && k < segs[i].memsz && segs[i].InFile(file)
    ensures Image(segs, bias, file, bias + segs[i].vaddr + k) ==
      if k < segs[i].filesz then file[segs[i].offset + k] else 0
  {
    var va := bias + segs[i].vaddr + k;
    forall j | 0 <= j < |segs| && j != i
      ensures !segs[j].Fills(bias, va)
    {
      assert segs[j].Proper();
    }
    if k < segs[i].filesz {
      ImageOne(segs, bias, file, va, i);
    } else {
      ImageNone(segs, bias, file, va);
    }
  }

  /** The permission theorem: a page has the flags of the first segment in program order that
      touches it, whatever the later ones ask for. */
  lemma {:induction false} FirstWins(segs: seq<Segment>, bias: nat, p: nat, i: nat)
    requires i < |segs| && segs[i].Touches(bias, p)
    requires forall j :: 0 <= j < i ==> !segs[j].Touches(bias, p)
    ensures FirstFlags(segs, bias, p) == segs[i].PageFlags()
  {
    if i > 0 {
      FirstWins(segs[1..], bias, p, i - 1);
    }
  }

  /** Two segments have a page in common. */
  predicate SharePage(s: Segment, t: Segment, bias: nat) {
    && s.load && s.memsz > 0 && t.load && t.memsz > 0
    && (bias + s.vaddr) / PAGE_SIZE <= (bias + t.vaddr + t.memsz - 1) / PAGE_SIZE
    && (bias + t.vaddr) / PAGE_SIZE <= (bias + s.vaddr + s.memsz - 1) / PAGE_SIZE
  }

  /** Two segments share a page exactly if some page holds bytes of both. */
  lemma SharePageIs(s: Segment, t: Segment, base: nat)
    requires s.load && t.load
    ensures SharePage(s, t, base) <==> exists p: nat :: s.Touches(base, p) && t.Touches(base, p)
  {
    if SharePage(s, t, base) {
      var a, b := (base + s.vaddr) / PAGE_SIZE, (base + t.vaddr) / PAGE_SIZE;
      var p := if a < b then b else a;
      assert s.Touches(base, p) && t.Touches(base, p);
    }
  }

  /** Segments that share a page ask for the same permissions. */
  ghost predicate FlagsAgree(segs: seq<Segment>, bias: nat) {
    forall i, j :: 0 <= i < j < |segs| && SharePage(segs[i], segs[j], bias) ==>
      segs[i].PageFlags() == segs[j].PageFlags()
  }

  /** Every segment has the permissions it asks for on all its pages. */
  ghost predicate OwnFlags(segs: seq<Segment>, bias: nat) {
    forall i, p :: 0 <= i < |segs| && segs[i].Touches(bias, p) ==> FirstFlags(segs, bias, p) == segs[i].PageFlags()
  }

  /** The first segment that touches a page. */
  lemma {:induction false} FirstToucher(segs: seq<Segment>, bias: nat, p: nat, i: nat) returns (k: nat)
    requires i < |segs| && segs[i].Touches(bias, p)
    ensures k <= i && segs[k].Touches(bias, p) && forall j :: 0 <= j < k ==> !segs[j].Touches(bias, p)
  {
    if j :| 0 <= j < i && segs[j].Touches(bias, p) {
      k := FirstToucher(segs, bias, p, j);
    } else {
      k := i;
    }
  }

  /** The exact condition: every segment has its own permissions if and only if segments that share
      a page agree on them. */
  lemma OwnFlagsIff(segs: seq<Segment>, bias: nat)
    ensures OwnFlags(segs, bias) <==> FlagsAgree(segs, bias)
  {
    hide FirstFlags;
    if OwnFlags(segs, bias) {
      forall i, j | 0 <= i < j < |segs| && SharePage(segs[i], segs[j], bias)
        ensures segs[i].PageFlags() == segs[j].PageFlags()
      {
        var a, b := (bias + segs[i].vaddr) / PAGE_SIZE, (bias + segs[j].vaddr) / PAGE_SIZE;
        var p := if a < b then b else a;
        assert segs[i].Touches(bias, p) && segs[j].Touches(bias, p);
        assert FirstFlags(segs, bias, p) == segs[i].PageFlags();
      }
    }
    if FlagsAgree(segs, bias) {
      forall i, p | 0 <= i < |segs| && segs[i].Touches(bias, p)
        ensures FirstFlags(segs, bias, p) == segs[i].PageFlags()
      {
        var k := FirstToucher(segs, bias, p, i);
        FirstWins(segs, bias, p, k);
        assert k < i ==> SharePage(segs[k], segs[i], bias);
      }
    }
  }

  /** Code in the first half of a page and data in the second half: the data is not writable. */
  lemma SharedPageLosesWrite()
    ensures var code := Segment(true, 0x40_0000, 0x800, 0x800, 0, false, true);
      var data := Segment(true, 0x40_0800, 0x800, 0x800, 0x800, true, false);
      && DisjointRanges([code, data]) && data.Touches(0, 0x400)
      && data.PageFlags().writable && !FirstFlags([code, data], 0, 0x400).writable
  {
    var code := Segment(true, 0x40_0000, 0x800, 0x800, 0, false, true);
    var data := Segment(true, 0x40_0800, 0x800, 0x800, 0x800, true, false);
    FirstWins([code, data], 0, 0x400, 0);
  }
}
