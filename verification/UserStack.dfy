/** The initial stack of the user program: sixteen fresh pages with the start-up block of
    section 3.4.1 of the System V AMD64 psABI near the top, and a reader of that block. */
module UserStack {
  import opened Arith
  import opened Bits
  import opened Pmm
  import opened PageTables
  import opened Paging
  import opened ElfLoader

  const STACK_TOP: nat := 0x7FFF_FFFF_0000
  const STACK_SIZE: nat := 16 * PAGE_SIZE
  const FIRST_PAGE: nat := (STACK_TOP - STACK_SIZE) / PAGE_SIZE
  const NEXT_PAGE: nat := STACK_TOP / PAGE_SIZE

  const AT_NULL: nat := 0
  const AT_PHDR: nat := 3
  const AT_PHENT: nat := 4
  const AT_PHNUM: nat := 5
  const AT_PAGESZ: nat := 6
  const AT_BASE: nat := 7
  const AT_ENTRY: nat := 9
  const AT_RANDOM: nat := 25

  /** What a C runtime finds at its stack pointer. */
  datatype Startup = Startup(argv: seq<nat>, envp: seq<nat>, auxv: seq<(nat, nat)>)

  function AuxWords(auxv: seq<(nat, nat)>): seq<nat> {
    if auxv == [] then [AT_NULL, 0] else [auxv[0].0, auxv[0].1] + AuxWords(auxv[1..])
  }

  /** The block as words, lowest address first. */
  function Encode(st: Startup): seq<nat> {
    [|st.argv|] + st.argv + [0] + st.envp + [0] + AuxWords(st.auxv)
  }

  /** Reads words up to a null word: those words, and what follows the null. */
  function ReadPointers(ws: seq<nat>): Option<(seq<nat>, seq<nat>)> {
    if ws == [] then None
    else if ws[0] == 0 then Some(([], ws[1..]))
    else match ReadPointers(ws[1..])
      case None => None
      case Some((ps, rest)) => Some(([ws[0]] + ps, rest))
  }

  /** Reads pairs up to AT_NULL. */
  function ReadAux(ws: seq<nat>): Option<seq<(nat, nat)>> {
    if |ws| < 2 then None
    else if ws[0] == AT_NULL then Some([])
    else match ReadAux(ws[2..])
      case None => None
      case Some(ps) => Some([(ws[0], ws[1])] + ps)
  }

  /** A reader of the block, as the psABI lays it out. */
  function Read(ws: seq<nat>): Option<Startup> {
    if ws == [] || 1 + ws[0] >= |ws| || ws[1 + ws[0]] != 0 then None
    else match ReadPointers(ws[2 + ws[0]..])
      case None => None
      case Some((envp, rest)) =>
        match ReadAux(rest)
        case None => None
        case Some(auxv) => Some(Startup(ws[1..1 + ws[0]], envp, auxv))
  }

  lemma {:induction false} ReadPointersEncoded(ps: seq<nat>, rest: seq<nat>)
    requires forall i :: 0 <= i < |ps| ==> ps[i] != 0
    ensures ReadPointers(ps + [0] + rest) == Some((ps, rest))
  {
    var ws := ps + [0] + rest;
    if ps == [] {
      assert ws[1..] == rest;
    } else {
      ReadPointersEncoded(ps[1..], rest);
      assert ws[1..] == ps[1..] + [0] + rest;
      assert [ps[0]] + ps[1..] == ps;
    }
  }

  lemma {:induction false} ReadAuxEncoded(auxv: seq<(nat, nat)>, rest: seq<nat>)
    requires forall i :: 0 <= i < |auxv| ==> auxv[i].0 != AT_NULL
    ensures ReadAux(AuxWords(auxv) + rest) == Some(auxv)
  {
    var ws := AuxWords(auxv) + rest;
    if auxv != [] {
      ReadAuxEncoded(auxv[1..], rest);
      assert ws[2..] == AuxWords(auxv[1..]) + rest;
      assert [(auxv[0].0, auxv[0].1)] + auxv[1..] == auxv;
    }
  }

  /** The reader recovers every block from its words, whatever follows the block. */
  lemma ReadEncoded(st: Startup, rest: seq<nat>)
    requires forall i :: 0 <= i < |st.envp| ==> st.envp[i] != 0
    requires forall i :: 0 <= i < |st.auxv| ==> st.auxv[i].0 != AT_NULL
    ensures Read(Encode(st) + rest) == Some(st)
  {
    var ws := Encode(st) + rest;
    var n := |st.argv|;
    ReadPointersEncoded(st.envp, AuxWords(st.auxv) + rest);
    ReadAuxEncoded(st.auxv, rest);
    assert ws == [n] + (st.argv + ([0] + (st.envp + [0] + (AuxWords(st.auxv) + rest))));
    assert ws[2 + n..] == st.envp + [0] + (AuxWords(st.auxv) + rest);
    assert ws[1..1 + n] == st.argv;
  }

  /** For example: two arguments, one environment string, the page size. */
  lemma ReadExample()
    ensures Read([2, 11, 12, 0, 21, 0, 6, 4096, 0, 0]) == Some(Startup([11, 12], [21], [(6, 4096)]))
  {
    var ws: seq<nat> := [2, 11, 12, 0, 21, 0, 6, 4096, 0, 0];
    var aux: seq<nat> := [6, 4096, 0, 0];
    var pairs: seq<(nat, nat)> := [(6, 4096)];
    assert aux[2..] == [0, 0] && ReadAux(aux[2..]) == Some([]) && pairs + [] == pairs;
    assert ReadAux(aux) == Some(pairs);
    var env: seq<nat> := [21, 0, 6, 4096, 0, 0];
    assert env[1..] == [0] + aux && env[1..][1..] == aux && ReadPointers(env[1..]) == Some(([], aux));
    var strings: seq<nat> := [21];
    assert strings + [] == strings && ReadPointers(env) == Some((strings, aux));
    assert ws[4..] == env && ws[1..3] == [11, 12];
  }

  /** The block that the kernel means to hand over. */
  function KernelStartup(elf: Elf, sp: nat): Startup {
    Startup([], [],
            [(AT_PHDR, Wrap(elf.Bias() + elf.phoff)), (AT_PHENT, elf.phent), (AT_PHNUM, elf.phnum),
             (AT_PAGESZ, PAGE_SIZE), (AT_BASE, 0), (AT_ENTRY, elf.Entry()), (AT_RANDOM, sp + 240)])
  }

  /** The words the kernel writes, in the order in which it writes them. */
  function StackWords(elf: Elf, sp: nat): (ws: seq<nat>)
    ensures |ws| == 19
  {
    [0, 0, 0]
    + ([AT_PHDR, Wrap(elf.Bias() + elf.phoff), AT_PHENT, elf.phent, AT_PHNUM, elf.phnum]
       + ([AT_PAGESZ, PAGE_SIZE, AT_BASE, 0, AT_ENTRY, elf.Entry()]
          + ([AT_RANDOM, sp + 240] + [AT_NULL, 0])))
  }

  /** Those words are the encoding of that block. */
  lemma StackWordsEncode(elf: Elf, sp: nat)
    ensures StackWords(elf, sp) == Encode(KernelStartup(elf, sp))
  {
    hide AuxWords, Encode, Wrap, Elf.Bias, Elf.Entry;
    var aux := KernelStartup(elf, sp).auxv;
    assert aux == [aux[0], aux[1], aux[2]] + ([aux[3], aux[4], aux[5]] + ([aux[6]] + []));
    ThreePairs(aux[0], aux[1], aux[2], [aux[3], aux[4], aux[5]] + ([aux[6]] + []));
    ThreePairs(aux[3], aux[4], aux[5], [aux[6]] + []);
    OnePair(aux[6], []);
    NoPairs();
    EncodeEmpty(aux);
  }

  /** The value of a tag in an auxiliary vector. */
  function AuxValue(auxv: seq<(nat, nat)>, tag: nat): Option<nat> {
    if auxv == [] then None
    else if auxv[0].0 == tag then Some(auxv[0].1)
    else AuxValue(auxv[1..], tag)
  }

  /** What the block tells a C runtime, tag by tag in the numbering of the psABI: where the program
      headers are said to be, their size and number, the page size, no interpreter, the entry point,
      and the sixteen bytes for AT_RANDOM. */
  ghost predicate Tells(st: Startup, elf: Elf, sp: nat) {
    && st.argv == [] && st.envp == [] && |st.auxv| == 7
    && (elf.pie ==> AuxValue(st.auxv, 3) == Some((0x40_0000 + elf.phoff) % 0x1_0000_0000_0000_0000))
    && (!elf.pie ==> AuxValue(st.auxv, 3) == Some(elf.phoff % 0x1_0000_0000_0000_0000))
    && AuxValue(st.auxv, 4) == Some(elf.phent) && AuxValue(st.auxv, 5) == Some(elf.phnum)
    && AuxValue(st.auxv, 6) == Some(4096) && AuxValue(st.auxv, 7) == Some(0)
    && (elf.pie ==> AuxValue(st.auxv, 9) == Some((0x40_0000 + elf.entry) % 0x1_0000_0000_0000_0000))
    && (!elf.pie ==> AuxValue(st.auxv, 9) == Some(elf.entry % 0x1_0000_0000_0000_0000))
    && AuxValue(st.auxv, 25) == Some(sp + 240)
  }

  lemma KernelStartupTells(elf: Elf, sp: nat)
    ensures Tells(KernelStartup(elf, sp), elf, sp)
  {
    var auxv := KernelStartup(elf, sp).auxv;
    AuxStep(auxv, 1);
    AuxStep(auxv, 2);
    AuxStep(auxv, 3);
    AuxStep(auxv, 4);
    AuxStep(auxv, 5);
    AuxStep(auxv, 6);
  }

  /** The tags in front of a pair do not matter if they are others. */
  lemma {:induction false} AuxStep(auxv: seq<(nat, nat)>, i: nat)
    requires i < |auxv| && forall j :: 0 <= j < i ==> auxv[j].0 != auxv[i].0
    ensures AuxValue(auxv, auxv[i].0) == Some(auxv[i].1)
  {
    if i > 0 {
      AuxStep(auxv[1..], i - 1);
    }
  }

  /** File position `pos` is loaded at its own number: by a segment with equal address and offset. */
  ghost predicate LoadedInPlace(segs: seq<Segment>, bias: nat, pos: nat) {
    exists i :: 0 <= i < |segs| && segs[i].Fills(bias, bias + pos) && segs[i].offset == segs[i].vaddr
  }

  /** The program finds the header table of `n` bytes where AT_PHDR says. */
  ghost predicate HeadersFound(segs: seq<Segment>, bias: nat, file: seq<Byte>, phoff: nat, n: nat) {
    phoff + n <= |file| && forall pos :: phoff <= pos < phoff + n ==> Image(segs, bias, file, bias + pos) == file[pos]
  }

  /** The files that have all the bytes that segments and header table ask for. */
  ghost predicate LongEnough(segs: seq<Segment>, file: seq<Byte>, phoff: nat, n: nat) {
    phoff + n <= |file| && forall i :: 0 <= i < |segs| ==> segs[i].InFile(file)
  }

  /** AT_PHDR is the file offset of the header table plus the load address. Whatever the file holds,
      the table is found there if and only if each of its bytes is loaded by a segment whose address
      equals its file offset. */
  lemma HeadersFoundIff(segs: seq<Segment>, bias: nat, phoff: nat, n: nat)
    requires DisjointRanges(segs) && forall i :: 0 <= i < |segs| ==> segs[i].Proper()
    ensures (forall file :: LongEnough(segs, file, phoff, n) ==> HeadersFound(segs, bias, file, phoff, n)) <==>
      forall pos :: phoff <= pos < phoff + n ==> LoadedInPlace(segs, bias, pos)
  {
    hide Image, LoadedInPlace;
    if forall pos :: phoff <= pos < phoff + n ==> LoadedInPlace(segs, bias, pos) {
      forall file, pos | LongEnough(segs, file, phoff, n) && phoff <= pos < phoff + n
        ensures Image(segs, bias, file, bias + pos) == file[pos]
      {
        InPlaceFound(segs, bias, file, pos);
      }
    } else {
      var pos :| phoff <= pos < phoff + n && !LoadedInPlace(segs, bias, pos);
      var file := Telltale(segs, bias, phoff, n, pos);
      assert !HeadersFound(segs, bias, file, phoff, n);
    }
  }

  lemma InPlaceFound(segs: seq<Segment>, bias: nat, file: seq<Byte>, pos: nat)
    requires DisjointRanges(segs) && forall i :: 0 <= i < |segs| ==> segs[i].Proper() && segs[i].InFile(file)
    requires LoadedInPlace(segs, bias, pos) && pos < |file|
    ensures Image(segs, bias, file, bias + pos) == file[pos]
  {
    var i :| 0 <= i < |segs| && segs[i].Fills(bias, bias + pos) && segs[i].offset == segs[i].vaddr;
    SegmentImage(segs, bias, file, i, pos - segs[i].vaddr);
  }

  /** A file whose only byte that is not zero is the one at `pos`. */
  lemma Telltale(segs: seq<Segment>, bias: nat, phoff: nat, n: nat, pos: nat) returns (file: seq<Byte>)
    requires DisjointRanges(segs) && forall i :: 0 <= i < |segs| ==> segs[i].Proper()
    requires phoff <= pos < phoff + n && !LoadedInPlace(segs, bias, pos)
    ensures LongEnough(segs, file, phoff, n) && file[pos] == 1 && Image(segs, bias, file, bias + pos) == 0
  {
    var size := FileSize(segs);
    FileSizeEnough(segs);
    file := seq<Byte>(size + phoff + n, i => if i == pos then 1 else 0);
    if i :| 0 <= i < |segs| && segs[i].Fills(bias, bias + pos) {
      SegmentImage(segs, bias, file, i, pos - segs[i].vaddr);
    } else {
      ImageNone(segs, bias, file, bias + pos);
    }
  }

  function FileSize(segs: seq<Segment>): nat {
    if segs == [] then 0 else segs[0].offset + segs[0].filesz + FileSize(segs[1..])
  }

  lemma {:induction false} FileSizeEnough(segs: seq<Segment>)
    ensures forall i :: 0 <= i < |segs| ==> segs[i].offset + segs[i].filesz <= FileSize(segs)
  {
    if segs != [] {
      FileSizeEnough(segs[1..]);
      forall i | 0 <= i < |segs|
        ensures segs[i].offset + segs[i].filesz <= FileSize(segs)
      {
        assert i > 0 ==> segs[1..][i - 1] == segs[i];
      }
    }
  }

  /** A static executable of the usual layout, with the file's first page at 0x40_0000: its headers
      are loaded at 0x40_0040, and AT_PHDR says 0x40, where nothing is mapped. */
  lemma HeadersMissed()
    ensures var text := Segment(true, 0x40_0000, 0x1000, 0x1000, 0, false, true);
      && !LoadedInPlace([text], 0, 64) && !Touched([text], 0, 64 / 4096)
      && text.Fills(0, 0x40_0040)
  {
  }

  lemma NoPairs()
    ensures AuxWords([]) == [AT_NULL, 0]
  {
  }

  lemma OnePair(p: (nat, nat), rest: seq<(nat, nat)>)
    ensures AuxWords([p] + rest) == [p.0, p.1] + AuxWords(rest)
  {
    assert ([p] + rest)[1..] == rest;
  }

  lemma ThreePairs(p: (nat, nat), q: (nat, nat), r: (nat, nat), rest: seq<(nat, nat)>)
    ensures AuxWords([p, q, r] + rest) == [p.0, p.1, q.0, q.1, r.0, r.1] + AuxWords(rest)
  {
    hide AuxWords;
    assert [p, q, r] + rest == [p] + ([q] + ([r] + rest));
    OnePair(p, [q] + ([r] + rest));
    OnePair(q, [r] + rest);
    OnePair(r, rest);
  }

  lemma EncodeEmpty(aux: seq<(nat, nat)>)
    ensures Encode(Startup([], [], aux)) == [0, 0, 0] + AuxWords(aux)
  {
    hide AuxWords;
  }

  /** The bytes of a list of words. */
  function BytesOf(ws: seq<nat>): (bs: seq<Byte>)
    ensures |bs| == 8 * |ws|
  {
    if ws == [] then [] else BytesOf(ws[..|ws| - 1]) + LeBytes(ws[|ws| - 1], 8)
  }

  lemma BytesOfNone(ws: seq<nat>)
    ensures BytesOf(ws[..0]) == []
  {
  }

  lemma BytesOfNext(ws: seq<nat>, i: nat)
    requires i < |ws|
    ensures BytesOf(ws[..i + 1]) == BytesOf(ws[..i]) + LeBytes(ws[i], 8)
  {
    hide LeBytes;
    assert ws[..i + 1][..i] == ws[..i];
  }

  lemma {:induction false} BytesOfSlice(ws: seq<nat>, i: nat)
    requires i < |ws|
    ensures BytesOf(ws)[8 * i..8 * i + 8] == LeBytes(ws[i], 8)
  {
    if i < |ws| - 1 {
      BytesOfSlice(ws[..|ws| - 1], i);
      assert BytesOf(ws)[8 * i..8 * i + 8] == BytesOf(ws[..|ws| - 1])[8 * i..8 * i + 8];
    }
  }

  lemma SliceAt(s: seq<Byte>, from: nat, n: nat, j: nat)
    requires from + n <= |s| && j < n
    ensures s[from..from + n][j] == s[from + j]
  {
  }

  /** The aligned word a program reads at `va`; zero where nothing is mapped. */
  ghost function WordAt(v: map<nat, seq<Byte>>, va: nat): nat {
    if InView(v, va) && va % PAGE_SIZE + 8 <= |v[va / PAGE_SIZE]| then Word(v[va / PAGE_SIZE], va % PAGE_SIZE) else 0
  }

  /** The `n` words from `va` on. */
  ghost function WordsAt(v: map<nat, seq<Byte>>, va: nat, n: nat): (ws: seq<nat>)
    ensures |ws| == n
  {
    seq(n, i requires 0 <= i => WordAt(v, va + 8 * i))
  }

  lemma WordsAtIndex(v: map<nat, seq<Byte>>, va: nat, n: nat, i: nat)
    requires i < n
    ensures WordsAt(v, va, n)[i] == WordAt(v, va + 8 * i)
  {
  }

  /** The eight bytes of word number `q` lie on one page. */
  lemma SamePage(q: nat, i: nat)
    requires i < 8
    ensures (8 * q + i) / PAGE_SIZE == q / 512 && (8 * q + i) % PAGE_SIZE == 8 * (q % 512) + i && q % 512 <= 511
  {
    assert q == q / 512 * 512 + q % 512;
    DivIs(8 * q + i, PAGE_SIZE, q / 512);
  }

  /** The bytes from address `va` on. */
  ghost predicate BytesAre(v: map<nat, seq<Byte>>, va: nat, bs: seq<Byte>) {
    Paged(v) && forall a: nat :: va <= a < va + |bs| ==> InView(v, a) && ByteAt(v, a) == bs[a - va]
  }

  /** An aligned word is made of the eight bytes at its address. */
  lemma WordFromBytes(v: map<nat, seq<Byte>>, q: nat, bs: seq<Byte>)
    requires BytesAre(v, 8 * q, bs) && |bs| == 8
    ensures WordAt(v, 8 * q) == Le(bs)
  {
    hide Le;
    SamePage(q, 0);
    assert InView(v, 8 * q);
    var page, off := v[q / 512], 8 * (q % 512);
    forall i | 0 <= i < 8
      ensures page[off + i] == bs[i]
    {
      SamePage(q, i);
      assert ByteAt(v, 8 * q + i) == bs[i];
    }
    assert page[off..off + 8] == bs;
  }

  /** Writes a word through the page map. Nothing happens where the page is not mapped. */
  method WriteToStack(a: AddressSpace, addr: nat, value: nat)
    requires a.Valid({}) && addr % 8 == 0 && addr < USER_END && addr / PAGE_SIZE !in a.base
    modifies a.ram
    ensures unchanged(a.pmm) && a.Valid({}) && a.Keeps() && a.pmm.Free() == old(a.pmm.Free())
    ensures addr / PAGE_SIZE in a.leaves ==> Written(old(a.View()), a.View(), addr, LeBytes(value, 8))
    ensures addr / PAGE_SIZE !in a.leaves ==> a.View() == old(a.View())
  {
    hide Wired, Ledger.Balanced, AddressSpace.Places, BitmapPmm.Free, ViewOf, Written, AddressSpace.Translate;
    a.TranslateIs(addr / PAGE_SIZE);
    var frame := a.Translate(addr / PAGE_SIZE);
    if frame.Some? {
      SpaceKeys(a);
      a.CopyChunk(addr / PAGE_SIZE, frame.value, addr % PAGE_SIZE, LeBytes(value, 8));
      SpliceWritten(old(a.View()), addr / PAGE_SIZE, addr % PAGE_SIZE, LeBytes(value, 8));
    }
  }

  /** Writes the words one above the other from `sp` on. */
  method WriteVector(a: AddressSpace, sp: nat, ws: seq<nat>)
    requires a.Valid({}) && sp % 8 == 0 && sp + 8 * |ws| <= USER_END
    requires forall i :: 0 <= i < |ws| ==> a.Owned((sp + 8 * i) / PAGE_SIZE)
    modifies a.ram
    ensures unchanged(a.pmm) && a.Valid({}) && a.Keeps() && a.pmm.Free() == old(a.pmm.Free())
    ensures Written(old(a.View()), a.View(), sp, BytesOf(ws))
  {
    hide Wired, Ledger.Balanced, AddressSpace.Places, BitmapPmm.Free, ViewOf, Written, LeBytes, BytesOf;
    a.ViewPaged();
    WrittenNothing(a.View(), sp);
    BytesOfNone(ws);
    for i := 0 to |ws|
      invariant unchanged(a.pmm) && a.Valid({}) && a.Keeps() && a.pmm.Free() == old(a.pmm.Free())
      invariant Written(old(a.View()), a.View(), sp, BytesOf(ws[..i]))
    {
      ghost var v := a.View();
      assert a.Owned((sp + 8 * i) / PAGE_SIZE);
      StaysAligned(sp, i);
      WriteToStack(a, sp + 8 * i, ws[i]);
      WrittenTwice(old(a.View()), v, a.View(), sp, BytesOf(ws[..i]), LeBytes(ws[i], 8));
      BytesOfNext(ws, i);
    }
    assert ws[..|ws|] == ws;
  }

  const STACK_PAGES: set<nat> := Pages(FIRST_PAGE, NEXT_PAGE)

  predicate OnStack(p: nat) {
    FIRST_PAGE <= p < NEXT_PAGE
  }

  /** A page of the stack is taken, on its own or as part of a 2 MiB page. */
  ghost predicate StackMet(mapped: set<nat>, huge: set<nat>) {
    exists p: nat :: OnStack(p) && (p in mapped || p / 512 in huge)
  }

  /** Maps the stack pages. A page that is mapped already stops the kernel. */
  method MapStack(a: AddressSpace) returns (r: Outcome)
    requires a.Valid({})
    modifies a, a.ram
    ensures unchanged(a.pmm)
    ensures r.Done? ==> a.Valid({}) && a.Keeps() && Paged(a.View())
    ensures r.Done? ==> Extends(old(SpaceOf(a)), SpaceOf(a), FIRST_PAGE, NEXT_PAGE, POOL_FLAGS)
    ensures r.Done? ==> forall p :: FIRST_PAGE <= p < NEXT_PAGE ==> p !in old(a.leaves)
    ensures r.Panic? ==> r.reason == OutOfFrames || r.reason == MapFailed
    ensures r == Panic(OutOfFrames) ==> a.pmm.Free() == {}
    ensures r == Panic(OutOfFrames) ==>
      a.Short(old(a.DataPages()) + STACK_PAGES - a.base) || StackMet(old(a.leaves.Keys), {})
    ensures r == Panic(MapFailed) ==> StackMet(old(a.leaves.Keys), a.huge)
    ensures a.BooksKept()
  {
    hide Wired, Ledger.Balanced, AddressSpace.Places, BitmapPmm.Free, ViewOf, Extends, Pages, AddressSpace.Short;
    SpaceKeys(a);
    BaseMapped(a);
    ExtendsNone(SpaceOf(a), FIRST_PAGE, POOL_FLAGS);
    for page := FIRST_PAGE to NEXT_PAGE
      invariant unchanged(a.pmm) && a.Valid({}) && a.Grows()
      invariant Extends(old(SpaceOf(a)), SpaceOf(a), FIRST_PAGE, page, POOL_FLAGS)
      invariant forall p :: FIRST_PAGE <= p < page ==> p !in old(a.leaves)
    {
      ghost var s := SpaceOf(a);
      assert OnStack(page);
      ExtendsKnows(old(SpaceOf(a)), s, FIRST_PAGE, page, POOL_FLAGS);
      var m := a.MapZeroed(page, POOL_FLAGS);
      if m == NoFrame {
        if page !in old(a.leaves) {
          ExtendsPages(old(SpaceOf(a)), s, FIRST_PAGE, page, NEXT_PAGE, POOL_FLAGS, a.base);
          a.ShortGrows(s.leaves.Keys - a.base + {page}, old(a.DataPages()) + STACK_PAGES - a.base);
        }
        return Panic(OutOfFrames);
      } else if m != Mapped {
        return Panic(MapFailed);
      }
      ExtendsOne(old(SpaceOf(a)), s, FIRST_PAGE, page, POOL_FLAGS, a.leaves[page].frame);
    }
    a.GrowsKeeps();
    a.ViewPaged();
    return Done;
  }

  lemma ExtendsKnows(s: Space, t: Space, first: nat, page: nat, flags: Flags)
    requires Extends(s, t, first, page, flags)
    ensures page in t.leaves <==> page in s.leaves
  {
  }

  /** The finished stack in `v`, grown out of `v0`: the reader finds the kernel's block at `sp`,
      the sixteen bytes behind AT_RANDOM and the rest of the stack are zero, and pages that
      were there before keep their bytes. */
  ghost predicate StackBuilt(v0: map<nat, seq<Byte>>, v: map<nat, seq<Byte>>, elf: Elf, sp: nat) {
    && Paged(v0) && Paged(v)
    && (forall va: nat :: InView(v0, va) ==> InView(v, va) && ByteAt(v, va) == ByteAt(v0, va))
    && Read(WordsAt(v, sp, 32)) == Some(KernelStartup(elf, sp))
    && (forall va: nat :: sp + 240 <= va < sp + 256 ==> InView(v, va) && ByteAt(v, va) == 0)
    && (forall va: nat :: STACK_TOP - STACK_SIZE <= va < sp ==> InView(v, va) && ByteAt(v, va) == 0)
  }

  /** `v` has the bytes `bs` at `start`, and zeros elsewhere on the stack. */
  ghost predicate StackHolds(v: map<nat, seq<Byte>>, start: nat, bs: seq<Byte>) {
    && Paged(v)
    && forall va: nat :: STACK_TOP - STACK_SIZE <= va < STACK_TOP ==>
         InView(v, va) && ByteAt(v, va) == if start <= va < start + |bs| then bs[va - start] else 0
  }

  lemma StackBytes(s: Space, t: Space, v: map<nat, seq<Byte>>, sp: nat, bs: seq<Byte>)
    requires forall p :: FIRST_PAGE <= p < NEXT_PAGE ==> p !in s.leaves
    ensures Extends(s, t, FIRST_PAGE, NEXT_PAGE, POOL_FLAGS) && Written(t.view, v, sp, bs) ==> StackHolds(v, sp, bs)
  {
    if Extends(s, t, FIRST_PAGE, NEXT_PAGE, POOL_FLAGS) && Written(t.view, v, sp, bs) {
      forall va: nat | STACK_TOP - STACK_SIZE <= va < STACK_TOP
        ensures InView(v, va) && ByteAt(v, va) == if sp <= va < sp + |bs| then bs[va - sp] else 0
      {
        var p := va / PAGE_SIZE;
        assert FIRST_PAGE <= p < NEXT_PAGE && p in t.leaves && t.view[p] == ZeroPage();
        assert InView(t.view, va) && ByteAt(t.view, va) == 0;
      }
    }
  }

  lemma HoldsAt(v: map<nat, seq<Byte>>, start: nat, bs: seq<Byte>, va: nat)
    requires StackHolds(v, start, bs) && STACK_TOP - STACK_SIZE <= va < STACK_TOP
    ensures Paged(v) && InView(v, va) && ByteAt(v, va) == if start <= va < start + |bs| then bs[va - start] else 0
  {
  }

  /** Eight bytes of the block, or zeros above it. */
  lemma StackSlice(v: map<nat, seq<Byte>>, sp: nat, block: seq<Byte>, k: nat, bs: seq<Byte>)
    requires StackHolds(v, sp, block) && |bs| == 8
    requires STACK_TOP - STACK_SIZE <= sp && sp + k + 8 <= STACK_TOP
    requires if k < |block| then k + 8 <= |block| && block[k..k + 8] == bs else forall j :: 0 <= j < 8 ==> bs[j] == 0
    ensures BytesAre(v, sp + k, bs)
  {
    forall a: nat | sp + k <= a < sp + k + 8
      ensures InView(v, a) && Paged(v) && ByteAt(v, a) == bs[a - (sp + k)]
    {
      hide ByteAt, InView, StackHolds;
      HoldsAt(v, sp, block, a);
      if k < |block| {
        SliceAt(block, k, 8, a - (sp + k));
        assert a - sp == k + (a - (sp + k));
      }
    }
  }

  lemma SliceWord(v: map<nat, seq<Byte>>, sp: nat, block: seq<Byte>, k: nat, bs: seq<Byte>, q: nat)
    requires StackHolds(v, sp, block) && |bs| == 8 && sp + k == 8 * q
    requires STACK_TOP - STACK_SIZE <= sp && sp + k + 8 <= STACK_TOP
    requires if k < |block| then k + 8 <= |block| && block[k..k + 8] == bs else forall j :: 0 <= j < 8 ==> bs[j] == 0
    ensures WordAt(v, 8 * q) == Le(bs)
  {
    hide *;
    StackSlice(v, sp, block, k, bs);
    WordFromBytes(v, q, bs);
  }

  lemma BlockWord(ws: seq<nat>, i: nat) returns (bs: seq<Byte>)
    requires i < |ws| && ws[i] <= MAX64
    ensures |bs| == 8 && |BytesOf(ws)| == 8 * |ws| && BytesOf(ws)[8 * i..8 * i + 8] == bs && Le(bs) == ws[i]
  {
    hide LeBytes, Le, BytesOf;
    bs := LeBytes(ws[i], 8);
    LeRoundTrip64(ws[i]);
    BytesOfSlice(ws, i);
  }

  /** Word `i` of the block. */
  lemma StackWord(v: map<nat, seq<Byte>>, q: nat, ws: seq<nat>, i: nat)
    requires StackHolds(v, 8 * q, BytesOf(ws)) && i < |ws| && ws[i] <= MAX64
    requires STACK_TOP - STACK_SIZE <= 8 * q && 8 * (q + i) + 8 <= STACK_TOP
    ensures WordAt(v, 8 * (q + i)) == ws[i]
  {
    hide *;
    var bs := BlockWord(ws, i);
    var k, block := 8 * i, BytesOf(ws);
    assert k + 8 <= |block| && block[k..k + 8] == bs;
    SliceWord(v, 8 * q, block, k, bs, q + i);
  }

  /** Above the block there are zeros. */
  lemma StackZero(v: map<nat, seq<Byte>>, q: nat, ws: seq<nat>, i: nat)
    requires StackHolds(v, 8 * q, BytesOf(ws)) && |ws| <= i
    requires STACK_TOP - STACK_SIZE <= 8 * q && 8 * (q + i) + 8 <= STACK_TOP
    ensures WordAt(v, 8 * (q + i)) == 0
  {
    hide *;
    var bs: seq<Byte> := seq(8, j => 0);
    LeZero(bs);
    SliceWord(v, 8 * q, BytesOf(ws), 8 * i, bs, q + i);
  }

  lemma StackWordAt(v: map<nat, seq<Byte>>, sp: nat, ws: seq<nat>, i: nat)
    requires StackHolds(v, sp, BytesOf(ws)) && sp == STACK_TOP - 256 && i < 32
    requires forall j :: 0 <= j < |ws| ==> ws[j] <= MAX64
    ensures WordAt(v, sp + 8 * i) == if i < |ws| then ws[i] else 0
  {
    hide BytesOf, StackHolds, WordAt;
    var q := STACK_TOP / 8 - 32;
    assert sp == 8 * q && sp + 8 * i == 8 * (q + i);
    if i < |ws| {
      StackWord(v, q, ws, i);
    } else {
      StackZero(v, q, ws, i);
    }
  }

  /** The 32 words from `sp` up to the top of the stack: the block and zeros. */
  lemma StackWordsAt(v: map<nat, seq<Byte>>, sp: nat, ws: seq<nat>)
    requires StackHolds(v, sp, BytesOf(ws)) && sp == STACK_TOP - 256 && |ws| <= 32
    requires forall j :: 0 <= j < |ws| ==> ws[j] <= MAX64
    ensures WordsAt(v, sp, 32) == ws + seq(32 - |ws|, i => 0)
  {
    hide BytesOf, StackHolds, WordAt, WordsAt;
    var found, words := WordsAt(v, sp, 32), ws + seq(32 - |ws|, i => 0);
    forall i | 0 <= i < 32
      ensures found[i] == words[i]
    {
      StackWordAt(v, sp, ws, i);
      WordsAtIndex(v, sp, 32, i);
    }
  }

  lemma StackWordsFit(elf: Elf, sp: nat)
    requires sp <= STACK_TOP && elf.phent <= MAX64 && elf.phnum <= MAX64
    ensures var ws := StackWords(elf, sp); |ws| == 19 && forall j :: 0 <= j < |ws| ==> ws[j] <= MAX64
  {
  }

  lemma StackReads(v: map<nat, seq<Byte>>, elf: Elf, sp: nat)
    requires StackHolds(v, sp, BytesOf(StackWords(elf, sp))) && sp == STACK_TOP - 256
    requires elf.phent <= MAX64 && elf.phnum <= MAX64
    ensures Read(WordsAt(v, sp, 32)) == Some(KernelStartup(elf, sp))
  {
    StackWordsFit(elf, sp);
    hide StackWords, BytesOf, StackHolds, WordsAt, Read, Encode;
    StackWordsAt(v, sp, StackWords(elf, sp));
    StackWordsEncode(elf, sp);
    ReadEncoded(KernelStartup(elf, sp), seq(13, i => 0));
  }

  /** The finished stack, from the fresh pages and the words written on them. */
  lemma StackFinished(s: Space, t: Space, v: map<nat, seq<Byte>>, elf: Elf, sp: nat)
    requires forall p :: FIRST_PAGE <= p < NEXT_PAGE ==> p !in s.leaves
    requires sp == STACK_TOP - 256 && elf.phent <= MAX64 && elf.phnum <= MAX64 && Paged(s.view)
    ensures Extends(s, t, FIRST_PAGE, NEXT_PAGE, POOL_FLAGS) && Written(t.view, v, sp, BytesOf(StackWords(elf, sp))) ==>
      StackBuilt(s.view, v, elf, sp)
  {
    hide BytesOf, WordsAt, Read, KernelStartup, StackWords;
    var bs := BytesOf(StackWords(elf, sp));
    if Extends(s, t, FIRST_PAGE, NEXT_PAGE, POOL_FLAGS) && Written(t.view, v, sp, bs) {
      StackBytes(s, t, v, sp, bs);
      StackReads(v, elf, sp);
      StackBlockSize(elf, sp);
      forall va: nat | InView(s.view, va)
        ensures InView(v, va) && ByteAt(v, va) == ByteAt(s.view, va)
      {
        assert InView(t.view, va) && ByteAt(t.view, va) == ByteAt(s.view, va);
        assert va / PAGE_SIZE in s.leaves;
      }
    }
  }

  /** The block ends below the sixteen bytes of AT_RANDOM. */
  lemma StackBlockSize(elf: Elf, sp: nat)
    ensures |BytesOf(StackWords(elf, sp))| == 152
  {
    hide BytesOf;
    assert |StackWords(elf, sp)| == 19;
  }

  /** The block that a reader finds at `sp` is right tag by tag, and AT_RANDOM points at zeros. */
  ghost predicate BlockTells(v: map<nat, seq<Byte>>, elf: Elf, sp: nat) {
    && Paged(v) && Read(WordsAt(v, sp, 32)).Some?
    && var st := Read(WordsAt(v, sp, 32)).value;
       && Tells(st, elf, sp)
       && forall va: nat :: AuxValue(st.auxv, 25).value <= va < AuxValue(st.auxv, 25).value + 16 ==>
            InView(v, va) && ByteAt(v, va) == 0
  }

  lemma BuiltTells(v0: map<nat, seq<Byte>>, v: map<nat, seq<Byte>>, elf: Elf, sp: nat)
    requires StackBuilt(v0, v, elf, sp)
    ensures BlockTells(v, elf, sp)
  {
    hide Read, WordsAt, KernelStartup;
    KernelStartupTells(elf, sp);
  }

  /** Builds the user stack and returns the initial stack pointer. */
  method SetupUserStack(a: AddressSpace, elf: Elf) returns (r: Outcome, sp: nat)
    requires a.Valid({}) && elf.phent <= MAX64 && elf.phnum <= MAX64
    modifies a, a.ram
    ensures unchanged(a.pmm) && sp == 0x7FFF_FFFE_FF00 && sp % 16 == 0
    ensures r.Done? ==> a.Valid({}) && a.Keeps()
    ensures r.Done? ==> StackBuilt(old(a.View()), a.View(), elf, sp) && BlockTells(a.View(), elf, sp)
    ensures r.Done? ==> StackMapped(old(a.leaves), a.leaves)
    ensures r.Panic? ==> r.reason == OutOfFrames || r.reason == MapFailed
    ensures r == Panic(OutOfFrames) ==> a.pmm.Free() == {}
    ensures r == Panic(OutOfFrames) ==>
      a.Short(old(a.DataPages()) + STACK_PAGES - a.base) || StackMet(old(a.leaves.Keys), {})
    ensures r == Panic(MapFailed) ==> StackMet(old(a.leaves.Keys), a.huge)
    ensures a.BooksKept()
  {
    hide Wired, Ledger.Balanced, AddressSpace.Places, BitmapPmm.Free, ViewOf, Extends, StackBuilt, StackMapped,
         StackMet, BlockTells, AddressSpace.Short, Pages;
    sp := STACK_TOP - 256;
    sp := sp - sp % 16;
    a.ViewPaged();
    BaseMapped(a);
    ghost var s := SpaceOf(a);
    r := MapStack(a);
    if r.Panic? {
      return;
    }
    StackPagesMapped(s, SpaceOf(a));
    FillStack(a, elf, sp, s);
    BuiltTells(s.view, a.View(), elf, sp);
  }

  lemma StackPagesMapped(s: Space, t: Space)
    requires forall p :: FIRST_PAGE <= p < NEXT_PAGE ==> p !in s.leaves
    ensures Extends(s, t, FIRST_PAGE, NEXT_PAGE, POOL_FLAGS) ==> StackMapped(s.leaves, t.leaves)
  {
  }

  /** Sixteen new user pages, writable and not executable; the others as they were. */
  ghost predicate StackMapped(l: map<nat, Leaf>, l': map<nat, Leaf>) {
    && (forall p :: p in l' <==> (p in l || FIRST_PAGE <= p < NEXT_PAGE))
    && (forall p :: p in l ==> l'[p] == l[p])
    && (forall p :: FIRST_PAGE <= p < NEXT_PAGE ==> p !in l && l'[p].flags == POOL_FLAGS)
  }

  method FillStack(a: AddressSpace, elf: Elf, sp: nat, ghost s: Space)
    requires a.Valid({}) && elf.phent <= MAX64 && elf.phnum <= MAX64 && sp == STACK_TOP - 256 && Paged(s.view)
    requires forall p :: FIRST_PAGE <= p < NEXT_PAGE ==> p !in s.leaves
    requires a.base <= s.leaves.Keys
    requires Extends(s, SpaceOf(a), FIRST_PAGE, NEXT_PAGE, POOL_FLAGS)
    modifies a.ram
    ensures unchanged(a.pmm) && a.Valid({}) && a.Keeps()
    ensures StackBuilt(s.view, a.View(), elf, sp)
  {
    hide Wired, Ledger.Balanced, AddressSpace.Places, BitmapPmm.Free, ViewOf, BytesOf, Written, StackBuilt,
         StackWords;
    ghost var t := SpaceOf(a);
    var ws := StackWords(elf, sp);
    forall i | 0 <= i < |ws|
      ensures a.Owned((sp + 8 * i) / PAGE_SIZE)
    {
      assert (sp + 8 * i) / PAGE_SIZE == NEXT_PAGE - 1;
    }
    ghost var v := a.View();
    WriteVector(a, sp, ws);
    StackFinished(s, Space(t.leaves, v), a.View(), elf, sp);
    ghost var built := StackBuilt(s.view, a.View(), elf, sp);
    assert built;
  }
}
