/** The kernel's page map over physical memory: tables whose frames come from the physical memory
    manager, the step that maps one more 4 KiB page, and the ledger of the frames handed out. */
module Paging {
  import opened Arith
  import opened Bits
  import opened Pmm
  import opened PageTables

  /** What a frame taken from the memory manager is used for. */
  datatype Owner = Data(page: nat) | Table(node: Node)

  datatype MapResult = Mapped | NoFrame | AlreadyMapped | ParentHuge

  /** Byte `off` of frame `f`. */
  ghost function FrameByte(ram: array<Byte>, f: nat, off: nat): Byte
    requires f * PAGE_SIZE + off < ram.Length
    reads ram
  {
    ram[f * PAGE_SIZE + off]
  }

  /** An injective image is as large as its source. */
  lemma {:induction false} InjectiveImage<T(!new)>(s: set<T>, f: T --> nat, image: set<nat>)
    requires forall x :: x in s ==> f.requires(x)
    requires forall x, y :: x in s && y in s && f(x) == f(y) ==> x == y
    requires image == set x | x in s :: f(x)
    ensures |image| == |s|
  {
    if s != {} {
      var x :| x in s;
      InjectiveImage(s - {x}, f, image - {f(x)});
    }
  }

  /** The tables on the ways to some pages. */
  ghost function PathsOf(pages: set<nat>): set<Node> {
    set p, level | p in pages && 1 <= level <= 3 :: TableOf(p, level)
  }

  /** The frames that it takes to map `pages` where the tables in `there` exist: one for every page
      and one for every other table on the ways to them. */
  ghost function Cost(pages: set<nat>, there: set<Node>): nat {
    |pages| + |PathsOf(pages) - there|
  }

  lemma CostGrows(pages: set<nat>, more: set<nat>, there: set<Node>)
    requires pages <= more
    ensures Cost(pages, there) <= Cost(more, there)
  {
    SubsetSize(pages, more);
    SubsetSize(PathsOf(pages) - there, PathsOf(more) - there);
  }

  /** Who holds the frames that the manager has handed out. `transit` are the frames taken
      but not mapped yet, `base` the pages that were mapped before. */
  datatype Ledger = Ledger(free: set<nat>, transit: set<nat>, supply: set<nat>, base: set<nat>,
                           owner: map<nat, Owner>, tables: map<Node, nat>, leaves: map<nat, Leaf>) {
    ghost predicate Owned(page: nat) {
      page in leaves && page !in base
    }

    ghost predicate Holds(f: nat, o: Owner) {
      match o
      case Data(p) => Owned(p) && leaves[p].frame == f
      case Table(n) => n in tables && tables[n] == f
    }

    /** Every frame handed out is one data page or one table, and the other way round. */
    ghost predicate Balanced() {
      && supply == free + owner.Keys + transit
      && free !! owner.Keys && free !! transit && owner.Keys !! transit
      && base <= leaves.Keys
      && (forall p :: Owned(p) ==> leaves[p].frame in owner && owner[leaves[p].frame] == Data(p))
      && (forall n :: n in tables && tables[n] in supply ==> tables[n] in owner && owner[tables[n]] == Table(n))
      && (forall f :: f in owner ==> Holds(f, owner[f]))
    }

    /** The pages and the tables that frames were handed out for. */
    ghost function DataPages(): set<nat> {
      set p | p in leaves && p !in base
    }

    ghost function NewTables(): set<Node> {
      set n | n in tables && tables[n] in supply
    }

    ghost function DataFrames(): set<nat> {
      set p | p in DataPages() :: leaves[p].frame
    }

    ghost function TableFrames(): set<nat> {
      set n | n in NewTables() :: tables[n]
    }

    lemma OwnersSplit()
      requires Balanced()
      ensures owner.Keys == DataFrames() + TableFrames() && DataFrames() !! TableFrames()
    {
      forall p | p in DataPages()
        ensures Owned(p)
      {
      }
      forall f | f in owner
        ensures f in DataFrames() + TableFrames()
      {
        assert Holds(f, owner[f]);
        match owner[f]
        case Data(p) => assert p in DataPages();
        case Table(n) => assert n in NewTables();
      }
    }

    lemma FrameCounts()
      requires Balanced()
      ensures |DataFrames()| == |DataPages()| && |TableFrames()| == |NewTables()|
    {
      forall p | p in DataPages()
        ensures Owned(p)
      {
      }
      InjectiveImage(DataPages(), p requires p in leaves => leaves[p].frame, DataFrames());
      InjectiveImage(NewTables(), n requires n in tables => tables[n], TableFrames());
    }

    /** Conservation: no frame is lost and none serves twice. The supply is what is still free,
        one frame per new page, one per new table, and what is in transit. */
    lemma Conservation()
      requires Balanced()
      ensures |supply| == |free| + |DataPages()| + |NewTables()| + |transit|
    {
      hide DataFrames, TableFrames, DataPages, NewTables, Holds, Owned;
      OwnersSplit();
      FrameCounts();
      assert |owner.Keys| == |DataFrames()| + |TableFrames()|;
      assert |supply| == |free + owner.Keys| + |transit|;
    }

    /** If a frame is missing, the supply was too small for the pages mapped and one more. */
    lemma Starved(old_: set<Node>, page: nat, missing: set<Node>)
      requires Balanced() && free == {} && page !in DataPages() && missing !! NewTables() && |transit| <= |missing|
      requires NewTables() + missing <= PathsOf(DataPages() + {page}) - old_
      ensures |supply| < Cost(DataPages() + {page}, old_)
    {
      hide PathsOf, Ledger.Balanced;
      Conservation();
      SubsetSize(NewTables() + missing, PathsOf(DataPages() + {page}) - old_);
      assert |NewTables() + missing| == |NewTables()| + |missing|;
      assert |DataPages() + {page}| == |DataPages()| + 1;
    }

    lemma TakesFrame(f: nat)
      requires Balanced() && f in free
      ensures f !in transit && this.(free := free - {f}, transit := transit + {f}).Balanced()
    {
    }

    /** The books are closed and opened again. */
    lemma Rebased()
      requires Balanced() && transit == {}
      ensures free <= supply && this.(supply := free, base := leaves.Keys, owner := map[]).Balanced()
    {
    }

    lemma GainsTable(n: Node, f: nat)
      requires Balanced() && f in transit && n !in tables
      ensures this.(transit := transit - {f}, tables := tables[n := f], owner := owner[f := Table(n)]).Balanced()
    {
      var l := this.(transit := transit - {f}, tables := tables[n := f], owner := owner[f := Table(n)]);
      assert l.supply == l.free + l.owner.Keys + l.transit;
      forall g | g in l.owner
        ensures l.Holds(g, l.owner[g])
      {
        if g != f {
          assert Holds(g, owner[g]);
        }
      }
    }

    lemma GainsLeaf(page: nat, f: nat, flags: Flags)
      requires Balanced() && f in transit && page !in leaves
      ensures this.(transit := transit - {f}, leaves := leaves[page := Leaf(f, flags)],
                    owner := owner[f := Data(page)]).Balanced()
    {
      var l := this.(transit := transit - {f}, leaves := leaves[page := Leaf(f, flags)],
                    owner := owner[f := Data(page)]);
      assert l.supply == l.free + l.owner.Keys + l.transit;
      forall g | g in l.owner
        ensures l.Holds(g, l.owner[g])
      {
        if g != f {
          assert Holds(g, owner[g]);
        }
      }
    }
  }

  function ZeroPage(): (z: seq<Byte>)
    ensures |z| == PAGE_SIZE && forall i :: 0 <= i < PAGE_SIZE ==> z[i] == 0
  {
    seq(PAGE_SIZE, i => 0)
  }

  /** The bytes of every page in `leaves` outside `base`. */
  ghost function ViewOf(m: seq<Byte>, leaves: map<nat, Leaf>, base: set<nat>): map<nat, seq<Byte>> {
    map p | p in leaves && p !in base :: PageOf(m, leaves[p].frame)
  }

  lemma ViewGains(m: seq<Byte>, m': seq<Byte>, leaves: map<nat, Leaf>, base: set<nat>, page: nat, leaf: Leaf)
    requires page !in leaves && page !in base
    requires forall p :: p in leaves && p !in base ==> PageOf(m', leaves[p].frame) == PageOf(m, leaves[p].frame)
    ensures ViewOf(m', leaves[page := leaf], base) == ViewOf(m, leaves, base)[page := PageOf(m', leaf.frame)]
  {
  }

  ghost predicate Paged(v: map<nat, seq<Byte>>) {
    forall p :: p in v ==> |v[p]| == PAGE_SIZE
  }

  /** `page` with `bs` written over it from offset `off` on. */
  function Splice(page: seq<Byte>, off: nat, bs: seq<Byte>): seq<Byte>
    requires off + |bs| <= |page|
  {
    page[..off] + bs + page[off + |bs|..]
  }

  lemma PageSpliced(m: seq<Byte>, m': seq<Byte>, f: nat, off: nat, bs: seq<Byte>)
    requires |m| == |m'| && off + |bs| <= PAGE_SIZE && (f + 1) * PAGE_SIZE <= |m|
    requires forall j :: 0 <= j < |m| ==>
      m'[j] == if f * PAGE_SIZE + off <= j < f * PAGE_SIZE + off + |bs| then bs[j - (f * PAGE_SIZE + off)] else m[j]
    ensures PageOf(m', f) == Splice(PageOf(m, f), off, bs)
  {
  }

  lemma PageElsewhere(m: seq<Byte>, m': seq<Byte>, f: nat, g: nat)
    requires |m| == |m'| && g != f
    requires forall j :: 0 <= j < |m| && !(f * PAGE_SIZE <= j < (f + 1) * PAGE_SIZE) ==> m'[j] == m[j]
    ensures PageOf(m', g) == PageOf(m, g)
  {
    if (g + 1) * PAGE_SIZE <= |m| {
      assert forall j :: g * PAGE_SIZE <= j < (g + 1) * PAGE_SIZE ==> m'[j] == m[j];
    }
  }

  /** A write inside frame `f` changes that frame only. */
  lemma FrameWritten(m: seq<Byte>, m': seq<Byte>, f: nat, off: nat, bs: seq<Byte>)
    requires |m| == |m'| && off + |bs| <= PAGE_SIZE && (f + 1) * PAGE_SIZE <= |m|
    requires forall j :: 0 <= j < |m| ==>
      m'[j] == if f * PAGE_SIZE + off <= j < f * PAGE_SIZE + off + |bs| then bs[j - (f * PAGE_SIZE + off)] else m[j]
    ensures PageOf(m', f) == Splice(PageOf(m, f), off, bs)
    ensures forall g: nat :: g != f ==> PageOf(m', g) == PageOf(m, g)
  {
    PageSpliced(m, m', f, off, bs);
    forall g: nat | g != f
      ensures PageOf(m', g) == PageOf(m, g)
    {
      PageElsewhere(m, m', f, g);
    }
  }

  /** Writing part of one frame writes part of the one page that owns it. */
  lemma ViewSpliced(m: seq<Byte>, m': seq<Byte>, leaves: map<nat, Leaf>, base: set<nat>, page: nat, off: nat,
                    bs: seq<Byte>)
    requires page in leaves && page !in base && off + |bs| <= |PageOf(m, leaves[page].frame)|
    requires PageOf(m', leaves[page].frame) == Splice(PageOf(m, leaves[page].frame), off, bs)
    requires forall p :: p in leaves && p !in base && p != page ==>
      PageOf(m', leaves[p].frame) == PageOf(m, leaves[p].frame)
    ensures ViewOf(m', leaves, base) == ViewOf(m, leaves, base)[page := Splice(ViewOf(m, leaves, base)[page], off, bs)]
  {
  }

  /** A step of the descent: the frame of the next table, or why there is none. */
  datatype Next = Down(frame: nat) | Failed(why: MapResult)

  class AddressSpace {
    const ram: array<Byte>
    const pmm: BitmapPmm
    const root: nat                     // frame of the level-4 table
    ghost const huge: set<nat>          // 2 MiB pages
    ghost var tables: map<Node, nat>    // the frame of every table
    ghost var leaves: map<nat, Leaf>    // 4 KiB pages
    ghost var base: set<nat>            // pages that were mapped before this object was made
    ghost var baseTables: set<Node>     // tables that were there then
    ghost var supply: set<nat>          // frames that were free then
    ghost var owner: map<nat, Owner>

    /** Takes over the tables that are active: nothing has been taken from the manager yet. */
    constructor (pmm: BitmapPmm, root: nat, ghost tables: map<Node, nat>, ghost leaves: map<nat, Leaf>,
                 ghost huge: set<nat>)
      requires pmm.Valid() && pmm.totalFrames <= MAX_FRAMES && StartsApart(pmm, tables)
      requires Wired(pmm.ram[..], root, tables, leaves, huge)
      ensures this.pmm == pmm && this.ram == pmm.ram && this.root == root
      ensures this.tables == tables && this.leaves == leaves && this.huge == huge
      ensures base == leaves.Keys && baseTables == tables.Keys && supply == pmm.Free() && owner == map[]
      ensures Valid({})
    {
      hide Wired;
      this.ram, this.pmm, this.root := pmm.ram, pmm, root;
      this.tables, this.leaves, this.huge := tables, leaves, huge;
      this.base, this.baseTables, this.supply, this.owner := leaves.Keys, tables.Keys, pmm.Free(), map[];
    }

    ghost predicate Owned(page: nat)
      reads this
    {
      page in leaves && page !in base
    }

    ghost predicate IsTable(f: nat)
      reads this
    {
      f in tables.Values
    }

    ghost function Books(transit: set<nat>): Ledger
      reads this, pmm, ram
      requires pmm.ram == ram && pmm.Shaped()
    {
      Ledger(pmm.Free(), transit, supply, base, owner, tables, leaves)
    }

    /** The books are in order; the entries in the tables are not looked at. */
    ghost predicate Core(transit: set<nat>)
      reads this, pmm, ram
    {
      pmm.ram == ram && pmm.Valid() && Places() && Books(transit).Balanced()
    }

    /** The pages that frames were handed out for. */
    ghost function DataPages(): set<nat>
      reads this
    {
      leaves.Keys - base
    }

    /** The supply does not cover the pages in `pages`. */
    ghost predicate Short(pages: set<nat>)
      reads this
    {
      |supply| < Cost(pages, baseTables)
    }

    lemma ShortGrows(pages: set<nat>, more: set<nat>)
      requires Short(pages) && pages <= more
      ensures Short(more)
    {
      hide Cost;
      CostGrows(pages, more, baseTables);
    }

    /** No table was made in vain: each new one is on the way to a page of `pages`. */
    ghost predicate Leads(pages: set<nat>)
      reads this
    {
      forall n :: n in tables ==> n in baseTables || n in PathsOf(pages)
    }

    /** `transit` holds the frames taken but not mapped yet. */
    ghost predicate Valid(transit: set<nat>)
      reads this, pmm, ram
    {
      Core(transit) && Wired(ram[..], root, tables, leaves, huge) && (transit == {} ==> Leads(DataPages()))
    }

    /** The bytes of the tables are those of `m`. */
    ghost predicate TablesAsIn(m: seq<Byte>)
      reads this, pmm, ram
    {
      && |m| == ram.Length && pmm.totalFrames * PAGE_SIZE <= |m|
      && forall f: nat, off :: IsTable(f) && f < pmm.totalFrames && 0 <= off < PAGE_SIZE ==>
           FrameByte(ram, f, off) == m[f * PAGE_SIZE + off]
    }

    /** No table lost or gained a byte, so its entries are as they were. */
    lemma StillSame(m: seq<Byte>, transit: set<nat>)
      requires Core(transit) && TablesAsIn(m)
      ensures SameEntries(m, ram[..], tables)
    {
      hide Ledger.Balanced, SameEntries;
      forall f: nat | f in tables.Values
        ensures (f + 1) * PAGE_SIZE <= |m| && PageOf(m, f) == PageOf(ram[..], f)
      {
        assert IsTable(f) && Apart(f);
        forall off | 0 <= off < PAGE_SIZE
          ensures PageOf(m, f)[off] == PageOf(ram[..], f)[off]
        {
          assert FrameByte(ram, f, off) == m[f * PAGE_SIZE + off];
        }
      }
      EntriesSame(m, ram[..], tables);
    }

    lemma StillWired(m: seq<Byte>, transit: set<nat>)
      requires Core(transit) && TablesAsIn(m) && Wired(m, root, tables, leaves, huge)
      ensures Wired(ram[..], root, tables, leaves, huge)
    {
      hide *;
      StillSame(m, transit);
      WiredSame(m, ram[..], root, tables, leaves, huge);
    }

    /** A frame in transit is not a table. */
    lemma TransitApart(f: nat, transit: set<nat>)
      requires Core(transit) && f in transit
      ensures !IsTable(f) && Apart(f) && 0 < f
    {
    }

    /** Frames on supply and tables lie in memory, apart from the bitmap. */
    ghost predicate Places()
      reads this, pmm
    {
      && pmm.totalFrames <= MAX_FRAMES
      && (forall f :: f in supply ==> 0 < f && Apart(f))
      && (forall n :: n in tables ==> Apart(tables[n]) && (n in baseTables <==> tables[n] !in supply))
      && baseTables <= tables.Keys
    }

    ghost predicate Apart(f: nat)
      reads this, pmm
    {
      f < pmm.totalFrames && !pmm.IsBitmapFrame(f)
    }

    /** The frames that mapping may write to: free ones, tables and the bitmap. */
    ghost function Open(): set<nat>
      reads this, pmm, ram
      requires pmm.ram == ram && pmm.Shaped()
    {
      set f | 0 <= f < pmm.totalFrames && (f in pmm.Free() || IsTable(f) || pmm.IsBitmapFrame(f))
    }

    twostate predicate Untouched(new frames: set<nat>)
      reads this, pmm, ram
      requires pmm.ram == ram && pmm.Shaped()
    {
      forall f, off :: 0 <= f < pmm.totalFrames && 0 <= off < PAGE_SIZE && f !in frames ==>
        FrameByte(ram, f, off) == old(FrameByte(ram, f, off))
    }

    twostate predicate BooksKept()
      reads this
    {
      base == old(base) && baseTables == old(baseTables) && supply == old(supply)
    }

    twostate predicate TablesStay()
      reads this
    {
      forall n :: n in old(tables) ==> n in tables && tables[n] == old(tables)[n]
    }

    /** What every step keeps, on success and on failure. */
    twostate predicate Grows()
      reads this, pmm, ram
      requires pmm.ram == ram && old(pmm.Shaped()) && unchanged(pmm)
    {
      && BooksKept() && TablesStay()
      && pmm.Free() <= old(pmm.Free()) && Open() <= old(Open())
      && Untouched(old(Open()))
    }

    /** `allocate_frame` of the kernel allocator. */
    method TakeFrame(ghost transit: set<nat>) returns (r: Option<nat>)
      requires Valid(transit)
      modifies ram
      ensures unchanged(pmm) && Grows()
      ensures r.None? ==> Valid(transit) && pmm.Free() == {}
      ensures r.Some? ==> Valid(transit + {r.value}) && r.value !in transit && r.value in old(pmm.Free())
      ensures StillGranted()
    {
      hide Wired, Ledger.Balanced, BitmapPmm.Free;
      r := PickFrame(transit);
      ghost var transit' := if r.Some? then transit + {r.value} else transit;
      assert TablesAsIn(old(ram[..]));
      StillSame(old(ram[..]), transit');
      StillWired(old(ram[..]), transit');
    }

    /** The same for the books alone. Nothing but the bitmap is written. */
    method PickFrame(ghost transit: set<nat>) returns (r: Option<nat>)
      requires Core(transit)
      modifies ram
      ensures unchanged(pmm) && Core(if r.Some? then transit + {r.value} else transit)
      ensures r.None? ==> pmm.Free() == {}
      ensures r.Some? ==> r.value !in transit && r.value in old(pmm.Free())
      ensures pmm.Free() <= old(pmm.Free())
      ensures forall f, off :: 0 <= f < pmm.totalFrames && 0 <= off < PAGE_SIZE && !pmm.IsBitmapFrame(f) ==>
        FrameByte(ram, f, off) == old(FrameByte(ram, f, off))
    {
      hide Ledger.Balanced, BitmapPmm.Free, BitmapPmm.IsUsed;
      ghost var books := Books(transit);
      var a := pmm.AllocateFrame();
      r := if a.Some? then Some(a.value / PAGE_SIZE) else None;
      if r.Some? {
        books.TakesFrame(r.value);
      }
    }

    /** `write_bytes(frame, 0, 4096)`. */
    method ZeroFrame(f: nat, ghost transit: set<nat>)
      requires Core(transit) && Apart(f)
      modifies ram
      ensures unchanged(pmm) && Core(transit) && pmm.Free() == old(pmm.Free())
      ensures forall g, off :: 0 <= g < pmm.totalFrames && 0 <= off < PAGE_SIZE ==>
        FrameByte(ram, g, off) == if g == f then 0 else old(FrameByte(ram, g, off))
    {
      hide Ledger.Balanced;
      FillBytes(ram, f * PAGE_SIZE, PAGE_SIZE, 0);
      pmm.Stable();
    }

    /** `c` is a node whose entry is number `i` of the table in frame `table`. */
    ghost predicate At(c: Node, table: nat, i: nat)
      reads this
    {
      ParentOf(c) in tables && tables[ParentOf(c)] == table && i == c.prefix % 512
    }

    /** Writes the entry of `c`. */
    method WriteEntry(ghost c: Node, table: nat, i: nat, w: nat, ghost transit: set<nat>)
      requires Core(transit) && Tree(root, tables, leaves, huge) && At(c, table, i) && w <= MAX64
      modifies ram
      ensures unchanged(pmm) && Core(transit) && pmm.Free() == old(pmm.Free())
      ensures Untouched({table})
      ensures EntrySet(old(ram[..]), ram[..], tables, c, w)
    {
      hide Ledger.Balanced, LeBytes, EntrySet, Tree, BitmapPmm.IsUsed;
      assert IsTable(table) && Apart(table);
      WriteWord(ram, table * PAGE_SIZE + 8 * i, w);
      pmm.Stable();
      forall g | g in tables.Values
        ensures (g + 1) * PAGE_SIZE <= ram.Length
      {
        assert IsTable(g) && Apart(g);
      }
      EntryWritten(old(ram[..]), ram[..], root, tables, leaves, huge, c, w);
    }

    /** The entry above a table gives the rights of `flags`. */
    ghost predicate Granted(c: Node, flags: Flags)
      reads this, ram
    {
      c in tables && ParentOf(c) in tables && Grants(EntryOf(ram[..], tables, c), flags)
    }

    /** No entry above a table lost a right. */
    twostate predicate StillGranted()
      reads this, ram
    {
      forall k, flags :: old(Granted(k, flags)) ==> Granted(k, flags)
    }

    /** Adds rights to an entry that is present. */
    method WidenEntry(ghost c: Node, table: nat, i: nat, flags: Flags, ghost transit: set<nat>)
      requires Valid(transit) && At(c, table, i) && 1 <= c.level && EntryOf(ram[..], tables, c) % 2 == 1
      modifies ram
      ensures unchanged(pmm) && Valid(transit) && pmm.Free() == old(pmm.Free()) && Untouched({table})
      ensures Grants(EntryOf(ram[..], tables, c), flags)
      ensures StillGranted()
    {
      hide Ledger.Balanced, Slot, Rights, IsLink, IsLarge, Target, BitmapPmm.Free, EntryFits;
      var w := Slot(ram[..], table, i);
      SlotBound(ram[..], table, i);
      WidenIs(w, flags);
      WriteEntry(c, table, i, Widen(w, flags), transit);
      WiredWiden(old(ram[..]), ram[..], root, tables, leaves, huge, c, flags);
    }

    /** One level of the descent of `map_to`: the table that the entry leads to; or a fresh frame
        becomes that table. */
    method NextTable(ghost c: Node, table: nat, i: nat, flags: Flags, ghost transit: set<nat>) returns (r: Next)
      requires Valid(transit) && transit != {} && At(c, table, i) && 1 <= c.level <= 3
      modifies this, ram
      ensures unchanged(pmm) && Grows() && Valid(transit) && leaves == old(leaves)
      ensures forall k :: k in tables ==> k in old(tables) || k == c
      ensures StillGranted()
      ensures r.Down? ==> c in tables && tables[c] == r.frame && Granted(c, flags)
      ensures r == Failed(NoFrame) ==> c !in tables && pmm.Free() == {}
      ensures r == Failed(ParentHuge) ==> c.level == 1 && c.prefix in huge
      ensures r.Failed? ==> r.why == NoFrame || r.why == ParentHuge
    {
      hide Ledger.Balanced, Slot, Rights, Target, IsLarge, Tree, BitmapPmm.Free, BitmapPmm.Valid, AddressSpace.Places,
           Grants;
      var w := Slot(ram[..], table, i);
      assert EntryFits(EntryOf(ram[..], tables, c), c, tables, leaves, huge);
      EntryTells(w, c, tables, leaves, huge);
      if w == 0 {
        var f := TakeFrame(transit);
        if f.None? {
          return Failed(NoFrame);
        }
        MakeTable(c, table, i, f.value, flags, transit);
        return Down(f.value);
      }
      WidenEntry(c, table, i, flags, transit);
      if IsLarge(w) {
        return Failed(ParentHuge);
      }
      return Down(Target(w));
    }

    /** Enters a fresh frame in its parent, clears it and records it. */
    method MakeTable(ghost c: Node, table: nat, i: nat, f: nat, flags: Flags, ghost transit: set<nat>)
      requires Valid(transit + {f}) && f !in transit && transit != {} && At(c, table, i) && Vacant(tables, huge, c)
      modifies this, ram
      ensures unchanged(pmm) && Valid(transit) && tables == old(tables)[c := f] && leaves == old(leaves)
      ensures base == old(base) && baseTables == old(baseTables) && supply == old(supply)
      ensures pmm.Free() == old(pmm.Free())
      ensures Untouched({table, f}) && StillGranted() && Granted(c, flags)
    {
      hide Ledger.Balanced, LinksTo, BitmapPmm.Free, Tree, Slot, EntryFits, Grants, EntryWord;
      var w := EntryWord(f, Flags(flags.user, flags.writable, false));
      TransitApart(f, transit + {f});
      TableEntryIs(f, flags);
      LinkTable(c, table, i, f, w, transit);
      WiredTable(old(ram[..]), ram[..], root, tables, leaves, huge, c, f, w);
      AttachTable(c, f, transit);
    }

    /** The writes to memory that make a table: its entry, then zeros. */
    method LinkTable(ghost c: Node, table: nat, i: nat, f: nat, w: nat, ghost transit: set<nat>)
      requires Core(transit + {f}) && Tree(root, tables, leaves, huge) && At(c, table, i) && w <= MAX64
      requires Apart(f) && !IsTable(f)
      modifies ram
      ensures unchanged(pmm) && Core(transit + {f}) && pmm.Free() == old(pmm.Free()) && Untouched({table, f})
      ensures EntrySet(old(ram[..]), ram[..], tables, c, w)
      ensures forall j :: 0 <= j < 512 ==> Slot(ram[..], f, j) == 0
    {
      hide Ledger.Balanced, BitmapPmm.Free, Tree, Slot;
      WriteEntry(c, table, i, w, transit + {f});
      ghost var m := ram[..];
      ZeroFrame(f, transit + {f});
      StillSame(m, transit + {f});
      ZeroSlots(f);
    }

    /** A zeroed frame is a table without entries. */
    lemma ZeroSlots(f: nat)
      requires (f + 1) * PAGE_SIZE <= ram.Length
      requires forall off :: 0 <= off < PAGE_SIZE ==> FrameByte(ram, f, off) == 0
      ensures forall i :: 0 <= i < 512 ==> Slot(ram[..], f, i) == 0
    {
      forall i | 0 <= i < 512
        ensures Slot(ram[..], f, i) == 0
      {
        var a := f * PAGE_SIZE + 8 * i;
        var bs := ram[..][a..a + 8];
        forall j | 0 <= j < |bs|
          ensures bs[j] == 0
        {
          assert FrameByte(ram, f, 8 * i + j) == 0;
        }
        LeZero(bs);
      }
    }

    ghost method AttachTable(n: Node, f: nat, transit: set<nat>)
      requires Core(transit + {f}) && f !in transit && n !in tables
      modifies this
      ensures Core(transit) && tables == old(tables)[n := f]
      ensures leaves == old(leaves) && base == old(base) && baseTables == old(baseTables) && supply == old(supply)
    {
      Books(transit + {f}).GainsTable(n, f);
      assert transit + {f} - {f} == transit;
      tables := tables[n := f];
      owner := owner[f := Table(n)];
    }

    ghost method AttachLeaf(page: nat, f: nat, flags: Flags)
      requires Core({f}) && page !in leaves
      modifies this
      ensures Core({}) && leaves == old(leaves)[page := Leaf(f, flags)] && Owned(page)
      ensures tables == old(tables) && base == old(base) && baseTables == old(baseTables) && supply == old(supply)
    {
      Books({f}).GainsLeaf(page, f, flags);
      assert {f} - {f} == {};
      leaves := leaves[page := Leaf(f, flags)];
      owner := owner[f := Data(page)];
    }

    /** The rights of `flags` are given on the whole way to `page`. */
    ghost predicate WayGranted(page: nat, flags: Flags)
      reads this, ram
    {
      forall level :: 1 <= level <= 3 ==> Granted(TableOf(page, level), flags)
    }

    /** Tables were added on the way to `page` only. */
    twostate predicate WayOnly(page: nat)
      reads this
    {
      forall k :: k in tables ==> k in old(tables) || k in PathsOf({page})
    }

    /** The descent of `map_to` through three levels, making what is missing. */
    method Descend(page: nat, flags: Flags, ghost transit: set<nat>) returns (r: Next)
      requires Valid(transit) && transit != {} && page < MAX_PAGES
      modifies this, ram
      ensures unchanged(pmm) && Grows() && Valid(transit) && leaves == old(leaves) && WayOnly(page)
      ensures r.Down? ==> TableOf(page, 1) in tables && tables[TableOf(page, 1)] == r.frame && WayGranted(page, flags)
      ensures r == Failed(NoFrame) ==> pmm.Free() == {} && exists n :: n in PathsOf({page}) && n !in tables
      ensures r == Failed(ParentHuge) ==> page / 512 in huge
      ensures r.Failed? ==> r.why == NoFrame || r.why == ParentHuge
    {
      hide Wired, Ledger.Balanced, AddressSpace.Places, AddressSpace.Granted, BitmapPmm.Free, BitmapPmm.Valid;
      ghost var n1, n2, n3 := TableOf(page, 1), TableOf(page, 2), TableOf(page, 3);
      RootIs(page, transit);
      r := NextTable(n3, root, page / 0x800_0000 % 512, flags, transit);
      if r.Failed? { return; }
      r := NextTable(n2, r.frame, page / 0x4_0000 % 512, flags, transit);
      if r.Failed? { return; }
      r := NextTable(n1, r.frame, page / 512 % 512, flags, transit);
    }

    /** The nodes on the way to a page. */
    lemma RootIs(page: nat, transit: set<nat>)
      requires Valid(transit) && page < MAX_PAGES
      ensures var n1, n2, n3 := TableOf(page, 1), TableOf(page, 2), TableOf(page, 3);
        && ROOT in tables && tables[ROOT] == root && ParentOf(n3) == ROOT && ParentOf(n2) == n3 && ParentOf(n1) == n2
        && ParentOf(Node(0, page)) == n1 && PathsOf({page}) == {n1, n2, n3}
    {
      hide Ledger.Balanced, BitmapPmm.Free, EntryFits, EntryOf, Grants;
      PathSteps(root, tables, leaves, huge, page);
    }

    /** `map_to`: descends through the tables and fills the last entry if it is unused. */
    method MapTo(page: nat, f: nat, flags: Flags) returns (r: MapResult)
      requires Valid({f}) && Leads(DataPages()) && page < MAX_PAGES
      modifies this, ram
      ensures unchanged(pmm) && Grows()
      ensures r.Mapped? ==> Valid({}) && page !in old(leaves) && leaves == old(leaves)[page := Leaf(f, flags)]
      ensures r.Mapped? ==> Owned(page)
      ensures r.NoFrame? ==> pmm.Free() == {} && page !in leaves && Short(old(DataPages()) + {page})
      ensures r.AlreadyMapped? ==> page in old(leaves)
      ensures r.ParentHuge? ==> page / 512 in huge
      ensures !r.Mapped? ==> Valid({f}) && leaves == old(leaves)
    {
      hide Wired, Ledger.Balanced, AddressSpace.Places, BitmapPmm.Free, AddressSpace.WayGranted, Slot;
      var t := Descend(page, flags, {f});
      if t.Failed? {
        if t.why == NoFrame {
          TooFew(page, f);
        }
        return t.why;
      }
      LastEntry(page, {f});
      var w := Slot(ram[..], t.frame, page % 512);
      if w != 0 { return AlreadyMapped; }
      FillEntry(page, t.frame, f, flags);
      return Mapped;
    }

    /** The entry of a page is zero exactly if the page is not mapped. */
    lemma LastEntry(page: nat, transit: set<nat>)
      requires Valid(transit) && page < MAX_PAGES && TableOf(page, 1) in tables
      ensures Slot(ram[..], tables[TableOf(page, 1)], page % 512) == 0 <==> page !in leaves
    {
      hide Ledger.Balanced, BitmapPmm.Free, Slot, Rights, Target, Tree, Grants;
      RootIs(page, transit);
      var c := Node(0, page);
      assert EntryFits(EntryOf(ram[..], tables, c), c, tables, leaves, huge);
    }

    /** The last entry of the descent. */
    method FillEntry(page: nat, table: nat, f: nat, flags: Flags)
      requires Valid({f}) && page < MAX_PAGES && page !in leaves && WayGranted(page, flags)
      requires TableOf(page, 1) in tables && tables[TableOf(page, 1)] == table && Leads(DataPages() + {page})
      modifies this, ram
      ensures unchanged(pmm) && Grows() && Valid({}) && leaves == old(leaves)[page := Leaf(f, flags)] && Owned(page)
    {
      hide Wired, Ledger.Balanced, BitmapPmm.Free, PathsOf, EntryWord, Encodes;
      TransitApart(f, {f});
      EntryIs(f, flags);
      EnterPage(page, table, f, flags, EntryWord(f, flags));
      AttachLeaf(page, f, flags);
      assert DataPages() == old(DataPages()) + {page};
    }

    /** Writes the entry of a page. */
    method EnterPage(page: nat, table: nat, ghost f: nat, ghost flags: Flags, w: nat)
      requires Valid({f}) && page < MAX_PAGES && page !in leaves && WayGranted(page, flags)
      requires TableOf(page, 1) in tables && tables[TableOf(page, 1)] == table
      requires Encodes(w, Leaf(f, flags)) && w <= MAX64
      modifies ram
      ensures unchanged(pmm) && Core({f}) && pmm.Free() == old(pmm.Free()) && Untouched({table})
      ensures Wired(ram[..], root, tables, leaves[page := Leaf(f, flags)], huge)
    {
      hide Ledger.Balanced, Encodes, BitmapPmm.Free, Tree, Grants, EntryFits, EntryOf, PathsOf;
      RootIs(page, {f});
      WriteEntry(Node(0, page), table, page % 512, w, {f});
      WiredLeaf(old(ram[..]), ram[..], root, tables, leaves, huge, page, Leaf(f, flags), w);
    }

    /** The number behind a failure for want of a frame. */
    lemma TooFew(page: nat, f: nat)
      requires Valid({f}) && pmm.Free() == {} && page < MAX_PAGES && Leads(DataPages() + {page})
      requires exists n :: n in PathsOf({page}) && n !in tables
      ensures page !in leaves && Short(DataPages() + {page})
    {
      hide Ledger.Balanced, BitmapPmm.Free, EntryFits, EntryOf, Grants, Cost;
      RootIs(page, {f});
      var n :| n in PathsOf({page}) && n !in tables;
      assert page !in leaves by {
        PathSteps(root, tables, leaves, huge, page);
      }
      var books := Books({f});
      assert books.DataPages() == DataPages();
      assert books.NewTables() + {n} <= PathsOf(DataPages() + {page}) - baseTables;
      books.Starved(baseTables, page, {n});
    }

    /** A fresh frame, mapped: the body of the loop over the kernel heap. */
    method MapFresh(page: nat, flags: Flags) returns (r: MapResult, f: nat)
      requires Valid({}) && page < MAX_PAGES
      modifies this, ram
      ensures unchanged(pmm) && Grows()
      ensures r.Mapped? ==> Valid({}) && page !in old(leaves) && leaves == old(leaves)[page := Leaf(f, flags)]
      ensures r.Mapped? ==> Owned(page) && f in old(pmm.Free())
      ensures r.NoFrame? ==> pmm.Free() == {} && leaves == old(leaves)
      ensures r.NoFrame? && !Owned(page) ==> Short(old(DataPages()) + {page})
      ensures r.AlreadyMapped? ==> page in old(leaves)
      ensures r.ParentHuge? ==> page / 512 in huge
    {
      hide Wired, Ledger.Balanced, AddressSpace.Places, BitmapPmm.Free, Cost;
      var t := TakeFrame({});
      if t.None? {
        if !Owned(page) {
          NoneLeft(page);
        }
        return NoFrame, 0;
      }
      f := t.value;
      assert {} + {f} == {f};
      r := MapTo(page, f, flags);
    }

    lemma NoneLeft(page: nat)
      requires Valid({}) && pmm.Free() == {} && !Owned(page)
      ensures Short(DataPages() + {page})
    {
      hide Ledger.Balanced, BitmapPmm.Free, Wired, Cost;
      var books := Books({});
      assert books.DataPages() == DataPages();
      assert books.NewTables() + {} <= PathsOf(DataPages() + {page}) - baseTables;
      books.Starved(baseTables, page, {});
    }

    lemma PathsThere()
      requires Valid({})
      ensures PathsOf(DataPages()) <= tables.Keys
    {
      hide Ledger.Balanced, BitmapPmm.Free, EntryFits, EntryOf, Grants;
      forall n | n in PathsOf(DataPages())
        ensures n in tables
      {
        var p, level :| p in DataPages() && 1 <= level <= 3 && n == TableOf(p, level);
        PathInTree(root, tables, leaves, huge, p, 1);
      }
    }

    lemma NewTablesAre()
      requires Valid({})
      ensures Books({}).DataPages() == DataPages() && Books({}).NewTables() == PathsOf(DataPages()) - baseTables
      ensures tables.Keys == baseTables + PathsOf(DataPages())
    {
      hide Ledger.Balanced, BitmapPmm.Free, Wired, PathsOf, BitmapPmm.Valid;
      PathsThere();
    }

    /** What has been spent: a frame for every new page and for every new table on the way to one. */
    lemma Spent()
      requires Valid({})
      ensures |supply| == |pmm.Free()| + Cost(DataPages(), baseTables)
      ensures tables.Keys == baseTables + PathsOf(DataPages())
    {
      hide Ledger.Balanced, BitmapPmm.Free, Wired, PathsOf, AddressSpace.Places;
      NewTablesAre();
      Books({}).Conservation();
    }

    /** From here on, the pages mapped and the tables made so far count as there before, and the
        free frames as the supply. */
    ghost method Rebase()
      requires Valid({})
      modifies this`base, this`baseTables, this`supply, this`owner
      ensures Valid({}) && base == leaves.Keys && baseTables == tables.Keys && supply == pmm.Free() && owner == map[]
      ensures supply <= old(supply) && Scope() <= old(Scope())
      ensures forall p :: old(Owned(p)) ==> leaves[p].frame in old(supply) && leaves[p].frame !in Scope()
      ensures forall p, q :: old(Owned(p)) && old(Owned(q)) && p != q ==> leaves[p].frame != leaves[q].frame
    {
      hide Wired, Ledger.Balanced, BitmapPmm.Free, BitmapPmm.IsUsed;
      Separation();
      TablesNotFree();
      forall p | Owned(p)
        ensures leaves[p].frame in supply
      {
        OwnedFrame(p);
      }
      Books({}).Rebased();
      base, baseTables, supply, owner := leaves.Keys, tables.Keys, pmm.Free(), map[];
    }

    /** A table was there before, or its frame was handed out for it. */
    lemma TableFrames()
      requires Valid({})
      ensures forall n :: n in tables ==> n in baseTables || tables[n] in supply
    {
      hide Wired, Ledger.Balanced, BitmapPmm.Free;
    }

    lemma TablesNotFree()
      requires Valid({})
      ensures forall n :: n in tables ==> tables[n] !in pmm.Free()
    {
      hide Wired, BitmapPmm.Free;
    }

    /** A fresh frame, mapped and then zeroed: the body of every mapping loop of the loader. */
    method MapZeroed(page: nat, flags: Flags) returns (r: MapResult)
      requires Valid({}) && page < MAX_PAGES
      modifies this, ram
      ensures unchanged(pmm) && Grows()
      ensures r.Mapped? ==> Valid({}) && page !in old(leaves) && page in leaves
      ensures r.Mapped? ==> leaves == old(leaves)[page := Leaf(leaves[page].frame, flags)]
      ensures r.Mapped? ==> View() == old(View())[page := ZeroPage()]
      ensures r.NoFrame? ==> pmm.Free() == {}
      ensures r.NoFrame? && !old(Owned(page)) ==> Short(old(DataPages()) + {page})
      ensures r.AlreadyMapped? ==> page in old(leaves)
      ensures r.ParentHuge? ==> page / 512 in huge
    {
      hide Wired, Ledger.Balanced, AddressSpace.Places, BitmapPmm.Free, ViewOf, Cost;
      var f;
      r, f := MapFresh(page, flags);
      if r.Mapped? {
        ZeroMapped(page, f);
        ViewAfterMap(page);
      }
    }

    /** Zeroes the frame of a page that has just been mapped. */
    method ZeroMapped(ghost page: nat, f: nat)
      requires Valid({}) && Owned(page) && leaves[page].frame == f
      modifies ram
      ensures unchanged(pmm) && Valid({}) && pmm.Free() == old(pmm.Free()) && f < pmm.totalFrames
      ensures forall g, off :: 0 <= g < pmm.totalFrames && 0 <= off < PAGE_SIZE ==>
        FrameByte(ram, g, off) == if g == f then 0 else old(FrameByte(ram, g, off))
    {
      hide Wired, Ledger.Balanced, BitmapPmm.Free;
      OwnedFrame(page);
      ZeroFrame(f, {});
      StillWired(old(ram[..]), {});
    }

    /** Virtual memory: the bytes a program finds in each page mapped so far. */
    ghost function View(): map<nat, seq<Byte>>
      reads this, ram
    {
      ViewOf(ram[..], leaves, base)
    }

    /** The frame of an owned page lies in memory and is not open to mapping. */
    lemma OwnedFrame(p: nat)
      requires Valid({}) && Owned(p)
      ensures Apart(leaves[p].frame) && leaves[p].frame !in Open() && leaves[p].frame in owner
      ensures 0 < leaves[p].frame && leaves[p].frame in supply
    {
      assert Books({}).Owned(p);
      assert owner[leaves[p].frame] == Data(p);
    }

    /** The CPU, walking the tables that lie in memory, knows exactly the pages of `leaves`, with
        their frames and rights, and exactly the 2 MiB pages of `huge`. */
    lemma CpuWalks(p: nat)
      requires Valid({}) && p < MAX_PAGES
      ensures Walk(ram[..], root, p) == if p in leaves then Some(leaves[p]) else None
      ensures WalkLarge(ram[..], root, p) <==> p / 512 in huge
    {
      hide Wired, Ledger.Balanced, BitmapPmm.Free, Walk, WalkLarge;
      WalkIs(ram[..], root, tables, leaves, huge, p);
      WalkLargeIs(ram[..], root, tables, leaves, huge, p);
    }

    /** `translate_page`, which reads the tables. */
    function Translate(page: nat): Option<nat>
      reads ram
    {
      match Walk(ram[..], root, page)
      case None => None
      case Some(leaf) => Some(leaf.frame)
    }

    lemma TranslateIs(p: nat)
      requires Valid({}) && p < MAX_PAGES
      ensures Translate(p) == if p in leaves then Some(leaves[p].frame) else None
    {
      hide Wired, Ledger.Balanced, BitmapPmm.Free, Walk;
      CpuWalks(p);
    }

    /** The pages that are mapped are below the end of the address space. */
    lemma PageInRange(p: nat)
      requires Valid({}) && p in leaves
      ensures p < MAX_PAGES
    {
      hide Ledger.Balanced, BitmapPmm.Free, EntryFits, EntryOf, Grants;
      PathInTree(root, tables, leaves, huge, p, 1);
    }

    /** What the CPU reads on a page mapped here are the bytes of the view. */
    lemma CpuSees(va: nat)
      requires Valid({}) && Owned(va / PAGE_SIZE)
      ensures |PageOf(ram[..], leaves[va / PAGE_SIZE].frame)| == PAGE_SIZE
      ensures CpuByte(ram[..], root, va) == Some(View()[va / PAGE_SIZE][va % PAGE_SIZE])
    {
      hide Wired, Ledger.Balanced, BitmapPmm.Free, Walk;
      var p := va / PAGE_SIZE;
      PageInRange(p);
      OwnedFrame(p);
      CpuWalks(p);
    }

    /** Two owned pages never share a frame. */
    lemma OwnedDistinct(p: nat, q: nat)
      requires Valid({}) && Owned(p) && Owned(q) && leaves[p].frame == leaves[q].frame
      ensures p == q
    {
      assert Books({}).Owned(p) && Books({}).Owned(q);
    }

    /** A step that writes to open frames only keeps the bytes of an owned page. */
    twostate lemma OwnedPageKept(p: nat)
      requires pmm.ram == ram && unchanged(pmm) && old(Valid({})) && Untouched(old(Open())) && old(Owned(p))
      ensures PageOf(ram[..], old(leaves)[p].frame) == old(PageOf(ram[..], leaves[p].frame))
    {
      var f := old(leaves)[p].frame;
      assert old(Books({}).Owned(p));
      assert old(owner)[f] == Data(p) && f !in old(Open());
      FrameSame(f);
    }

    lemma FrameIsZero(f: nat)
      requires (f + 1) * PAGE_SIZE <= ram.Length
      requires forall off :: 0 <= off < PAGE_SIZE ==> FrameByte(ram, f, off) == 0
      ensures PageOf(ram[..], f) == ZeroPage()
    {
      forall off | 0 <= off < PAGE_SIZE
        ensures PageOf(ram[..], f)[off] == 0
      {
        assert FrameByte(ram, f, off) == 0;
      }
    }

    twostate lemma FrameSame(f: nat)
      requires (f + 1) * PAGE_SIZE <= ram.Length
      requires forall off :: 0 <= off < PAGE_SIZE ==> FrameByte(ram, f, off) == old(FrameByte(ram, f, off))
      ensures PageOf(ram[..], f) == old(PageOf(ram[..], f))
    {
      forall off | 0 <= off < PAGE_SIZE
        ensures PageOf(ram[..], f)[off] == old(PageOf(ram[..], f))[off]
      {
        assert FrameByte(ram, f, off) == old(FrameByte(ram, f, off));
      }
    }

    /** Physical separation: the frame of a page is in memory, is not frame 0, and is not free,
        a table, part of the bitmap or the frame of another page. */
    lemma Separation()
      requires Valid({})
      ensures forall p :: Owned(p) ==> 0 < leaves[p].frame < pmm.totalFrames && !IsTable(leaves[p].frame)
      ensures forall p :: Owned(p) ==> leaves[p].frame !in pmm.Free() && !pmm.IsBitmapFrame(leaves[p].frame)
      ensures forall p, q :: Owned(p) && Owned(q) && p != q ==> leaves[p].frame != leaves[q].frame
    {
      hide Ledger.Balanced, BitmapPmm.Free;
      forall p | Owned(p)
        ensures 0 < leaves[p].frame < pmm.totalFrames && !IsTable(leaves[p].frame)
        ensures leaves[p].frame !in pmm.Free() && !pmm.IsBitmapFrame(leaves[p].frame)
      {
        OwnedFrame(p);
      }
      forall p, q | Owned(p) && Owned(q) && p != q
        ensures leaves[p].frame != leaves[q].frame
      {
        if leaves[p].frame == leaves[q].frame {
          OwnedDistinct(p, q);
        }
      }
    }

    /** Mapping writes to open frames only, so the pages mapped before keep their bytes. */
    twostate lemma ViewAfterMap(page: nat)
      requires pmm.ram == ram && unchanged(pmm) && old(Valid({})) && Valid({}) && Untouched(old(Open()))
      requires base == old(base) && page !in old(leaves) && page in leaves
      requires leaves == old(leaves)[page := leaves[page]]
      requires forall off :: 0 <= off < PAGE_SIZE ==> FrameByte(ram, leaves[page].frame, off) == 0
      ensures View() == old(View())[page := ZeroPage()]
    {
      OwnedFrame(page);
      FrameIsZero(leaves[page].frame);
      forall p | p in old(leaves) && p !in old(base)
        ensures PageOf(ram[..], old(leaves)[p].frame) == old(PageOf(ram[..], leaves[p].frame))
      {
        OwnedPageKept(p);
      }
      ViewGains(old(ram[..]), ram[..], old(leaves), base, page, leaves[page]);
    }

    /** Every frame the loader may write to: the supply, the tables and the bitmap. */
    ghost function Scope(): set<nat>
      reads this, pmm
    {
      set f | 0 <= f < pmm.totalFrames && (f in supply || IsTable(f) || pmm.IsBitmapFrame(f))
    }

    /** What the loader keeps: it takes frames from the supply only and writes in scope only. */
    twostate predicate Keeps()
      reads this, pmm, ram
      requires pmm.ram == ram && old(pmm.Shaped()) && unchanged(pmm)
    {
      && BooksKept() && TablesStay()
      && pmm.Free() <= old(pmm.Free()) && Scope() <= old(Scope())
      && Untouched(old(Scope()))
    }

    twostate lemma GrowsKeeps()
      requires pmm.ram == ram && old(Valid({})) && unchanged(pmm) && Grows()
      ensures Keeps()
    {
      assert old(Open()) <= old(Scope());
      forall f | f in Scope()
        ensures f in old(Scope())
      {
        if f !in supply {
          assert f in Open();
        }
      }
    }

    lemma ViewPaged()
      requires Valid({})
      ensures Paged(View())
    {
      forall p | p in View()
        ensures |View()[p]| == PAGE_SIZE
      {
        OwnedFrame(p);
      }
    }

    /** `copy_nonoverlapping` into one mapped page, through its frame. */
    method CopyChunk(ghost page: nat, f: nat, off: nat, bs: seq<Byte>)
      requires Valid({}) && Owned(page) && leaves[page].frame == f && off + |bs| <= PAGE_SIZE
      modifies ram
      ensures unchanged(pmm) && Valid({}) && Keeps() && pmm.Free() == old(pmm.Free())
      ensures Paged(old(View())) && View() == old(View())[page := Splice(old(View())[page], off, bs)]
    {
      hide Wired, Ledger.Balanced, BitmapPmm.Free;
      OwnedFrame(page);
      ViewPaged();
      WriteFrame(f, off, bs);
      OtherFrames(page);
      ViewSpliced(old(ram[..]), ram[..], leaves, base, page, off, bs);
    }

    /** Writes part of a frame that is apart from the bitmap. */
    method WriteFrame(f: nat, off: nat, bs: seq<Byte>)
      requires Valid({}) && Apart(f) && !IsTable(f) && off + |bs| <= PAGE_SIZE
      modifies ram
      ensures unchanged(pmm) && Valid({}) && pmm.Free() == old(pmm.Free())
      ensures |PageOf(old(ram[..]), f)| == PAGE_SIZE && PageOf(ram[..], f) == Splice(PageOf(old(ram[..]), f), off, bs)
      ensures forall g :: 0 <= g < pmm.totalFrames && g != f ==> PageOf(ram[..], g) == PageOf(old(ram[..]), g)
      ensures Untouched({f})
    {
      hide Wired, Ledger.Balanced, BitmapPmm.Free;
      CopyBytes(ram, f * PAGE_SIZE + off, bs);
      FrameWritten(old(ram[..]), ram[..], f, off, bs);
      pmm.Stable();
      forall g, o | 0 <= g < pmm.totalFrames && 0 <= o < PAGE_SIZE && g != f
        ensures FrameByte(ram, g, o) == old(FrameByte(ram, g, o))
      {
        assert g * PAGE_SIZE + o < f * PAGE_SIZE || (f + 1) * PAGE_SIZE <= g * PAGE_SIZE + o;
      }
      StillWired(old(ram[..]), {});
    }

    /** The other owned pages live in other frames. */
    lemma OtherFrames(page: nat)
      requires Valid({}) && Owned(page)
      ensures forall p :: p in leaves && p !in base ==>
        leaves[p].frame < pmm.totalFrames && (p != page ==> leaves[p].frame != leaves[page].frame)
    {
      forall p | p in leaves && p !in base
        ensures leaves[p].frame < pmm.totalFrames && (p != page ==> leaves[p].frame != leaves[page].frame)
      {
        OwnedFrame(p);
        if leaves[p].frame == leaves[page].frame {
          OwnedDistinct(p, page);
        }
      }
    }
  }

  /** The tables that are active at the start use no free frame and no bitmap frame. */
  ghost predicate StartsApart(pmm: BitmapPmm, tables: map<Node, nat>)
    requires pmm.Shaped()
    reads pmm, pmm.ram
  {
    forall n :: n in tables ==> tables[n] < pmm.totalFrames && !pmm.IsBitmapFrame(tables[n]) && tables[n] !in pmm.Free()
  }
}
