/** Four levels of page tables that lie in memory, and the walk of the CPU through them. The maps
    `tables`, `leaves` and `huge` describe them: every entry of every table is a link to a table,
    a 4 KiB page, a 2 MiB page, or zero. */
module PageTables {
  import opened Arith
  import opened Bits
  import opened Pmm

  /** A page table of level 4, 3, 2 or 1, covering the pages whose number starts with `prefix`.
      The root is node (4, 0); node (0, p) stands for page `p` itself. */
  datatype Node = Node(level: nat, prefix: nat)

  const ROOT: Node := Node(4, 0)

  function ParentOf(n: Node): Node { Node(n.level + 1, n.prefix / 512) }

  /** The table of a level on the way to a page. */
  function TableOf(page: nat, level: nat): Node
    requires 1 <= level <= 3
  {
    Node(level, if level == 3 then page / 0x800_0000 else if level == 2 then page / 0x4_0000 else page / 512)
  }

  datatype Flags = Flags(user: bool, writable: bool, noExecute: bool)

  datatype Leaf = Leaf(frame: nat, flags: Flags)

  const MAX_FRAMES: nat := 0x100_0000_0000    // 52-bit physical addresses
  const MAX_PAGES: nat := 0x10_0000_0000      // 48-bit virtual addresses
  const TOP_BIT: nat := 0x8000_0000_0000_0000

  /** The entry that points at `frame`: address bits from 12 up, present, writable and user
      bits 0 to 2, no-execute bit 63. */
  function EntryWord(frame: nat, flags: Flags): nat {
    frame * PAGE_SIZE + 1 + (if flags.writable then 2 else 0) + (if flags.user then 4 else 0)
    + (if flags.noExecute then TOP_BIT else 0)
  }

  /** An entry is present and leads to a table or a 4 KiB page; or it is a 2 MiB page. */
  predicate IsLink(w: nat) { w % 2 == 1 && w / 128 % 2 == 0 }

  predicate IsLarge(w: nat) { w % 2 == 1 && w / 128 % 2 == 1 }

  /** The frame an entry leads to: bits 12 to 51. */
  function Target(w: nat): nat { w / PAGE_SIZE % MAX_FRAMES }

  /** The rights that an entry gives. */
  function Rights(w: nat): Flags {
    Flags(w / 4 % 2 == 1, w / 2 % 2 == 1, w / TOP_BIT % 2 == 1)
  }

  /** What two entries on the way to a page allow together. */
  function Meet(a: Flags, b: Flags): Flags {
    Flags(a.user && b.user, a.writable && b.writable, a.noExecute || b.noExecute)
  }

  /** The same entry with the rights that `flags` needs added. */
  function Widen(w: nat, flags: Flags): nat {
    w + (if flags.writable && !Rights(w).writable then 2 else 0) + (if flags.user && !Rights(w).user then 4 else 0)
  }

  function AsBit(b: bool): nat { if b then 1 else 0 }

  /** The parts of a present word: everything above bit 2, the user bit and the writable bit. */
  lemma LowBits(h: nat, user: bool, writable: bool)
    ensures var w := 8 * h + 4 * AsBit(user) + 2 * AsBit(writable) + 1;
      && w % 2 == 1 && w / 128 == h / 16 && w / PAGE_SIZE == h / 512 && w / TOP_BIT == h / (TOP_BIT / 8)
      && Rights(w).user == user && Rights(w).writable == writable
  {
    LowRights(h, AsBit(user), AsBit(writable));
    var w := 8 * h + 4 * AsBit(user) + 2 * AsBit(writable) + 1;
    DivDeep(h, w, 16);
    DivDeep(h, w, 512);
    DivDeep(h, w, TOP_BIT / 8);
  }

  lemma LowRights(h: nat, u: nat, r: nat)
    requires u < 2 && r < 2
    ensures var w := 8 * h + 4 * u + 2 * r + 1; w % 2 == 1 && w / 2 % 2 == r && w / 4 % 2 == u
  {
    var w := 8 * h + 4 * u + 2 * r + 1;
    DivIs(w, 2, 4 * h + 2 * u + r);
    DivIs(w, 4, 2 * h + u);
    DivIs(2 * h + u, 2, h);
    DivIs(4 * h + 2 * u + r, 2, 2 * h + u);
  }

  /** Eight neighbours have the same quotient by a multiple of eight. */
  lemma DivDeep(h: nat, w: nat, d: nat)
    requires d > 0 && 8 * h <= w < 8 * h + 8
    ensures w / (8 * d) == h / d
  {
    DivBounds(h, d);
    var q := h / d;
    assert 8 * (q * d) == q * (8 * d);
    DivIs(w, 8 * d, q);
  }

  /** An entry gives back what was put into it. */
  lemma EntryIs(frame: nat, flags: Flags)
    requires frame < MAX_FRAMES
    ensures var w := EntryWord(frame, flags); Encodes(w, Leaf(frame, flags)) && 0 < w <= MAX64
  {
    var nx := AsBit(flags.noExecute);
    var h := frame * 512 + nx * (TOP_BIT / 8);
    var w := EntryWord(frame, flags);
    assert w == 8 * h + 4 * AsBit(flags.user) + 2 * AsBit(flags.writable) + 1;
    LowBits(h, flags.user, flags.writable);
    HighBits(frame, nx);
  }

  /** The bits of an entry, as section 4.5 of the Intel SDM, volume 3A, numbers them: present 0,
      writable 1, user 2, page size 7, address 12 to 51, no-execute 63. */
  lemma EntryLayout(frame: nat, flags: Flags)
    requires frame < MAX_FRAMES
    ensures var w := EntryWord(frame, flags);
      && w % 2 == 1 && (w / 2 % 2 == 1 <==> flags.writable) && (w / 4 % 2 == 1 <==> flags.user) && w / 128 % 2 == 0
      && w / 4096 % 0x100_0000_0000 == frame && (w / 0x8000_0000_0000_0000 % 2 == 1 <==> flags.noExecute)
  {
    hide EntryWord;
    EntryIs(frame, flags);
  }

  /** The same for the upper part: the large-page bit is clear, the address and bit 63 are back. */
  lemma HighBits(frame: nat, nx: nat)
    requires frame < MAX_FRAMES && nx < 2
    ensures var h := frame * 512 + nx * (TOP_BIT / 8);
      h / 16 % 2 == 0 && h / 512 % MAX_FRAMES == frame && h / (TOP_BIT / 8) % 2 == nx
  {
    var h := frame * 512 + nx * (TOP_BIT / 8);
    var x := frame + nx * 0x8_0000_0000_0000;
    assert h == x * 512;
    DivIs(h, 512, x);
    DivIs(h, 16, x * 32);
    DivIs(x * 32, 2, x * 16);
    DivIs(h, 0x1000_0000_0000_0000, nx);
    DivIs(x, MAX_FRAMES, nx * 0x800);
  }

  /** The entry of a new table gives the rights of the page it is made for. */
  lemma TableEntryIs(f: nat, flags: Flags)
    requires f < MAX_FRAMES
    ensures var w := EntryWord(f, Flags(flags.user, flags.writable, false));
      LinksTo(w, f) && Grants(w, flags) && w <= MAX64
  {
    hide EntryWord, Target, Rights, IsLink;
    EntryIs(f, Flags(flags.user, flags.writable, false));
  }

  /** Widening adds the rights asked for and changes nothing else. */
  lemma WidenIs(w: nat, flags: Flags)
    requires w % 2 == 1 && w <= MAX64
    ensures var v := Widen(w, flags);
      && v % 2 == 1 && v <= MAX64 && IsLink(v) == IsLink(w) && IsLarge(v) == IsLarge(w) && Target(v) == Target(w)
      && Rights(v) == Flags(Rights(w).user || flags.user, Rights(w).writable || flags.writable, Rights(w).noExecute)
  {
    var r, h := Rights(w), w / 8;
    SplitLow(w);
    LowBits(h, r.user, r.writable);
    LowBits(h, r.user || flags.user, r.writable || flags.writable);
    assert Widen(w, flags) == 8 * h + 4 * AsBit(r.user || flags.user) + 2 * AsBit(r.writable || flags.writable) + 1;
  }

  lemma SplitLow(w: nat)
    requires w % 2 == 1
    ensures w == 8 * (w / 8) + 4 * AsBit(Rights(w).user) + 2 * AsBit(Rights(w).writable) + 1
  {
    assert w == 2 * (w / 2) + 1;
    assert w / 2 == 2 * (w / 4) + w / 2 % 2;
    assert w / 4 == 2 * (w / 8) + w / 4 % 2;
  }

  /** The bytes of frame `f`. */
  function PageOf(m: seq<Byte>, f: nat): seq<Byte> {
    if (f + 1) * PAGE_SIZE <= |m| then m[f * PAGE_SIZE..(f + 1) * PAGE_SIZE] else []
  }

  /** Entry `i` of the table in frame `f`. */
  function Slot(m: seq<Byte>, f: nat, i: nat): nat {
    if f * PAGE_SIZE + 8 * i + 8 <= |m| then Word(m, f * PAGE_SIZE + 8 * i) else 0
  }

  lemma SlotBound(m: seq<Byte>, f: nat, i: nat)
    ensures Slot(m, f, i) <= MAX64
  {
    if f * PAGE_SIZE + 8 * i + 8 <= |m| {
      WordBound(m, f * PAGE_SIZE + 8 * i);
    }
  }

  /** The walk of the CPU from the root to a 4 KiB page: its frame, and the rights that all four
      entries allow together. */
  function Walk(m: seq<Byte>, root: nat, page: nat): Option<Leaf> {
    var e4 := Slot(m, root, page / 0x800_0000 % 512);
    if !IsLink(e4) then None
    else
      var e3 := Slot(m, Target(e4), page / 0x4_0000 % 512);
      if !IsLink(e3) then None
      else
        var e2 := Slot(m, Target(e3), page / 512 % 512);
        if !IsLink(e2) then None
        else
          var e1 := Slot(m, Target(e2), page % 512);
          if !IsLink(e1) then None
          else Some(Leaf(Target(e1), Meet(Meet(Rights(e4), Rights(e3)), Meet(Rights(e2), Rights(e1)))))
  }

  /** The walk to page `page` ends at a 2 MiB page. */
  predicate WalkLarge(m: seq<Byte>, root: nat, page: nat) {
    var e4 := Slot(m, root, page / 0x800_0000 % 512);
    var e3 := Slot(m, Target(e4), page / 0x4_0000 % 512);
    IsLink(e4) && IsLink(e3) && IsLarge(Slot(m, Target(e3), page / 512 % 512))
  }

  /** The byte that the CPU reads at a virtual address. */
  function CpuByte(m: seq<Byte>, root: nat, va: nat): Option<Byte> {
    match Walk(m, root, va / PAGE_SIZE)
    case None => None
    case Some(leaf) =>
      var a := leaf.frame * PAGE_SIZE + va % PAGE_SIZE;
      if a < |m| then Some(m[a]) else None
  }

  /** An entry that is present and not a 2 MiB page. */
  predicate PresentSmall(e: nat) { e % 2 == 1 && e / 128 % 2 == 0 }

  /** The walk, by the bits of the address: bits 39 to 47, 30 to 38, 21 to 29 and 12 to 20 select the
      entries, and each entry gives the frame of the next table. A page may be written if all four
      entries allow it, used by programs if all four allow it, and executed if none forbids it. */
  lemma WalkByAddress(m: seq<Byte>, root: nat, va: nat, e4: nat, e3: nat, e2: nat, e1: nat)
    requires e4 == Slot(m, root, va / 0x80_0000_0000 % 512) && PresentSmall(e4)
    requires e3 == Slot(m, e4 / 4096 % 0x100_0000_0000, va / 0x4000_0000 % 512) && PresentSmall(e3)
    requires e2 == Slot(m, e3 / 4096 % 0x100_0000_0000, va / 0x20_0000 % 512) && PresentSmall(e2)
    requires e1 == Slot(m, e2 / 4096 % 0x100_0000_0000, va / 4096 % 512) && PresentSmall(e1)
    ensures Walk(m, root, va / 4096).Some?
    ensures var leaf := Walk(m, root, va / 4096).value;
      && leaf.frame == e1 / 4096 % 0x100_0000_0000
      && (leaf.flags.writable <==> e4 / 2 % 2 == 1 && e3 / 2 % 2 == 1 && e2 / 2 % 2 == 1 && e1 / 2 % 2 == 1)
      && (leaf.flags.user <==> e4 / 4 % 2 == 1 && e3 / 4 % 2 == 1 && e2 / 4 % 2 == 1 && e1 / 4 % 2 == 1)
      && (leaf.flags.noExecute <==>
            e4 / 0x8000_0000_0000_0000 % 2 == 1 || e3 / 0x8000_0000_0000_0000 % 2 == 1
            || e2 / 0x8000_0000_0000_0000 % 2 == 1 || e1 / 0x8000_0000_0000_0000 % 2 == 1)
    ensures var a := e1 / 4096 % 0x100_0000_0000 * 4096 + va % 4096;
      a < |m| ==> CpuByte(m, root, va) == Some(m[a])
  {
    hide Slot;
    PageNumbers(va);
  }

  lemma PageNumbers(va: nat)
    ensures va / 4096 / 0x800_0000 == va / 0x80_0000_0000 && va / 4096 / 0x4_0000 == va / 0x4000_0000
    ensures va / 4096 / 512 == va / 0x20_0000
  {
  }

  /** The word that an entry is: eight bytes of its table, the lowest first. */
  lemma SlotIs(m: seq<Byte>, f: nat, i: nat)
    requires f * 4096 + 8 * i + 8 <= |m|
    ensures Slot(m, f, i) == Le(m[f * 4096 + 8 * i..f * 4096 + 8 * i + 8])
  {
  }

  predicate LinksTo(w: nat, t: nat) { IsLink(w) && Target(w) == t && !Rights(w).noExecute }

  predicate Encodes(w: nat, leaf: Leaf) { IsLink(w) && Target(w) == leaf.frame && Rights(w) == leaf.flags }

  predicate Grants(w: nat, flags: Flags) {
    (flags.user ==> Rights(w).user) && (flags.writable ==> Rights(w).writable)
  }

  /** The entry of node `c` in its parent. */
  ghost function EntryOf(m: seq<Byte>, tables: map<Node, nat>, c: Node): nat {
    if ParentOf(c) in tables then Slot(m, tables[ParentOf(c)], c.prefix % 512) else 0
  }

  /** The shape of the tree: every table has its parent, and a frame of its own. */
  ghost predicate Tree(root: nat, tables: map<Node, nat>, leaves: map<nat, Leaf>, huge: set<nat>) {
    && ROOT in tables && tables[ROOT] == root
    && (forall n :: n in tables ==> 1 <= n.level <= 4 && (n.level == 4 ==> n == ROOT))
    && (forall n :: n in tables && n != ROOT ==> ParentOf(n) in tables)
    && (forall n, k :: n in tables && k in tables && tables[n] == tables[k] ==> n == k)
    && (forall p :: p in leaves ==> TableOf(p, 1) in tables)
    && (forall h :: h in huge ==> Node(2, h / 512) in tables && Node(1, h) !in tables)
  }

  /** What the entry of `c` must be: nothing is present that the maps do not know. */
  ghost predicate EntryFits(w: nat, c: Node, tables: map<Node, nat>, leaves: map<nat, Leaf>, huge: set<nat>) {
    if c.level == 0 then (if c.prefix in leaves then Encodes(w, leaves[c.prefix]) else w == 0)
    else if c in tables then LinksTo(w, tables[c])
    else if c.level == 1 && c.prefix in huge then IsLarge(w)
    else w == 0
  }

  /** Memory holds these tables: every entry of every table is what the maps say, and the entries
      above a page allow what the page allows. */
  ghost predicate Wired(m: seq<Byte>, root: nat, tables: map<Node, nat>, leaves: map<nat, Leaf>, huge: set<nat>) {
    && Tree(root, tables, leaves, huge)
    && (forall c :: ParentOf(c) in tables ==> EntryFits(EntryOf(m, tables, c), c, tables, leaves, huge))
    && (forall p, level :: p in leaves && 1 <= level <= 3 ==>
      Grants(EntryOf(m, tables, TableOf(p, level)), leaves[p].flags))
  }

  /** A zeroed frame as root: tables that map nothing. */
  lemma WiredEmpty(m: seq<Byte>, root: nat)
    requires forall i :: 0 <= i < 512 ==> Slot(m, root, i) == 0
    ensures Wired(m, root, map[ROOT := root], map[], {})
  {
    hide Slot;
    var tables := map[ROOT := root];
    forall c | ParentOf(c) in tables
      ensures EntryFits(EntryOf(m, tables, c), c, tables, map[], {})
    {
      assert ParentOf(c) == ROOT && c.level == 3;
    }
  }

  /** The tables on the way to a page follow from the lowest one. */
  lemma PathInTree(root: nat, tables: map<Node, nat>, leaves: map<nat, Leaf>, huge: set<nat>, p: nat, level: nat)
    requires Tree(root, tables, leaves, huge) && 1 <= level <= 3 && TableOf(p, level) in tables
    ensures forall k :: level <= k <= 3 ==> TableOf(p, k) in tables
    ensures p < MAX_PAGES
  {
    var n1, n2, n3 := TableOf(p, 1), TableOf(p, 2), TableOf(p, 3);
    assert ParentOf(n1) == n2 && ParentOf(n2) == n3;
    assert n3 in tables && ParentOf(n3) in tables;
  }

  /** The walk knows exactly the pages of `leaves`, with exactly their frames and rights. */
  lemma WalkIs(m: seq<Byte>, root: nat, tables: map<Node, nat>, leaves: map<nat, Leaf>, huge: set<nat>, p: nat)
    requires Wired(m, root, tables, leaves, huge) && p < MAX_PAGES
    ensures Walk(m, root, p) == if p in leaves then Some(leaves[p]) else None
  {
    hide Slot, Target, Rights, IsLink, Tree;
    var n1, n2, n3, n0 := TableOf(p, 1), TableOf(p, 2), TableOf(p, 3), Node(0, p);
    PathSteps(root, tables, leaves, huge, p);
    assert EntryFits(EntryOf(m, tables, n3), n3, tables, leaves, huge);
    if n3 in tables {
      assert EntryFits(EntryOf(m, tables, n2), n2, tables, leaves, huge);
      if n2 in tables {
        assert EntryFits(EntryOf(m, tables, n1), n1, tables, leaves, huge);
        LinkIsNotLarge(EntryOf(m, tables, n1));
        if n1 in tables {
          assert EntryFits(EntryOf(m, tables, n0), n0, tables, leaves, huge);
        }
      }
    }
    ZeroIsNoLink();
  }

  /** The walk meets a 2 MiB page exactly where there is one. */
  lemma WalkLargeIs(m: seq<Byte>, root: nat, tables: map<Node, nat>, leaves: map<nat, Leaf>, huge: set<nat>, p: nat)
    requires Wired(m, root, tables, leaves, huge) && p < MAX_PAGES
    ensures WalkLarge(m, root, p) <==> p / 512 in huge
  {
    hide Slot, Target, Rights, IsLink, IsLarge, Tree;
    var n1, n2, n3 := TableOf(p, 1), TableOf(p, 2), TableOf(p, 3);
    PathSteps(root, tables, leaves, huge, p);
    assert EntryFits(EntryOf(m, tables, n3), n3, tables, leaves, huge);
    if n3 in tables {
      assert EntryFits(EntryOf(m, tables, n2), n2, tables, leaves, huge);
      if n2 in tables {
        assert EntryFits(EntryOf(m, tables, n1), n1, tables, leaves, huge);
        LinkIsNotLarge(EntryOf(m, tables, n1));
      }
    }
    ZeroIsNoLink();
  }

  lemma ZeroIsNoLink()
    ensures !IsLink(0) && !IsLarge(0)
  {
  }

  lemma LinkIsNotLarge(w: nat)
    ensures !(IsLink(w) && IsLarge(w))
  {
  }

  /** What the word in the place of a table says about the table. */
  lemma EntryTells(w: nat, c: Node, tables: map<Node, nat>, leaves: map<nat, Leaf>, huge: set<nat>)
    requires EntryFits(w, c, tables, leaves, huge) && 1 <= c.level
    ensures w == 0 <==> c !in tables && (c.level == 1 ==> c.prefix !in huge)
    ensures IsLarge(w) <==> c !in tables && c.level == 1 && c.prefix in huge
    ensures w != 0 ==> w % 2 == 1 && (IsLarge(w) || (c in tables && Target(w) == tables[c]))
  {
  }

  /** The nodes on the way to a page, and where their entries are. */
  lemma PathSteps(root: nat, tables: map<Node, nat>, leaves: map<nat, Leaf>, huge: set<nat>, p: nat)
    requires Tree(root, tables, leaves, huge) && p < MAX_PAGES
    ensures var n1, n2, n3, n0 := TableOf(p, 1), TableOf(p, 2), TableOf(p, 3), Node(0, p);
      && ParentOf(n3) == ROOT && ParentOf(n2) == n3 && ParentOf(n1) == n2 && ParentOf(n0) == n1
      && ROOT in tables && tables[ROOT] == root
      && (n1 in tables ==> n2 in tables) && (n2 in tables ==> n3 in tables) && (p in leaves ==> n1 in tables)
      && (p / 512 in huge ==> n2 in tables && n1 !in tables)
  {
    assert p / 512 / 512 == p / 0x4_0000 && p / 0x4_0000 / 512 == p / 0x800_0000;
  }

  /** Entries depend on the bytes of their table only. */
  lemma SlotSame(m: seq<Byte>, m': seq<Byte>, f: nat, i: nat)
    requires |m| == |m'| && (f + 1) * PAGE_SIZE <= |m| && i < 512 && PageOf(m, f) == PageOf(m', f)
    ensures Slot(m, f, i) == Slot(m', f, i)
  {
    var a := f * PAGE_SIZE + 8 * i;
    forall j | a <= j < a + 8
      ensures m[j] == m'[j]
    {
      assert m[j] == PageOf(m, f)[j - f * PAGE_SIZE] && m'[j] == PageOf(m', f)[j - f * PAGE_SIZE];
    }
    WordFrame(m, m', a);
  }

  ghost predicate SameEntries(m: seq<Byte>, m': seq<Byte>, tables: map<Node, nat>) {
    forall c :: ParentOf(c) in tables ==> EntryOf(m', tables, c) == EntryOf(m, tables, c)
  }

  /** Table frames whose bytes stay keep their entries. */
  lemma EntriesSame(m: seq<Byte>, m': seq<Byte>, tables: map<Node, nat>)
    requires |m| == |m'|
    requires forall f :: f in tables.Values ==> (f + 1) * PAGE_SIZE <= |m| && PageOf(m, f) == PageOf(m', f)
    ensures SameEntries(m, m', tables)
  {
    hide Slot, PageOf;
    forall c | ParentOf(c) in tables
      ensures EntryOf(m', tables, c) == EntryOf(m, tables, c)
    {
      assert tables[ParentOf(c)] in tables.Values;
      SlotSame(m, m', tables[ParentOf(c)], c.prefix % 512);
    }
  }

  lemma WiredSame(m: seq<Byte>, m': seq<Byte>, root: nat, tables: map<Node, nat>, leaves: map<nat, Leaf>,
                  huge: set<nat>)
    requires Wired(m, root, tables, leaves, huge) && SameEntries(m, m', tables)
    ensures Wired(m', root, tables, leaves, huge)
  {
    hide EntryOf, EntryFits, Grants;
    forall p, level | p in leaves && 1 <= level <= 3
      ensures Grants(EntryOf(m', tables, TableOf(p, level)), leaves[p].flags)
    {
      PathInTree(root, tables, leaves, huge, p, 1);
      EntryHasParent(root, tables, leaves, huge, TableOf(p, level));
    }
  }

  lemma EntryHasParent(root: nat, tables: map<Node, nat>, leaves: map<nat, Leaf>, huge: set<nat>, n: Node)
    requires Tree(root, tables, leaves, huge) && n in tables && n.level < 4
    ensures ParentOf(n) in tables
  {
  }

  /** Of all the entries, that of `c` has been set to `w`. */
  ghost predicate EntrySet(m: seq<Byte>, m': seq<Byte>, tables: map<Node, nat>, c: Node, w: nat) {
    forall k :: ParentOf(k) in tables ==> EntryOf(m', tables, k) == if k == c then w else EntryOf(m, tables, k)
  }

  /** Writing one word of one table sets one entry: no two nodes share a place. */
  lemma EntryWritten(m: seq<Byte>, m': seq<Byte>, root: nat, tables: map<Node, nat>, leaves: map<nat, Leaf>,
                     huge: set<nat>,
                     c: Node, w: nat)
    requires |m| == |m'| && Tree(root, tables, leaves, huge) && ParentOf(c) in tables
    requires forall f :: f in tables.Values ==> (f + 1) * PAGE_SIZE <= |m|
    requires var a := tables[ParentOf(c)] * PAGE_SIZE + 8 * (c.prefix % 512);
      a + 8 <= |m| && Word(m', a) == w && forall j :: 0 <= j < |m| && !(a <= j < a + 8) ==> m'[j] == m[j]
    ensures EntrySet(m, m', tables, c, w)
  {
    hide Word;
    forall k | ParentOf(k) in tables
      ensures EntryOf(m', tables, k) == if k == c then w else EntryOf(m, tables, k)
    {
      assert tables[ParentOf(k)] in tables.Values;
      if k != c {
        OnePlace(root, tables, leaves, huge, c, k);
        OtherSlot(m, m', tables[ParentOf(c)], c.prefix % 512, tables[ParentOf(k)], k.prefix % 512);
      }
    }
  }

  lemma OtherSlot(m: seq<Byte>, m': seq<Byte>, f: nat, i: nat, g: nat, j: nat)
    requires |m| == |m'| && i < 512 && j < 512 && (g + 1) * PAGE_SIZE <= |m| && !(f == g && i == j)
    requires var a := f * PAGE_SIZE + 8 * i; forall x :: 0 <= x < |m| && !(a <= x < a + 8) ==> m'[x] == m[x]
    ensures Slot(m', g, j) == Slot(m, g, j)
  {
    WordFrame(m, m', g * PAGE_SIZE + 8 * j);
  }

  /** Two nodes are never entered in the same place. */
  lemma OnePlace(root: nat, tables: map<Node, nat>, leaves: map<nat, Leaf>, huge: set<nat>, n: Node, k: Node)
    requires Tree(root, tables, leaves, huge) && ParentOf(n) in tables && ParentOf(k) in tables
    ensures tables[ParentOf(n)] == tables[ParentOf(k)] && n.prefix % 512 == k.prefix % 512 ==> n == k
  {
    if tables[ParentOf(n)] == tables[ParentOf(k)] && n.prefix % 512 == k.prefix % 512 {
      assert ParentOf(n) == ParentOf(k);
      assert n.prefix / 512 == k.prefix / 512;
    }
  }

  /** A present entry above a page may be widened. */
  lemma WiredWiden(m: seq<Byte>, m': seq<Byte>, root: nat, tables: map<Node, nat>, leaves: map<nat, Leaf>,
                   huge: set<nat>,
                   c: Node, flags: Flags)
    requires Wired(m, root, tables, leaves, huge) && ParentOf(c) in tables && 1 <= c.level
    requires var w := EntryOf(m, tables, c);
      w % 2 == 1 && w <= MAX64 && EntrySet(m, m', tables, c, Widen(w, flags))
    ensures Wired(m', root, tables, leaves, huge)
  {
    hide EntryOf, Rights, Target, IsLink, IsLarge;
    WidenIs(EntryOf(m, tables, c), flags);
    ZeroIsNoLink();
    forall k | ParentOf(k) in tables
      ensures EntryFits(EntryOf(m', tables, k), k, tables, leaves, huge)
    {
      assert EntryFits(EntryOf(m, tables, k), k, tables, leaves, huge);
    }
    forall p, level | p in leaves && 1 <= level <= 3
      ensures Grants(EntryOf(m', tables, TableOf(p, level)), leaves[p].flags)
    {
      PathInTree(root, tables, leaves, huge, p, 1);
      EntryHasParent(root, tables, leaves, huge, TableOf(p, level));
    }
  }

  /** Room for a new table: its parent is there, and nothing else in its place. */
  ghost predicate Vacant(tables: map<Node, nat>, huge: set<nat>, c: Node) {
    c !in tables && 1 <= c.level <= 3 && ParentOf(c) in tables && (c.level == 1 ==> c.prefix !in huge)
  }

  /** A new table, all zero, is entered in its parent. */
  lemma WiredTable(m: seq<Byte>, m': seq<Byte>, root: nat, tables: map<Node, nat>, leaves: map<nat, Leaf>,
                   huge: set<nat>,
                   c: Node, t: nat, w: nat)
    requires Wired(m, root, tables, leaves, huge) && Vacant(tables, huge, c)
    requires t !in tables.Values && LinksTo(w, t) && EntrySet(m, m', tables, c, w)
    requires forall i :: 0 <= i < 512 ==> Slot(m', t, i) == 0
    ensures Wired(m', root, tables[c := t], leaves, huge)
  {
    hide Slot, LinksTo, Encodes, IsLarge, Grants;
    TreeGrows(root, tables, leaves, huge, c, t);
    forall k | ParentOf(k) in tables[c := t]
      ensures EntryFits(EntryOf(m', tables[c := t], k), k, tables[c := t], leaves, huge)
    {
      TableKept(m, m', root, tables, leaves, huge, c, t, w, k);
    }
    forall p, level | p in leaves && 1 <= level <= 3
      ensures Grants(EntryOf(m', tables[c := t], TableOf(p, level)), leaves[p].flags)
    {
      PathInTree(root, tables, leaves, huge, p, 1);
      EntryHasParent(root, tables, leaves, huge, TableOf(p, level));
    }
  }

  lemma TreeGrows(root: nat, tables: map<Node, nat>, leaves: map<nat, Leaf>, huge: set<nat>, c: Node, t: nat)
    requires Tree(root, tables, leaves, huge) && Vacant(tables, huge, c) && t !in tables.Values
    ensures Tree(root, tables[c := t], leaves, huge)
  {
  }

  lemma TableKept(m: seq<Byte>, m': seq<Byte>, root: nat, tables: map<Node, nat>, leaves: map<nat, Leaf>,
                  huge: set<nat>,
                  c: Node, t: nat, w: nat, k: Node)
    requires Wired(m, root, tables, leaves, huge) && Vacant(tables, huge, c) && ParentOf(k) in tables[c := t]
    requires LinksTo(w, t) && EntrySet(m, m', tables, c, w) && forall i :: 0 <= i < 512 ==> Slot(m', t, i) == 0
    ensures EntryFits(EntryOf(m', tables[c := t], k), k, tables[c := t], leaves, huge)
  {
    hide Slot, LinksTo, Encodes, IsLarge, Grants;
    if ParentOf(k) == c {
      assert k.level == 0 ==> c == TableOf(k.prefix, 1);
      assert k !in tables;
    } else {
      assert EntryFits(EntryOf(m, tables, k), k, tables, leaves, huge);
    }
  }

  /** A new page is entered in its lowest table, under tables that allow what it allows. */
  lemma WiredLeaf(m: seq<Byte>, m': seq<Byte>, root: nat, tables: map<Node, nat>, leaves: map<nat, Leaf>,
                  huge: set<nat>,
                  page: nat, leaf: Leaf, w: nat)
    requires Wired(m, root, tables, leaves, huge) && page !in leaves && TableOf(page, 1) in tables
    requires Encodes(w, leaf) && EntrySet(m, m', tables, Node(0, page), w)
    requires forall level :: 1 <= level <= 3 ==> Grants(EntryOf(m, tables, TableOf(page, level)), leaf.flags)
    ensures Wired(m', root, tables, leaves[page := leaf], huge)
  {
    hide EntryOf, LinksTo, Encodes, IsLarge, Grants;
    forall k | ParentOf(k) in tables
      ensures EntryFits(EntryOf(m', tables, k), k, tables, leaves[page := leaf], huge)
    {
      assert EntryFits(EntryOf(m, tables, k), k, tables, leaves, huge);
    }
    forall p, level | p in leaves[page := leaf] && 1 <= level <= 3
      ensures Grants(EntryOf(m', tables, TableOf(p, level)), leaves[page := leaf][p].flags)
    {
      PathInTree(root, tables, leaves, huge, p, 1);
      EntryHasParent(root, tables, leaves, huge, TableOf(p, level));
    }
  }
}
