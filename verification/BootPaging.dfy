/** The page tables that the bootloader builds. A table is a node (level, prefix); mapping a
    page takes one frame from a fixed pool for every node on its path that is missing. */
module BootPaging {
  import opened Arith
  import opened Bits
  import opened Pmm
  import opened PageTables
  import opened Paging

  /** The bootloader's bump allocator. */
  class BumpAllocator {
    var next: nat
    var end: nat

    constructor (start: nat, pages: nat)
      requires start % PAGE_SIZE == 0
      ensures next == start && end == start + pages * PAGE_SIZE
      ensures Valid() && Left() == pages
    {
      next, end := start, start + pages * PAGE_SIZE;
    }

    ghost predicate Valid()
      reads this
    {
      next <= end && next % PAGE_SIZE == 0 && end % PAGE_SIZE == 0
    }

    twostate predicate Advances()
      reads this
    {
      end == old(end) && old(next) <= next
    }

    /** The frames that are left. */
    ghost function Left(): nat
      reads this
      requires Valid()
    {
      (end - next) / PAGE_SIZE
    }

    method AllocateFrame() returns (r: Option<nat>)
      requires Valid()
      modifies this
      ensures Valid() && Advances()
      ensures r.None? <==> old(Left()) == 0
      ensures r.None? ==> next == old(next) && Left() == 0
      ensures r.Some? ==> r.value == old(next) && next == r.value + PAGE_SIZE && Left() == old(Left()) - 1
    {
      if next >= end {
        return None;
      }
      r := Some(next);
      next := next + PAGE_SIZE;
    }
  }

  /** The tables on the way to a 4 KiB page and to a 2 MiB page. */
  function SmallPath(page: nat): set<Node> {
    {TableOf(page, 3), TableOf(page, 2), TableOf(page, 1)}
  }

  lemma PathIs(page: nat)
    ensures forall k :: k in SmallPath(page) <==>
      k == TableOf(page, 3) || k == TableOf(page, 2) || k == TableOf(page, 1)
  {
  }

  function HugePath(page: nat): set<Node> {
    {Node(3, page / 0x4_0000), Node(2, page / 512)}
  }

  lemma HugePathIs(page: nat)
    ensures forall k :: k in HugePath(page) <==> k == Node(3, page / 0x4_0000) || k == Node(2, page / 512)
  {
  }

  /** One of the pages is mapped already, on its own or as part of a 2 MiB page. */
  ghost predicate Clash(leaves: map<nat, nat>, huge: map<nat, nat>, first: nat, n: nat) {
    exists p: nat :: first <= p < first + n && (p in leaves || p / 512 in huge)
  }

  /** `n` pages from `first` on lead to consecutive frames from `frame` on. */
  ghost predicate Laid(leaves: map<nat, nat>, first: nat, n: nat, frame: nat) {
    forall p :: first <= p < first + n ==> p in leaves && leaves[p] == frame + p - first
  }

  /** No page was lost or moved. */
  ghost predicate Kept(leaves: map<nat, nat>, leaves': map<nat, nat>) {
    forall p :: p in leaves ==> p in leaves' && leaves'[p] == leaves[p]
  }

  /** The frames of the stack: all different, and all from the pool between `low` and `high`. */
  ghost predicate OwnFrames(leaves: map<nat, nat>, first: nat, n: nat, low: nat, high: nat) {
    && (forall p :: first <= p < first + n ==> p in leaves && low <= leaves[p] * PAGE_SIZE < high)
    && (forall p, q :: first <= p < q < first + n ==> leaves[p] < leaves[q])
  }

  lemma LaidKept(leaves: map<nat, nat>, leaves': map<nat, nat>, first: nat, n: nat, frame: nat)
    requires Kept(leaves, leaves')
    ensures Laid(leaves, first, n, frame) ==> Laid(leaves', first, n, frame)
  {
  }

  lemma KeptSame(leaves: map<nat, nat>)
    ensures Kept(leaves, leaves)
  {
  }

  lemma KeptNext(leaves: map<nat, nat>, leaves': map<nat, nat>, page: nat, frame: nat)
    requires Kept(leaves, leaves')
    ensures page !in leaves' ==> Kept(leaves, leaves'[page := frame])
  {
  }

  lemma OwnFramesNone(leaves: map<nat, nat>, first: nat, low: nat, high: nat)
    ensures OwnFrames(leaves, first, 0, low, high)
  {
  }

  lemma OwnFramesUpTo(leaves: map<nat, nat>, first: nat, n: nat, low: nat, high: nat, high': nat)
    requires OwnFrames(leaves, first, n, low, high) && high <= high'
    ensures OwnFrames(leaves, first, n, low, high')
  {
  }

  lemma OwnFramesFrom(leaves: map<nat, nat>, first: nat, n: nat, low: nat, low': nat, high: nat)
    requires OwnFrames(leaves, first, n, low', high) && low <= low'
    ensures OwnFrames(leaves, first, n, low, high)
  {
  }

  lemma OwnFramesNext(leaves: map<nat, nat>, first: nat, n: nat, low: nat, high: nat, frame: nat, high': nat)
    requires OwnFrames(leaves, first, n, low, high) && low <= high == frame * PAGE_SIZE < high'
    ensures OwnFrames(leaves[first + n := frame], first, n + 1, low, high')
  {
  }

  /** The frames of these pages are in `given`. */
  ghost predicate Given(leaves: map<nat, nat>, first: nat, n: nat, given: set<nat>) {
    forall p :: first <= p < first + n ==> p in leaves && leaves[p] in given
  }

  lemma GivenNone(leaves: map<nat, nat>, first: nat, given: set<nat>)
    ensures Given(leaves, first, 0, given)
  {
  }

  lemma GivenNext(leaves: map<nat, nat>, first: nat, n: nat, given: set<nat>, frame: nat)
    requires Given(leaves, first, n, given)
    ensures Given(leaves[first + n := frame], first, n + 1, given + {frame})
  {
  }

  lemma GivenKept(leaves: map<nat, nat>, leaves': map<nat, nat>, first: nat, n: nat, given: set<nat>)
    requires Kept(leaves, leaves')
    ensures Given(leaves, first, n, given) ==> Given(leaves', first, n, given)
  {
  }

  lemma OwnFramesKept(leaves: map<nat, nat>, leaves': map<nat, nat>, first: nat, n: nat, low: nat, high: nat)
    requires Kept(leaves, leaves')
    ensures OwnFrames(leaves, first, n, low, high) ==> OwnFrames(leaves', first, n, low, high)
  {
  }

  /** Root, tables and the frames in `given` lie below `next` and are all different. */
  ghost predicate FramesApart(root: nat, frames: map<Node, nat>, nodes: set<Node>, given: set<nat>, next: nat) {
    && root * PAGE_SIZE < next && frames.Keys == nodes
    && (forall n :: n in frames ==> root < frames[n] && frames[n] * PAGE_SIZE < next)
    && (forall n, k :: n in frames && k in frames && frames[n] == frames[k] ==> n == k)
    && (forall f :: f in given ==> root < f && f * PAGE_SIZE < next && f !in frames.Values)
  }

  /** The frame at `next` becomes a table. */
  lemma FramesGain(root: nat, frames: map<Node, nat>, nodes: set<Node>, given: set<nat>, next: nat, n: Node)
    requires FramesApart(root, frames, nodes, given, next) && next % PAGE_SIZE == 0 && n !in nodes
    ensures FramesApart(root, frames[n := next / PAGE_SIZE], nodes + {n}, given, next + PAGE_SIZE)
  {
    var f := next / PAGE_SIZE;
    assert f * PAGE_SIZE == next;
    assert forall k :: k in frames ==> frames[k] in frames.Values && frames[k] < f;
    forall g | g in given
      ensures g !in frames[n := f].Values
    {
      assert g < f;
    }
  }

  /** The frame at `next` is given to a page. */
  lemma FramesGive(root: nat, frames: map<Node, nat>, nodes: set<Node>, given: set<nat>, next: nat)
    requires FramesApart(root, frames, nodes, given, next) && next % PAGE_SIZE == 0
    ensures FramesApart(root, frames, nodes, given + {next / PAGE_SIZE}, next + PAGE_SIZE)
  {
    assert next / PAGE_SIZE * PAGE_SIZE == next;
  }

  /** Whatever is mapped has its tables. */
  ghost predicate HasTables(nodes: set<Node>, leaves: map<nat, nat>, huge: map<nat, nat>) {
    && (forall p :: p in leaves ==> SmallPath(p) <= nodes)
    && (forall p :: p in huge ==> HugePath(p) <= nodes)
  }

  lemma HasTablesGrows(nodes: set<Node>, nodes': set<Node>, leaves: map<nat, nat>, huge: map<nat, nat>)
    requires HasTables(nodes, leaves, huge) && nodes <= nodes'
    ensures HasTables(nodes', leaves, huge)
  {
    hide SmallPath, HugePath;
  }

  lemma HasTablesSmall(nodes: set<Node>, leaves: map<nat, nat>, huge: map<nat, nat>, page: nat, frame: nat)
    requires HasTables(nodes, leaves, huge) && SmallPath(page) <= nodes
    ensures HasTables(nodes, leaves[page := frame], huge)
  {
    hide SmallPath, HugePath;
  }

  lemma HasTablesHuge(nodes: set<Node>, leaves: map<nat, nat>, huge: map<nat, nat>, page: nat, frame: nat)
    requires HasTables(nodes, leaves, huge) && HugePath(page) <= nodes
    ensures HasTables(nodes, leaves, huge[page := frame])
  {
    hide SmallPath, HugePath;
  }

  class BootMapper {
    const pool: BumpAllocator
    const root: nat               // frame of the level-4 table
    var nodes: set<Node>
    var frames: map<Node, nat>    // the frame of every table
    var leaves: map<nat, nat>     // 4 KiB page to frame
    var huge: map<nat, nat>       // 2 MiB page to 2 MiB frame
    ghost var given: set<nat>     // frames of the pool that pages were given

    constructor (pool: BumpAllocator, root: nat)
      requires root * PAGE_SIZE < pool.next
      ensures this.pool == pool && this.root == root
      ensures nodes == {} && leaves == map[] && huge == map[] && given == {} && Sound()
    {
      this.pool, this.root := pool, root;
      nodes, frames, leaves, huge, given := {}, map[], map[], map[], {};
    }

    /** Root, tables and the pages of the stack have frames of their own, and whatever is mapped has
        its tables. */
    ghost predicate Sound()
      reads this, pool
    {
      FramesApart(root, frames, nodes, given, pool.next) && HasTables(nodes, leaves, huge)
    }

    /** Frames left and tables made: constant, as every frame taken becomes a table. */
    ghost function Account(): nat
      reads this, pool
      requires pool.Valid()
    {
      pool.Left() + |nodes|
    }

    method EnsureTable(n: Node) returns (ok: bool)
      requires pool.Valid() && Sound()
      modifies this`nodes, this`frames, pool
      ensures pool.Valid() && Sound() && pool.Advances() && Account() == old(Account())
      ensures ok ==> nodes == old(nodes) + {n}
      ensures !ok ==> nodes == old(nodes) && n !in nodes && pool.Left() == 0
    {
      hide FramesApart, HasTables;
      if n in nodes {
        return true;
      }
      FramesGain(root, frames, nodes, given, pool.next, n);
      HasTablesGrows(nodes, nodes + {n}, leaves, huge);
      var f := pool.AllocateFrame();
      if f.None? {
        return false;
      }
      nodes, frames := nodes + {n}, frames[n := f.value / PAGE_SIZE];
      return true;
    }

    method EnsureTwo(a: Node, b: Node) returns (ok: bool)
      requires pool.Valid() && Sound()
      modifies this`nodes, this`frames, pool
      ensures pool.Valid() && Sound() && pool.Advances() && Account() == old(Account()) && old(nodes) <= nodes
      ensures forall k :: k in nodes ==> k in old(nodes) || k == a || k == b
      ensures ok ==> a in nodes && b in nodes
      ensures !ok ==> (a !in nodes || b !in nodes) && pool.Left() == 0
    {
      hide BumpAllocator.Left, BumpAllocator.Valid, BootMapper.Sound, BootMapper.Account;
      ok := EnsureTable(a);
      if ok {
        ok := EnsureTable(b);
      }
    }

    method PutLeaf(page: nat, frame: nat)
      requires pool.Valid() && Sound() && SmallPath(page) <= nodes
      modifies this`leaves
      ensures Sound() && leaves == old(leaves)[page := frame] && Account() == old(Account())
    {
      hide SmallPath, FramesApart, HasTables;
      HasTablesSmall(nodes, leaves, huge, page, frame);
      leaves := leaves[page := frame];
    }

    method PutHuge(page: nat, frame: nat)
      requires pool.Valid() && Sound() && HugePath(page) <= nodes
      modifies this`huge
      ensures Sound() && huge == old(huge)[page := frame] && Account() == old(Account())
    {
      hide HugePath, FramesApart, HasTables;
      HasTablesHuge(nodes, leaves, huge, page, frame);
      huge := huge[page := frame];
    }

    /** `map_to` for a 4 KiB page. */
    method MapSmall(page: nat, frame: nat) returns (r: MapResult)
      requires pool.Valid() && Sound()
      modifies this, pool
      ensures pool.Valid() && Sound() && pool.Advances() && Account() == old(Account()) && huge == old(huge)
      ensures given == old(given) && old(nodes) <= nodes <= old(nodes) + SmallPath(page)
      ensures r == NoFrame ==> pool.Left() == 0 && !(SmallPath(page) <= nodes)
      ensures r == ParentHuge ==> page / 512 in huge
      ensures r == AlreadyMapped ==> page in old(leaves)
      ensures r == Mapped ==> page !in old(leaves) && leaves == old(leaves)[page := frame] && SmallPath(page) <= nodes
      ensures r != Mapped ==> leaves == old(leaves)
    {
      PathIs(page);
      hide SmallPath, TableOf, BumpAllocator.Left, BumpAllocator.Valid, BootMapper.Sound, BootMapper.Account;
      var ok := EnsureTwo(TableOf(page, 3), TableOf(page, 2));
      if !ok { return NoFrame; }
      r := MapLowest(page, frame);
    }

    /** The last level, once the two above are there. */
    method MapLowest(page: nat, frame: nat) returns (r: MapResult)
      requires pool.Valid() && Sound() && TableOf(page, 3) in nodes && TableOf(page, 2) in nodes
      modifies this, pool
      ensures pool.Valid() && Sound() && pool.Advances() && Account() == old(Account()) && huge == old(huge)
      ensures given == old(given) && old(nodes) <= nodes <= old(nodes) + {TableOf(page, 1)}
      ensures r == NoFrame ==> pool.Left() == 0 && TableOf(page, 1) !in nodes
      ensures r == ParentHuge ==> page / 512 in huge
      ensures r == AlreadyMapped ==> page in old(leaves)
      ensures r == Mapped ==> page !in old(leaves) && leaves == old(leaves)[page := frame] && TableOf(page, 1) in nodes
      ensures r != Mapped ==> leaves == old(leaves)
    {
      PathIs(page);
      hide SmallPath, TableOf, BumpAllocator.Left, BumpAllocator.Valid, BootMapper.Sound, BootMapper.Account;
      if page / 512 in huge { return ParentHuge; }
      var ok := EnsureTable(TableOf(page, 1));
      if !ok { return NoFrame; }
      if page in leaves { return AlreadyMapped; }
      PutLeaf(page, frame);
      return Mapped;
    }

    /** `map_to` for a 2 MiB page. */
    method MapHuge(page: nat, frame: nat) returns (r: MapResult)
      requires pool.Valid() && Sound()
      modifies this, pool
      ensures pool.Valid() && Sound() && pool.Advances() && Account() == old(Account()) && leaves == old(leaves)
      ensures given == old(given) && old(nodes) <= nodes <= old(nodes) + HugePath(page)
      ensures r == NoFrame ==> pool.Left() == 0 && !(HugePath(page) <= nodes)
      ensures r == AlreadyMapped ==> page in old(huge) || Node(1, page) in old(nodes)
      ensures r == Mapped ==> page !in old(huge) && huge == old(huge)[page := frame] && HugePath(page) <= nodes
      ensures r != Mapped ==> huge == old(huge)
      ensures r != ParentHuge
    {
      var n3, n2 := Node(3, page / 0x4_0000), Node(2, page / 512);
      HugePathIs(page);
      hide HugePath, BumpAllocator.Left, BumpAllocator.Valid, BootMapper.Sound, BootMapper.Account;
      var ok := EnsureTwo(n3, n2);
      if !ok { return NoFrame; }
      if page in huge || Node(1, page) in nodes { return AlreadyMapped; }
      PutHuge(page, frame);
      return Mapped;
    }

    /** The direct map of the first `n` 2 MiB frames, from page `first` on. Errors are dropped.
        The map is complete exactly if the pool can pay for the tables that are missing. */
    method MapHhdm(first: nat, n: nat)
      requires pool.Valid() && Sound()
      requires forall p :: first <= p < first + n ==> p !in huge && Node(1, p) !in nodes
      modifies this, pool
      ensures pool.Valid() && Sound() && pool.Advances() && Account() == old(Account()) && leaves == old(leaves)
      ensures given == old(given) && old(nodes) <= nodes <= old(nodes) + HugeNeed(first, n)
      ensures forall p :: p in huge && p !in old(huge) ==> first <= p < first + n && huge[p] == p - first
      ensures forall p :: p in old(huge) ==> p in huge && huge[p] == old(huge)[p]
      ensures (forall p :: first <= p < first + n ==>
        p in huge) <==> |HugeNeed(first, n) - old(nodes)| <= old(pool.Left())
    {
      hide LevelNodes, HugeNeed, HugePath, FramesApart, HasTables;
      ghost var nodes0, left0 := nodes, pool.Left();
      ghost var enough := |HugeNeed(first, n) - nodes0| <= left0;
      NeedNothing(first);
      for i := 0 to n
        invariant pool.Valid() && Sound() && pool.Advances() && Account() == old(Account()) && leaves == old(leaves)
        invariant given == old(given) && nodes0 <= nodes <= nodes0 + HugeNeed(first, i)
        invariant forall p :: p in huge && p !in old(huge) ==> first <= p < first + i && huge[p] == p - first
        invariant forall p :: p in old(huge) ==> p in huge && huge[p] == old(huge)[p]
        invariant forall p :: first <= p < first + i && p in huge ==> HugePath(p) <= nodes
        invariant enough ==> forall p :: first <= p < first + i ==> p in huge
      {
        NeedLevels(first, i);
        NeedSteps(first, i);
        NeedGrows(first, i + 1, n);
        var r := MapHuge(first + i, i);
        if enough && r == NoFrame {
          Starved(nodes0, nodes, HugeNeed(first, n), HugePath(first + i), left0);
        }
      }
      if forall p :: first <= p < first + n ==> p in huge {
        NeedCovered(first, n, nodes);
        SubsetSize(HugeNeed(first, n) - nodes0, nodes - nodes0);
        assert |nodes - nodes0| == |nodes| - |nodes0|;
      }
    }

    /** Maps `n` pages from `first` on to consecutive frames; the first error stops the
        bootloader. `b` is any set of tables that covers what is there and what is needed. */
    method MapPages(first: nat, n: nat, frame: nat, ghost b: set<Node>) returns (ok: bool)
      requires pool.Valid() && Sound() && nodes <= b && SmallNeed(first, n) <= b
      modifies this, pool
      ensures pool.Valid() && Sound() && pool.Advances() && Account() == old(Account()) && huge == old(huge)
      ensures nodes <= b
      ensures given == old(given) && old(nodes) <= nodes <= old(nodes) + SmallNeed(first, n)
      ensures forall p :: p in leaves ==> p in old(leaves) || first <= p < first + n
      ensures ok ==> Laid(leaves, first, n, frame)
      ensures Kept(old(leaves), leaves)
      ensures !ok && !Clash(old(leaves), huge, first, n) ==> pool.Left() == 0 && |nodes| < |b|
    {
      hide LevelNodes, SmallNeed, SmallPath, FramesApart, HasTables;
      SmallNothing(first);
      for i := 0 to n
        invariant pool.Valid() && Sound() && pool.Advances() && Account() == old(Account()) && huge == old(huge)
        invariant nodes <= b
        invariant given == old(given) && old(nodes) <= nodes <= old(nodes) + SmallNeed(first, i)
        invariant forall p :: p in leaves ==> p in old(leaves) || first <= p < first + i
        invariant Laid(leaves, first, i, frame)
        invariant Kept(old(leaves), leaves)
      {
        SmallSteps(first, i);
        SmallGrows(first, i + 1, n);
        var r := MapSmall(first + i, frame + i);
        if r != Mapped {
          if r == NoFrame {
            ProperSize(nodes, b, SmallPath(first + i));
          }
          return false;
        }
      }
      return true;
    }

    /** Maps pages to themselves and drops every error: a page is missed only where another one
        is in the way or the pool is empty. */
    method MapIdentity(first: nat, n: nat, ghost b: set<Node>)
      requires pool.Valid() && Sound() && nodes <= b && SmallNeed(first, n) <= b
      modifies this, pool
      ensures pool.Valid() && Sound() && pool.Advances() && Account() == old(Account()) && huge == old(huge)
      ensures nodes <= b
      ensures given == old(given) && old(nodes) <= nodes <= old(nodes) + SmallNeed(first, n)
      ensures forall p :: p in leaves ==> p in old(leaves) || first <= p < first + n
      ensures Kept(old(leaves), leaves)
      ensures Laid(leaves, first, n, first) || Clash(old(leaves), huge, first, n) || (pool.Left() == 0 && |nodes| < |b|)
    {
      hide LevelNodes, SmallNeed, SmallPath, FramesApart, HasTables;
      SmallNothing(first);
      for i := 0 to n
        invariant pool.Valid() && Sound() && pool.Advances() && Account() == old(Account()) && huge == old(huge)
        invariant nodes <= b
        invariant given == old(given) && old(nodes) <= nodes <= old(nodes) + SmallNeed(first, i)
        invariant forall p :: p in leaves ==> p in old(leaves) || first <= p < first + i
        invariant Kept(old(leaves), leaves)
        invariant Laid(leaves, first, i, first) || Clash(old(leaves), huge, first, n)
                  || (pool.Left() == 0 && |nodes| < |b|)
      {
        SmallSteps(first, i);
        SmallGrows(first, i + 1, n);
        ghost var nodes0 := nodes;
        var r := MapSmall(first + i, first + i);
        SubsetSize(nodes0, nodes);
        if r == NoFrame {
          ProperSize(nodes, b, SmallPath(first + i));
        }
      }
    }

    /** The kernel stack: a frame of its own from the pool for every page. */
    method MapStack(first: nat, n: nat, ghost b: set<Node>) returns (ok: bool)
      requires pool.Valid() && Sound() && nodes <= b && SmallNeed(first, n) <= b
      modifies this, pool
      ensures pool.Valid() && Sound() && pool.Advances() && huge == old(huge) && nodes <= b
      ensures old(nodes) <= nodes <= old(nodes) + SmallNeed(first, n)
      ensures forall p :: p in leaves ==> p in old(leaves) || first <= p < first + n
      ensures ok ==> Account() + n == old(Account()) && OwnFrames(leaves, first, n, old(pool.next), pool.end)
      ensures ok ==> Given(leaves, first, n, given)
      ensures Kept(old(leaves), leaves)
      ensures !ok && !Clash(old(leaves), huge, first, n) ==>
        pool.Left() == 0 && Account() + n >= old(Account()) && (Account() + n > old(Account()) || |nodes| < |b|)
    {
      hide LevelNodes, SmallNeed, SmallPath, OwnFrames, Kept, Given, BumpAllocator.Left, FramesApart, HasTables;
      SmallNothing(first);
      OwnFramesNone(leaves, first, pool.next, pool.next);
      GivenNone(leaves, first, given);
      KeptSame(leaves);
      for i := 0 to n
        invariant pool.Valid() && Sound() && pool.Advances() && Account() + i == old(Account())
        invariant huge == old(huge) && nodes <= b
        invariant old(nodes) <= nodes <= old(nodes) + SmallNeed(first, i)
        invariant forall p :: p in leaves ==> p in old(leaves) || first <= p < first + i
        invariant OwnFrames(leaves, first, i, old(pool.next), pool.next) && Given(leaves, first, i, given)
        invariant Kept(old(leaves), leaves)
      {
        SmallSteps(first, i);
        SmallGrows(first, i + 1, n);
        ghost var was, next := leaves, pool.next;
        GivenNext(leaves, first, i, given, next / PAGE_SIZE);
        var r := MapStackPage(first + i);
        if r.None? {
          return false;
        }
        if r.value != Mapped {
          if r.value == NoFrame {
            ProperSize(nodes, b, SmallPath(first + i));
          }
          return false;
        }
        OwnFramesNext(was, first, i, old(pool.next), next, next / PAGE_SIZE, pool.next);
        KeptNext(old(leaves), was, first + i, next / PAGE_SIZE);
      }
      OwnFramesUpTo(leaves, first, n, old(pool.next), pool.next, pool.end);
      return true;
    }

    /** One page of the stack: takes a frame, or None, then maps it. */
    method MapStackPage(page: nat) returns (r: Option<MapResult>)
      requires pool.Valid() && Sound()
      modifies this, pool
      ensures pool.Valid() && Sound() && pool.Advances() && huge == old(huge)
      ensures old(nodes) <= nodes <= old(nodes) + SmallPath(page)
      ensures r.None? ==> pool.Left() == 0 && Account() == old(Account()) && nodes == old(nodes)
      ensures r.Some? ==> Account() + 1 == old(Account())
      ensures r != Some(Mapped) ==> leaves == old(leaves)
      ensures r == Some(NoFrame) ==> pool.Left() == 0 && !(SmallPath(page) <= nodes)
      ensures r == Some(ParentHuge) ==> page / 512 in huge
      ensures r == Some(AlreadyMapped) ==> page in old(leaves)
      ensures r == Some(Mapped) ==> page !in old(leaves) && leaves == old(leaves)[page := old(pool.next) / PAGE_SIZE]
      ensures r == Some(Mapped) ==> given == old(given) + {old(pool.next) / PAGE_SIZE} && old(pool.next) < pool.next
    {
      hide SmallPath, FramesApart, HasTables, BumpAllocator.Left;
      FramesGive(root, frames, nodes, given, pool.next);
      var f := pool.AllocateFrame();
      if f.None? {
        return None;
      }
      given := given + {f.value / PAGE_SIZE};
      var m := MapSmall(page, f.value / PAGE_SIZE);
      return Some(m);
    }
  }

  /** The tables of one level over `n` consecutive pages; a table covers `d` pages. */
  ghost function LevelNodes(level: nat, first: nat, n: nat, d: nat): set<Node>
    requires d > 0
  {
    if n == 0 then {} else LevelNodes(level, first, n - 1, d) + {Node(level, (first + n - 1) / d)}
  }

  /** The tables that `n` consecutive 2 MiB pages need. */
  ghost function HugeNeed(first: nat, n: nat): set<Node> {
    LevelNodes(3, first, n, 0x4_0000) + LevelNodes(2, first, n, 512)
  }

  /** The tables that `n` consecutive 4 KiB pages need. */
  ghost function SmallNeed(first: nat, n: nat): set<Node> {
    LevelNodes(3, first, n, 0x800_0000) + LevelNodes(2, first, n, 0x4_0000) + LevelNodes(1, first, n, 512)
  }

  /** Page `p` lies under the table with that prefix, where a table covers `d` pages. */
  predicate Under(p: nat, d: nat, prefix: nat)
    requires d > 0
  {
    p / d == prefix
  }

  /** The tables of a level are those that have one of the pages under them. */
  lemma {:induction false} LevelIs(level: nat, first: nat, n: nat, d: nat, m: Node)
    requires d > 0
    ensures m in LevelNodes(level, first, n, d) <==>
      m.level == level && exists p :: first <= p < first + n && Under(p, d, m.prefix)
  {
    if n > 0 {
      LevelIs(level, first, n - 1, d, m);
      assert m == Node(level, (first + n - 1) / d) ==> Under(first + n - 1, d, m.prefix);
    }
  }

  /** What 4 KiB pages need: at levels 1, 2 and 3, tables that cover 512, 512^2 and 512^3 pages. */
  lemma SmallNeedIs(first: nat, n: nat, m: Node)
    ensures m in SmallNeed(first, n) <==>
      || (m.level == 1 && exists p :: first <= p < first + n && Under(p, 512, m.prefix))
      || (m.level == 2 && exists p :: first <= p < first + n && Under(p, 0x4_0000, m.prefix))
      || (m.level == 3 && exists p :: first <= p < first + n && Under(p, 0x800_0000, m.prefix))
  {
    hide LevelNodes, Under;
    LevelIs(1, first, n, 512, m);
    LevelIs(2, first, n, 0x4_0000, m);
    LevelIs(3, first, n, 0x800_0000, m);
  }

  /** What 2 MiB pages need: at levels 2 and 3, tables that cover 512 and 512^2 of them. */
  lemma HugeNeedIs(first: nat, n: nat, m: Node)
    ensures m in HugeNeed(first, n) <==>
      || (m.level == 2 && exists p :: first <= p < first + n && Under(p, 512, m.prefix))
      || (m.level == 3 && exists p :: first <= p < first + n && Under(p, 0x4_0000, m.prefix))
  {
    hide LevelNodes, Under;
    LevelIs(2, first, n, 512, m);
    LevelIs(3, first, n, 0x4_0000, m);
  }

  /** A single page needs one table of each level. */
  lemma PathSizes(page: nat)
    ensures |SmallPath(page)| == 3 && |HugePath(page)| == 2
  {
    var a, b, c := TableOf(page, 3), TableOf(page, 2), TableOf(page, 1);
    assert |{a, b}| == 2 && SmallPath(page) == {a, b} + {c} && c !in {a, b};
  }

  lemma {:induction false} LevelOnly(level: nat, first: nat, n: nat, d: nat, m: Node)
    requires d > 0 && m in LevelNodes(level, first, n, d)
    ensures m.level == level && n > 0 && m.prefix <= (first + n - 1) / d
  {
    if m in LevelNodes(level, first, n - 1, d) {
      LevelOnly(level, first, n - 1, d, m);
      DivGrows(first + n - 2, d);
    }
  }

  lemma DivGrows(a: nat, d: nat)
    requires d > 0
    ensures (a + 1) / d == a / d || (a + 1) / d == a / d + 1
  {
    DivBounds(a, d);
    DivNext(a, d, a / d);
  }

  lemma DivNext(a: nat, d: nat, q: nat)
    requires d > 0 && q * d <= a < q * d + d
    ensures (a + 1) / d == q || (a + 1) / d == q + 1
  {
    MulStep(q, d);
    if a + 1 < q * d + d {
      DivIs(a + 1, d, q);
    } else {
      DivIs(a + 1, d, q + 1);
    }
  }

  /** The number of tables of one level: the number of quotients in the range. */
  function Span(first: nat, n: nat, d: nat): nat
    requires d > 0
  {
    if n == 0 then 0 else if (first + n - 1) / d < first / d then 0 else (first + n - 1) / d - first / d + 1
  }

  lemma {:induction false} LevelSize(level: nat, first: nat, n: nat, d: nat)
    requires d > 0
    ensures |LevelNodes(level, first, n, d)| == Span(first, n, d)
    ensures n > 0 ==> first / d <= (first + n - 1) / d
  {
    if n > 1 {
      LevelSize(level, first, n - 1, d);
      DivGrows(first + n - 2, d);
      var last := Node(level, (first + n - 1) / d);
      if (first + n - 1) / d == (first + n - 2) / d {
        assert last in LevelNodes(level, first, n - 1, d);
      } else if last in LevelNodes(level, first, n - 1, d) {
        LevelOnly(level, first, n - 1, d, last);
      }
    } else if n == 1 {
      assert LevelNodes(level, first, 0, d) == {};
    }
  }

  lemma NeedLevels(first: nat, n: nat)
    ensures forall m :: m in HugeNeed(first, n) ==> m.level == 2 || m.level == 3
  {
    forall m | m in HugeNeed(first, n)
      ensures m.level == 2 || m.level == 3
    {
      if m in LevelNodes(3, first, n, 0x4_0000) {
        LevelOnly(3, first, n, 0x4_0000, m);
      } else {
        LevelOnly(2, first, n, 512, m);
      }
    }
  }

  lemma NeedSteps(first: nat, n: nat)
    ensures HugeNeed(first, n + 1) == HugeNeed(first, n) + HugePath(first + n)
  {
  }

  lemma {:induction false} LevelGrows(level: nat, first: nat, n: nat, n': nat, d: nat)
    requires d > 0 && n <= n'
    ensures LevelNodes(level, first, n, d) <= LevelNodes(level, first, n', d)
    decreases n'
  {
    if n < n' {
      LevelGrows(level, first, n, n' - 1, d);
    }
  }

  lemma NeedGrows(first: nat, n: nat, n': nat)
    requires n <= n'
    ensures HugeNeed(first, n) <= HugeNeed(first, n')
  {
    LevelGrows(3, first, n, n', 0x4_0000);
    LevelGrows(2, first, n, n', 512);
  }

  lemma NeedNothing(first: nat)
    ensures HugeNeed(first, 0) == {}
  {
  }

  lemma {:induction false} NeedCovered(first: nat, n: nat, nodes: set<Node>)
    requires forall p :: first <= p < first + n ==> HugePath(p) <= nodes
    ensures HugeNeed(first, n) <= nodes
  {
    if n > 0 {
      NeedCovered(first, n - 1, nodes);
      NeedSteps(first, n - 1);
      assert HugePath(first + n - 1) <= nodes;
    }
  }

  /** A pool that can pay for every missing table is not empty while one is missing. */
  lemma Starved(nodes0: set<Node>, nodes: set<Node>, need: set<Node>, path: set<Node>, left0: nat)
    requires nodes0 <= nodes <= nodes0 + need && path <= need && !(path <= nodes)
    requires |nodes| == left0 + |nodes0|
    ensures |need - nodes0| > left0
  {
    var m :| m in path && m !in nodes;
    SubsetSize((nodes - nodes0) + {m}, need - nodes0);
    assert |nodes - nodes0| == |nodes| - |nodes0|;
    assert |(nodes - nodes0) + {m}| == |nodes - nodes0| + 1;
  }

  lemma SmallNothing(first: nat)
    ensures SmallNeed(first, 0) == {}
  {
  }

  lemma SmallSteps(first: nat, n: nat)
    ensures SmallNeed(first, n + 1) == SmallNeed(first, n) + SmallPath(first + n)
  {
  }

  lemma SmallGrows(first: nat, n: nat, n': nat)
    requires n <= n'
    ensures SmallNeed(first, n) <= SmallNeed(first, n')
  {
    LevelGrows(3, first, n, n', 0x800_0000);
    LevelGrows(2, first, n, n', 0x4_0000);
    LevelGrows(1, first, n, n', 512);
  }

  lemma ProperSize(nodes: set<Node>, b: set<Node>, path: set<Node>)
    requires nodes <= b && path <= b && !(path <= nodes)
    ensures |nodes| < |b|
  {
    var m :| m in path && m !in nodes;
    SubsetSize(nodes + {m}, b);
  }

  const POOL_SIZE: nat := 1024
  const HHDM_PAGE: nat := 0x400_0000          // 2 MiB page of 0xffff_8000_0000_0000, on 48 bits
  const KERNEL_PAGE: nat := 0xF_FFF8_0000     // 4 KiB page of 0xffff_ffff_8000_0000
  const STACK_PAGES: nat := 5
  const STACK_PAGE: nat := KERNEL_PAGE - 6    // 20 KiB that end one page below the kernel
  const FRAMEBUFFER_PAGE: nat := 0xA_0000_0000
  const TRAMPOLINE_PAGES: nat := 512

  /** The places in the address space, on its 48 bits: the direct map, the kernel, its stack of 20 KiB
      that ends one page below, and the framebuffer; and the size of the pool. */
  lemma BootLayout()
    ensures HHDM_PAGE * 0x20_0000 == 0xffff_8000_0000_0000 % 0x1_0000_0000_0000
    ensures KERNEL_PAGE * 4096 == 0xffff_ffff_8000_0000 % 0x1_0000_0000_0000
    ensures (STACK_PAGE + STACK_PAGES) * 4096 == (0xffff_ffff_8000_0000 - 0x1000) % 0x1_0000_0000_0000
    ensures STACK_PAGES * 4096 == 20 * 1024 && TRAMPOLINE_PAGES == 512 && POOL_SIZE == 1024
    ensures FRAMEBUFFER_PAGE * 4096 == 0xffff_a000_0000_0000 % 0x1_0000_0000_0000
  {
  }

  /** A kernel segment in pages: where it goes, how long it is and where it was loaded. */
  datatype SegmentPages = SegmentPages(first: nat, n: nat, frame: nat) {
    predicate Has(p: nat) { first <= p < first + n }

    predicate Beside(s: SegmentPages) { first + n <= s.first || s.first + s.n <= first }

    ghost predicate Placed(leaves: map<nat, nat>) { Laid(leaves, first, n, frame) }
  }

  /** What the bootloader has to map: the kernel, physical memory in 2 MiB frames, the code it
      runs itself and the framebuffer. */
  datatype Plan = Plan(segs: seq<SegmentPages>, memory: nat, rip: nat, fbFrame: nat, fbPages: nat)

  ghost function SegmentsNeed(segs: seq<SegmentPages>): set<Node> {
    if segs == [] then {} else SegmentsNeed(segs[..|segs| - 1]) + SmallNeed(segs[|segs| - 1].first, segs[|segs| - 1].n)
  }

  /** All the tables of the plan. */
  ghost function Budget(p: Plan): set<Node> {
    SegmentsNeed(p.segs) + SmallNeed(STACK_PAGE, STACK_PAGES) + HugeNeed(HHDM_PAGE, p.memory)
    + SmallNeed(p.rip, TRAMPOLINE_PAGES) + SmallNeed(FRAMEBUFFER_PAGE, p.fbPages)
  }

  /** The address space layout: the kernel at the top, its segments on different pages, the
      trampoline in the lower half, the framebuffer between the direct map and the kernel. */
  ghost predicate LaidOut(p: Plan) {
    && (forall i :: 0 <= i < |p.segs| ==> KERNEL_PAGE <= p.segs[i].first)
    && (forall i, j :: 0 <= i < j < |p.segs| ==> p.segs[i].Beside(p.segs[j]))
    && p.memory <= 0x100_0000
    && p.rip + TRAMPOLINE_PAGES <= 0x8_0000_0000
    && FRAMEBUFFER_PAGE + p.fbPages <= STACK_PAGE
  }

  lemma {:induction false} SegmentsNeedPart(segs: seq<SegmentPages>, k: nat)
    requires k <= |segs|
    ensures SegmentsNeed(segs[..k]) <= SegmentsNeed(segs)
    ensures k < |segs| ==> SmallNeed(segs[k].first, segs[k].n) <= SegmentsNeed(segs)
  {
    if k < |segs| {
      var init := segs[..|segs| - 1];
      if k < |init| {
        SegmentsNeedPart(init, k);
        assert init[..k] == segs[..k];
      }
    } else {
      assert segs[..k] == segs;
    }
  }

  lemma SegmentsNeedNext(segs: seq<SegmentPages>, k: nat)
    requires k < |segs|
    ensures SegmentsNeed(segs[..k + 1]) == SegmentsNeed(segs[..k]) + SmallNeed(segs[k].first, segs[k].n)
  {
    hide SmallNeed;
    assert segs[..k + 1][..k] == segs[..k];
  }

  /** Every page mapped so far belongs to one of the first `k` segments. */
  ghost predicate Covered(leaves: map<nat, nat>, segs: seq<SegmentPages>, k: nat)
    requires k <= |segs|
  {
    forall p :: p in leaves ==> exists i :: 0 <= i < k && segs[i].Has(p)
  }

  lemma CoveredNone(segs: seq<SegmentPages>)
    ensures Covered(map[], segs, 0)
  {
  }

  lemma CoveredNext(leaves: map<nat, nat>, leaves': map<nat, nat>, segs: seq<SegmentPages>, k: nat)
    requires k < |segs| && Covered(leaves, segs, k)
    requires forall p :: p in leaves' ==> p in leaves || segs[k].first <= p < segs[k].first + segs[k].n
    ensures Covered(leaves', segs, k + 1)
  {
    forall p | p in leaves'
      ensures exists i :: 0 <= i < k + 1 && segs[i].Has(p)
    {
      if p !in leaves {
        assert segs[k].Has(p);
      }
    }
  }

  lemma NoClash(leaves: map<nat, nat>, segs: seq<SegmentPages>, k: nat)
    requires k < |segs| && Covered(leaves, segs, k)
    requires forall i, j :: 0 <= i < j < |segs| ==> segs[i].Beside(segs[j])
    ensures !Clash(leaves, map[], segs[k].first, segs[k].n)
  {
  }

  /** The kernel segments. Pages of different segments never clash, so only an empty pool fails. */
  method MapSegments(m: BootMapper, segs: seq<SegmentPages>, ghost b: set<Node>) returns (ok: bool)
    requires m.pool.Valid() && m.Sound() && m.nodes <= b && SegmentsNeed(segs) <= b && m.leaves == map[]
    requires m.huge == map[]
    requires forall i :: 0 <= i < |segs| ==> KERNEL_PAGE <= segs[i].first
    requires forall i, j :: 0 <= i < j < |segs| ==> segs[i].Beside(segs[j])
    modifies m, m.pool
    ensures m.pool.Valid() && m.Sound() && m.pool.Advances() && m.Account() == old(m.Account()) && m.huge == map[]
    ensures m.nodes <= b
    ensures m.nodes <= old(m.nodes) + SegmentsNeed(segs)
    ensures forall p :: p in m.leaves ==> KERNEL_PAGE <= p
    ensures ok ==> forall i :: 0 <= i < |segs| ==> segs[i].Placed(m.leaves)
    ensures !ok ==> m.pool.Left() == 0 && |m.nodes| < |b|
  {
    hide SmallNeed, Laid, Covered, Clash, SegmentPages.Beside, BumpAllocator.Left, BootMapper.Sound, Kept;
    CoveredNone(segs);
    assert segs[..0] == [];
    for k := 0 to |segs|
      invariant m.pool.Valid() && m.Sound() && m.pool.Advances() && m.Account() == old(m.Account())
      invariant m.huge == map[] && m.nodes <= b
      invariant m.nodes <= old(m.nodes) + SegmentsNeed(segs[..k])
      invariant forall p :: p in m.leaves ==> KERNEL_PAGE <= p
      invariant Covered(m.leaves, segs, k)
      invariant forall i :: 0 <= i < k ==> segs[i].Placed(m.leaves)
    {
      SegmentsNeedPart(segs, k);
      SegmentsNeedPart(segs, k + 1);
      SegmentsNeedNext(segs, k);
      NoClash(m.leaves, segs, k);
      ghost var leaves := m.leaves;
      ok := m.MapPages(segs[k].first, segs[k].n, segs[k].frame, b);
      if !ok {
        return;
      }
      CoveredNext(leaves, m.leaves, segs, k);
      forall i | 0 <= i < k
        ensures segs[i].Placed(m.leaves)
      {
        LaidKept(leaves, m.leaves, segs[i].first, segs[i].n, segs[i].frame);
      }
    }
    assert segs[..|segs|] == segs;
    return true;
  }

  lemma {:induction false} LevelLower(level: nat, first: nat, n: nat, d: nat, m: Node)
    requires d > 0 && m in LevelNodes(level, first, n, d)
    ensures first / d <= m.prefix
  {
    LevelSize(level, first, n, d);
    if m in LevelNodes(level, first, n - 1, d) {
      LevelLower(level, first, n - 1, d, m);
    }
  }

  /** The lowest level of a range of pages starts where the range starts. */
  lemma SmallLower(first: nat, n: nat, prefix: nat)
    requires Node(1, prefix) in SmallNeed(first, n)
    ensures first / 512 <= prefix
  {
    var m := Node(1, prefix);
    if m in LevelNodes(3, first, n, 0x800_0000) {
      LevelOnly(3, first, n, 0x800_0000, m);
    } else if m in LevelNodes(2, first, n, 0x4_0000) {
      LevelOnly(2, first, n, 0x4_0000, m);
    } else {
      LevelLower(1, first, n, 512, m);
    }
  }

  lemma {:induction false} SegmentsLower(segs: seq<SegmentPages>, prefix: nat)
    requires forall i :: 0 <= i < |segs| ==> KERNEL_PAGE <= segs[i].first
    requires Node(1, prefix) in SegmentsNeed(segs)
    ensures KERNEL_PAGE / 512 <= prefix
  {
    hide SmallNeed;
    var last := segs[|segs| - 1];
    if Node(1, prefix) in SmallNeed(last.first, last.n) {
      SmallLower(last.first, last.n, prefix);
    } else {
      SegmentsLower(segs[..|segs| - 1], prefix);
    }
  }

  /** The physical address behind an address of the direct map. */
  function HhdmTranslate(huge: map<nat, nat>, p: nat): Option<nat> {
    var page := HHDM_PAGE + p / 0x20_0000;
    if page in huge then Some(huge[page] * 0x20_0000 + p % 0x20_0000) else None
  }

  lemma HhdmIdentity(huge: map<nat, nat>, n: nat)
    requires forall q :: HHDM_PAGE <= q < HHDM_PAGE + n ==> q in huge && huge[q] == q - HHDM_PAGE
    ensures forall p :: 0 <= p < n * 0x20_0000 ==> HhdmTranslate(huge, p) == Some(p)
  {
    forall p | 0 <= p < n * 0x20_0000
      ensures HhdmTranslate(huge, p) == Some(p)
    {
      assert p / 0x20_0000 < n;
    }
  }

  /** What the kernel finds when it starts: its segments, and its stack on frames of the pool. */
  ghost predicate KernelReady(plan: Plan, leaves: map<nat, nat>, low: nat, high: nat) {
    && (forall i :: 0 <= i < |plan.segs| ==> plan.segs[i].Placed(leaves))
    && OwnFrames(leaves, STACK_PAGE, STACK_PAGES, low, high)
  }

  lemma KernelReadyKept(plan: Plan, leaves: map<nat, nat>, leaves': map<nat, nat>, low: nat, high: nat)
    ensures KernelReady(plan, leaves, low, high) && Kept(leaves, leaves') ==> KernelReady(plan, leaves', low, high)
  {
    if Kept(leaves, leaves') {
      OwnFramesKept(leaves, leaves', STACK_PAGE, STACK_PAGES, low, high);
      forall i | 0 <= i < |plan.segs| && plan.segs[i].Placed(leaves)
        ensures plan.segs[i].Placed(leaves')
      {
        LaidKept(leaves, leaves', plan.segs[i].first, plan.segs[i].n, plan.segs[i].frame);
      }
    }
  }

  /** Segments and stack: the first half of the plan. */
  method MapKernel(m: BootMapper, plan: Plan, ghost b: set<Node>) returns (ok: bool)
    requires LaidOut(plan) && b == Budget(plan)
    requires m.pool.Valid() && m.Sound() && m.nodes == {} && m.leaves == map[] && m.huge == map[]
    modifies m, m.pool
    ensures m.pool.Valid() && m.Sound() && m.pool.Advances() && m.huge == map[] && m.nodes <= b
    ensures forall p :: p in m.leaves ==> STACK_PAGE <= p
    ensures forall p :: Node(1, p) in m.nodes ==> STACK_PAGE / 512 <= p
    ensures ok ==> m.Account() + STACK_PAGES == old(m.Account())
    ensures ok ==> KernelReady(plan, m.leaves, old(m.pool.next), m.pool.end)
    ensures ok ==> Given(m.leaves, STACK_PAGE, STACK_PAGES, m.given)
    ensures |b| + STACK_PAGES <= old(m.pool.Left()) ==> ok
  {
    hide SmallNeed, HugeNeed, SegmentsNeed, Laid, Kept, OwnFrames, Given, BumpAllocator.Left, BootMapper.Sound;
    ok := MapSegments(m, plan.segs, b);
    if ok {
      ghost var leaves, next := m.leaves, m.pool.next;
      ok := m.MapStack(STACK_PAGE, STACK_PAGES, b);
      SubsetSize(m.nodes, b);
      if ok {
        forall i | 0 <= i < |plan.segs|
          ensures plan.segs[i].Placed(m.leaves)
        {
          LaidKept(leaves, m.leaves, plan.segs[i].first, plan.segs[i].n, plan.segs[i].frame);
        }
        OwnFramesFrom(m.leaves, STACK_PAGE, STACK_PAGES, old(m.pool.next), next, m.pool.end);
      }
    }
    forall p | Node(1, p) in m.nodes
      ensures STACK_PAGE / 512 <= p
    {
      if Node(1, p) in SmallNeed(STACK_PAGE, STACK_PAGES) {
        SmallLower(STACK_PAGE, STACK_PAGES, p);
      } else {
        SegmentsLower(plan.segs, p);
      }
    }
  }

  /** The direct map leads every address below the end of memory to itself. */
  ghost predicate HhdmComplete(huge: map<nat, nat>, n: nat) {
    forall p :: 0 <= p < n * 0x20_0000 ==> HhdmTranslate(huge, p) == Some(p)
  }

  /** Everything in the plan is mapped where it should be. */
  ghost predicate Complete(plan: Plan, leaves: map<nat, nat>, huge: map<nat, nat>, low: nat, high: nat) {
    && KernelReady(plan, leaves, low, high) && HhdmComplete(huge, plan.memory)
    && Laid(leaves, plan.rip, TRAMPOLINE_PAGES, plan.rip) && Laid(leaves, FRAMEBUFFER_PAGE, plan.fbPages, plan.fbFrame)
  }

  /** Direct map, trampoline and framebuffer: the second half of the plan. */
  method MapRest(m: BootMapper, plan: Plan, ghost b: set<Node>) returns (ok: bool)
    requires LaidOut(plan) && b == Budget(plan) && m.pool.Valid() && m.Sound() && m.huge == map[] && m.nodes <= b
    requires forall p :: p in m.leaves ==> STACK_PAGE <= p
    requires forall p :: Node(1, p) in m.nodes ==> STACK_PAGE / 512 <= p
    modifies m, m.pool
    ensures m.pool.Valid() && m.Sound() && m.pool.Advances() && m.Account() == old(m.Account()) && m.nodes <= b
    ensures m.given == old(m.given) && Kept(old(m.leaves), m.leaves)
    ensures ok ==> Laid(m.leaves, FRAMEBUFFER_PAGE, plan.fbPages, plan.fbFrame)
    ensures |b| <= old(m.Account()) ==>
      ok && Laid(m.leaves, plan.rip, TRAMPOLINE_PAGES, plan.rip) && HhdmComplete(m.huge, plan.memory)
  {
    hide SmallNeed, HugeNeed, SegmentsNeed, HhdmTranslate, Laid, Kept, BumpAllocator.Left, BootMapper.Sound;
    ghost var enough, start := |b| <= m.Account(), m.leaves;
    if enough {
      SubsetSize(HugeNeed(HHDM_PAGE, plan.memory) - m.nodes, b - m.nodes);
      assert |b - m.nodes| == |b| - |m.nodes|;
    }
    m.MapHhdm(HHDM_PAGE, plan.memory);
    if enough {
      HhdmIdentity(m.huge, plan.memory);
    }
    m.MapIdentity(plan.rip, TRAMPOLINE_PAGES, b);
    ghost var low := m.leaves;
    ok := m.MapPages(FRAMEBUFFER_PAGE, plan.fbPages, plan.fbFrame, b);
    LaidKept(low, m.leaves, plan.rip, TRAMPOLINE_PAGES, plan.rip);
    KeptTwice(start, low, m.leaves);
  }

  lemma KeptTwice(a: map<nat, nat>, b: map<nat, nat>, c: map<nat, nat>)
    requires Kept(a, b) && Kept(b, c)
    ensures Kept(a, c)
  {
  }

  lemma {:induction false} SmallCovered(first: nat, n: nat, nodes: set<Node>)
    requires forall p :: first <= p < first + n ==> SmallPath(p) <= nodes
    ensures SmallNeed(first, n) <= nodes
  {
    hide SmallPath, SmallNeed;
    if n > 0 {
      SmallCovered(first, n - 1, nodes);
      SmallSteps(first, n - 1);
      assert SmallPath(first + n - 1) <= nodes;
    } else {
      SmallNothing(first);
    }
  }

  lemma {:induction false} SegmentsCovered(segs: seq<SegmentPages>, nodes: set<Node>)
    requires forall i :: 0 <= i < |segs| ==> SmallNeed(segs[i].first, segs[i].n) <= nodes
    ensures SegmentsNeed(segs) <= nodes
  {
    hide SmallNeed;
    if segs != [] {
      SegmentsCovered(segs[..|segs| - 1], nodes);
    }
  }

  /** What is laid has its tables. */
  lemma LaidHasTables(nodes: set<Node>, leaves: map<nat, nat>, huge: map<nat, nat>, first: nat, n: nat)
    requires HasTables(nodes, leaves, huge) && forall p :: first <= p < first + n ==> p in leaves
    ensures SmallNeed(first, n) <= nodes
  {
    hide SmallPath, SmallNeed;
    SmallCovered(first, n, nodes);
  }

  /** Whatever way a complete map came about, all the tables of the plan are there. */
  lemma CompleteHasTables(plan: Plan, nodes: set<Node>, leaves: map<nat, nat>, huge: map<nat, nat>, low: nat, high: nat)
    requires HasTables(nodes, leaves, huge) && Complete(plan, leaves, huge, low, high)
    ensures Budget(plan) <= nodes
  {
    hide SmallNeed, HugeNeed, SegmentsNeed, HasTables, HhdmTranslate;
    LaidHasTables(nodes, leaves, huge, STACK_PAGE, STACK_PAGES);
    LaidHasTables(nodes, leaves, huge, plan.rip, TRAMPOLINE_PAGES);
    LaidHasTables(nodes, leaves, huge, FRAMEBUFFER_PAGE, plan.fbPages);
    forall i | 0 <= i < |plan.segs|
      ensures SmallNeed(plan.segs[i].first, plan.segs[i].n) <= nodes
    {
      assert plan.segs[i].Placed(leaves);
      LaidHasTables(nodes, leaves, huge, plan.segs[i].first, plan.segs[i].n);
    }
    SegmentsCovered(plan.segs, nodes);
    HhdmHasTables(nodes, leaves, huge, plan.memory);
  }

  lemma HhdmHasTables(nodes: set<Node>, leaves: map<nat, nat>, huge: map<nat, nat>, n: nat)
    requires HasTables(nodes, leaves, huge) && HhdmComplete(huge, n)
    ensures HugeNeed(HHDM_PAGE, n) <= nodes
  {
    hide HugePath, HugeNeed;
    forall q | HHDM_PAGE <= q < HHDM_PAGE + n
      ensures HugePath(q) <= nodes
    {
      var p := (q - HHDM_PAGE) * 0x20_0000;
      assert HhdmTranslate(huge, p) == Some(p) && p / 0x20_0000 == q - HHDM_PAGE;
    }
    NeedCovered(HHDM_PAGE, n, nodes);
  }

  /** No page of the stack lies in the root or in another table. */
  ghost predicate StackApart(m: BootMapper)
    reads m
  {
    forall p :: STACK_PAGE <= p < STACK_PAGE + STACK_PAGES && p in m.leaves ==>
      m.leaves[p] != m.root && m.leaves[p] !in m.frames.Values
  }

  lemma GivenApart(m: BootMapper)
    requires m.Sound() && Given(m.leaves, STACK_PAGE, STACK_PAGES, m.given)
    ensures StackApart(m)
  {
  }

  /** Everything the bootloader maps, in its order. Kernel, stack and framebuffer are there or
      the bootloader stops. All is complete, direct map and trampoline included although their
      errors are dropped, if and only if the tables of the plan and the six other frames fit the
      pool; the sizes alone give a bound. Every frame taken is the root, a table or a page of the
      stack, and serves once. */
  method Setup(start: nat, plan: Plan) returns (ok: bool, m: BootMapper)
    requires LaidOut(plan) && start % PAGE_SIZE == 0
    ensures m.pool.Valid() && m.Sound()
    ensures ok ==> m.pool.Left() + |m.nodes| + 1 + STACK_PAGES == POOL_SIZE && StackApart(m)
    ensures ok ==> KernelReady(plan, m.leaves, start + PAGE_SIZE, start + POOL_SIZE * PAGE_SIZE)
    ensures ok ==> Laid(m.leaves, FRAMEBUFFER_PAGE, plan.fbPages, plan.fbFrame)
    ensures ok && Complete(plan, m.leaves, m.huge, start + PAGE_SIZE, start + POOL_SIZE * PAGE_SIZE) <==>
      |Budget(plan)| + 1 + STACK_PAGES <= POOL_SIZE
    ensures PlanCost(plan) + 1 + STACK_PAGES <= POOL_SIZE ==>
      ok && Complete(plan, m.leaves, m.huge, start + PAGE_SIZE, start + POOL_SIZE * PAGE_SIZE)
  {
    hide SmallNeed, HugeNeed, SegmentsNeed, HhdmTranslate, KernelReady, Laid, Kept, Given, BumpAllocator.Left,
         BootMapper.Sound, Budget, PlanCost, StackApart, LaidOut;
    BudgetBound(plan);
    ghost var b := Budget(plan);
    var pool := new BumpAllocator(start, POOL_SIZE);
    var pml4 := pool.AllocateFrame();
    m := new BootMapper(pool, pml4.value / PAGE_SIZE);
    ok := MapKernel(m, plan, b);
    if !ok {
      return;
    }
    ghost var kernel := m.leaves;
    ok := MapRest(m, plan, b);
    KernelReadyKept(plan, kernel, m.leaves, start + PAGE_SIZE, start + POOL_SIZE * PAGE_SIZE);
    GivenKept(kernel, m.leaves, STACK_PAGE, STACK_PAGES, m.given);
    GivenApart(m);
    if Complete(plan, m.leaves, m.huge, start + PAGE_SIZE, start + POOL_SIZE * PAGE_SIZE) {
      SoundHasTables(m);
      CompleteHasTables(plan, m.nodes, m.leaves, m.huge, start + PAGE_SIZE, start + POOL_SIZE * PAGE_SIZE);
      SubsetSize(b, m.nodes);
    }
  }

  lemma SoundHasTables(m: BootMapper)
    requires m.Sound()
    ensures HasTables(m.nodes, m.leaves, m.huge)
  {
  }

  lemma DivSum(a: nat, b: nat, d: nat)
    requires d > 0
    ensures (a + b) / d <= a / d + b / d + 1
  {
    DivBounds(a, d);
    DivBounds(b, d);
    MulSplit(a / d, b / d, d);
    MulStep(a / d + b / d, d);
    MulStep(a / d + b / d + 1, d);
    QuotientBelow(a + b, a / d + b / d + 2, d);
  }

  /** Wherever a range of pages starts, it needs at most two tables more than it fills. */
  lemma SpanBound(first: nat, n: nat, d: nat)
    requires d > 0
    ensures Span(first, n, d) <= n / d + 2
  {
    if n > 0 {
      DivSum(first, n - 1, d);
      DivGrows(n - 1, d);
    }
  }

  /** The most tables that `n` pages in a row can need. */
  function SmallCost(n: nat): nat {
    n / 512 + n / 0x4_0000 + n / 0x800_0000 + 6
  }

  lemma UnionSize(a: set<Node>, b: set<Node>)
    ensures |a + b| <= |a| + |b|
  {
    assert a + b == a + (b - a);
    SubsetSize(b - a, b);
  }

  lemma SmallNeedBound(first: nat, n: nat)
    ensures |SmallNeed(first, n)| <= SmallCost(n)
  {
    hide LevelNodes, Span;
    LevelSize(3, first, n, 0x800_0000);
    LevelSize(2, first, n, 0x4_0000);
    LevelSize(1, first, n, 512);
    SpanBound(first, n, 0x800_0000);
    SpanBound(first, n, 0x4_0000);
    SpanBound(first, n, 512);
    UnionSize(LevelNodes(3, first, n, 0x800_0000), LevelNodes(2, first, n, 0x4_0000));
    UnionSize(LevelNodes(3, first, n, 0x800_0000) + LevelNodes(2, first, n, 0x4_0000), LevelNodes(1, first, n, 512));
  }

  /** The direct map needs a table per GiB and one per 512 GiB, rounded up, and no fewer. */
  lemma HhdmNeedSize(n: nat)
    ensures |HugeNeed(HHDM_PAGE, n)| == (n + 511) / 512 + (n + 0x3_FFFF) / 0x4_0000
  {
    hide LevelNodes;
    LevelSize(3, HHDM_PAGE, n, 0x4_0000);
    LevelSize(2, HHDM_PAGE, n, 512);
    forall m | m in LevelNodes(3, HHDM_PAGE, n, 0x4_0000)
      ensures m !in LevelNodes(2, HHDM_PAGE, n, 512)
    {
      LevelOnly(3, HHDM_PAGE, n, 0x4_0000, m);
      if m in LevelNodes(2, HHDM_PAGE, n, 512) {
        LevelOnly(2, HHDM_PAGE, n, 512, m);
      }
    }
    assert LevelNodes(3, HHDM_PAGE, n, 0x4_0000) !! LevelNodes(2, HHDM_PAGE, n, 512);
  }

  function SegmentsCost(segs: seq<SegmentPages>): nat {
    if segs == [] then 0 else SegmentsCost(segs[..|segs| - 1]) + SmallCost(segs[|segs| - 1].n)
  }

  lemma {:induction false} SegmentsNeedBound(segs: seq<SegmentPages>)
    ensures |SegmentsNeed(segs)| <= SegmentsCost(segs)
  {
    hide SmallNeed, SmallCost;
    if segs != [] {
      var init, last := segs[..|segs| - 1], segs[|segs| - 1];
      SegmentsNeedBound(init);
      SmallNeedBound(last.first, last.n);
      UnionSize(SegmentsNeed(init), SmallNeed(last.first, last.n));
    }
  }

  /** A bound that a user can compute from the sizes alone. */
  function PlanCost(p: Plan): nat {
    SegmentsCost(p.segs) + (p.memory + 511) / 512 + (p.memory + 0x3_FFFF) / 0x4_0000 + SmallCost(p.fbPages) + 13
  }

  lemma BudgetBound(p: Plan)
    ensures |Budget(p)| <= PlanCost(p)
  {
    hide SmallNeed, HugeNeed, SegmentsNeed, SegmentsCost;
    SegmentsNeedBound(p.segs);
    SmallNeedBound(STACK_PAGE, STACK_PAGES);
    HhdmNeedSize(p.memory);
    SmallNeedBound(p.rip, TRAMPOLINE_PAGES);
    SmallNeedBound(FRAMEBUFFER_PAGE, p.fbPages);
    var a, b := SegmentsNeed(p.segs), SmallNeed(STACK_PAGE, STACK_PAGES);
    var c, d := HugeNeed(HHDM_PAGE, p.memory), SmallNeed(p.rip, TRAMPOLINE_PAGES);
    var e := SmallNeed(FRAMEBUFFER_PAGE, p.fbPages);
    UnionSize(a, b);
    UnionSize(a + b, c);
    UnionSize(a + b + c, d);
    UnionSize(a + b + c + d, e);
  }

  /** The end of physical memory, rounded up to 2 MiB: the least such address that no region
      of the memory map passes. */
  method MaxPhysAddr(map_: seq<Descriptor>) returns (r: nat)
    ensures r % 0x20_0000 == 0
    ensures forall i :: 0 <= i < |map_| ==> map_[i].physStart + map_[i].pageCount * PAGE_SIZE <= r
    ensures r > 0 ==> exists i :: 0 <= i < |map_| && r < map_[i].physStart + map_[i].pageCount * PAGE_SIZE + 0x20_0000
  {
    var max := 0;
    ghost var last := 0;
    for i := 0 to |map_|
      invariant forall j :: 0 <= j < i ==> map_[j].physStart + map_[j].pageCount * PAGE_SIZE <= max
      invariant max > 0 ==> 0 <= last < i && max == map_[last].physStart + map_[last].pageCount * PAGE_SIZE
    {
      var end := map_[i].physStart + map_[i].pageCount * PAGE_SIZE;
      if end > max {
        max := end;
        last := i;
      }
    }
    r := (max + 0x1f_ffff) / 0x20_0000 * 0x20_0000;
  }
}
