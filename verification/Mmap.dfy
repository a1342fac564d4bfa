/** `sys_mmap`: a bump pool over the pages that the loader mapped beforehand, in 64-bit
    arithmetic that wraps. */
module Mmap {
  import opened Bits
  import opened Pmm
  import opened PageTables
  import opened Paging
  import opened ElfLoader
  import opened UserStack
  import opened Program

  const ENOMEM: int := -12

  datatype Request = Request(addr: nat, length: nat) {
    predicate FromPool() { addr < 0x1000 }
  }

  /** `(length + 0xFFF) & !0xFFF` on 64 bits. */
  function AlignedLen(length: nat): nat {
    var x := Wrap(length + 0xFFF);
    x - x % PAGE_SIZE
  }

  /** The length rounded up to whole pages, without wrapping. */
  function RoundUp(length: nat): (r: nat)
    ensures r % 4096 == 0 && length <= r < length + 4096
  {
    (length + 0xFFF) / PAGE_SIZE * PAGE_SIZE
  }

  class MmapPool {
    var next: nat
    const end: nat := POOL_END

    constructor ()
      ensures next == 0x48_0000
    {
      next := POOL_START;
    }

    method SysMmap(q: Request) returns (r: int)
      modifies this
      ensures (r, next) == Serve(old(next), q)
      ensures PoolPointer(old(next)) && q.FromPool() && q.length <= MAX64 ==>
        (Honoured(old(next), q.length, r, next) <==> old(next) + RoundUp(q.length) <= MAX64)
      ensures q.addr >= 0x1000 ==> r == AsI64(q.addr) && next == old(next)
      ensures q.addr < 0x1000 ==> r == -12 || r == AsI64(old(next))
    {
      if PoolPointer(next) && q.FromPool() && q.length <= MAX64 {
        HonouredIff(next, q);
      }
      var aligned := AlignedLen(q.length);
      var result;
      if q.addr != 0 && q.addr >= 0x1000 {
        result := q.addr;
      } else {
        if Wrap(next + aligned) > end {
          return ENOMEM;
        }
        result := next;
        next := Wrap(next + aligned);
      }
      return AsI64(result);
    }
  }

  /** The effect of one call on the pool pointer, and its result. */
  function Serve(next: nat, q: Request): (int, nat) {
    if !q.FromPool() then (AsI64(q.addr), next)
    else if Wrap(next + AlignedLen(q.length)) > POOL_END then (ENOMEM, next)
    else (AsI64(next), Wrap(next + AlignedLen(q.length)))
  }

  predicate PoolPointer(next: nat) {
    POOL_START <= next <= POOL_END && next % PAGE_SIZE == 0
  }

  /** What a caller may expect of a request to the pool: whole pages of the pool that nobody
      else has, or an error that changes nothing. */
  predicate Honoured(next: nat, length: nat, r: int, next': nat) {
    || (r == -12 && next' == next && next + RoundUp(length) > 0x50_0000)
    || (r == next && next' == next + RoundUp(length) && next + length <= next' <= 0x50_0000)
  }

  /** A request is honoured exactly when the end of its range, rounded up, fits in 64 bits. */
  lemma HonouredIff(next: nat, q: Request)
    requires PoolPointer(next) && q.FromPool() && q.length <= MAX64
    ensures var (r, next') := Serve(next, q);
      Honoured(next, q.length, r, next') <==> next + RoundUp(q.length) <= MAX64
  {
    var x := q.length + 0xFFF;
    assert RoundUp(q.length) == x - x % PAGE_SIZE;
    if x > MAX64 {
      assert Wrap(x) == x - (MAX64 + 1);
      assert AlignedLen(q.length) == 0;
    } else {
      assert AlignedLen(q.length) == RoundUp(q.length);
    }
  }

  /** The two ways in which the wrap shows: a request for nearly all of memory is granted
      without moving the pointer, or moves it below the pool. */
  lemma WrappedRequests()
    ensures Serve(POOL_START, Request(0, MAX64)) == (POOL_START, POOL_START)
    ensures Serve(POOL_START, Request(0, MAX64 - 0xFFF)) == (POOL_START, POOL_START - 0x1000)
  {
  }

  /** The results of a run of calls. */
  function Run(next: nat, qs: seq<Request>): (rs: seq<int>)
    ensures |rs| == |qs|
    decreases |qs|
  {
    if qs == [] then [] else [Serve(next, qs[0]).0] + Run(Serve(next, qs[0]).1, qs[1..])
  }

  /** A call served by the pool in that run. */
  predicate Granted(qs: seq<Request>, rs: seq<int>, i: int)
    requires |qs| == |rs|
  {
    0 <= i < |qs| && qs[i].FromPool() && rs[i] >= 0
  }

  /** No request of the run overflows 64 bits at its turn. */
  predicate NoWrap(next: nat, qs: seq<Request>)
    decreases |qs|
  {
    qs == [] ||
    (qs[0].length <= MAX64 && (qs[0].FromPool() ==> next + RoundUp(qs[0].length) <= MAX64)
     && NoWrap(Serve(next, qs[0]).1, qs[1..]))
  }

  lemma ServeStep(next: nat, q: Request)
    requires PoolPointer(next) && q.length <= MAX64
    requires q.FromPool() ==> next + RoundUp(q.length) <= MAX64
    ensures var (r, next') := Serve(next, q);
      && PoolPointer(next') && next <= next'
      && (q.FromPool() && r >= 0 ==> r == next && next' == next + RoundUp(q.length))
  {
    if q.FromPool() {
      HonouredIff(next, q);
    }
  }

  /** Over any run of requests that do not overflow, with requests for a fixed address in
      between or not: every range granted from the pool is whole pages of the pool, and ranges granted
      later lie above those granted before. */
  lemma {:induction false} RunSafe(next: nat, qs: seq<Request>)
    requires PoolPointer(next) && NoWrap(next, qs)
    ensures var rs := Run(next, qs);
      && (forall i :: Granted(qs, rs, i) ==>
            rs[i] % PAGE_SIZE == 0 && next <= rs[i] && rs[i] + RoundUp(qs[i].length) <= POOL_END)
      && (forall i, j :: Granted(qs, rs, i) && Granted(qs, rs, j) && i < j ==> rs[i] + RoundUp(qs[i].length) <= rs[j])
    decreases |qs|
  {
    hide Serve, RoundUp, Request.FromPool;
    if qs != [] {
      var rs := Run(next, qs);
      var next' := Serve(next, qs[0]).1;
      ServeStep(next, qs[0]);
      RunSafe(next', qs[1..]);
      assert rs[1..] == Run(next', qs[1..]);
      assert forall i :: 1 <= i < |qs| ==> qs[i] == qs[1..][i - 1] && rs[i] == rs[1..][i - 1];
      forall i | Granted(qs, rs, i) && i > 0
        ensures rs[i] % PAGE_SIZE == 0 && next' <= rs[i] && rs[i] + RoundUp(qs[i].length) <= POOL_END
      {
        assert Granted(qs[1..], rs[1..], i - 1);
      }
      forall i, j | Granted(qs, rs, i) && Granted(qs, rs, j) && i < j
        ensures rs[i] + RoundUp(qs[i].length) <= rs[j]
      {
        if i > 0 {
          assert Granted(qs[1..], rs[1..], i - 1) && Granted(qs[1..], rs[1..], j - 1);
        }
      }
    }
  }

  /** What the pool grants is ready for use: if no segment reaches the pool and nothing was
      mapped there before, every page granted was mapped by the loader, writable for the user,
      and is all zero. */
  lemma GrantedPagesReady(l0: map<nat, Leaf>, l: map<nat, Leaf>, v: map<nat, seq<Byte>>, elf: Elf, sp: nat,
                          start: nat, length: nat, va: nat)
    requires UserReady(l0, l, v, elf, sp) && ElfPromise(elf, l0.Keys)
    requires forall p :: p in POOL_PAGES ==> p !in l0
    requires forall i, p :: 0 <= i < |elf.segs| && p in POOL_PAGES ==> !elf.segs[i].Reaches(elf.Bias(), p)
    requires 0x48_0000 <= start && start + RoundUp(length) <= 0x50_0000 && start <= va < start + RoundUp(length)
    ensures InView(v, va) && va / PAGE_SIZE in l && ByteAt(v, va) == 0
    ensures var flags := l[va / PAGE_SIZE].flags; flags.user && flags.writable && flags.noExecute
  {
    hide Read, WordsAt, KernelStartup, Image, FirstFlags, RoundUp;
    var p := va / PAGE_SIZE;
    assert Between(POOL_START / PAGE_SIZE, p, POOL_END / PAGE_SIZE);
    assert p in POOL_PAGES && !OnStack(p);
    assert !Touched(elf.segs, elf.Bias(), p);
    FirstFlagsDefault(elf.segs, elf.Bias(), p);
    ImageUntouched(elf.segs, elf.Bias(), elf.file, va);
  }
}
