/** Bits of machine words and little-endian words in byte memory.
    A `u64` is a `nat` below 2^64; every bit operation the kernel uses is given by
    halving, so its laws are plain inductions over the bit position. */
module Bits {
  import opened Arith

  datatype Option<+T> = None | Some(value: T)

  type Byte = x: int | 0 <= x < 256

  const MAX64: nat := 0xFFFF_FFFF_FFFF_FFFF

  /** 64-bit arithmetic wraps. */
  function Wrap(x: nat): nat { x % (MAX64 + 1) }

  /** A 64-bit value read as signed. */
  function AsI64(x: nat): (r: int)
    ensures -0x8000_0000_0000_0000 <= r < 0x8000_0000_0000_0000
    ensures (r - x) % 0x1_0000_0000_0000_0000 == 0
  {
    var y := x % 0x1_0000_0000_0000_0000;
    if y < 0x8000_0000_0000_0000 then y else y - 0x1_0000_0000_0000_0000
  }

  /** 2^n. */
  function Pow2(n: nat): (r: nat)
    ensures r >= 1
  {
    if n == 0 then 1 else 2 * Pow2(n - 1)
  }

  /** Bit `k` of `w`, that is `(w >> k) & 1 == 1`. */
  predicate Bit(w: nat, k: nat)
    decreases k
  {
    if k == 0 then w % 2 == 1 else Bit(w / 2, k - 1)
  }

  /** The bit that is worth `2^k`. */
  lemma {:induction false} BitIs(w: nat, k: nat)
    ensures Bit(w, k) <==> w / Pow2(k) % 2 == 1
    decreases k
  {
    if k > 0 {
      BitIs(w / 2, k - 1);
      HalfThenDivide(w, Pow2(k - 1));
    }
  }

  lemma HalfThenDivide(w: nat, d: nat)
    requires d > 0
    ensures w / (2 * d) == w / 2 / d
  {
    DivBounds(w / 2, d);
    var q := w / 2 / d;
    assert q * (2 * d) == 2 * (q * d);
    DivIs(w, 2 * d, q);
  }

  lemma HalfOfRemainder(x: nat, d: nat)
    requires d > 0
    ensures x % (2 * d) / 2 == x / 2 % d && x % (2 * d) % 2 == x % 2
  {
    HalfThenDivide(x, d);
    var q := x / 2 / d;
    assert q * (2 * d) == 2 * (q * d);
    DivBounds(x, 2 * d);
    DivBounds(x / 2, d);
    DivIs(x, 2 * d, q);
    DivIs(x / 2, d, q);
  }

  /** The low `n` bits of a number are those of its remainder. */
  lemma {:induction false} LowBitsKept(x: nat, n: nat, k: nat)
    requires k < n
    ensures Bit(x % Pow2(n), k) == Bit(x, k)
    decreases n
  {
    HalfOfRemainder(x, Pow2(n - 1));
    if k > 0 {
      LowBitsKept(x / 2, n - 1, k - 1);
    }
  }

  /** `w | (1 << k)`. */
  function SetBit(w: nat, k: nat): nat
    decreases k
  {
    if k == 0 then w - w % 2 + 1 else 2 * SetBit(w / 2, k - 1) + w % 2
  }

  /** `w & !(1 << k)`. */
  function ClearBit(w: nat, k: nat): nat
    decreases k
  {
    if k == 0 then w - w % 2 else 2 * ClearBit(w / 2, k - 1) + w % 2
  }

  /** `!w` on an `n`-bit word. */
  function Not(w: nat, n: nat): nat
    requires w < Pow2(n)
  {
    Pow2(n) - 1 - w
  }

  /** The number of zero bits below the lowest set bit. */
  function TrailingZeros(w: nat): nat
    requires w > 0
  {
    if w % 2 == 1 then 0 else 1 + TrailingZeros(w / 2)
  }

  /** Setting bit `k` sets that bit and touches no other one. */
  lemma {:induction false} SetBitExact(w: nat, k: nat, j: nat)
    ensures Bit(SetBit(w, k), j) == (j == k || Bit(w, j))
    decreases k
  {
    if k > 0 && j > 0 {
      SetBitExact(w / 2, k - 1, j - 1);
      assert SetBit(w, k) / 2 == SetBit(w / 2, k - 1);
    }
  }

  /** Clearing bit `k` clears that bit and touches no other one. */
  lemma {:induction false} ClearBitExact(w: nat, k: nat, j: nat)
    ensures Bit(ClearBit(w, k), j) == (j != k && Bit(w, j))
    decreases k
  {
    if k > 0 && j > 0 {
      ClearBitExact(w / 2, k - 1, j - 1);
      assert ClearBit(w, k) / 2 == ClearBit(w / 2, k - 1);
    }
  }

  /** Both updates stay within the word. */
  lemma {:induction false} UpdateInWord(w: nat, k: nat, n: nat)
    requires w < Pow2(n) && k < n
    ensures SetBit(w, k) < Pow2(n) && ClearBit(w, k) < Pow2(n)
    decreases k
  {
    if k > 0 {
      UpdateInWord(w / 2, k - 1, n - 1);
    }
  }

  /** Updates that change nothing. */
  lemma {:induction false} UpdateSame(w: nat, k: nat)
    ensures Bit(w, k) ==> SetBit(w, k) == w
    ensures !Bit(w, k) ==> ClearBit(w, k) == w
    ensures ClearBit(w, k) <= w
    decreases k
  {
    if k > 0 {
      UpdateSame(w / 2, k - 1);
    }
  }

  /** `w` with all the bits of `ks` cleared. */
  function ClearAll(w: nat, ks: seq<nat>): nat
    decreases |ks|
  {
    if ks == [] then w else ClearAll(ClearBit(w, ks[0]), ks[1..])
  }

  lemma {:induction false} ClearAllExact(w: nat, ks: seq<nat>, j: nat)
    ensures Bit(ClearAll(w, ks), j) == (j !in ks && Bit(w, j))
    ensures ClearAll(w, ks) <= w
    decreases |ks|
  {
    if ks != [] {
      ClearBitExact(w, ks[0], j);
      UpdateSame(w, ks[0]);
      ClearAllExact(ClearBit(w, ks[0]), ks[1..], j);
      assert j in ks <==> j == ks[0] || j in ks[1..];
    }
  }

  lemma {:induction false} ClearAllSame(w: nat, ks: seq<nat>)
    requires forall k :: k in ks ==> !Bit(w, k)
    ensures ClearAll(w, ks) == w
    decreases |ks|
  {
    if ks != [] {
      UpdateSame(w, ks[0]);
      ClearAllSame(w, ks[1..]);
    }
  }

  lemma {:induction false} NotExact(w: nat, n: nat, k: nat)
    requires w < Pow2(n) && k < n
    ensures Bit(Not(w, n), k) == !Bit(w, k)
    decreases k
  {
    assert Pow2(n) == 2 * Pow2(n - 1);
    if k > 0 {
      NotExact(w / 2, n - 1, k - 1);
      assert Not(w, n) / 2 == Not(w / 2, n - 1);
    }
  }

  /** The count of trailing zeros is the position of the lowest set bit. */
  lemma {:induction false} TrailingZerosIsLowest(w: nat, n: nat, k: nat)
    requires 0 < w < Pow2(n)
    ensures TrailingZeros(w) < n && Bit(w, TrailingZeros(w))
    ensures k < TrailingZeros(w) ==> !Bit(w, k)
    decreases n
  {
    assert n > 0 && Pow2(n) == 2 * Pow2(n - 1);
    if w % 2 == 0 {
      TrailingZerosIsLowest(w / 2, n - 1, if k > 0 then k - 1 else 0);
    }
  }

  /** `trailing_zeros(!w)` is the least zero bit of a word that is not all ones. */
  lemma LowestZeroOf(w: nat, n: nat, k: nat)
    requires w < Pow2(n) - 1
    ensures var z := TrailingZeros(Not(w, n)); z < n && !Bit(w, z) && (k < z ==> Bit(w, k))
  {
    TrailingZerosIsLowest(Not(w, n), n, k);
    NotExact(w, n, TrailingZeros(Not(w, n)));
    if k < TrailingZeros(Not(w, n)) {
      NotExact(w, n, k);
    }
  }

  /** The word of all ones has every bit set. */
  lemma {:induction false} AllOnes(n: nat, k: nat)
    requires k < n
    ensures Bit(Pow2(n) - 1, k)
    decreases k
  {
    if k > 0 {
      AllOnes(n - 1, k - 1);
      assert (Pow2(n) - 1) / 2 == Pow2(n - 1) - 1;
    }
  }

  lemma Pow2Of22()
    ensures Pow2(22) == 0x40_0000
  {
    assert Pow2(4) == 16;
    assert Pow2(8) == 256;
    assert Pow2(12) == 4096;
    assert Pow2(16) == 0x1_0000;
    assert Pow2(20) == 0x10_0000;
  }

  lemma Pow2Of32()
    ensures Pow2(32) == 0x1_0000_0000
  {
    assert Pow2(4) == 16;
    assert Pow2(8) == 256;
    assert Pow2(12) == 4096;
    assert Pow2(16) == 0x1_0000;
    assert Pow2(20) == 0x10_0000;
    assert Pow2(24) == 0x100_0000;
    assert Pow2(28) == 0x1000_0000;
  }

  lemma Pow2Of64()
    ensures Pow2(64) == MAX64 + 1
  {
    Pow2Of32();
    assert Pow2(36) == 0x10_0000_0000;
    assert Pow2(40) == 0x100_0000_0000;
    assert Pow2(44) == 0x1000_0000_0000;
    assert Pow2(48) == 0x1_0000_0000_0000;
    assert Pow2(52) == 0x10_0000_0000_0000;
    assert Pow2(56) == 0x100_0000_0000_0000;
    assert Pow2(60) == 0x1000_0000_0000_0000;
  }

  /** `trailing_zeros(!w)` on a 64-bit word that is not all ones is its least zero bit. */
  lemma LowestZero(w: nat, k: nat)
    requires w < MAX64
    ensures var z := TrailingZeros(MAX64 - w); z < 64 && !Bit(w, z) && (k < z ==> Bit(w, k))
  {
    Pow2Of64();
    LowestZeroOf(w, 64, k);
  }

  /** Setting or clearing one bit of a 64-bit word gives a 64-bit word. */
  lemma UpdateIn64(w: nat, k: nat)
    requires w <= MAX64 && k < 64
    ensures SetBit(w, k) <= MAX64 && ClearBit(w, k) <= MAX64
  {
    Pow2Of64();
    UpdateInWord(w, k, 64);
  }

  lemma AllOnes64(k: nat)
    requires k < 64
    ensures Bit(MAX64, k)
  {
    Pow2Of64();
    AllOnes(64, k);
  }

  /** The little-endian value of a byte string. */
  function Le(bs: seq<Byte>): nat
  {
    if bs == [] then 0 else bs[0] + 256 * Le(bs[1..])
  }

  /** The `n` low bytes of `w`, least significant first. */
  function LeBytes(w: nat, n: nat): (bs: seq<Byte>)
    ensures |bs| == n
  {
    if n == 0 then [] else [w % 256] + LeBytes(w / 256, n - 1)
  }

  lemma {:induction false} LeBound(bs: seq<Byte>)
    ensures Le(bs) < Pow2(8 * |bs|)
  {
    if bs != [] {
      LeBound(bs[1..]);
      Pow2Step8(8 * |bs[1..]|);
    }
  }

  lemma Pow2Step8(n: nat)
    ensures Pow2(n + 8) == 256 * Pow2(n)
  {
    assert Pow2(n + 2) == 4 * Pow2(n);
    assert Pow2(n + 4) == 16 * Pow2(n);
    assert Pow2(n + 6) == 64 * Pow2(n);
  }

  /** Writing a word and reading it back gives the word. */
  lemma {:induction false} LeRoundTrip(w: nat, n: nat)
    requires w < Pow2(8 * n)
    ensures Le(LeBytes(w, n)) == w
  {
    if n > 0 {
      Pow2Step8(8 * (n - 1));
      LeRoundTrip(w / 256, n - 1);
      assert LeBytes(w, n)[1..] == LeBytes(w / 256, n - 1);
    }
  }

  lemma {:induction false} LeAllOnes(bs: seq<Byte>)
    requires forall i :: 0 <= i < |bs| ==> bs[i] == 255
    ensures Le(bs) == Pow2(8 * |bs|) - 1
  {
    if bs != [] {
      LeAllOnes(bs[1..]);
      Pow2Step8(8 * |bs[1..]|);
    }
  }

  lemma {:induction false} LeZero(bs: seq<Byte>)
    requires forall i :: 0 <= i < |bs| ==> bs[i] == 0
    ensures Le(bs) == 0
  {
    if bs != [] {
      LeZero(bs[1..]);
    }
  }

  lemma LeRoundTrip64(w: nat)
    requires w <= MAX64
    ensures Le(LeBytes(w, 8)) == w
  {
    Pow2Of64();
    LeRoundTrip(w, 8);
  }

  lemma LeRoundTrip32(w: nat)
    requires w < 0x1_0000_0000
    ensures Le(LeBytes(w, 4)) == w
  {
    Pow2Of32();
    LeRoundTrip(w, 4);
  }

  /** The 64-bit word stored at byte address `a`. */
  function Word(m: seq<Byte>, a: nat): nat
    requires a + 8 <= |m|
  {
    Le(m[a..a + 8])
  }

  lemma SliceOfSlice(m: seq<Byte>, a: nat, n: nat, i: nat, j: nat)
    requires a + n <= |m| && i <= j <= n
    ensures m[a..a + n][i..j] == m[a + i..a + j]
  {
    var s, u := m[a..a + n][i..j], m[a + i..a + j];
    assert |s| == |u| && forall k :: 0 <= k < |s| ==> s[k] == u[k];
  }

  function Worth(b: int, unit: int): int { b * unit }

  /** Byte `i` of a word is worth `256^i`. */
  lemma WordIs(m: seq<Byte>, a: nat)
    requires a + 8 <= |m|
    ensures Word(m, a) ==
      Worth(m[a], 1) + Worth(m[a + 1], 0x100) + Worth(m[a + 2], 0x1_0000) + Worth(m[a + 3], 0x100_0000)
      + Worth(m[a + 4], 0x1_0000_0000) + Worth(m[a + 5], 0x100_0000_0000) + Worth(m[a + 6], 0x1_0000_0000_0000)
      + Worth(m[a + 7], 0x100_0000_0000_0000)
  {
    var s := m[a..a + 8];
    LeStep(s);
    LeStep(s[1..]);
    LeStep(s[2..]);
    LeStep(s[3..]);
    LeStep(s[4..]);
    LeStep(s[5..]);
    LeStep(s[6..]);
    LeStep(s[7..]);
  }

  lemma LeStep(s: seq<Byte>)
    requires s != []
    ensures Le(s) == s[0] + 256 * Le(s[1..]) && (|s| > 1 ==> s[1..][1..] == s[2..])
    ensures |s| == 1 ==> Le(s) == s[0]
  {
  }

  lemma WordBound(m: seq<Byte>, a: nat)
    requires a + 8 <= |m|
    ensures Word(m, a) <= MAX64
  {
    Pow2Of64();
    LeBound(m[a..a + 8]);
  }

  /** Eight bytes 0xFF are the word of all ones. */
  lemma WordAllOnes(m: seq<Byte>, a: nat)
    requires a + 8 <= |m| && forall i :: a <= i < a + 8 ==> m[i] == 0xFF
    ensures Word(m, a) == MAX64
  {
    Pow2Of64();
    LeAllOnes(m[a..a + 8]);
  }

  /** A word depends on its own eight bytes only. */
  lemma WordFrame(m: seq<Byte>, m': seq<Byte>, a: nat)
    requires |m| == |m'| && a + 8 <= |m|
    requires forall i :: a <= i < a + 8 ==> m[i] == m'[i]
    ensures Word(m, a) == Word(m', a)
  {
    assert m[a..a + 8] == m'[a..a + 8];
  }

  /** `*p = w` for a 64-bit pointer `p`. */
  method WriteWord(ram: array<Byte>, a: nat, w: nat)
    requires a + 8 <= ram.Length
    modifies ram
    ensures forall i :: 0 <= i < 8 ==> ram[a + i] == LeBytes(w, 8)[i]
    ensures w <= MAX64 ==> Word(ram[..], a) == w
    ensures forall i :: 0 <= i < ram.Length && !(a <= i < a + 8) ==> ram[i] == old(ram[i])
  {
    var bs := LeBytes(w, 8);
    for i := 0 to 8
      invariant forall j :: 0 <= j < i ==> ram[a + j] == bs[j]
      invariant forall j :: 0 <= j < ram.Length && !(a <= j < a + i) ==> ram[j] == old(ram[j])
    {
      ram[a + i] := bs[i];
    }
    assert ram[..][a..a + 8] == bs;
    if w <= MAX64 {
      LeRoundTrip64(w);
    }
  }

  /** `ptr::write_bytes(p, b, n)`. */
  method FillBytes(ram: array<Byte>, a: nat, n: nat, b: Byte)
    requires a + n <= ram.Length
    modifies ram
    ensures forall i :: 0 <= i < ram.Length ==> ram[i] == if a <= i < a + n then b else old(ram[i])
  {
    for i := 0 to n
      invariant forall j :: 0 <= j < ram.Length ==> ram[j] == if a <= j < a + i then b else old(ram[j])
    {
      ram[a + i] := b;
    }
  }

  /** `ptr::copy_nonoverlapping(bs, p, |bs|)`. */
  method CopyBytes(ram: array<Byte>, a: nat, bs: seq<Byte>)
    requires a + |bs| <= ram.Length
    modifies ram
    ensures forall i :: 0 <= i < ram.Length ==> ram[i] == if a <= i < a + |bs| then bs[i - a] else old(ram[i])
  {
    for i := 0 to |bs|
      invariant forall j :: 0 <= j < ram.Length ==> ram[j] == if a <= j < a + i then bs[j - a] else old(ram[j])
    {
      ram[a + i] := bs[i];
    }
  }
}
