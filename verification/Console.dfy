/** `sys_write` and `sys_writev` over the two consoles: the screen gets one byte per character,
    the serial line gets the text only where the bytes are valid UTF-8. */
module Console {
  import opened Arith
  import opened Bits

  const EBADF: int := -9

  predicate IsTail(b: Byte) { 0x80 <= b <= 0xBF }

  /** The payload bits of a byte whose marker bits are `base`. */
  function Over(b: int, base: int): nat
    requires base <= b
  {
    b - base
  }

  /** The first character of `bs` and its length in bytes, as section 3 of RFC 3629 defines
      UTF-8: no overlong forms, no surrogates, nothing above U+10FFFF. */
  function DecodeOne(bs: seq<Byte>): (r: Option<(nat, nat)>)
    ensures r.Some? ==> 1 <= r.value.1 <= |bs|
  {
    if bs == [] then None
    else
      var b := bs[0];
      if b < 0x80 then Some((b, 1))
      else if 0xC2 <= b <= 0xDF && |bs| >= 2 && IsTail(bs[1]) then
        Some((Over(b, 0xC0) * 0x40 + Over(bs[1], 0x80), 2))
      else if 0xE0 <= b <= 0xEF && |bs| >= 3 && IsTail(bs[1]) && IsTail(bs[2])
              && (b == 0xE0 ==> bs[1] >= 0xA0) && (b == 0xED ==> bs[1] <= 0x9F) then
        Some((Over(b, 0xE0) * 0x1000 + Over(bs[1], 0x80) * 0x40 + Over(bs[2], 0x80), 3))
      else if 0xF0 <= b <= 0xF4 && |bs| >= 4 && IsTail(bs[1]) && IsTail(bs[2]) && IsTail(bs[3])
              && (b == 0xF0 ==> bs[1] >= 0x90) && (b == 0xF4 ==> bs[1] <= 0x8F) then
        Some((Over(b, 0xF0) * 0x40000 + Over(bs[1], 0x80) * 0x1000 + Over(bs[2], 0x80) * 0x40 + Over(bs[3], 0x80), 4))
      else None
  }

  /** `core::str::from_utf8` and its characters. */
  function Decode(bs: seq<Byte>): Option<seq<nat>> {
    if bs == [] then Some([])
    else
      match DecodeOne(bs)
      case None => None
      case Some((c, n)) =>
        match Decode(bs[n..])
        case None => None
        case Some(cs) => Some([c] + cs)
  }

  /** A character is recognised by its own bytes. */
  lemma DecodeOnePrefix(a: seq<Byte>, b: seq<Byte>)
    requires DecodeOne(a).Some?
    ensures DecodeOne(a + b) == DecodeOne(a)
  {
  }

  /** Text before other bytes decodes to itself, followed by what those bytes decode to. */
  lemma {:induction false} DecodeConcat(a: seq<Byte>, b: seq<Byte>)
    requires Decode(a).Some?
    ensures Decode(b).Some? ==> Decode(a + b) == Some(Decode(a).value + Decode(b).value)
    ensures Decode(b).None? ==> Decode(a + b).None?
  {
    if a == [] {
      assert a + b == b;
      if Decode(b).Some? {
        assert [] + Decode(b).value == Decode(b).value;
      }
    } else {
      hide DecodeOne;
      var (c, n) := DecodeOne(a).value;
      DecodeOnePrefix(a, b);
      assert (a + b)[n..] == a[n..] + b;
      DecodeConcat(a[n..], b);
      if Decode(b).Some? {
        var x, y := Decode(a[n..]).value, Decode(b).value;
        assert [c] + (x + y) == ([c] + x) + y;
      }
    }
  }

  /** A Unicode scalar value. */
  predicate Scalar(c: nat) { c < 0xD800 || 0xE000 <= c < 0x11_0000 }

  predicate Scalars(cs: seq<nat>) { forall i :: 0 <= i < |cs| ==> Scalar(cs[i]) }

  /** The UTF-8 form of a character: the table in section 3 of RFC 3629. */
  function EncodeOne(c: nat): (bs: seq<Byte>)
    requires Scalar(c)
    ensures 1 <= |bs| <= 4
  {
    if c < 0x80 then [c]
    else if c < 0x800 then [0xC0 + c / 0x40, 0x80 + c % 0x40]
    else if c < 0x1_0000 then [0xE0 + c / 0x1000, 0x80 + c / 0x40 % 0x40, 0x80 + c % 0x40]
    else [0xF0 + c / 0x4_0000, 0x80 + c / 0x1000 % 0x40, 0x80 + c / 0x40 % 0x40, 0x80 + c % 0x40]
  }

  function EncodeText(cs: seq<nat>): seq<Byte>
    requires Scalars(cs)
  {
    if cs == [] then [] else EncodeOne(cs[0]) + EncodeText(cs[1..])
  }

  /** What is recognised as a character is the UTF-8 form of that character, and no other. */
  lemma DecodedIsEncoded(bs: seq<Byte>)
    requires DecodeOne(bs).Some?
    ensures var (c, n) := DecodeOne(bs).value; Scalar(c) && EncodeOne(c) == bs[..n]
  {
    var (c, n) := DecodeOne(bs).value;
    if n == 2 {
      Digits(Over(bs[0], 0xC0), 0, 0, Over(bs[1], 0x80));
    } else if n == 3 {
      Digits(0, Over(bs[0], 0xE0), Over(bs[1], 0x80), Over(bs[2], 0x80));
    } else if n == 4 {
      Digits(Over(bs[0], 0xF0), Over(bs[1], 0x80), Over(bs[2], 0x80), Over(bs[3], 0x80));
    }
  }

  /** Numbers in base 64. */
  lemma Digits(a: nat, b: nat, c: nat, d: nat)
    requires b < 0x40 && c < 0x40 && d < 0x40
    ensures var x := a * 0x4_0000 + b * 0x1000 + c * 0x40 + d;
      x / 0x4_0000 == a && x / 0x1000 == a * 0x40 + b && x / 0x1000 % 0x40 == b && x / 0x40 % 0x40 == c && x % 0x40 == d
    ensures (a * 0x40 + d) / 0x40 == a && (a * 0x40 + d) % 0x40 == d
  {
    var x := a * 0x4_0000 + b * 0x1000 + c * 0x40 + d;
    DivIs(x, 0x4_0000, a);
    DivIs(x, 0x1000, a * 0x40 + b);
    DivIs(a * 0x40 + b, 0x40, a);
    DivIs(x, 0x40, a * 0x1000 + b * 0x40 + c);
    DivIs(a * 0x1000 + b * 0x40 + c, 0x40, a * 0x40 + b);
    DivIs(a * 0x40 + d, 0x40, a);
  }

  /** A number is made of its digits. */
  lemma FromDigits(x: nat)
    ensures x == x / 0x40 * 0x40 + x % 0x40
    ensures x / 0x40 == x / 0x1000 * 0x40 + x / 0x40 % 0x40
    ensures x / 0x1000 == x / 0x4_0000 * 0x40 + x / 0x1000 % 0x40
  {
    assert x / 0x40 / 0x40 == x / 0x1000 && x / 0x1000 / 0x40 == x / 0x4_0000;
  }

  lemma EncodedIsDecoded(c: nat, rest: seq<Byte>)
    requires Scalar(c)
    ensures DecodeOne(EncodeOne(c) + rest) == Some((c, |EncodeOne(c)|))
  {
    FromDigits(c);
    var x, y, z := c / 0x40 % 0x40, c / 0x1000 % 0x40, c % 0x40;
    if c < 0x80 {
      assert ([c] + rest)[0] == c;
    } else if c < 0x800 {
      DecodeTwo(c / 0x40, z, rest);
    } else if c < 0x1_0000 {
      DecodeThree(c / 0x1000, x, z, rest);
    } else {
      DecodeFour(c / 0x4_0000, y, x, z, rest);
    }
  }

  lemma DecodeTwo(a: nat, b: nat, rest: seq<Byte>)
    requires 2 <= a < 0x20 && b < 0x40
    ensures DecodeOne([0xC0 + a, 0x80 + b] + rest) == Some((a * 0x40 + b, 2))
  {
    var bs: seq<Byte> := [0xC0 + a, 0x80 + b] + rest;
    assert bs[0] == 0xC0 + a && bs[1] == 0x80 + b;
  }

  lemma DecodeThree(a: nat, b: nat, c: nat, rest: seq<Byte>)
    requires a < 0x10 && b < 0x40 && c < 0x40 && (a == 0 ==> b >= 0x20) && (a == 0xD ==> b < 0x20)
    ensures DecodeOne([0xE0 + a, 0x80 + b, 0x80 + c] + rest) == Some((a * 0x1000 + b * 0x40 + c, 3))
  {
    var bs: seq<Byte> := [0xE0 + a, 0x80 + b, 0x80 + c] + rest;
    assert bs[0] == 0xE0 + a && bs[1] == 0x80 + b && bs[2] == 0x80 + c;
  }

  lemma DecodeFour(a: nat, b: nat, c: nat, d: nat, rest: seq<Byte>)
    requires a <= 4 && b < 0x40 && c < 0x40 && d < 0x40 && (a == 0 ==> b >= 0x10) && (a == 4 ==> b < 0x10)
    ensures DecodeOne([0xF0 + a, 0x80 + b, 0x80 + c, 0x80 + d] + rest) ==
      Some((a * 0x4_0000 + b * 0x1000 + c * 0x40 + d, 4))
  {
    var bs: seq<Byte> := [0xF0 + a, 0x80 + b, 0x80 + c, 0x80 + d] + rest;
    assert bs[0] == 0xF0 + a && bs[1] == 0x80 + b && bs[2] == 0x80 + c && bs[3] == 0x80 + d;
  }

  /** The text of a byte string, from the writing side: bytes decode to `cs` exactly if they are the
      UTF-8 form of `cs`. */
  lemma {:induction false} DecodeIff(bs: seq<Byte>, cs: seq<nat>)
    ensures Decode(bs) == Some(cs) <==> Scalars(cs) && EncodeText(cs) == bs
    decreases |bs|
  {
    if Decode(bs) == Some(cs) {
      DecodeThenEncode(bs);
    }
    if Scalars(cs) && EncodeText(cs) == bs {
      EncodeThenDecode(cs);
    }
  }

  lemma {:induction false} DecodeThenEncode(bs: seq<Byte>)
    requires Decode(bs).Some?
    ensures Scalars(Decode(bs).value) && EncodeText(Decode(bs).value) == bs
    decreases |bs|
  {
    if bs != [] {
      var (c, n) := DecodeOne(bs).value;
      DecodedIsEncoded(bs);
      hide DecodeOne, EncodeOne;
      DecodeThenEncode(bs[n..]);
      var cs := Decode(bs[n..]).value;
      assert ([c] + cs)[1..] == cs && bs[..n] + bs[n..] == bs;
    }
  }

  lemma {:induction false} EncodeThenDecode(cs: seq<nat>)
    requires Scalars(cs)
    ensures Decode(EncodeText(cs)) == Some(cs)
    decreases |cs|
  {
    if cs != [] {
      var e, rest := EncodeOne(cs[0]), EncodeText(cs[1..]);
      EncodedIsDecoded(cs[0], rest);
      hide DecodeOne, EncodeOne;
      EncodeThenDecode(cs[1..]);
      assert (e + rest)[|e|..] == rest && [cs[0]] + cs[1..] == cs;
    }
  }

  /** The number of bytes that begin a character. */
  function Leads(bs: seq<Byte>): nat {
    if bs == [] then 0 else (if IsTail(bs[0]) then 0 else 1) + Leads(bs[1..])
  }

  lemma {:induction false} LeadsConcat(a: seq<Byte>, b: seq<Byte>)
    ensures Leads(a + b) == Leads(a) + Leads(b)
  {
    if a == [] {
      assert a + b == b;
    } else {
      LeadsConcat(a[1..], b);
      assert (a + b)[1..] == a[1..] + b;
    }
  }

  /** Text has one lead byte per character. */
  lemma {:induction false} LeadsOfText(bs: seq<Byte>)
    requires Decode(bs).Some?
    ensures Leads(bs) == |Decode(bs).value|
  {
    if bs != [] {
      var (c, n) := DecodeOne(bs).value;
      LeadsOfText(bs[n..]);
      LeadsOfOne(bs, n);
    }
  }

  lemma LeadsOfOne(bs: seq<Byte>, n: nat)
    requires DecodeOne(bs).Some? && n == DecodeOne(bs).value.1
    ensures Leads(bs) == 1 + Leads(bs[n..])
  {
    LeadsConcat(bs[..n], bs[n..]);
    assert bs[..n] + bs[n..] == bs;
    var t := bs[..n];
    assert !IsTail(t[0]) && forall i :: 1 <= i < n ==> IsTail(t[i]);
    TailsOnly(t[1..]);
  }

  lemma {:induction false} TailsOnly(bs: seq<Byte>)
    requires forall i :: 0 <= i < |bs| ==> IsTail(bs[i])
    ensures Leads(bs) == 0
  {
    if bs != [] {
      TailsOnly(bs[1..]);
    }
  }

  /** `print_char`: a character reaches the screen as its low byte. */
  function Narrow(cs: seq<nat>): seq<Byte> {
    seq(|cs|, i requires 0 <= i < |cs| => cs[i] % 256)
  }

  /** What a call leaves behind: bytes for the screen, characters for the serial line, and
      the returned value. */
  datatype Effect = Effect(screen: seq<Byte>, serial: seq<nat>, result: int)

  /** Signed 64-bit addition. */
  function AddI64(a: int, b: int): int {
    AsI64((a + b) % 0x1_0000_0000_0000_0000)
  }

  predicate GoodFd(fd: nat) { fd == 1 || fd == 2 }

  function Write(fd: nat, bs: seq<Byte>): Effect {
    if !GoodFd(fd) then Effect([], [], EBADF)
    else match Decode(bs)
      case Some(cs) => Effect(Narrow(cs), cs, AsI64(|bs|))
      case None => Effect(bs, [], AsI64(|bs|))
  }

  /** The buffers in order, stopping at the first negative result. `total` has been added up. */
  function Writev(fd: nat, bufs: seq<seq<Byte>>, total: int): Effect {
    if bufs == [] then Effect([], [], total)
    else
      var w := Write(fd, bufs[0]);
      if w.result < 0 then w
      else
        var rest := Writev(fd, bufs[1..], AddI64(total, w.result));
        Effect(w.screen + rest.screen, w.serial + rest.serial, rest.result)
  }

  class Consoles {
    var screen: seq<Byte>
    var serial: seq<nat>

    constructor ()
      ensures screen == [] && serial == []
    {
      screen, serial := [], [];
    }

    method SysWrite(fd: nat, bs: seq<Byte>) returns (r: int)
      modifies this
      ensures fd != 1 && fd != 2 ==> r == -9 && screen == old(screen) && serial == old(serial)
      ensures fd == 1 || fd == 2 ==> r == AsI64(|bs|)
      ensures (fd == 1 || fd == 2) && Decode(bs).Some? ==>
        serial == old(serial) + Decode(bs).value && screen == old(screen) + Narrow(Decode(bs).value)
      ensures (fd == 1 || fd == 2) && Decode(bs).None? ==> serial == old(serial) && screen == old(screen) + bs
      ensures screen == old(screen) + Write(fd, bs).screen
      ensures serial == old(serial) + Write(fd, bs).serial
      ensures r == Write(fd, bs).result
    {
      if fd != 1 && fd != 2 {
        return EBADF;
      }
      var s := Decode(bs);
      if s.Some? {
        for i := 0 to |s.value|
          invariant screen == old(screen) + Narrow(s.value)[..i] && serial == old(serial)
        {
          screen := screen + [s.value[i] % 256];
        }
        serial := serial + s.value;
      } else {
        for i := 0 to |bs|
          invariant screen == old(screen) + bs[..i] && serial == old(serial)
        {
          screen := screen + [bs[i]];
        }
      }
      return AsI64(|bs|);
    }

    method SysWritev(fd: nat, bufs: seq<seq<Byte>>) returns (r: int)
      modifies this
      ensures screen == old(screen) + Writev(fd, bufs, 0).screen
      ensures serial == old(serial) + Writev(fd, bufs, 0).serial
      ensures r == Writev(fd, bufs, 0).result
    {
      hide Write, AddI64;
      var total := 0;
      for i := 0 to |bufs|
        invariant old(screen) + Writev(fd, bufs, 0).screen == screen + Writev(fd, bufs[i..], total).screen
        invariant old(serial) + Writev(fd, bufs, 0).serial == serial + Writev(fd, bufs[i..], total).serial
        invariant Writev(fd, bufs, 0).result == Writev(fd, bufs[i..], total).result
      {
        assert bufs[i..][1..] == bufs[i + 1..];
        var result := SysWrite(fd, bufs[i]);
        if result < 0 {
          return result;
        }
        total := AddI64(total, result);
      }
      return total;
    }
  }

  function Join(bufs: seq<seq<Byte>>): seq<Byte> {
    if bufs == [] then [] else bufs[0] + Join(bufs[1..])
  }

  /** Every buffer is text on its own. */
  ghost predicate AllText(bufs: seq<seq<Byte>>) {
    forall i :: 0 <= i < |bufs| ==> Decode(bufs[i]).Some?
  }

  /** No buffer holds text, except empty ones. */
  ghost predicate NoText(bufs: seq<seq<Byte>>) {
    forall i :: 0 <= i < |bufs| ==> bufs[i] == [] || Decode(bufs[i]).None?
  }

  lemma SmallResults(fd: nat, bs: seq<Byte>, total: nat)
    requires GoodFd(fd) && total + |bs| < 0x8000_0000_0000_0000
    ensures Write(fd, bs).result == |bs| && AddI64(total, |bs|) == total + |bs|
  {
    hide Decode;
  }

  /** One round of the loop, while the total fits: the output of the first buffer comes first. */
  lemma WritevOutput(fd: nat, bufs: seq<seq<Byte>>, total: nat)
    requires GoodFd(fd) && bufs != [] && total + |Join(bufs)| < 0x8000_0000_0000_0000
    ensures var rest := Writev(fd, bufs[1..], total + |bufs[0]|);
      && Writev(fd, bufs, total).screen == Write(fd, bufs[0]).screen + rest.screen
      && Writev(fd, bufs, total).serial == Write(fd, bufs[0]).serial + rest.serial
      && Writev(fd, bufs, total).result == rest.result
  {
    hide Write, AddI64;
    SmallResults(fd, bufs[0], total);
  }

  /** On a good descriptor the result is the number of bytes. */
  lemma {:induction false} WritevResult(fd: nat, bufs: seq<seq<Byte>>, total: nat)
    requires GoodFd(fd) && total + |Join(bufs)| < 0x8000_0000_0000_0000
    ensures Writev(fd, bufs, total).result == total + |Join(bufs)|
    decreases |bufs|
  {
    if bufs != [] {
      hide Write, AddI64;
      WritevOutput(fd, bufs, total);
      WritevResult(fd, bufs[1..], total + |bufs[0]|);
    }
  }

  lemma NarrowConcat(a: seq<nat>, b: seq<nat>)
    ensures Narrow(a + b) == Narrow(a) + Narrow(b)
  {
  }

  lemma WriteText(fd: nat, bs: seq<Byte>)
    requires GoodFd(fd) && Decode(bs).Some?
    ensures Write(fd, bs).serial == Decode(bs).value && Write(fd, bs).screen == Narrow(Decode(bs).value)
  {
  }

  /** What went out for `bufs` is the text of `bs`. */
  ghost predicate PutsText(fd: nat, bufs: seq<seq<Byte>>, total: nat, bs: seq<Byte>) {
    && Decode(bs).Some?
    && Writev(fd, bufs, total).serial == Decode(bs).value
    && Writev(fd, bufs, total).screen == Narrow(Decode(bs).value)
  }

  lemma PutsMore(fd: nat, bufs: seq<seq<Byte>>, total: nat)
    requires GoodFd(fd) && bufs != [] && total + |Join(bufs)| < 0x8000_0000_0000_0000 && Decode(bufs[0]).Some?
    requires PutsText(fd, bufs[1..], total + |bufs[0]|, Join(bufs[1..]))
    ensures PutsText(fd, bufs, total, bufs[0] + Join(bufs[1..]))
  {
    hide Decode, Writev, Narrow, Write, Join;
    var b, rest := bufs[0], Join(bufs[1..]);
    WritevOutput(fd, bufs, total);
    WriteText(fd, b);
    DecodeConcat(b, rest);
    NarrowConcat(Decode(b).value, Decode(rest).value);
  }

  /** Buffers of text: the joined bytes are the joined text. */
  lemma {:induction false} WritevOfText(fd: nat, bufs: seq<seq<Byte>>, total: nat)
    requires GoodFd(fd) && AllText(bufs) && total + |Join(bufs)| < 0x8000_0000_0000_0000
    ensures PutsText(fd, bufs, total, Join(bufs))
    decreases |bufs|
  {
    if bufs != [] {
      hide Decode, Writev, Narrow;
      WritevOfText(fd, bufs[1..], total + |bufs[0]|);
      PutsMore(fd, bufs, total);
      assert PutsText(fd, bufs, total, Join(bufs));
    }
  }

  /** Buffers without text: the bytes go to the screen as they are. */
  lemma {:induction false} WritevOfBytes(fd: nat, bufs: seq<seq<Byte>>, total: nat)
    requires GoodFd(fd) && NoText(bufs) && total + |Join(bufs)| < 0x8000_0000_0000_0000
    ensures Writev(fd, bufs, total).serial == [] && Writev(fd, bufs, total).screen == Join(bufs)
    decreases |bufs|
  {
    if bufs != [] {
      WritevOutput(fd, bufs, total);
      WritevOfBytes(fd, bufs[1..], total + |bufs[0]|);
    }
  }

  /** The serial line never gets more characters than there are lead bytes. */
  lemma {:induction false} SerialAtMost(fd: nat, bufs: seq<seq<Byte>>, total: nat)
    requires GoodFd(fd) && total + |Join(bufs)| < 0x8000_0000_0000_0000
    ensures |Writev(fd, bufs, total).serial| <= Leads(Join(bufs))
    decreases |bufs|
  {
    if bufs != [] {
      WritevOutput(fd, bufs, total);
      SerialAtMost(fd, bufs[1..], total + |bufs[0]|);
      LeadsConcat(bufs[0], Join(bufs[1..]));
      if Decode(bufs[0]).Some? {
        LeadsOfText(bufs[0]);
      }
    }
  }

  /** If the joined bytes are text but some buffer is not, a character was cut in two and the
      serial line misses it. */
  lemma {:induction false} SerialMisses(fd: nat, bufs: seq<seq<Byte>>, total: nat)
    requires GoodFd(fd) && total + |Join(bufs)| < 0x8000_0000_0000_0000
    requires !AllText(bufs) && Decode(Join(bufs)).Some?
    ensures |Writev(fd, bufs, total).serial| < |Decode(Join(bufs)).value|
    decreases |bufs|
  {
    hide Writev, AsI64, AddI64, Narrow;
    var b, rest := bufs[0], bufs[1..];
    WritevOutput(fd, bufs, total);
    LeadsOfText(Join(bufs));
    LeadsConcat(b, Join(rest));
    if Decode(b).Some? {
      DecodeConcat(b, Join(rest));
      assert !AllText(rest);
      SerialMisses(fd, rest, total + |b|);
    } else {
      SerialAtMost(fd, rest, total + |b|);
      assert DecodeOne(Join(bufs)).Some? && !IsTail(b[0]);
    }
  }

  /** A buffer of text that is not empty shows on the serial line. */
  lemma {:induction false} SerialNotEmpty(fd: nat, bufs: seq<seq<Byte>>, total: nat)
    requires GoodFd(fd) && total + |Join(bufs)| < 0x8000_0000_0000_0000 && !NoText(bufs)
    ensures Writev(fd, bufs, total).serial != []
    decreases |bufs|
  {
    WritevOutput(fd, bufs, total);
    if bufs[0] == [] || Decode(bufs[0]).None? {
      assert !NoText(bufs[1..]);
      SerialNotEmpty(fd, bufs[1..], total + |bufs[0]|);
    }
  }

  /** `writev` does what one `write` of the joined bytes does exactly if every buffer is valid
      UTF-8 on its own, or neither the joined bytes nor any buffer that is not empty is. */
  lemma WritevIsWrite(fd: nat, bufs: seq<seq<Byte>>)
    requires (fd == 1 || fd == 2) && |Join(bufs)| < 0x8000_0000_0000_0000
    ensures Writev(fd, bufs, 0) == Write(fd, Join(bufs)) <==>
      AllText(bufs) || (Decode(Join(bufs)).None? && NoText(bufs))
  {
    hide Writev, Join, Decode, AllText, NoText, AsI64;
    WritevResult(fd, bufs, 0);
    SmallResults(fd, Join(bufs), 0);
    if AllText(bufs) {
      WritevOfText(fd, bufs, 0);
    } else if Decode(Join(bufs)).Some? {
      SerialMisses(fd, bufs, 0);
    } else if NoText(bufs) {
      WritevOfBytes(fd, bufs, 0);
    } else {
      SerialNotEmpty(fd, bufs, 0);
    }
  }

  /** A letter cut between two buffers: the screen gets two other characters, the serial line none. */
  lemma CutCharacter()
    ensures var bufs: seq<seq<Byte>> := [[0xC3], [0xA9]];
      && Write(1, Join(bufs)) == Effect([0xE9], [0xE9], 2)
      && Writev(1, bufs, 0) == Effect([0xC3, 0xA9], [], 2)
  {
    var a: seq<Byte>, b: seq<Byte> := [0xC3], [0xA9];
    var bufs := [a, b];
    assert bufs[1..] == [b] && [b][1..] == [];
    assert Join([b]) == b + [] == b && Join(bufs) == a + b == [0xC3, 0xA9];
    assert DecodeOne(a + b) == Some((0xE9, 2)) && (a + b)[2..] == [];
    var text: seq<nat> := [0xE9];
    assert Decode((a + b)[2..]) == Some([]) && text + [] == text;
    assert Decode(a + b) == Some(text) && |Narrow(text)| == 1 && Narrow(text)[0] == 0xE9;
    assert DecodeOne(a) == None && DecodeOne(b) == None;
    assert NoText(bufs) && GoodFd(1);
    WritevOfBytes(1, bufs, 0);
    WritevResult(1, bufs, 0);
  }

  /** On a bad descriptor nothing is written; an empty list goes unnoticed. */
  lemma WritevBadFd(fd: nat, bufs: seq<seq<Byte>>)
    requires fd != 1 && fd != 2
    ensures Writev(fd, bufs, 0) == if bufs == [] then Effect([], [], 0) else Effect([], [], -9)
  {
  }

  /** ASCII is text. */
  lemma {:induction false} AsciiIsText(bs: seq<Byte>)
    requires forall i :: 0 <= i < |bs| ==> bs[i] < 0x80
    ensures Decode(bs) == Some(bs)
  {
    if bs != [] {
      AsciiIsText(bs[1..]);
      assert [bs[0]] + bs[1..] == bs;
    }
  }
}
