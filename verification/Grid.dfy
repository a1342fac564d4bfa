/** A text screen as a list of lines. The cursor is always at the end of the last line. */
module Grid {
  import opened Arith
  import opened Bits

  const NEWLINE: Byte := 10

  type Lines = l: seq<seq<Byte>> | l != [] witness [[]]

  function Last(l: Lines): seq<Byte> { l[|l| - 1] }

  /** A new line at the bottom; the top line goes when the screen is full. */
  function Break(l: Lines, rows: nat): Lines {
    if |l| == rows then l[1..] + [[]] else l + [[]]
  }

  function Append(l: Lines, b: Byte): Lines {
    l[..|l| - 1] + [Last(l) + [b]]
  }

  /** One byte on a screen of `rows` lines of `cols` characters. A full line is left only when
      the next character comes. */
  function Put(l: Lines, b: Byte, rows: nat, cols: nat): Lines {
    if b == NEWLINE then Break(l, rows)
    else Append(if |Last(l)| == cols then Break(l, rows) else l, b)
  }

  function PutAll(l: Lines, bs: seq<Byte>, rows: nat, cols: nat): Lines
    decreases |bs|
  {
    if bs == [] then l else PutAll(Put(l, bs[0], rows, cols), bs[1..], rows, cols)
  }

  lemma {:induction false} PutAllSnoc(l: Lines, bs: seq<Byte>, b: Byte, rows: nat, cols: nat)
    ensures PutAll(l, bs + [b], rows, cols) == Put(PutAll(l, bs, rows, cols), b, rows, cols)
    decreases |bs|
  {
    if bs == [] {
      assert (bs + [b])[1..] == [];
    } else {
      assert (bs + [b])[1..] == bs[1..] + [b];
      PutAllSnoc(Put(l, bs[0], rows, cols), bs[1..], b, rows, cols);
    }
  }

  ghost predicate Fits(l: Lines, rows: nat, cols: nat) {
    |l| <= rows && forall i :: 0 <= i < |l| ==> |l[i]| <= cols
  }

  /** The same text on paper: lines are broken in the same places and none is lost. */
  function Page(l: Lines, bs: seq<Byte>, cols: nat): Lines
    decreases |bs|
  {
    if bs == [] then l
    else
      var b := bs[0];
      Page(if b == NEWLINE then l + [[]] else Append(if |Last(l)| == cols then l + [[]] else l, b), bs[1..], cols)
  }

  /** The last `rows` lines, or all of them. */
  function Window(l: Lines, rows: nat): Lines
    requires 0 < rows
  {
    if |l| <= rows then l else l[|l| - rows..]
  }

  lemma WindowBreak(l: Lines, rows: nat)
    requires 0 < rows
    ensures Break(Window(l, rows), rows) == Window(l + [[]], rows)
  {
    if |l| >= rows {
      var k := |l| - rows;
      assert (l + [[]])[k + 1..] == l[k..][1..] + [[]];
      assert l[0..] == l;
    }
  }

  lemma WindowAppend(l: Lines, b: Byte, rows: nat)
    requires 0 < rows
    ensures Append(Window(l, rows), b) == Window(Append(l, b), rows)
  {
    if |l| > rows {
      var k, a := |l| - rows, Append(l, b);
      assert |a| == |l| && a[k..] == l[k..|l| - 1] + [Last(l) + [b]];
      assert l[k..][..rows - 1] == l[k..|l| - 1];
    }
  }

  /** The screen is a window on the page: after any bytes it shows the last lines of the text. */
  lemma {:induction false} ScreenIsWindow(l: Lines, bs: seq<Byte>, rows: nat, cols: nat)
    requires 0 < rows
    ensures PutAll(Window(l, rows), bs, rows, cols) == Window(Page(l, bs, cols), rows)
    decreases |bs|
  {
    if bs != [] {
      var b := bs[0];
      WindowBreak(l, rows);
      WindowAppend(l, b, rows);
      WindowAppend(l + [[]], b, rows);
      var l' := if b == NEWLINE then l + [[]] else Append(if |Last(l)| == cols then l + [[]] else l, b);
      assert Last(Window(l, rows)) == Last(l);
      assert Put(Window(l, rows), b, rows, cols) == Window(l', rows);
      ScreenIsWindow(l', bs[1..], rows, cols);
    }
  }

  /** A line feed, byte 10, ends the line: what comes after it starts on a fresh one. */
  lemma {:induction false} PageLineFeed(l: Lines, a: seq<Byte>, b: seq<Byte>, cols: nat)
    requires 0 < cols
    ensures Page(l, a + [10] + b, cols) == Page(l, a, cols) + Page([[]], b, cols)
    decreases |a|
  {
    if a == [] {
      assert (a + [10] + b)[1..] == b;
      PageBelow(l, [[]], b, cols);
    } else {
      assert (a + [10] + b)[1..] == a[1..] + [10] + b;
      PageLineFeed(AfterByte(l, a[0], cols), a[1..], b, cols);
    }
  }

  /** The page after one more byte. */
  function AfterByte(l: Lines, b: Byte, cols: nat): Lines {
    if b == NEWLINE then l + [[]] else Append(if |Last(l)| == cols then l + [[]] else l, b)
  }

  lemma PageOfNothing(l: Lines, cols: nat)
    ensures Page(l, [], cols) == l
  {
  }

  lemma PageStep(l: Lines, bs: seq<Byte>, cols: nat)
    requires bs != []
    ensures Page(l, bs, cols) == Page(AfterByte(l, bs[0], cols), bs[1..], cols)
  {
  }

  lemma AfterBelow(above: seq<seq<Byte>>, l: Lines, b: Byte, cols: nat)
    ensures AfterByte(above + l, b, cols) == above + AfterByte(l, b, cols)
  {
    assert Last(above + l) == Last(l) && above + l + [[]] == above + (l + [[]]);
    AppendBelow(above, l, b);
    AppendBelow(above, l + [[]], b);
  }

  lemma AppendBelow(above: seq<seq<Byte>>, l: Lines, b: Byte)
    ensures Append(above + l, b) == above + Append(l, b)
  {
    var n := |l| - 1;
    assert (above + l)[..|above + l| - 1] == above + l[..n];
  }

  /** Lines above do not matter. */
  lemma {:induction false} PageBelow(above: seq<seq<Byte>>, l: Lines, bs: seq<Byte>, cols: nat)
    ensures Page(above + l, bs, cols) == above + Page(l, bs, cols)
    decreases |bs|
  {
    if bs != [] {
      var b := bs[0];
      AfterBelow(above, l, b, cols);
      PageBelow(above, AfterByte(l, b, cols), bs[1..], cols);
    }
  }

  /** Text without line feeds is cut into lines of `cols` characters: character `k` is in line
      `k / cols`, column `k % cols`. */
  lemma {:induction false} PageCuts(done: seq<Byte>, bs: seq<Byte>, cols: nat)
    requires 0 < cols && forall i :: 0 <= i < |bs| ==> bs[i] != 10
    ensures Page(Cut(done, cols), bs, cols) == Cut(done + bs, cols)
    decreases |bs|
  {
    hide Cut, AfterByte, Page;
    if bs == [] {
      assert done + bs == done;
      PageOfNothing(Cut(done, cols), cols);
    } else {
      var b, rest := bs[0], bs[1..];
      PageStep(Cut(done, cols), bs, cols);
      CutMore(done, b, cols);
      PageCuts(done + [b], rest, cols);
      assert done + [b] + rest == done + bs;
    }
  }

  /** Lines of `cols` characters; the last one may be shorter, and is empty only for no text. */
  function Cut(bs: seq<Byte>, cols: nat): Lines
    requires 0 < cols
    decreases |bs|
  {
    if |bs| <= cols then [bs] else [bs[..cols]] + Cut(bs[cols..], cols)
  }

  lemma {:induction false} CutAt(bs: seq<Byte>, cols: nat, k: nat)
    requires 0 < cols && k < |bs|
    ensures k / cols < |Cut(bs, cols)| && k % cols < |Cut(bs, cols)[k / cols]|
    ensures Cut(bs, cols)[k / cols][k % cols] == bs[k]
    decreases |bs|
  {
    if k < cols {
      DivIs(k, cols, 0);
    } else {
      CutAt(bs[cols..], cols, k - cols);
      DivShift(k, cols);
    }
  }

  lemma CutFirst(bs: seq<Byte>, b: Byte, cols: nat)
    requires 0 < cols && b != 10 && |bs| <= cols
    ensures AfterByte(Cut(bs, cols), b, cols) == Cut(bs + [b], cols)
  {
    if |bs| == cols {
      assert (bs + [b])[..cols] == bs && (bs + [b])[cols..] == [b];
      var l: Lines := [bs] + [[]];
      assert Cut([b], cols) == [[b]] && l[..1] == [bs] && Last(l) + [b] == [b];
    }
  }

  lemma {:induction false} CutMore(bs: seq<Byte>, b: Byte, cols: nat)
    requires 0 < cols && b != 10
    ensures AfterByte(Cut(bs, cols), b, cols) == Cut(bs + [b], cols)
    decreases |bs|
  {
    if |bs| <= cols {
      CutFirst(bs, b, cols);
    } else {
      var first, rest := bs[..cols], bs[cols..];
      CutMore(rest, b, cols);
      assert (bs + [b])[..cols] == first && (bs + [b])[cols..] == rest + [b];
      hide AfterByte;
      AfterBelow([first], Cut(rest, cols), b, cols);
    }
  }
}
