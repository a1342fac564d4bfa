/** The framebuffer text writer. Pixels live in one array, row after row, `stride` apart;
    a character cell is a square of `8 * scale` pixels. */
module Screen {
  import opened Arith
  import opened Bits
  import opened Grid

  const FONT_SIZE: nat := 8

  datatype PixelFormat = RGB | BGR | U8

  /** The byte order of the screen: red and blue change places on RGB screens. */
  function ConvertColor(format: PixelFormat, color: nat): nat {
    match format
    case RGB => color % 256 * 0x1_0000 + color / 256 % 256 * 256 + color / 0x1_0000 % 256
    case _ => color
  }

  /** Converting twice gives the colour back. */
  lemma ConvertTwice(format: PixelFormat, color: nat)
    requires color < 0x100_0000
    ensures ConvertColor(format, ConvertColor(format, color)) == color
  {
    var r, g, b := color / 0x1_0000 % 256, color / 256 % 256, color % 256;
    assert color == r * 0x1_0000 + g * 256 + b;
    Unpack(b, g, r);
  }

  lemma Unpack(r: nat, g: nat, b: nat)
    requires r < 256 && g < 256 && b < 256
    ensures var c := r * 0x1_0000 + g * 256 + b; c / 0x1_0000 % 256 == r && c / 256 % 256 == g && c % 256 == b
  {
    var c := r * 0x1_0000 + g * 256 + b;
    assert c / 256 == r * 256 + g;
    assert c / 0x1_0000 == r;
  }

  /** The bytes of a pixel in memory, lowest first: red, green, blue on an RGB screen; on any other the
      colour is stored as it is, blue, green, red. */
  lemma ConvertBytes(format: PixelFormat, color: nat)
    requires color < 0x100_0000
    ensures var c := ConvertColor(format, color);
      var red, green, blue := color / 0x1_0000, color / 0x100 % 0x100, color % 0x100;
      && (format == RGB ==> c % 0x100 == red && c / 0x100 % 0x100 == green && c / 0x1_0000 == blue)
      && (format != RGB ==> c % 0x100 == blue && c / 0x100 % 0x100 == green && c / 0x1_0000 == red)
  {
    var r, g, b := color / 0x1_0000 % 256, color / 256 % 256, color % 256;
    Unpack(b, g, r);
  }

  /** The colours that `init` stores are not converted, while `clear` converts its argument:
      right after the kernel's first clear the background colour is the colour on the screen
      exactly if the screen is not RGB. */
  lemma InitialBackground(format: PixelFormat)
    ensures ConvertColor(format, 0x0000FF) == 0x0000FF <==> format != RGB
  {
  }

  /** The index of a pixel. */
  function Index(y: nat, x: nat, stride: nat): nat { y * stride + x }

  lemma IndexInside(y: nat, x: nat, height: nat, stride: nat)
    requires y < height && x < stride
    ensures Index(y, x, stride) < height * stride
  {
    MulLe(y + 1, height, stride);
    MulStep(y, stride);
  }

  lemma IndexDistinct(y: nat, x: nat, y': nat, x': nat, stride: nat)
    requires x < stride && x' < stride && Index(y, x, stride) == Index(y', x', stride)
    ensures y == y' && x == x'
  {
    DivIs(Index(y, x, stride), stride, y);
    DivIs(Index(y, x, stride), stride, y');
  }

  /** Rows further down are a fixed distance away. */
  lemma IndexShift(y: nat, k: nat, x: nat, stride: nat)
    ensures Index(y + k, x, stride) == Index(y, x, stride) + k * stride
  {
    assert (y + k) * stride == y * stride + k * stride;
  }

  datatype Command = Write(b: Byte) | ClearTo(color: nat) | Scale(n: nat) | Text(color: nat) | Background(color: nat)

  /** No line is broken while the cells are taller than the screen. The column `x` and the scale
      are all that one has to follow. */
  predicate NeverTooTall(cs: seq<Command>, x: nat, scale: nat, width: nat, height: nat)
    decreases |cs|
  {
    cs == [] ||
    (var cell, rest := FONT_SIZE * scale, cs[1..];
     match cs[0]
     case Write(b) =>
       var breaks := b == NEWLINE || x + cell > width;
       && (breaks ==> cell <= height)
       && NeverTooTall(rest, if b == NEWLINE then 0 else (if breaks then 0 else x) + cell, scale, width, height)
     case ClearTo(_) => NeverTooTall(rest, 0, scale, width, height)
     case Scale(n) => NeverTooTall(rest, x, n, width, height)
     case _ => NeverTooTall(rest, x, scale, width, height))
  }

  /** Scales that fit the screen are always safe; one that does not is made unsafe by a newline. */
  lemma {:induction false} FittingScales(cs: seq<Command>, x: nat, scale: nat, width: nat, height: nat)
    requires FONT_SIZE * scale <= height && forall i :: 0 <= i < |cs| && cs[i].Scale? ==> FONT_SIZE * cs[i].n <= height
    ensures NeverTooTall(cs, x, scale, width, height)
    decreases |cs|
  {
    if cs != [] {
      var rest := cs[1..];
      assert forall i :: 0 <= i < |rest| ==> rest[i] == cs[i + 1];
      match cs[0]
      case Write(b) =>
        var breaks := b == NEWLINE || x + FONT_SIZE * scale > width;
        var x' := if b == NEWLINE then 0 else (if breaks then 0 else x) + FONT_SIZE * scale;
        FittingScales(rest, x', scale, width, height);
      case ClearTo(_) => FittingScales(rest, 0, scale, width, height);
      case Scale(n) => FittingScales(rest, x, n, width, height);
      case _ => FittingScales(rest, x, scale, width, height);
    }
  }

  lemma TallScale(x: nat, scale: nat, n: nat, width: nat, height: nat)
    requires FONT_SIZE * n > height
    ensures !NeverTooTall([Scale(n), Write(NEWLINE)], x, scale, width, height)
  {
    var cs := [Scale(n), Write(NEWLINE)];
    assert cs[1..] == [Write(NEWLINE)] && !NeverTooTall([Write(NEWLINE)], x, n, width, height);
  }

  class FrameBufferWriter {
    const buffer: array<nat>
    const width: nat
    const height: nat
    const stride: nat
    const format: PixelFormat
    const font: map<Byte, seq<Byte>>
    var xPos: nat
    var yPos: nat
    var scale: nat
    var textColor: nat
    var bgColor: nat

    constructor (buffer: array<nat>, width: nat, height: nat, stride: nat, format: PixelFormat, font: map<Byte,
                 seq<Byte>>)
      requires 0 < height && width <= stride && buffer.Length == height * stride
      requires forall b :: b in font ==> |font[b]| == FONT_SIZE
      ensures Safe() && xPos == 0 && yPos == 0 && scale == 2 && textColor == 0xFFFFFF && bgColor == 0x0000FF
      ensures this.buffer == buffer && this.width == width && this.height == height && this.stride == stride
      ensures this.format == format && this.font == font
    {
      this.buffer, this.width, this.height, this.stride := buffer, width, height, stride;
      this.format, this.font := format, font;
      xPos, yPos, scale, textColor, bgColor := 0, 0, 2, 0xFFFFFF, 0x0000FF;
    }

    /** What keeps every access inside the buffer, whatever is written and however the scale changes. */
    ghost predicate Safe()
      reads this
    {
      && width <= stride && buffer.Length == height * stride
      && (forall b :: b in font ==> |font[b]| == FONT_SIZE)
      && yPos < height
    }

    function Cell(): nat
      reads this
    {
      FONT_SIZE * scale
    }

    /** How many lines of how many characters there is room for. */
    ghost function Rows(): nat
      reads this
    {
      if scale == 0 then 0 else height / Cell()
    }

    ghost function Cols(): nat
      reads this
    {
      if scale == 0 then 0 else width / Cell()
    }

    ghost function At(y: nat, x: nat): nat
      reads this, buffer
      requires Safe() && y < height && x < stride
    {
      IndexInside(y, x, height, stride);
      buffer[Index(y, x, stride)]
    }

    method Plot(y: nat, x: nat, color: nat)
      requires Safe() && y < height && x < stride
      modifies buffer
      ensures forall v, u :: 0 <= v < height && 0 <= u < stride ==>
        At(v, u) == if v == y && u == x then color else old(At(v, u))
    {
      IndexInside(y, x, height, stride);
      buffer[y * stride + x] := color;
      forall v, u | 0 <= v < height && 0 <= u < stride
        ensures At(v, u) == if v == y && u == x then color else old(At(v, u))
      {
        IndexInside(v, u, height, stride);
        if Index(v, u, stride) == Index(y, x, stride) {
          IndexDistinct(v, u, y, x, stride);
        }
      }
    }

    /** Paints the part of a rectangle that is on the screen. */
    method FillRect(top: nat, left: nat, h: nat, w: nat, color: nat)
      requires Safe()
      modifies buffer
      ensures forall v, u :: 0 <= v < height && 0 <= u < stride ==>
        At(v, u) == if top <= v < top + h && left <= u < left + w && u < width then color else old(At(v, u))
    {
      hide Index;
      for i := 0 to h
        invariant forall v, u :: 0 <= v < height && 0 <= u < stride ==>
          At(v, u) == if top <= v < top + i && left <= u < left + w && u < width then color else old(At(v, u))
      {
        for j := 0 to w
          invariant forall v, u :: 0 <= v < height && 0 <= u < stride ==>
            At(v, u) == if (top <= v < top + i && left <= u < left + w && u < width)
                           || (v == top + i && left <= u < left + j && u < width) then color else old(At(v, u))
        {
          if left + j < width && top + i < height {
            Plot(top + i, left + j, color);
          }
        }
      }
    }

    ghost function StyleNow(): Style
      reads this
    {
      Style(scale, textColor, bgColor, font)
    }

    /** The refinement relation: the visible pixels are the picture of `l`, and the cursor is
        behind its last character. */
    ghost predicate Shows(l: Lines)
      reads this, buffer
    {
      && Safe() && 0 < scale && Cell() <= width && Cell() <= height
      && Grid.Fits(l, Rows(), Cols())
      && xPos == |Last(l)| * Cell() && yPos == (|l| - 1) * Cell()
      && forall v, u :: 0 <= v < height && 0 <= u < width ==> At(v, u) == Pixel(l, v, u, StyleNow())
    }

    /** `clear`: the visible screen in one colour, the cursor at the top left. */
    method Clear(color: nat)
      requires Safe()
      modifies this, buffer
      ensures Safe() && xPos == 0 && yPos == 0 && StyleKept()
      ensures forall v, u :: 0 <= v < height && 0 <= u < stride ==>
        At(v, u) == if u < width then ConvertColor(format, color) else old(At(v, u))
      ensures 0 < scale && Cell() <= width && Cell() <= height && ConvertColor(format, color) == bgColor ==> Shows([[]])
    {
      hide Index, Ink, SpotOf;
      var c := ConvertColor(format, color);
      FillRect(0, 0, height, width, c);
      assert forall v, u :: 0 <= v < height && 0 <= u < width ==> At(v, u) == c;
      PlaceCursor(0, 0);
      if 0 < scale && Cell() <= width && Cell() <= height {
        FitsIff(1, height, Cell());
      }
    }

    twostate predicate StyleKept()
      reads this
    {
      scale == old(scale) && textColor == old(textColor) && bgColor == old(bgColor)
    }

    /** `ptr::copy` down to the start of the buffer: the ranges overlap, the source is above. */
    method MoveToStart(from: nat, n: nat)
      requires from + n <= buffer.Length
      modifies buffer
      ensures forall i :: 0 <= i < n ==> buffer[i] == old(buffer[from + i])
      ensures forall i :: n <= i < buffer.Length ==> buffer[i] == old(buffer[i])
    {
      for i := 0 to n
        invariant forall j :: 0 <= j < i ==> buffer[j] == old(buffer[from + j])
        invariant forall j :: i <= j < buffer.Length ==> buffer[j] == old(buffer[j])
      {
        buffer[i] := buffer[from + i];
      }
    }

    /** `scroll_up`: every row moves up by one cell, in place; the rows left over at the bottom
        get the background colour, over the whole stride. */
    method ScrollUp()
      requires Safe() && Cell() <= height
      modifies buffer
      ensures forall v, u :: 0 <= v < height && 0 <= u < stride ==>
        At(v, u) == if v + Cell() < height then old(At(v + Cell(), u)) else bgColor
    {
      MulSplit(height - Cell(), Cell(), stride);
      var copyLen, fillLen := (height - Cell()) * stride, Cell() * stride;
      MoveToStart(stride * Cell(), copyLen);
      FillFrom(copyLen, fillLen, bgColor);
      assert copyLen + fillLen == buffer.Length;
      forall v, u | 0 <= v < height && 0 <= u < stride
        ensures At(v, u) == if v + Cell() < height then old(At(v + Cell(), u)) else bgColor
      {
        hide Index;
        ScrolledIndex(v, u, Cell(), height, stride);
      }
    }

    method FillFrom(start: nat, n: nat, color: nat)
      requires start + n <= buffer.Length
      modifies buffer
      ensures forall i :: 0 <= i < buffer.Length ==>
        buffer[i] == if start <= i < start + n then color else old(buffer[i])
    {
      for i := 0 to n
        invariant forall j :: 0 <= j < buffer.Length ==>
          buffer[j] == if start <= j < start + i then color else old(buffer[j])
      {
        buffer[start + i] := color;
      }
    }

    /** `new_line`: the cursor moves down, or the screen scrolls and the cursor stays. */
    method MoveDown()
      requires Safe() && Cell() <= height
      modifies this, buffer
      ensures Safe() && xPos == 0 && StyleKept()
      ensures yPos == if old(yPos) + Cell() + Cell() > height then old(yPos) else old(yPos) + Cell()
      ensures forall v, u :: 0 <= v < height && 0 <= u < stride ==>
        At(v, u) == if old(yPos) + Cell() + Cell() <= height then old(At(v, u))
                    else if v + Cell() < height then old(At(v + Cell(), u)) else bgColor
    {
      hide Index;
      var y := yPos + Cell();
      if y + Cell() > height {
        ScrollUp();
        y := y - Cell();
      }
      PlaceCursor(0, y);
    }

    method PlaceCursor(x: nat, y: nat)
      requires Safe() && y < height
      modifies this
      ensures Safe() && xPos == x && yPos == y && StyleKept()
      ensures forall v, u :: 0 <= v < height && 0 <= u < stride ==> At(v, u) == old(At(v, u))
    {
      xPos, yPos := x, y;
    }

    method NewLine()
      requires Safe() && Cell() <= height
      modifies this, buffer
      ensures Safe() && xPos == 0 && StyleKept()
      ensures forall l :: old(Shows(l)) ==> Shows(Break(l, Rows()))
    {
      hide Index, Pixel, Break;
      MoveDown();
      forall l | old(Shows(l))
        ensures Shows(Break(l, Rows()))
      {
        RoomBelow(|l|, Cell(), height);
        BreakShape(l, Rows());
        forall v, u | 0 <= v < height && 0 <= u < width
          ensures At(v, u) == Pixel(Break(l, Rows()), v, u, StyleNow())
        {
          PixelAfterBreak(l, v, u, StyleNow(), height);
        }
      }
    }

    /** `fill_remainder`: clears the rest of the line. */
    method ClearRemainder()
      requires Safe()
      modifies buffer
      ensures forall l :: old(Shows(l)) ==> Shows(l)
    {
      hide Index, Pixel;
      if xPos < width {
        FillRect(yPos, xPos, Cell(), width - xPos, bgColor);
      }
      forall l | old(Shows(l))
        ensures Shows(l)
      {
        forall v, u | 0 <= v < height && 0 <= u < width
          ensures At(v, u) == Pixel(l, v, u, StyleNow())
        {
          if yPos <= v < yPos + Cell() && xPos <= u {
            PixelRemainder(l, v, u, StyleNow());
          }
        }
      }
    }

    /** `draw_char`: a byte without a glyph draws nothing. */
    method DrawChar(x: nat, y: nat, b: Byte)
      requires Safe()
      modifies buffer
      ensures forall v, u :: 0 <= v < height && 0 <= u < stride ==>
        At(v, u) == if b in font && 0 < scale && InCell(v, u, y, x, scale) && u < width
                    then CellInk(font[b], v, u, y, x, scale, textColor, bgColor) else old(At(v, u))
    {
      if b in font && 0 < scale {
        DrawGlyph(x, y, font[b]);
      }
    }

    /** Draws a character at the cursor and moves on. */
    method DrawNext(b: Byte)
      requires Safe()
      modifies this, buffer
      ensures Safe() && StyleKept() && xPos == old(xPos) + Cell()
      ensures forall l :: old(Shows(l)) && |Last(l)| < Cols() ==> Shows(Append(l, b))
    {
      hide Index, Pixel, InCell, CellInk;
      DrawChar(xPos, yPos, b);
      xPos := xPos + Cell();
      forall l | old(Shows(l)) && |Last(l)| < Cols()
        ensures Shows(Append(l, b))
      {
        MulStep(|Last(l)|, Cell());
        forall v, u | 0 <= v < height && 0 <= u < width
          ensures At(v, u) == Pixel(Append(l, b), v, u, StyleNow())
        {
          PixelAppend(l, b, v, u, StyleNow());
        }
      }
    }

    /** Byte `b` starts a new line. */
    predicate Breaks(b: Byte)
      reads this
    {
      b == NEWLINE || xPos + Cell() > width
    }

    method WriteByte(b: Byte)
      requires Safe() && (Breaks(b) ==> Cell() <= height)
      modifies this, buffer
      ensures Safe() && StyleKept()
      ensures xPos == if b == NEWLINE then 0 else (if old(Breaks(b)) then 0 else old(xPos)) + Cell()
      ensures forall l :: old(Shows(l)) ==> Shows(Put(l, b, Rows(), Cols()))
    {
      hide Index, Pixel, Append, Break;
      forall l | old(Shows(l))
        ensures xPos + Cell() > width <==> |Last(l)| == Cols()
      {
        MulStep(|Last(l)|, Cell());
        FitsIff(|Last(l)| + 1, width, Cell());
      }
      if b == NEWLINE {
        ClearRemainder();
        NewLine();
      } else {
        if xPos + Cell() > width {
          NewLine();
        }
        DrawNext(b);
      }
    }

    /** `write_str`: any text, byte after byte. */
    method WriteStr(bs: seq<Byte>)
      requires Safe() && Cell() <= height
      modifies this, buffer
      ensures Safe() && StyleKept()
      ensures forall l :: old(Shows(l)) ==> Shows(PutAll(l, bs, Rows(), Cols()))
    {
      hide Put, FrameBufferWriter.Shows, FrameBufferWriter.Safe;
      for i := 0 to |bs|
        invariant Safe() && StyleKept()
        invariant forall l :: old(Shows(l)) ==> Shows(PutAll(l, bs[..i], Rows(), Cols()))
      {
        WriteByte(bs[i]);
        forall l | old(Shows(l))
          ensures Shows(PutAll(l, bs[..i + 1], Rows(), Cols()))
        {
          PutAllSnoc(l, bs[..i], bs[i], Rows(), Cols());
          assert bs[..i] + [bs[i]] == bs[..i + 1];
        }
      }
      assert bs[..|bs|] == bs;
    }

    method SetScale(scale: nat)
      requires Safe()
      modifies this
      ensures Safe() && this.scale == scale
      ensures xPos == old(xPos) && yPos == old(yPos) && textColor == old(textColor) && bgColor == old(bgColor)
    {
      this.scale := scale;
    }

    method SetTextColor(color: nat)
      requires Safe()
      modifies this
      ensures Safe() && textColor == ConvertColor(format, color)
      ensures xPos == old(xPos) && yPos == old(yPos) && scale == old(scale) && bgColor == old(bgColor)
    {
      textColor := ConvertColor(format, color);
    }

    method SetBackgroundColor(color: nat)
      requires Safe()
      modifies this
      ensures Safe() && bgColor == ConvertColor(format, color)
      ensures xPos == old(xPos) && yPos == old(yPos) && scale == old(scale) && textColor == old(textColor)
    {
      bgColor := ConvertColor(format, color);
    }

    /** Any sequence of calls, in any order, with any scales. Every pixel access is inside the buffer
        and the cursor's row stays on the screen, up to the first line break with a cell that is
        taller than the screen: there the height of the part that moves up would be negative. */
    method Drive(cs: seq<Command>) returns (ok: bool)
      requires Safe()
      modifies this, buffer
      ensures Safe()
      ensures ok <==> NeverTooTall(cs, old(xPos), old(scale), width, height)
    {
      hide Index, Pixel, ConvertColor, FrameBufferWriter.Shows;
      for i := 0 to |cs|
        invariant Safe()
        invariant NeverTooTall(cs, old(xPos), old(scale), width, height) ==
          NeverTooTall(cs[i..], xPos, scale, width, height)
      {
        assert cs[i..][1..] == cs[i + 1..];
        match cs[i]
        case Write(b) =>
          if Breaks(b) && Cell() > height {
            return false;
          }
          WriteByte(b);
        case ClearTo(c) => Clear(c);
        case Scale(n) => SetScale(n);
        case Text(c) => SetTextColor(c);
        case Background(c) => SetBackgroundColor(c);
      }
      return true;
    }

    /** From a cleared screen on, whatever is written, the pixels are the picture of the last
        lines of the text. */
    method ClearAndWrite(color: nat, bs: seq<Byte>)
      requires Safe() && 0 < scale && Cell() <= width && Cell() <= height
      requires ConvertColor(format, color) == bgColor
      modifies this, buffer
      ensures Safe() && StyleKept() && 0 < height / (8 * scale)
      ensures Shows(Window(Page([[]], bs, width / (8 * scale)), height / (8 * scale)))
    {
      hide Index, Pixel, PutAll, Window, Page, ConvertColor;
      FitsIff(1, height, Cell());
      Clear(color);
      WriteStr(bs);
      WindowOfOne(Rows());
      ScreenIsWindow([[]], bs, Rows(), Cols());
    }

    /** The loops over the glyph: block (row, col) of the cell takes the colour of bit `col` of
        row `row`. What falls outside the screen is cut off. */
    method DrawGlyph(left: nat, top: nat, glyph: seq<Byte>)
      requires Safe() && scale > 0 && |glyph| == FONT_SIZE
      modifies buffer
      ensures forall v, u :: 0 <= v < height && 0 <= u < stride ==>
        At(v, u) == if InCell(v, u, top, left, scale) && u < width
                    then CellInk(glyph, v, u, top, left, scale, textColor, bgColor) else old(At(v, u))
      ensures forall row, col, sy, sx ::
        0 <= row < 8 && 0 <= col < 8 && 0 <= sy < scale && 0 <= sx < scale ==> DotIs(glyph, top, left, row, col, sy, sx)
    {
      forall v, u | 0 <= v < height && 0 <= u < stride
        ensures !Drawn(v, u, top, left, scale, 0, 0)
      {
        DrawnNone(v, u, top, left, scale);
      }
      hide Index, Drawn, InCell, CellInk, Ink;
      for row := 0 to FONT_SIZE
        invariant forall v, u :: 0 <= v < height && 0 <= u < stride ==>
          At(v, u) == if Drawn(v, u, top, left, scale, row, 0) && u < width
                      then CellInk(glyph, v, u, top, left, scale, textColor, bgColor) else old(At(v, u))
      {
        for col := 0 to FONT_SIZE
          invariant forall v, u :: 0 <= v < height && 0 <= u < stride ==>
            At(v, u) == if Drawn(v, u, top, left, scale, row, col) && u < width
                        then CellInk(glyph, v, u, top, left, scale, textColor, bgColor) else old(At(v, u))
        {
          DrawBlock(left, top, glyph, row, col);
          forall v, u | 0 <= v < height && 0 <= u < stride
            ensures Drawn(v, u, top, left, scale, row, col + 1) <==>
              Drawn(v, u, top, left, scale, row, col) || InBlock(v, u, top, left, scale, row, col)
          {
            DrawnStep(v, u, top, left, scale, row, col);
          }
        }
        forall v, u | 0 <= v < height && 0 <= u < stride
          ensures Drawn(v, u, top, left, scale, row, FONT_SIZE) == Drawn(v, u, top, left, scale, row + 1, 0)
        {
          DrawnRow(v, u, top, left, scale, row);
        }
      }
      forall v, u | 0 <= v < height && 0 <= u < stride
        ensures Drawn(v, u, top, left, scale, FONT_SIZE, 0) == InCell(v, u, top, left, scale)
      {
        DrawnAll(v, u, top, left, scale);
      }
      forall row, col, sy, sx | 0 <= row < 8 && 0 <= col < 8 && 0 <= sy < scale && 0 <= sx < scale
        ensures DotIs(glyph, top, left, row, col, sy, sx)
      {
        DotFromInk(glyph, top, left, row, col, sy, sx);
      }
    }

    /** Pixel (sy, sx) of block (row, col) of a cell has the text colour exactly if the glyph's row has
        the bit worth 2^col, the lowest bit being the leftmost column. */
    ghost predicate DotIs(glyph: seq<Byte>, top: nat, left: nat, row: nat, col: nat, sy: nat, sx: nat)
      reads this, buffer
      requires Safe() && row < |glyph|
    {
      var y, x := top + row * scale + sy, left + col * scale + sx;
      y < height && x < width ==>
        At(y, x) == if glyph[row] / Pow2(col) % 2 == 1 then textColor else bgColor
    }

    lemma DotFromInk(glyph: seq<Byte>, top: nat, left: nat, row: nat, col: nat, sy: nat, sx: nat)
      requires Safe() && |glyph| == FONT_SIZE && row < 8 && col < 8 && sy < scale && sx < scale
      requires forall v, u :: 0 <= v < height && 0 <= u < width && InCell(v, u, top, left, scale) ==>
        At(v, u) == CellInk(glyph, v, u, top, left, scale, textColor, bgColor)
      ensures DotIs(glyph, top, left, row, col, sy, sx)
    {
      hide Index, FrameBufferWriter.At;
      var y, x := top + row * scale + sy, left + col * scale + sx;
      BlockInCell(row, sy, scale);
      BlockInCell(col, sx, scale);
      BitIs(glyph[row], col);
    }

    /** The two inner loops: one block of `scale` by `scale` pixels. */
    method DrawBlock(left: nat, top: nat, glyph: seq<Byte>, row: nat, col: nat)
      requires Safe() && scale > 0 && |glyph| == FONT_SIZE && row < FONT_SIZE && col < FONT_SIZE
      modifies buffer
      ensures forall v, u :: 0 <= v < height && 0 <= u < stride ==>
        At(v, u) == if InBlock(v, u, top, left, scale, row, col) && u < width
                    then CellInk(glyph, v, u, top, left, scale, textColor, bgColor) else old(At(v, u))
    {
      hide Index;
      var color := if Bit(glyph[row], col) then textColor else bgColor;
      FillRect(top + row * scale, left + col * scale, scale, scale, color);
      forall v, u | 0 <= v < height && 0 <= u < stride
        ensures InBlock(v, u, top, left, scale, row, col) ==>
          CellInk(glyph, v, u, top, left, scale, textColor, bgColor) == color
      {
        if InBlock(v, u, top, left, scale, row, col) {
          BlockIs(v, top, scale, row);
          BlockIs(u, left, scale, col);
        }
      }
    }
  }

  predicate InBlock(v: nat, u: nat, top: nat, left: nat, scale: nat, row: nat, col: nat) {
    top + row * scale <= v < top + row * scale + scale && left + col * scale <= u < left + col * scale + scale
  }

  /** The colour of a pixel of a cell. */
  function CellInk(glyph: seq<Byte>, v: nat, u: nat, top: nat, left: nat, scale: nat, fg: nat, bg: nat): nat
    requires scale > 0
  {
    if top <= v && left <= u then Ink(glyph, (v - top) / scale, (u - left) / scale, fg, bg) else bg
  }

  /** The colour of a block of a glyph: bit `gx` of row `gy`, lowest bit on the left. */
  function Ink(glyph: seq<Byte>, gy: nat, gx: nat, fg: nat, bg: nat): nat {
    if gy < |glyph| && Bit(glyph[gy], gx) then fg else bg
  }

  predicate InCell(v: nat, u: nat, top: nat, left: nat, scale: nat) {
    top <= v < top + FONT_SIZE * scale && left <= u < left + FONT_SIZE * scale
  }

  /** The blocks before (row, col), in the order in which they are drawn. */
  predicate Drawn(v: nat, u: nat, top: nat, left: nat, scale: nat, row: nat, col: nat)
    requires scale > 0
  {
    && top <= v && left <= u && (u - left) / scale < FONT_SIZE
    && ((v - top) / scale < row || ((v - top) / scale == row && (u - left) / scale < col))
  }

  lemma BlockIs(a: nat, base: nat, scale: nat, k: nat)
    requires scale > 0 && base <= a
    ensures base + k * scale <= a < base + k * scale + scale <==> (a - base) / scale == k
  {
    DivBounds(a - base, scale);
    if base + k * scale <= a < base + k * scale + scale {
      DivIs(a - base, scale, k);
    }
  }

  lemma DrawnStep(v: nat, u: nat, top: nat, left: nat, scale: nat, row: nat, col: nat)
    requires scale > 0 && col < FONT_SIZE
    ensures Drawn(v, u, top, left, scale, row, col + 1) <==>
      Drawn(v, u, top, left, scale, row, col) || InBlock(v, u, top, left, scale, row, col)
  {
    if top <= v && left <= u {
      BlockIs(v, top, scale, row);
      BlockIs(u, left, scale, col);
    }
  }

  lemma DrawnNone(v: nat, u: nat, top: nat, left: nat, scale: nat)
    requires scale > 0
    ensures !Drawn(v, u, top, left, scale, 0, 0)
  {
    if top <= v {
      DivBounds(v - top, scale);
    }
  }

  lemma DrawnRow(v: nat, u: nat, top: nat, left: nat, scale: nat, row: nat)
    requires scale > 0
    ensures Drawn(v, u, top, left, scale, row, FONT_SIZE) == Drawn(v, u, top, left, scale, row + 1, 0)
  {
  }

  lemma DrawnAll(v: nat, u: nat, top: nat, left: nat, scale: nat)
    requires scale > 0
    ensures Drawn(v, u, top, left, scale, FONT_SIZE, 0) == InCell(v, u, top, left, scale)
  {
    if top <= v && left <= u {
      QuotientBelow(v - top, FONT_SIZE, scale);
      QuotientBelow(u - left, FONT_SIZE, scale);
    }
  }

  /** Where a row lands when everything moves up by `cell` rows. */
  lemma ScrolledIndex(v: nat, u: nat, cell: nat, height: nat, stride: nat)
    requires v < height && u < stride && cell <= height
    ensures v + cell < height ==> Index(v, u, stride) < (height - cell) * stride
    ensures v + cell < height ==> Index(v + cell, u, stride) == stride * cell + Index(v, u, stride)
    ensures v + cell >= height ==> (height - cell) * stride <= Index(v, u, stride) < height * stride
    ensures (height - cell) * stride + cell * stride == height * stride
  {
    MulSplit(height - cell, cell, stride);
    IndexInside(v, u, height, stride);
    if v + cell < height {
      IndexInside(v, u, height - cell, stride);
      IndexShift(v, cell, u, stride);
    } else {
      MulLe(height - cell, v, stride);
    }
  }

  datatype Style = Style(scale: nat, fg: nat, bg: nat, font: map<Byte, seq<Byte>>) {
    function Cell(): nat { FONT_SIZE * scale }
  }

  /** A pixel in terms of text: line, column, and block of the glyph. */
  datatype Spot = Spot(r: nat, c: nat, gy: nat, gx: nat)

  function SpotOf(y: nat, x: nat, scale: nat): Spot
    requires scale > 0
  {
    var cell := FONT_SIZE * scale;
    Spot(y / cell, x / cell, y % cell / scale, x % cell / scale)
  }

  function SpotInk(l: Lines, p: Spot, st: Style): nat {
    if p.r < |l| && p.c < |l[p.r]| && l[p.r][p.c] in st.font
    then Ink(st.font[l[p.r][p.c]], p.gy, p.gx, st.fg, st.bg)
    else st.bg
  }

  /** The reference picture: the colour at (y, x) of a list of lines. Characters without a
      glyph, the ends of lines and the margins are background. */
  function Pixel(l: Lines, y: nat, x: nat, st: Style): nat
    requires st.scale > 0
  {
    SpotInk(l, SpotOf(y, x, st.scale), st)
  }

  lemma SpotDown(y: nat, x: nat, scale: nat)
    requires scale > 0
    ensures var p := SpotOf(y, x, scale); SpotOf(y + FONT_SIZE * scale, x, scale) == p.(r := p.r + 1)
  {
    var cell := FONT_SIZE * scale;
    DivBounds(y, cell);
    MulStep(y / cell, cell);
    DivIs(y, cell, y / cell);
    DivIs(y + cell, cell, y / cell + 1);
  }

  lemma SpotInCell(y: nat, x: nat, scale: nat, row: nat, col: nat)
    requires scale > 0
    ensures var p, cell := SpotOf(y, x, scale), FONT_SIZE * scale;
      InCell(y, x, row * cell, col * cell, scale) <==> p.r == row && p.c == col
  {
    BlockIs(y, 0, FONT_SIZE * scale, row);
    BlockIs(x, 0, FONT_SIZE * scale, col);
  }

  lemma SpotCellInk(y: nat, x: nat, scale: nat, row: nat, col: nat, glyph: seq<Byte>, fg: nat, bg: nat)
    requires scale > 0 && InCell(y, x, row * (FONT_SIZE * scale), col * (FONT_SIZE * scale), scale)
    ensures var p, cell := SpotOf(y, x, scale), FONT_SIZE * scale;
      CellInk(glyph, y, x, row * cell, col * cell, scale, fg, bg) == Ink(glyph, p.gy, p.gx, fg, bg)
  {
    DivIs(y, FONT_SIZE * scale, row);
    DivIs(x, FONT_SIZE * scale, col);
  }

  /** Block `k` of a cell, and the pixels in it. */
  lemma BlockInCell(k: nat, s: nat, scale: nat)
    requires k < 8 && s < scale
    ensures (k * scale + s) / scale == k && k * scale + s < 8 * scale
  {
    DivIs(k * scale + s, scale, k);
    MulLe(k + 1, 8, scale);
    MulStep(k, scale);
  }

  /** A pixel of the character at line `r`, column `c`, counted from the top left of its cell. */
  lemma PixelOfCharacter(l: Lines, st: Style, r: nat, c: nat, row: nat, col: nat, sy: nat, sx: nat)
    requires st.scale > 0 && r < |l| && c < |l[r]| && row < 8 && col < 8 && sy < st.scale && sx < st.scale
    requires l[r][c] in st.font && |st.font[l[r][c]]| == 8
    ensures Pixel(l, r * (8 * st.scale) + row * st.scale + sy, c * (8 * st.scale) + col * st.scale + sx, st) ==
      if st.font[l[r][c]][row] / Pow2(col) % 2 == 1 then st.fg else st.bg
  {
    hide Ink, SpotOf;
    SpotIs(r, c, row, col, sy, sx, st.scale);
    InkIs(st.font[l[r][c]], row, col, st.fg, st.bg);
  }

  lemma SpotIs(r: nat, c: nat, row: nat, col: nat, sy: nat, sx: nat, scale: nat)
    requires row < 8 && col < 8 && sy < scale && sx < scale
    ensures SpotOf(r * (8 * scale) + row * scale + sy, c * (8 * scale) + col * scale + sx, scale) ==
      Spot(r, c, row, col)
  {
    PartIs(r, row, sy, scale);
    PartIs(c, col, sx, scale);
  }

  lemma PartIs(r: nat, row: nat, s: nat, scale: nat)
    requires row < 8 && s < scale
    ensures var y, cell := r * (8 * scale) + row * scale + s, 8 * scale; y / cell == r && y % cell / scale == row
  {
    BlockInCell(row, s, scale);
    DivIs(r * (8 * scale) + row * scale + s, 8 * scale, r);
  }

  lemma InkIs(glyph: seq<Byte>, row: nat, col: nat, fg: nat, bg: nat)
    requires row < |glyph|
    ensures Ink(glyph, row, col, fg, bg) == if glyph[row] / Pow2(col) % 2 == 1 then fg else bg
  {
    hide Bit, Pow2;
    BitIs(glyph[row], col);
  }

  /** Everywhere else there is background: below the text, behind the end of a line, and where a
      character has no glyph. */
  lemma PixelElsewhere(l: Lines, st: Style, y: nat, x: nat)
    requires st.scale > 0
    requires var r, c := y / (8 * st.scale), x / (8 * st.scale); r >= |l| || c >= |l[r]| || l[r][c] !in st.font
    ensures Pixel(l, y, x, st) == st.bg
  {
  }

  lemma PixelBreak(l: Lines, y: nat, x: nat, st: Style)
    requires st.scale > 0
    ensures Pixel(l + [[]], y, x, st) == Pixel(l, y, x, st)
  {
    hide SpotOf, Ink;
  }

  /** Scrolling the picture by one cell is dropping the first line. */
  lemma PixelScroll(l: Lines, y: nat, x: nat, st: Style, height: nat)
    requires st.scale > 0 && |l| == height / st.Cell() && y < height
    ensures Pixel(l[1..] + [[]], y, x, st) == if y + st.Cell() < height then Pixel(l, y + st.Cell(), x, st) else st.bg
  {
    SpotDown(y, x, st.scale);
    if height <= y + st.Cell() {
      LastRow(y, x, st.scale, height);
    }
    hide SpotOf, Ink;
    var p := SpotOf(y, x, st.scale);
    var l' := l[1..] + [[]];
    assert p.r + 1 < |l| ==> l'[p.r] == l[p.r + 1];
    assert SpotInk(l', p, st) == SpotInk(l, p.(r := p.r + 1), st);
  }

  lemma PixelAfterBreak(l: Lines, y: nat, x: nat, st: Style, height: nat)
    requires st.scale > 0 && |l| <= height / st.Cell() && y < height
    ensures Pixel(Break(l, height / st.Cell()), y, x, st) ==
      if |l| < height / st.Cell() then Pixel(l, y, x, st)
      else if y + st.Cell() < height then Pixel(l, y + st.Cell(), x, st) else st.bg
  {
    hide Pixel;
    if |l| < height / st.Cell() {
      PixelBreak(l, y, x, st);
    } else {
      PixelScroll(l, y, x, st, height);
    }
  }

  lemma WindowOfOne(rows: nat)
    requires 0 < rows
    ensures Window([[]], rows) == [[]]
  {
  }

  lemma BreakShape(l: Lines, rows: nat)
    requires |l| <= rows
    ensures Last(Break(l, rows)) == [] && |Break(l, rows)| == (if |l| == rows then |l| else |l| + 1)
    ensures forall cols :: Grid.Fits(l, rows, cols) ==> Grid.Fits(Break(l, rows), rows, cols)
  {
  }

  /** The screen scrolls exactly when all its lines are used. */
  lemma RoomBelow(n: nat, cell: nat, height: nat)
    requires cell > 0 && 1 <= n <= height / cell
    ensures (n - 1) * cell + cell + cell > height <==> n == height / cell
    ensures n * cell == (n - 1) * cell + cell
  {
    MulStep(n - 1, cell);
    MulStep(n, cell);
    FitsIff(n + 1, height, cell);
  }

  /** The rows that scrolling lays bare belong to the last line or to the bottom margin. */
  lemma LastRow(y: nat, x: nat, scale: nat, height: nat)
    requires scale > 0 && y < height && height <= y + FONT_SIZE * scale
    ensures height / (FONT_SIZE * scale) <= SpotOf(y, x, scale).r + 1
  {
    var cell := FONT_SIZE * scale;
    var r := y / cell;
    DivBounds(y, cell);
    MulStep(r, cell);
    MulStep(r + 1, cell);
    QuotientBelow(height, r + 2, cell);
  }

  /** A new character changes the picture in its own cell only, and that cell was blank. */
  lemma PixelAppend(l: Lines, b: Byte, y: nat, x: nat, st: Style)
    requires st.scale > 0
    ensures !InCell(y, x, (|l| - 1) * st.Cell(), |Last(l)| * st.Cell(), st.scale) ==>
      Pixel(Append(l, b), y, x, st) == Pixel(l, y, x, st)
    ensures InCell(y, x, (|l| - 1) * st.Cell(), |Last(l)| * st.Cell(), st.scale) ==> Pixel(l, y, x, st) == st.bg
    ensures InCell(y, x, (|l| - 1) * st.Cell(), |Last(l)| * st.Cell(), st.scale) ==>
      (Pixel(Append(l, b), y, x, st) ==
       if b in st.font
       then CellInk(st.font[b], y, x, (|l| - 1) * st.Cell(), |Last(l)| * st.Cell(), st.scale, st.fg, st.bg)
       else st.bg)
  {
    hide SpotOf, Ink, InCell, CellInk;
    var row, col := |l| - 1, |Last(l)|;
    SpotInCell(y, x, st.scale, row, col);
    if InCell(y, x, row * st.Cell(), col * st.Cell(), st.scale) && b in st.font {
      SpotCellInk(y, x, st.scale, row, col, st.font[b], st.fg, st.bg);
    }
  }

  /** The rest of the cursor's line is blank. */
  lemma PixelRemainder(l: Lines, y: nat, x: nat, st: Style)
    requires st.scale > 0 && (|l| - 1) * st.Cell() <= y < (|l| - 1) * st.Cell() + st.Cell()
    requires |Last(l)| * st.Cell() <= x
    ensures Pixel(l, y, x, st) == st.bg
  {
    DivIs(y, st.Cell(), |l| - 1);
    FitsIff(|Last(l)|, x, st.Cell());
  }
}
