/**
 The 2D engine's plain copy: the driver picks the corner and the directions, the engine then copies pixel by
 pixel. Inside one buffer the picked order must never read a pixel that is already overwritten.
 */
module Blit {
  import opened Words

  type Pixel = int

  datatype Layout = Linear | Tiled16x16 | OtherLayout

  /** `Outside`: the engine is told to copy outside an image, because a sum of 32 bits has wrapped around. */
  datatype Status = Done | Invalid | Outside

  class PixelBuffer {
    const width: nat
    const height: nat
    const bytesPerPixel: nat
    const layout: Layout
    const px: array2<Pixel>

    ghost predicate Valid() {
      px.Length0 == height && px.Length1 == width && width < WORD && height < WORD
    }

    constructor (w: nat, h: nat, bytes: nat, l: Layout)
      requires w < WORD && h < WORD
      ensures Valid() && width == w && height == h && bytesPerPixel == bytes && layout == l && fresh(px)
    {
      width, height, bytesPerPixel, layout := w, h, bytes, l;
      px := new Pixel[h, w];
    }
  }

  /** What goes into the engine's registers: the start corners, the size and the directions. */
  datatype Command = Command(sx: nat, sy: nat, dx: nat, dy: nat, width: nat, height: nat, xdir: bool, ydir: bool) {

    /** The column and row of the copy, counted from the rectangle's top left, at step `i` of row step `j`. */
    function Column(i: nat): int { if xdir then width - 1 - i else i }

    function Row(j: nat): int { if ydir then height - 1 - j else j }

    function Left(x: nat): int { if xdir then x - (width - 1) else x }

    function Top(y: nat): int { if ydir then y - (height - 1) else y }

    /** The destination rectangle, and where its pixels come from. */
    predicate Hits(y: int, x: int) {
      Top(dy) <= y < Top(dy) + height && Left(dx) <= x < Left(dx) + width
    }

    function SourceRow(y: int): int { y - Top(dy) + Top(sy) }

    function SourceColumn(x: int): int { x - Left(dx) + Left(sx) }

    /** Whether row `r`, column `c` has been written before step `i` of row step `j`. */
    predicate Written(r: int, c: int, j: nat, i: nat) {
      (if ydir then r > Row(j) else r < Row(j)) || (r == Row(j) && if xdir then c > Column(i) else c < Column(i))
    }

    /** The rectangles lie inside images of the given sizes. */
    predicate Inside(srcWidth: nat, srcHeight: nat, dstWidth: nat, dstHeight: nat) {
      && 0 <= Left(sx) && Left(sx) + width <= srcWidth && 0 <= Left(dx) && Left(dx) + width <= dstWidth
      && 0 <= Top(sy) && Top(sy) + height <= srcHeight && 0 <= Top(dy) && Top(dy) + height <= dstHeight
    }

    /** No pixel of the source rectangle is overwritten before it is read. */
    ghost predicate Safe() {
      forall j: nat, i: nat :: j < height && i < width ==>
        var r, c := Row(j) + Top(sy) - Top(dy), Column(i) + Left(sx) - Left(dx);
        0 <= r < height && 0 <= c < width ==> !Written(r, c, j, i)
    }
  }

  /** At the end of a row the same pixels are written as at the start of the next. */
  lemma RowEnds(cmd: Command, j: nat)
    ensures forall r, c {:trigger cmd.Written(r, c, j, cmd.width)} {:trigger cmd.Written(r, c, j + 1, 0)} ::
              0 <= c < cmd.width ==> (cmd.Written(r, c, j, cmd.width) <==> cmd.Written(r, c, j + 1, 0))
  {
  }

  /** The engine: row by row, pixel by pixel, from the start corner in the given directions. */
  method Execute(src: PixelBuffer, dst: PixelBuffer, cmd: Command)
    requires src.Valid() && dst.Valid() && cmd.Inside(src.width, src.height, dst.width, dst.height)
    requires src.px == dst.px ==> cmd.Safe()
    modifies dst.px
    ensures forall y, x :: 0 <= y < dst.height && 0 <= x < dst.width ==>
              dst.px[y, x] ==
              if cmd.Hits(y, x) then old(src.px[cmd.SourceRow(y), cmd.SourceColumn(x)]) else old(dst.px[y, x])
  {
    for j := 0 to cmd.height
      invariant forall y, x :: 0 <= y < dst.height && 0 <= x < dst.width ==>
                  dst.px[y, x] == if cmd.Hits(y, x) && cmd.Written(y - cmd.Top(cmd.dy), x - cmd.Left(cmd.dx), j, 0)
                                  then old(src.px[cmd.SourceRow(y), cmd.SourceColumn(x)]) else old(dst.px[y, x])
    {
      for i := 0 to cmd.width
        invariant forall y, x :: 0 <= y < dst.height && 0 <= x < dst.width ==>
                    dst.px[y, x] == if cmd.Hits(y, x) && cmd.Written(y - cmd.Top(cmd.dy), x - cmd.Left(cmd.dx), j, i)
                                    then old(src.px[cmd.SourceRow(y), cmd.SourceColumn(x)]) else old(dst.px[y, x])
      {
        var y := if cmd.ydir then cmd.dy - j else cmd.dy + j;
        var x := if cmd.xdir then cmd.dx - i else cmd.dx + i;
        var y' := if cmd.ydir then cmd.sy - j else cmd.sy + j;
        var x' := if cmd.xdir then cmd.sx - i else cmd.sx + i;
        assert y == cmd.Top(cmd.dy) + cmd.Row(j) && x == cmd.Left(cmd.dx) + cmd.Column(i);
        assert y' == cmd.SourceRow(y) && x' == cmd.SourceColumn(x);
        assert src.px[y', x'] == old(src.px[y', x']);
        dst.px[y, x] := src.px[y', x'];
      }
      RowEnds(cmd, j);
    }
  }

  /** The driver's own part: checks, directions and corners. Coordinates are 32-bit, and sums wrap in the checks. */
  method Blit(src: PixelBuffer, dst: PixelBuffer, sx: uint32, sy: uint32, dx: uint32, dy: uint32, width: uint32,
              height: uint32)
    returns (status: Status)
    requires src.Valid() && dst.Valid() && (src.px == dst.px ==> src == dst)
    modifies dst.px
    ensures status.Done? <==>
            && src.bytesPerPixel == dst.bytesPerPixel && !src.layout.OtherLayout? && !dst.layout.OtherLayout?
            && sx + width <= src.width && dx + width <= dst.width
            && sy + height <= src.height && dy + height <= dst.height
    ensures status.Outside? <==>
            && src.bytesPerPixel == dst.bytesPerPixel && !src.layout.OtherLayout? && !dst.layout.OtherLayout?
            && (sx + width) % WORD <= src.width && (dx + width) % WORD <= dst.width
            && (sy + height) % WORD <= src.height && (dy + height) % WORD <= dst.height
            && (sx + width >= WORD || dx + width >= WORD || sy + height >= WORD || dy + height >= WORD)
    ensures status.Done? ==>
              forall y, x :: 0 <= y < dst.height && 0 <= x < dst.width ==>
                dst.px[y, x] ==
                if dy <= y < dy + height && dx <= x < dx + width then old(src.px[y - dy + sy, x - dx + sx])
                else old(dst.px[y, x])
    ensures !status.Done? ==> forall y, x :: 0 <= y < dst.height && 0 <= x < dst.width ==>
              dst.px[y, x] == old(dst.px[y, x])
  {
    if src.bytesPerPixel != dst.bytesPerPixel {
      return Invalid;
    }
    if src.layout.OtherLayout? || dst.layout.OtherLayout? {
      return Invalid;
    }
    if (sx + width) % WORD > src.width || (dx + width) % WORD > dst.width ||
       (sy + height) % WORD > src.height || (dy + height) % WORD > dst.height {
      return Invalid;
    }
    if sx + width > src.width || dx + width > dst.width || sy + height > src.height || dy + height > dst.height {
      return Outside;
    }
    var cmd := Setup(src == dst, sx, sy, dx, dy, width, height);
    Execute(src, dst, cmd);
    return Done;
  }

  /**
   * One column, from the greatest coordinate there is: the sum wraps to 0, and the engine is sent outside the source.
   */
  method WrappedExample(src: PixelBuffer, dst: PixelBuffer) returns (status: Status)
    requires src.Valid() && dst.Valid() && src.px != dst.px && src.bytesPerPixel == dst.bytesPerPixel
    requires src.layout.Linear? && dst.layout.Linear? && src.height > 0 && dst.height > 0 && dst.width > 0
    modifies dst.px
    ensures status == Outside
  {
    status := Blit(src, dst, 0xFFFF_FFFF, 0, 0, 0, 1, 1);
  }

  /** Direction and corner selection. */
  method Setup(same: bool, sx: nat, sy: nat, dx: nat, dy: nat, width: nat, height: nat) returns (cmd: Command)
    ensures cmd.width == width && cmd.height == height
    ensures cmd.Left(cmd.sx) == sx && cmd.Left(cmd.dx) == dx && cmd.Top(cmd.sy) == sy && cmd.Top(cmd.dy) == dy
    ensures same ==> cmd.Safe()
  {
    var sx', sy', dx', dy', xdir, ydir := sx, sy, dx, dy, false, false;
    if same && !(sx >= dx + width || sx + width <= dx) && !(sy >= dy + height || sy + height <= dy) {
      if dx > sx {
        xdir := true;
        sx' := sx + (width - 1);
        dx' := dx + (width - 1);
      }
      if dy > sy {
        ydir := true;
        sy' := sy + (height - 1);
        dy' := dy + (height - 1);
      }
    }
    cmd := Command(sx', sy', dx', dy', width, height, xdir, ydir);
  }

  /**
   For overlapping rectangles the directions are forced: a copy down or up must run against the move, and a
   copy within the same rows must run sideways against it. Only the other choices are free.
   */
  lemma SafeDirections(cmd: Command)
    requires var right, down := cmd.Left(cmd.dx) - cmd.Left(cmd.sx), cmd.Top(cmd.dy) - cmd.Top(cmd.sy);
             && 0 < right + cmd.width && right < cmd.width && 0 < down + cmd.height && down < cmd.height
    ensures var right, down := cmd.Left(cmd.dx) - cmd.Left(cmd.sx), cmd.Top(cmd.dy) - cmd.Top(cmd.sy);
            cmd.Safe() <==>
              && (down > 0 ==> cmd.ydir) && (down < 0 ==> !cmd.ydir)
              && (down == 0 && right > 0 ==> cmd.xdir) && (down == 0 && right < 0 ==> !cmd.xdir)
  {
    var right, down := cmd.Left(cmd.dx) - cmd.Left(cmd.sx), cmd.Top(cmd.dy) - cmd.Top(cmd.sy);
    if down != 0 && cmd.ydir != (down > 0) {
      // The first row of the walk that comes down on a row the walk has passed.
      var j: nat := if down > 0 then down else -down;
      var c: int := if right > 0 then right else 0;
      var i: nat := if cmd.xdir then cmd.width - 1 - c else c;
      assert cmd.Written(cmd.Row(j) - down, cmd.Column(i) - right, j, i);
      assert !cmd.Safe();
    } else if down == 0 && right != 0 && cmd.xdir != (right > 0) {
      var i: nat := if right > 0 then right else -right;
      assert cmd.Written(cmd.Row(0) - down, cmd.Column(i) - right, 0, i);
      assert !cmd.Safe();
    }
  }
}
