/** The drawing surface: a raster the local player paints into, its pen,
    and the press/move/release machine that turns mouse drags into line
    segments. */
module Canvas {

  newtype Channel = x: int | 0 <= x < 256

  /** An opaque RGB colour (the raster is stored without alpha). */
  datatype Rgb = Rgb(red: Channel, green: Channel, blue: Channel)

  const Black := Rgb(0, 0, 0)
  const White := Rgb(255, 255, 255)
  const Red := Rgb(255, 0, 0)
  const Green := Rgb(0, 255, 0)
  const Blue := Rgb(0, 0, 255)
  const Yellow := Rgb(255, 255, 0)

  /** The colours of the colour chooser, in the order of its entries. */
  const Palette: seq<Rgb> := [Black, Red, Green, Blue, Yellow]

  const InitialWidth := 800
  const InitialHeight := 600
  const InitialPenWidth := 3
  /** Extra room given to the raster beyond the widget when it has to grow. */
  const GrowthMargin := 128

  datatype Option<T> = None | Some(value: T)

  datatype Point = Point(x: int, y: int)

  datatype Size = Size(width: nat, height: nat)

  /** A rectangle given by its inclusive corner coordinates. */
  datatype Rect = Rect(left: int, top: int, right: int, bottom: int) {
    predicate Contains(p: Point) {
      left <= p.x <= right && top <= p.y <= bottom
    }
  }

  datatype Button = LeftButton | RightButton | MiddleButton | OtherButton

  /** One pen stroke handed to the painter: a segment and the pen it is
      drawn with. */
  datatype Line = Line(from: Point, to: Point, color: Rgb, width: int)

  function Min(a: int, b: int): int { if a <= b then a else b }
  function Max(a: int, b: int): int { if a <= b then b else a }

  /** The pen colour chosen by an entry of the colour chooser. The five
      entries give the five palette colours; any other index falls back to
      black, so black is the only colour two different indices share. */
  function ColorForIndex(index: int): (c: Rgb)
    ensures c in Palette
    ensures 0 <= index < |Palette| ==> c == Palette[index]
    ensures c == Black <==> !(1 <= index < |Palette|)
  {
    if 0 <= index < |Palette| then Palette[index] else Black
  }

  /** The colour a stroke is painted in: the eraser paints white, and the
      stroke is white exactly when erasing or when the pen itself is white. */
  function InkColor(eraserMode: bool, penColor: Rgb): (c: Rgb)
    ensures c == White <==> eraserMode || penColor == White
    ensures !eraserMode ==> c == penColor
  {
    if eraserMode then White else penColor
  }

  /** The region repainted after a stroke: the rectangle spanned by the two
      end points, widened by twice the pen width on every side. */
  function UpdateRect(line: Line): (r: Rect)
    ensures line.width >= 0 ==> r.left <= r.right && r.top <= r.bottom
    ensures line.width >= 0 ==> r.Contains(line.from) && r.Contains(line.to)
    // each edge lies exactly twice the pen width beyond the outermost end point
    ensures var d := 2 * line.width;
      r.left + d <= line.from.x && r.left + d <= line.to.x &&
      (r.left + d == line.from.x || r.left + d == line.to.x)
    ensures var d := 2 * line.width;
      r.top + d <= line.from.y && r.top + d <= line.to.y &&
      (r.top + d == line.from.y || r.top + d == line.to.y)
    ensures var d := 2 * line.width;
      r.right - d >= line.from.x && r.right - d >= line.to.x &&
      (r.right - d == line.from.x || r.right - d == line.to.x)
    ensures var d := 2 * line.width;
      r.bottom - d >= line.from.y && r.bottom - d >= line.to.y &&
      (r.bottom - d == line.from.y || r.bottom - d == line.to.y)
  {
    var adjust := line.width * 2;
    Rect(Min(line.from.x, line.to.x) - adjust, Min(line.from.y, line.to.y) - adjust,
         Max(line.from.x, line.to.x) + adjust, Max(line.from.y, line.to.y) + adjust)
  }

  /** Every point within twice the pen width of an end point, in both
      coordinates, lies inside the repainted region, so a round pen cap of
      that width is never cut off. */
  lemma UpdateRectCoversPen(line: Line, p: Point)
    requires var d := 2 * line.width;
      (line.from.x - d <= p.x <= line.from.x + d && line.from.y - d <= p.y <= line.from.y + d) ||
      (line.to.x - d <= p.x <= line.to.x + d && line.to.y - d <= p.y <= line.to.y + d)
    ensures UpdateRect(line).Contains(p)
  {
  }

  /** The widget is larger than the raster in some dimension, that is, the
      raster does not cover the widget. */
  predicate NeedsGrowth(widget: Size, image: Size)
    ensures !NeedsGrowth(widget, image) <==> widget.width <= image.width && widget.height <= image.height
  {
    widget.width > image.width || widget.height > image.height
  }

  /** The raster size chosen when the widget outgrows the raster: in each
      dimension the larger of the widget plus the margin and the current
      raster, so the raster never shrinks and always covers the widget. */
  function GrownSize(widget: Size, image: Size): (r: Size)
    ensures r.width >= image.width && r.height >= image.height
    ensures r.width >= widget.width + GrowthMargin && r.height >= widget.height + GrowthMargin
    ensures r.width == image.width || r.width == widget.width + GrowthMargin
    ensures r.height == image.height || r.height == widget.height + GrowthMargin
    ensures NeedsGrowth(widget, image) ==> r != image
  {
    Size(Max(widget.width + GrowthMargin, image.width), Max(widget.height + GrowthMargin, image.height))
  }

  /** Once grown, the raster covers the widget: a second resize to the same
      widget size asks for no growth. */
  lemma GrowthSettles(widget: Size, image: Size)
    ensures !NeedsGrowth(widget, GrownSize(widget, image))
  {
  }

  /** A raster as a sequence of columns, `p[x][y]` being the pixel at (x, y). */
  ghost predicate IsRaster(p: seq<seq<Rgb>>, width: nat, height: nat) {
    |p| == width && forall x :: 0 <= x < width ==> |p[x]| == height
  }

  /** A raster of one colour. */
  function Solid(width: nat, height: nat, c: Rgb): (p: seq<seq<Rgb>>)
    ensures IsRaster(p, width, height)
    ensures forall x, y :: 0 <= x < width && 0 <= y < height ==> p[x][y] == c
  {
    seq(width, x => seq(height, y => c))
  }

  function Blank(width: nat, height: nat): seq<seq<Rgb>> {
    Solid(width, height, White)
  }

  /** The raster `p` redrawn onto a fresh white raster of the given size,
      anchored at the top-left corner. */
  function Resized(p: seq<seq<Rgb>>, width: nat, height: nat): (r: seq<seq<Rgb>>)
    ensures IsRaster(r, width, height)
    ensures forall x, y :: 0 <= x < width && 0 <= y < height && (x >= |p| || y >= |p[x]|) ==> r[x][y] == White
  {
    seq(width, x requires 0 <= x < width =>
      seq(height, y requires 0 <= y < height =>
        if x < |p| && y < |p[x]| then p[x][y] else White))
  }

  /** Resizing gives exactly the requested size; pixels of the overlap with
      the old raster keep their colour and all others are white. */
  lemma ResizedAt(p: seq<seq<Rgb>>, w: nat, h: nat, width: nat, height: nat, x: nat, y: nat)
    requires IsRaster(p, w, h)
    requires x < width && y < height
    ensures IsRaster(Resized(p, width, height), width, height)
    ensures Resized(p, width, height)[x][y] == if x < w && y < h then p[x][y] else White
  {
  }

  /** Resizing to the raster's own size changes nothing, so skipping the
      copy when the size is already right is only a shortcut. */
  lemma ResizeToOwnSize(p: seq<seq<Rgb>>, w: nat, h: nat)
    requires IsRaster(p, w, h)
    ensures Resized(p, w, h) == p
  {
    var r := Resized(p, w, h);
    forall x | 0 <= x < w
      ensures r[x] == p[x]
    {
      assert |r[x]| == |p[x]|;
    }
  }

  /** Growing loses nothing: cropping a grown raster back to its old size
      gives the old raster. */
  lemma GrowThenCrop(p: seq<seq<Rgb>>, w: nat, h: nat, width: nat, height: nat)
    requires IsRaster(p, w, h)
    requires w <= width && h <= height
    ensures Resized(Resized(p, width, height), w, h) == p
  {
    var r := Resized(Resized(p, width, height), w, h);
    forall x | 0 <= x < w
      ensures r[x] == p[x]
    {
      assert |r[x]| == |p[x]|;
    }
  }

  /** Two successive growths give the same raster as growing once to the
      final size. */
  lemma GrowTwice(p: seq<seq<Rgb>>, w: nat, h: nat, w1: nat, h1: nat, w2: nat, h2: nat)
    requires IsRaster(p, w, h)
    requires w <= w1 <= w2 && h <= h1 <= h2
    ensures Resized(Resized(p, w1, h1), w2, h2) == Resized(p, w2, h2)
  {
    var a := Resized(Resized(p, w1, h1), w2, h2);
    var b := Resized(p, w2, h2);
    forall x | 0 <= x < w2
      ensures a[x] == b[x]
    {
      assert |a[x]| == |b[x]|;
    }
  }

  /** The pixels of a two-dimensional array, column by column. */
  ghost function Snapshot(a: array2<Rgb>): (p: seq<seq<Rgb>>)
    reads a
    ensures IsRaster(p, a.Length0, a.Length1)
  {
    seq(a.Length0, x requires 0 <= x < a.Length0 reads a =>
      seq(a.Length1, y requires 0 <= y < a.Length1 reads a => a[x, y]))
  }

  /** Paints every pixel of `a` in colour `c`. */
  method Fill(a: array2<Rgb>, c: Rgb)
    modifies a
    ensures forall x, y :: 0 <= x < a.Length0 && 0 <= y < a.Length1 ==> a[x, y] == c
    ensures Snapshot(a) == Solid(a.Length0, a.Length1, c)
  {
    var x := 0;
    while x < a.Length0
      invariant 0 <= x <= a.Length0
      invariant forall i, j :: 0 <= i < x && 0 <= j < a.Length1 ==> a[i, j] == c
    {
      var y := 0;
      while y < a.Length1
        invariant 0 <= y <= a.Length1
        invariant forall i, j :: 0 <= i < x && 0 <= j < a.Length1 ==> a[i, j] == c
        invariant forall j :: 0 <= j < y ==> a[x, j] == c
      {
        a[x, y] := c;
        y := y + 1;
      }
      x := x + 1;
    }
    SnapshotEq(a, Solid(a.Length0, a.Length1, c));
  }

  /** Copies `src` onto `dst` with the two top-left corners aligned; pixels
      of `dst` outside `src` keep their colour. */
  method DrawAtOrigin(dst: array2<Rgb>, src: array2<Rgb>)
    requires dst != src
    modifies dst
    ensures forall x, y :: 0 <= x < dst.Length0 && 0 <= y < dst.Length1 ==>
      dst[x, y] == if x < src.Length0 && y < src.Length1 then src[x, y] else old(dst[x, y])
  {
    var w := Min(dst.Length0, src.Length0);
    var h := Min(dst.Length1, src.Length1);
    var x := 0;
    while x < w
      invariant 0 <= x <= w
      invariant forall i, j :: 0 <= i < dst.Length0 && 0 <= j < dst.Length1 ==>
        dst[i, j] == if i < x && j < h then src[i, j] else old(dst[i, j])
    {
      var y := 0;
      while y < h
        invariant 0 <= y <= h
        invariant forall i, j :: 0 <= i < dst.Length0 && 0 <= j < dst.Length1 ==>
          dst[i, j] == if (i < x && j < h) || (i == x && j < y) then src[i, j] else old(dst[i, j])
      {
        dst[x, y] := src[x, y];
        y := y + 1;
      }
      x := x + 1;
    }
  }

  /** An array holds raster `p` when they agree pixel by pixel. */
  lemma SnapshotEq(a: array2<Rgb>, p: seq<seq<Rgb>>)
    requires IsRaster(p, a.Length0, a.Length1)
    requires forall x, y :: 0 <= x < a.Length0 && 0 <= y < a.Length1 ==> a[x, y] == p[x][y]
    ensures Snapshot(a) == p
  {
    var s := Snapshot(a);
    forall x | 0 <= x < a.Length0
      ensures s[x] == p[x]
    {
      assert |s[x]| == |p[x]|;
    }
  }

  class DrawingArea {
    var drawing: bool
    var eraserMode: bool
    var penColor: Rgb
    var penWidth: int
    var image: array2<Rgb>
    var lastPoint: Point

    /** The raster never gets smaller than it started. */
    ghost predicate Valid()
      reads this
    {
      image.Length0 >= InitialWidth && image.Length1 >= InitialHeight
    }

    ghost function Pixels(): (p: seq<seq<Rgb>>)
      reads this, image
      ensures IsRaster(p, image.Length0, image.Length1)
    {
      Snapshot(image)
    }

    function ImageSize(): Size
      reads this
    {
      Size(image.Length0, image.Length1)
    }

    /** A new surface: 800 by 600 white pixels, not drawing, eraser off,
        a black pen 3 pixels wide. */
    constructor ()
      ensures Valid() && fresh(image)
      ensures Pixels() == Blank(InitialWidth, InitialHeight)
      ensures !drawing && !eraserMode && penColor == Black && penWidth == InitialPenWidth
      ensures lastPoint == Point(0, 0)
    {
      drawing := false;
      eraserMode := false;
      penColor := Black;
      penWidth := InitialPenWidth;
      image := new Rgb[InitialWidth, InitialHeight];
      lastPoint := Point(0, 0);
      new;
      Fill(image, White);
    }

    method SetPenColor(newColor: Rgb)
      modifies this
      ensures penColor == newColor
      ensures drawing == old(drawing) && eraserMode == old(eraserMode) && penWidth == old(penWidth)
      ensures image == old(image) && lastPoint == old(lastPoint)
    {
      penColor := newColor;
    }

    method SetPenWidth(newWidth: int)
      modifies this
      ensures penWidth == newWidth
      ensures drawing == old(drawing) && eraserMode == old(eraserMode) && penColor == old(penColor)
      ensures image == old(image) && lastPoint == old(lastPoint)
    {
      penWidth := newWidth;
    }

    function IsEraserMode(): bool
      reads this
    {
      eraserMode
    }

    method SetEraserMode(mode: bool)
      modifies this
      ensures IsEraserMode() == mode
      ensures drawing == old(drawing) && penColor == old(penColor) && penWidth == old(penWidth)
      ensures image == old(image) && lastPoint == old(lastPoint)
    {
      eraserMode := mode;
    }

    /** Paints the whole raster white; its size does not change. */
    method Clear()
      modifies image
      ensures Pixels() == Blank(old(image.Length0), old(image.Length1))
    {
      Fill(image, White);
    }

    method MousePress(button: Button, pos: Point)
      modifies this
      ensures button == LeftButton ==> drawing && lastPoint == pos
      ensures button != LeftButton ==> drawing == old(drawing) && lastPoint == old(lastPoint)
      ensures eraserMode == old(eraserMode) && penColor == old(penColor) && penWidth == old(penWidth)
      ensures image == old(image)
    {
      if button == LeftButton {
        lastPoint := pos;
        drawing := true;
      }
    }

    /** A drag draws a segment from the last point only while a left-button
        stroke is under way. */
    method MouseMove(buttons: set<Button>, pos: Point) returns (line: Option<Line>)
      modifies this, image
      ensures line.Some? <==> LeftButton in buttons && old(drawing)
      ensures line.Some? ==> line.value == Line(old(lastPoint), pos, InkColor(eraserMode, penColor), penWidth)
      ensures lastPoint == if line.Some? then pos else old(lastPoint)
      ensures drawing == old(drawing)
      ensures eraserMode == old(eraserMode) && penColor == old(penColor) && penWidth == old(penWidth)
      ensures image == old(image)
      ensures line.None? ==> Pixels() == old(Pixels())
      ensures line.Some? && penWidth >= 0 ==> forall x, y ::
        0 <= x < image.Length0 && 0 <= y < image.Length1 && !UpdateRect(line.value).Contains(Point(x, y)) ==>
        image[x, y] == old(image[x, y])
    {
      line := None;
      if LeftButton in buttons && drawing {
        var l := DrawLineTo(pos);
        line := Some(l);
      }
    }

    /** Releasing the left button during a stroke draws its last segment and
        ends the stroke. */
    method MouseRelease(button: Button, pos: Point) returns (line: Option<Line>)
      modifies this, image
      ensures line.Some? <==> button == LeftButton && old(drawing)
      ensures line.Some? ==> line.value == Line(old(lastPoint), pos, InkColor(eraserMode, penColor), penWidth)
      ensures lastPoint == if line.Some? then pos else old(lastPoint)
      ensures drawing == (old(drawing) && button != LeftButton)
      ensures eraserMode == old(eraserMode) && penColor == old(penColor) && penWidth == old(penWidth)
      ensures image == old(image)
      ensures line.None? ==> Pixels() == old(Pixels())
      ensures line.Some? && penWidth >= 0 ==> forall x, y ::
        0 <= x < image.Length0 && 0 <= y < image.Length1 && !UpdateRect(line.value).Contains(Point(x, y)) ==>
        image[x, y] == old(image[x, y])
    {
      line := None;
      if button == LeftButton && drawing {
        var l := DrawLineTo(pos);
        line := Some(l);
        drawing := false;
      }
    }

    /** Grows the raster when the widget has become larger than it, to the
        widget size plus a margin, keeping what is drawn. */
    method ResizeEvent(widget: Size)
      requires Valid()
      modifies this
      ensures Valid()
      ensures image.Length0 >= widget.width && image.Length1 >= widget.height
      ensures image.Length0 >= old(image.Length0) && image.Length1 >= old(image.Length1)
      ensures NeedsGrowth(widget, old(ImageSize())) ==>
        ImageSize() == GrownSize(widget, old(ImageSize())) &&
        Pixels() == Resized(old(Pixels()), image.Length0, image.Length1)
      ensures !NeedsGrowth(widget, old(ImageSize())) ==> image == old(image)
      ensures drawing == old(drawing) && eraserMode == old(eraserMode)
      ensures penColor == old(penColor) && penWidth == old(penWidth) && lastPoint == old(lastPoint)
    {
      if widget.width > image.Length0 || widget.height > image.Length1 {
        var newSize := GrownSize(widget, ImageSize());
        ResizeImage(newSize);
      }
    }

    /** Hands the segment from the last point to `endPoint` to the painter
        and makes `endPoint` the new last point. The painter may change
        pixels of the raster, but none outside the repainted region. */
    method DrawLineTo(endPoint: Point) returns (line: Line)
      modifies this, image
      ensures line == Line(old(lastPoint), endPoint, InkColor(eraserMode, penColor), penWidth)
      ensures lastPoint == endPoint
      ensures drawing == old(drawing) && eraserMode == old(eraserMode)
      ensures penColor == old(penColor) && penWidth == old(penWidth)
      ensures image == old(image)
      ensures penWidth >= 0 ==> forall x, y ::
        0 <= x < image.Length0 && 0 <= y < image.Length1 && !UpdateRect(line).Contains(Point(x, y)) ==>
        image[x, y] == old(image[x, y])
    {
      var currentColor := InkColor(eraserMode, penColor);
      line := Line(lastPoint, endPoint, currentColor, penWidth);
      lastPoint := endPoint;
    }

    /** Replaces the raster by a white one of `newSize` with the old pixels
        drawn at the top-left corner; nothing happens when the size is
        already right. */
    method ResizeImage(newSize: Size)
      modifies this
      ensures ImageSize() == newSize
      ensures Pixels() == Resized(old(Pixels()), newSize.width, newSize.height)
      ensures old(ImageSize()) == newSize ==> image == old(image)
      ensures old(ImageSize()) != newSize ==> fresh(image)
      ensures drawing == old(drawing) && eraserMode == old(eraserMode)
      ensures penColor == old(penColor) && penWidth == old(penWidth) && lastPoint == old(lastPoint)
    {
      if image.Length0 == newSize.width && image.Length1 == newSize.height {
        ResizeToOwnSize(Pixels(), newSize.width, newSize.height);
        return;
      }
      var newImage := new Rgb[newSize.width, newSize.height];
      Fill(newImage, White);
      DrawAtOrigin(newImage, image);
      ghost var p := Pixels();
      forall x, y | 0 <= x < newSize.width && 0 <= y < newSize.height
        ensures newImage[x, y] == Resized(p, newSize.width, newSize.height)[x][y]
      {
        ResizedAt(p, image.Length0, image.Length1, newSize.width, newSize.height, x, y);
      }
      SnapshotEq(newImage, Resized(p, newSize.width, newSize.height));
      image := newImage;
    }
  }
}
