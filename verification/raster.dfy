/** The displayed image and what the selection tool draws on it. Pixel-level
    rendering is abstracted: a canvas is a grid of pixels plus the ordered
    list of shapes (outlines, filled dots, text labels) painted over it, in
    the canvas's own coordinate frame. */
module Raster {
  import opened Wrappers
  import opened Decimal
  import opened Slicing

  newtype byte = x: int | 0 <= x < 256

  /** One pixel in OpenCV's blue-green-red channel order. */
  datatype Pixel = Bgr(b: byte, g: byte, r: byte)

  const Yellow: Pixel := Bgr(0, 255, 255)
  const Red: Pixel := Bgr(0, 0, 255)
  const White: Pixel := Bgr(255, 255, 255)

  /** Stroke width of the selection outline. */
  const OutlineThickness: nat := 2
  /** Radius of the filled dot marking a corner. */
  const MarkerRadius: nat := 5
  /** Stroke width of the coordinate labels. */
  const LabelThickness: nat := 2
  /** A label starts this many pixels right of and above its point. */
  const LabelOffset: int := 10

  /** A pixel position (column x, row y) as the mouse callback reports it. */
  datatype Point = Point(x: int, y: int)

  datatype Overlay =
    | Outline(corner1: Point, corner2: Point, color: Pixel, thickness: nat)
    | Dot(center: Point, radius: nat, color: Pixel)
    | Label(origin: Point, text: string, color: Pixel, thickness: nat)

  datatype Canvas = Canvas(pixels: seq<seq<Pixel>>, overlays: seq<Overlay>)

  function Height(c: Canvas): nat
  {
    |c.pixels|
  }

  function Width(c: Canvas): nat
  {
    if |c.pixels| == 0 then 0 else |c.pixels[0]|
  }

  /** Every row has the same length, as in a NumPy image array. */
  predicate WellFormed(c: Canvas)
  {
    forall i :: 0 <= i < |c.pixels| ==> |c.pixels[i]| == Width(c)
  }

  predicate HasPixels(c: Canvas)
  {
    exists i :: 0 <= i < |c.pixels| && |c.pixels[i]| > 0
  }

  /** Paints the yellow selection rectangle between two corners onto the
      canvas itself. */
  function DrawOutline(c: Canvas, p1: Point, p2: Point): (r: Canvas)
    ensures r.pixels == c.pixels
    ensures |r.overlays| == |c.overlays| + 1
    ensures r.overlays[..|c.overlays|] == c.overlays
    ensures r.overlays[|c.overlays|].Outline?
    ensures {r.overlays[|c.overlays|].corner1, r.overlays[|c.overlays|].corner2} == {p1, p2}
  {
    Canvas(c.pixels, c.overlays + [Outline(p1, p2, Yellow, OutlineThickness)])
  }

  // ---------------------------------------------------------------------
  // Cropping: NumPy's image[y1:y2, x1:x2]

  /** `pixels[y1:y2, x1:x2]` on a list of rows: the rows slice first, then
      every selected row is sliced by columns. */
  function CropPixels(pixels: seq<seq<Pixel>>, p1: Point, p2: Point): (r: seq<seq<Pixel>>)
    ensures |r| == SliceLength(|pixels|, p1.y, p2.y)
    ensures forall i :: 0 <= i < |r| ==>
              var row := pixels[Bound(p1.y, |pixels|) + i];
              |r[i]| == SliceLength(|row|, p1.x, p2.x)
              && forall j :: 0 <= j < |r[i]| ==> r[i][j] == row[Bound(p1.x, |row|) + j]
  {
    var rows := Slice(pixels, p1.y, p2.y);
    seq(|rows|, i requires 0 <= i < |rows| => Slice(rows[i], p1.x, p2.x))
  }

  /** Moves a shape by (dx, dy). */
  function Translate(o: Overlay, dx: int, dy: int): Overlay
  {
    match o
    case Outline(a, b, col, t) => Outline(Point(a.x + dx, a.y + dy), Point(b.x + dx, b.y + dy), col, t)
    case Dot(m, rad, col) => Dot(Point(m.x + dx, m.y + dy), rad, col)
    case Label(a, s, col, t) => Label(Point(a.x + dx, a.y + dy), s, col, t)
  }

  /** The crop `image[y1:y2, x1:x2]` taken with the drag's own corner order:
      its pixels are the Python slice of the grid, and the shapes already
      painted on the image come along, moved into the crop's frame. */
  function Crop(c: Canvas, p1: Point, p2: Point): (r: Canvas)
    ensures r.pixels == CropPixels(c.pixels, p1, p2)
    ensures |r.overlays| == |c.overlays|
    ensures forall k :: 0 <= k < |r.overlays| ==>
              r.overlays[k] == Translate(c.overlays[k], -(Bound(p1.x, Width(c)) as int), -(Bound(p1.y, Height(c)) as int))
    ensures WellFormed(c) ==> WellFormed(r)
  {
    var dx := -(Bound(p1.x, Width(c)) as int);
    var dy := -(Bound(p1.y, Height(c)) as int);
    var r := Canvas(CropPixels(c.pixels, p1, p2), seq(|c.overlays|, k requires 0 <= k < |c.overlays| => Translate(c.overlays[k], dx, dy)));
    assert WellFormed(c) ==> forall i :: 0 <= i < |r.pixels| ==> |r.pixels[i]| == SliceLength(Width(c), p1.x, p2.x);
    r
  }

  /** A selection that lies inside the image and is dragged from its
      top-left to its bottom-right corner crops exactly that rectangle. */
  lemma CropInside(c: Canvas, p1: Point, p2: Point)
    requires WellFormed(c)
    requires 0 <= p1.x < p2.x <= Width(c)
    requires 0 <= p1.y < p2.y <= Height(c)
    ensures Height(Crop(c, p1, p2)) == p2.y - p1.y
    ensures Width(Crop(c, p1, p2)) == p2.x - p1.x
    ensures WellFormed(Crop(c, p1, p2))
    ensures forall i, j :: 0 <= i < p2.y - p1.y && 0 <= j < p2.x - p1.x ==>
              Crop(c, p1, p2).pixels[i][j] == c.pixels[p1.y + i][p1.x + j]
  {
    assert Bound(p1.x, Width(c)) == p1.x && Bound(p2.x, Width(c)) == p2.x;
    assert Bound(p1.y, Height(c)) == p1.y && Bound(p2.y, Height(c)) == p2.y;
    CropForward(c, p1, p2);
  }

  /** `c` is, pixel for pixel, the `h` rows by `w` columns of `img` whose
      top-left pixel is at row `top`, column `left`. */
  predicate IsBlock(c: Canvas, img: Canvas, top: nat, left: nat, h: nat, w: nat)
  {
    && WellFormed(c) && Height(c) == h && Width(c) == w
    && WellFormed(img) && top + h <= Height(img) && left + w <= Width(img)
    && forall i, j :: 0 <= i < h && 0 <= j < w ==> c.pixels[i][j] == img.pixels[top + i][left + j]
  }

  /** Whatever the corners, when both adjusted slices run forwards the crop
      is the block between the adjusted bounds. A negative corner thus
      counts from the far edge of the image. */
  lemma CropForward(c: Canvas, p1: Point, p2: Point)
    requires WellFormed(c)
    requires Bound(p1.x, Width(c)) < Bound(p2.x, Width(c))
    requires Bound(p1.y, Height(c)) < Bound(p2.y, Height(c))
    ensures var x1, x2 := Bound(p1.x, Width(c)), Bound(p2.x, Width(c));
            var y1, y2 := Bound(p1.y, Height(c)), Bound(p2.y, Height(c));
            var r := Crop(c, p1, p2);
            && WellFormed(r)
            && Height(r) == y2 - y1
            && Width(r) == x2 - x1
            && forall i, j :: 0 <= i < y2 - y1 && 0 <= j < x2 - x1 ==>
                 r.pixels[i][j] == c.pixels[y1 + i][x1 + j]
  {
    var r := Crop(c, p1, p2);
    assert |r.pixels[0]| == Bound(p2.x, Width(c)) - Bound(p1.x, Width(c));
  }

  /** The crop holds a pixel exactly when both slices, after Python's bound
      adjustment, run forwards. */
  lemma CropHasPixelsIff(c: Canvas, p1: Point, p2: Point)
    requires WellFormed(c)
    ensures HasPixels(Crop(c, p1, p2)) <==>
              Bound(p1.y, Height(c)) < Bound(p2.y, Height(c)) && Bound(p1.x, Width(c)) < Bound(p2.x, Width(c))
  {
    var r := Crop(c, p1, p2);
    if Bound(p1.y, Height(c)) < Bound(p2.y, Height(c)) && Bound(p1.x, Width(c)) < Bound(p2.x, Width(c)) {
      assert |r.pixels[0]| > 0;
    }
  }

  /** A drag from right to left, or from bottom to top, inside the image
      crops nothing: the raw corner order inverts the slice. */
  lemma CropReversedIsEmpty(c: Canvas, p1: Point, p2: Point)
    requires WellFormed(c)
    requires (0 <= p2.x < p1.x <= Width(c)) || (0 <= p2.y < p1.y <= Height(c))
    ensures !HasPixels(Crop(c, p1, p2))
  {
    CropHasPixelsIff(c, p1, p2);
  }

  // ---------------------------------------------------------------------
  // Annotation: corner markers and their coordinate labels

  /** Python's `f"{(x, y)}"`: the tuple rendering `(x, y)`. */
  function PointText(p: Point): (t: string)
    ensures |t| >= 6 && t[0] == '(' && t[|t| - 1] == ')'
  {
    "(" + FromInt(p.x) + ", " + FromInt(p.y) + ")"
  }

  /** Where the label of point `p` is placed: up and to the right of it, by
      the same offset in both directions. */
  function LabelOrigin(p: Point): (o: Point)
    ensures o.x > p.x && o.y < p.y
    ensures o.x - p.x == p.y - o.y == LabelOffset
  {
    Point(p.x + LabelOffset, p.y - LabelOffset)
  }

  /** Position of the first occurrence of `ch` in `s`. */
  function IndexOf(s: string, ch: char): (r: Option<nat>)
    ensures r.Some? ==> r.value < |s| && s[r.value] == ch && ch !in s[..r.value]
    ensures r.None? ==> ch !in s
  {
    if |s| == 0 then None
    else if s[0] == ch then Some(0)
    else match IndexOf(s[1..], ch)
      case None => None
      case Some(k) => assert s[..k + 1] == [s[0]] + s[1..][..k]; Some(k + 1)
  }

  /** Reads a tuple rendering `(x, y)` back into a point. */
  function ParsePoint(t: string): Option<Point>
  {
    if |t| < 2 || t[0] != '(' || t[|t| - 1] != ')' then None
    else ParsePair(t[1..|t| - 1])
  }

  /** Reads `x, y`, the inside of a tuple rendering. */
  function ParsePair(body: string): Option<Point>
  {
    match IndexOf(body, ',')
    case None => None
    case Some(k) =>
      if k + 1 < |body| && body[k + 1] == ' ' then
        match (ParseInt(body[..k]), ParseInt(body[k + 2..]))
        case (Some(x), Some(y)) => Some(Point(x, y))
        case _ => None
      else None
  }

  lemma IndexOfAfter(a: string, ch: char, b: string)
    requires ch !in a
    ensures IndexOf(a + [ch] + b, ch) == Some(|a|)
  {
    var s := a + [ch] + b;
    var k := IndexOf(s, ch).value;
    assert s[|a|] == ch;
  }

  lemma ParsePairText(p: Point)
    ensures ParsePair(FromInt(p.x) + ", " + FromInt(p.y)) == Some(p)
  {
    var xs, ys := FromInt(p.x), FromInt(p.y);
    var body := xs + ", " + ys;
    assert body == xs + [','] + (" " + ys);
    assert ',' !in xs by {
      forall k | 0 <= k < |xs| ensures xs[k] != ',' {}
    }
    IndexOfAfter(xs, ',', " " + ys);
    assert body[..|xs|] == xs;
    assert body[|xs| + 2..] == ys;
    ParseIntFromInt(p.x);
    ParseIntFromInt(p.y);
  }

  /** A coordinate label reads back as the point it was written for. */
  lemma ParsePointText(p: Point)
    ensures ParsePoint(PointText(p)) == Some(p)
  {
    var body := FromInt(p.x) + ", " + FromInt(p.y);
    var t := PointText(p);
    assert t == "(" + body + ")";
    assert t[1..|t| - 1] == body;
    ParsePairText(p);
  }

  /** The corner markers among a list of shapes, in painting order. */
  function Markers(os: seq<Overlay>): seq<Point>
  {
    if |os| == 0 then []
    else (if os[0].Dot? then [os[0].center] else []) + Markers(os[1..])
  }

  /** The text labels among a list of shapes, in painting order. */
  function Labels(os: seq<Overlay>): (r: seq<Overlay>)
    ensures forall k :: 0 <= k < |r| ==> r[k].Label?
  {
    if |os| == 0 then []
    else (if os[0].Label? then [os[0]] else []) + Labels(os[1..])
  }

  /** The four shapes the annotated copy adds: a filled red dot on each drag
      corner, then a white label beside each spelling its coordinates. */
  function CornerMarks(p1: Point, p2: Point): seq<Overlay>
  {
    [Dot(p1, MarkerRadius, Red), Dot(p2, MarkerRadius, Red),
     Label(LabelOrigin(p1), PointText(p1), White, LabelThickness),
     Label(LabelOrigin(p2), PointText(p2), White, LabelThickness)]
  }

  /** A label names point `p` when it sits at `p`'s label position and its
      text reads back as `p`. */
  predicate Names(tag: Overlay, p: Point)
  {
    tag.Label? && ParsePoint(tag.text) == Some(p) && tag.origin == LabelOrigin(p)
  }

  /** The label the annotation writes for `p` names `p`. */
  lemma LabelNamesPoint(p: Point)
    ensures Names(Label(LabelOrigin(p), PointText(p), White, LabelThickness), p)
  {
    ParsePointText(p);
  }

  /** Two dots followed by two labels: the dots' centres are the markers,
      and the labels are the last two overlays. */
  lemma DotsThenLabels(d1: Overlay, d2: Overlay, l1: Overlay, l2: Overlay)
    requires d1.Dot? && d2.Dot? && l1.Label? && l2.Label?
    ensures Markers([d1, d2, l1, l2]) == [d1.center, d2.center]
    ensures Labels([d1, d2, l1, l2]) == [l1, l2]
  {
    var m := [d1, d2, l1, l2];
    assert m[3..][1..] == [];
    assert m[2..][1..] == m[3..];
    assert m[1..][1..] == m[2..];
    assert Markers(m[3..]) == [];
    assert Markers(m[2..]) == [];
    assert Markers(m[1..]) == [d2.center];
    assert Labels(m[3..]) == [l2];
    assert Labels(m[2..]) == [l1, l2];
    assert Labels(m[1..]) == [l1, l2];
  }

  lemma CornerMarksContents(p1: Point, p2: Point)
    ensures Markers(CornerMarks(p1, p2)) == [p1, p2]
    ensures Labels(CornerMarks(p1, p2)) == [CornerMarks(p1, p2)[2], CornerMarks(p1, p2)[3]]
  {
    var m := CornerMarks(p1, p2);
    DotsThenLabels(m[0], m[1], m[2], m[3]);
    assert [m[0], m[1], m[2], m[3]] == m;
  }


  /** The annotated copy: the image with a filled red dot on each of the two
      drag corners and, beside each, a white label spelling that corner's
      coordinates. The image itself is left as it was. */
  function Annotate(c: Canvas, p1: Point, p2: Point): (r: Canvas)
    ensures r.pixels == c.pixels
    ensures |r.overlays| == |c.overlays| + 4
    ensures r.overlays[..|c.overlays|] == c.overlays
    ensures Markers(r.overlays[|c.overlays|..]) == [p1, p2]
    ensures |Labels(r.overlays[|c.overlays|..])| == 2
    ensures forall k :: 0 <= k < 2 ==>
              var tag := Labels(r.overlays[|c.overlays|..])[k];
              var marker := Markers(r.overlays[|c.overlays|..])[k];
              tag.text == PointText(marker) && tag.origin == LabelOrigin(marker)
  {
    var m := CornerMarks(p1, p2);
    var r := Canvas(c.pixels, c.overlays + m);
    assert r.overlays[..|c.overlays|] == c.overlays;
    assert r.overlays[|c.overlays|..] == m;
    CornerMarksContents(p1, p2);
    r
  }

  /** Every label of the annotated copy names the marker it belongs to: it
      sits 10 pixels right of and above it, and its text reads back as the
      marker's coordinates. */
  lemma AnnotationLabelsReadBack(c: Canvas, p1: Point, p2: Point)
    ensures var added := Annotate(c, p1, p2).overlays[|c.overlays|..];
            forall k :: 0 <= k < 2 ==> Names(Labels(added)[k], Markers(added)[k])
  {
    LabelNamesPoint(p1);
    LabelNamesPoint(p2);
  }
}
