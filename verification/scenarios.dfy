/** Concrete drags on a 200 by 200 image, worked through the handler. */
module Scenarios {
  import opened Slicing
  import opened Raster
  import opened ArtifactNames
  import opened Selection

  /** A freshly loaded 200 by 200 image with nothing painted on it. */
  predicate Square200(img: Canvas)
  {
    WellFormed(img) && Height(img) == 200 && Width(img) == 200 && img.overlays == []
  }

  /** The first crop's two file names, spelled out. */
  lemma FirstNames()
    ensures NamesBetween(1, 2) == ["Task_1_Cropped_1.jpeg", "Task_1_insights_1.jpeg"]
  {
    assert Decimal.FromNat(1) == "1";
    assert CropName(1) == "Task_1_Cropped_" + "1" + ".jpeg";
    assert InsightsName(1) == "Task_1_insights_" + "1" + ".jpeg";
    NamesBetweenSingle(1);
    assert "Task_1_Cropped_" + "1" + ".jpeg" == "Task_1_Cropped_1.jpeg";
    assert "Task_1_insights_" + "1" + ".jpeg" == "Task_1_insights_1.jpeg";
  }

  /** A release whose adjusted slices both run forwards, wherever its
      corners lie, writes both files and raises nothing. */
  lemma ReleaseForward(s: State, p: Point)
    requires s.startPoint.Some? && WellFormed(s.image) && Selects(s.startPoint.value, p)
    requires Bound(s.startPoint.value.x, Width(s.image)) < Bound(p.x, Width(s.image))
    requires Bound(s.startPoint.value.y, Height(s.image)) < Bound(p.y, Height(s.image))
    ensures OnUp(s, p).fault.None? && |OnUp(s, p).writes| == 2
  {
    CropHasPixelsIff(DrawOutline(s.image, s.startPoint.value, p), s.startPoint.value, p);
  }

  /** A press followed directly by a release reacts as the release does in
      the state the press leaves. */
  lemma PressRelease(s: State, a: Point, b: Point)
    ensures var up := OnUp(OnDown(s, a).state, b);
            Run(s, [Down(a.x, a.y), Up(b.x, b.y)]) == Trace(up.state, up.writes, Raised(up.fault))
  {
    PressFirst(s, a, [Up(b.x, b.y)]);
    assert [Down(a.x, a.y)] + [Up(b.x, b.y)] == [Down(a.x, a.y), Up(b.x, b.y)];
    ReleaseAlone(OnDown(s, a).state, b);
  }

  /** Two releases in a row, reduced to the handler calls. */
  lemma ReleaseRelease(s: State, b: Point, c: Point)
    ensures var r1 := OnUp(s, b);
            var r2 := OnUp(r1.state, c);
            var t := Run(s, [Up(b.x, b.y), Up(c.x, c.y)]);
            && t.state == r2.state
            && t.writes == r1.writes + r2.writes
            && t.faults == Raised(r1.fault) + Raised(r2.fault)
  {
    var r1 := OnUp(s, b);
    ReleaseThen(s, b, [Up(c.x, c.y)]);
    assert [Up(b.x, b.y)] + [Up(c.x, c.y)] == [Up(b.x, b.y), Up(c.x, c.y)];
    ReleaseAlone(r1.state, c);
  }

  /** A press and two releases, reduced to the handler calls. */
  lemma PressReleaseRelease(s: State, a: Point, b: Point, c: Point)
    ensures var r2 := OnUp(OnDown(s, a).state, b);
            var r3 := OnUp(r2.state, c);
            var t := Run(s, [Down(a.x, a.y), Up(b.x, b.y), Up(c.x, c.y)]);
            && t.state == r3.state
            && t.writes == r2.writes + r3.writes
            && t.faults == Raised(r2.fault) + Raised(r3.fault)
  {
    PressFirst(s, a, [Up(b.x, b.y), Up(c.x, c.y)]);
    assert [Down(a.x, a.y)] + [Up(b.x, b.y), Up(c.x, c.y)] == [Down(a.x, a.y), Up(b.x, b.y), Up(c.x, c.y)];
    ReleaseRelease(OnDown(s, a).state, b, c);
  }

  /** A release, a press and a release, reduced to the handler calls. */
  lemma ReleasePressRelease(s: State, p: Point, a: Point, b: Point)
    ensures var r1 := OnUp(s, p);
            var r3 := OnUp(OnDown(r1.state, a).state, b);
            var t := Run(s, [Up(p.x, p.y), Down(a.x, a.y), Up(b.x, b.y)]);
            && t.state == r3.state
            && t.writes == r1.writes + r3.writes
            && t.faults == Raised(r1.fault) + Raised(r3.fault)
  {
    var r1 := OnUp(s, p);
    ReleaseThen(s, p, [Down(a.x, a.y), Up(b.x, b.y)]);
    assert [Up(p.x, p.y)] + [Down(a.x, a.y), Up(b.x, b.y)] == [Up(p.x, p.y), Down(a.x, a.y), Up(b.x, b.y)];
    PressRelease(r1.state, a, b);
    var rest := Run(r1.state, [Down(a.x, a.y), Up(b.x, b.y)]);
    var r3 := OnUp(OnDown(r1.state, a).state, b);
    assert rest == Trace(r3.state, r3.writes, Raised(r3.fault));
  }

  /** The run of the forward drag below, reduced to the handler's output:
      both files of crop 1, cut from the outlined image. */
  lemma ForwardDragWrites(img: Canvas)
    requires Square200(img)
    ensures var a, b := Point(10, 10), Point(110, 90);
            var outlined := DrawOutline(img, a, b);
            var r := Run(Init(img), [Down(10, 10), Move(50, 50), Up(110, 90)]);
            && r.faults == []
            && r.state.counter == 2
            && r.writes == [WriteRequest(CropName(1), Crop(outlined, a, b)),
                            WriteRequest(InsightsName(1), Annotate(outlined, a, b))]
  {
    var s := Init(img);
    var a, b := Point(10, 10), Point(110, 90);
    assert [Down(10, 10), Move(50, 50), Up(110, 90)] == [Down(10, 10)] + [Move(50, 50)] + [Up(110, 90)];
    DragDependsOnlyOnEnds(s, a, [Move(50, 50)], b);
    PressRelease(s, a, b);
    ReleaseForward(OnDown(s, a).state, b);
  }

  /** Press at (10, 10), move through (50, 50), release at (110, 90): crop 1
      is the 100 by 80 block whose top-left pixel is (10, 10), the annotated
      copy marks both corners, and the counter moves from 1 to 2. */
  lemma ForwardDrag(img: Canvas)
    requires Square200(img)
    ensures var r := Run(Init(img), [Down(10, 10), Move(50, 50), Up(110, 90)]);
            && r.faults == []
            && r.state.counter == 2
            && |r.writes| == 2
            && Filenames(r.writes) == ["Task_1_Cropped_1.jpeg", "Task_1_insights_1.jpeg"]
            && IsBlock(r.writes[0].buffer, img, 10, 10, 80, 100)
            && |r.writes[1].buffer.overlays| == 5
            && Markers(r.writes[1].buffer.overlays[1..]) == [Point(10, 10), Point(110, 90)]
  {
    var a, b := Point(10, 10), Point(110, 90);
    ForwardDragWrites(img);
    FirstNames();
    NamesBetweenSingle(1);
    CropInside(DrawOutline(img, a, b), a, b);
  }

  /** Press at (5, 5), release at (5, 40): zero width, so nothing is written,
      nothing is raised and the counter stays at 1. */
  lemma ZeroWidthDrag(img: Canvas)
    requires WellFormed(img)
    ensures var r := Run(Init(img), [Down(5, 5), Up(5, 40)]);
            r.faults == [] && r.writes == [] && r.state.counter == 1 && r.state.lastCropped.None?
  {
    assert [Down(5, 5), Up(5, 40)][1..] == [Up(5, 40)];
    assert [Up(5, 40)][1..] == [];
  }

  /** A release before any press paints an outline from (0, 0) and then
      raises without writing. The next drag still produces crop 1, and its
      annotated copy carries that stray outline. */
  lemma ReleaseFirst(img: Canvas)
    requires Square200(img)
    ensures var r := Run(Init(img), [Up(30, 30), Down(10, 10), Up(50, 50)]);
            && r.faults == [MissingStartPoint]
            && Filenames(r.writes) == ["Task_1_Cropped_1.jpeg", "Task_1_insights_1.jpeg"]
            && r.state.counter == 2
            && |r.writes| == 2
            && |r.writes[1].buffer.overlays| == 6
            && r.writes[1].buffer.overlays[0] == Outline(Point(0, 0), Point(30, 30), Yellow, OutlineThickness)
  {
    var es := [Up(30, 30), Down(10, 10), Up(50, 50)];
    var s0 := Init(img);
    var r1 := OnUp(s0, Point(30, 30));
    var r3 := OnUp(OnDown(r1.state, Point(10, 10)).state, Point(50, 50));
    ReleaseForward(OnDown(r1.state, Point(10, 10)).state, Point(50, 50));
    ReleasePressRelease(s0, Point(30, 30), Point(10, 10), Point(50, 50));
    assert Raised(r1.fault) + Raised(r3.fault) == [MissingStartPoint] + [];
    assert r1.writes + r3.writes == r3.writes;
    RunWrites(s0, es);
    FirstNames();
    assert r1.state.image.overlays == [Outline(Point(0, 0), Point(30, 30), Yellow, OutlineThickness)];
    assert r3.state.image.overlays[0] == r1.state.image.overlays[0];
  }

  /** A second release with no press in between crops again from the old
      start point, under the next number. */
  lemma StrayRelease(img: Canvas)
    requires Square200(img)
    ensures var r := Run(Init(img), [Down(10, 10), Up(110, 90), Up(50, 30)]);
            && r.faults == []
            && Filenames(r.writes) == NamesBetween(1, 3)
            && r.state.counter == 3
            && r.writes[2].buffer == Crop(r.state.image, Point(10, 10), Point(50, 30))
  {
    var es := [Down(10, 10), Up(110, 90), Up(50, 30)];
    var r1 := OnDown(Init(img), Point(10, 10));
    var r2 := OnUp(r1.state, Point(110, 90));
    var r3 := OnUp(r2.state, Point(50, 30));
    ReleaseForward(r1.state, Point(110, 90));
    ReleaseForward(r2.state, Point(50, 30));
    PressReleaseRelease(Init(img), Point(10, 10), Point(110, 90), Point(50, 30));
    assert Raised(r2.fault) + Raised(r3.fault) == [] + [];
    RunWrites(Init(img), es);
  }

  /** A drag from bottom-right to top-left inside the image selects a block
      with no pixel: the image writer raises, nothing is written and the
      counter stays at 1. */
  lemma BackwardDrag(img: Canvas)
    requires Square200(img)
    ensures var r := Run(Init(img), [Down(110, 90), Up(10, 10)]);
            r.faults == [EmptyCrop] && r.writes == [] && r.state.counter == 1 && r.state.lastCropped.None?
  {
    var es := [Down(110, 90), Up(10, 10)];
    assert es[1..] == [Up(10, 10)];
    assert es[1..][1..] == [];
    var a, b := Point(110, 90), Point(10, 10);
    CropReversedIsEmpty(DrawOutline(img, a, b), a, b);
  }

  /** A drag lying wholly to the right of the image also selects no pixel,
      since both of its column bounds clamp to the width. */
  lemma DragPastEdge(img: Canvas)
    requires Square200(img)
    ensures var r := Run(Init(img), [Down(250, 10), Up(300, 90)]);
            r.faults == [EmptyCrop] && r.writes == [] && r.state.counter == 1
  {
    var es := [Down(250, 10), Up(300, 90)];
    assert es[1..] == [Up(300, 90)];
    assert es[1..][1..] == [];
    var a, b := Point(250, 10), Point(300, 90);
    CropHasPixelsIff(DrawOutline(img, a, b), a, b);
  }

  /** Press at (10, 10) and release at (-5, 90), past the left edge of the
      window: the negative column counts from the right edge, so crop 1 is
      the 185 by 80 block from column 10 to column 195, and both files are
      written. */
  lemma LeftExitDrag(img: Canvas)
    requires Square200(img)
    ensures var r := Run(Init(img), [Down(10, 10), Up(-5, 90)]);
            && r.faults == []
            && |r.writes| == 2
            && IsBlock(r.writes[0].buffer, img, 10, 10, 80, 185)
  {
    var a, b := Point(10, 10), Point(-5, 90);
    var s1 := OnDown(Init(img), a).state;
    var outlined := DrawOutline(img, a, b);
    assert Bound(-5, 200) == 195;
    ReleaseForward(s1, b);
    var up := OnUp(s1, b);
    assert up.writes[0].buffer == Crop(outlined, a, b);
    CropForward(outlined, a, b);
    assert IsBlock(up.writes[0].buffer, img, 10, 10, 80, 185);
    PressRelease(Init(img), a, b);
  }

  /** A drag lying wholly to the left of the window, from (-50, 10) to
      (-10, 90), still crops: its columns count from the right edge, giving
      the 40 by 80 block from column 150 to column 190. */
  lemma WholeLeftDrag(img: Canvas)
    requires Square200(img)
    ensures var r := Run(Init(img), [Down(-50, 10), Up(-10, 90)]);
            && r.faults == []
            && |r.writes| == 2
            && IsBlock(r.writes[0].buffer, img, 10, 150, 80, 40)
  {
    var a, b := Point(-50, 10), Point(-10, 90);
    var s1 := OnDown(Init(img), a).state;
    var outlined := DrawOutline(img, a, b);
    assert Bound(-50, 200) == 150 && Bound(-10, 200) == 190;
    ReleaseForward(s1, b);
    var up := OnUp(s1, b);
    assert up.writes[0].buffer == Crop(outlined, a, b);
    CropForward(outlined, a, b);
    assert IsBlock(up.writes[0].buffer, img, 10, 150, 80, 40);
    PressRelease(Init(img), a, b);
  }
}
