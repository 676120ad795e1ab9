/** The drag-to-crop mouse handler. The handler's module-level variables
    become one immutable `State`; one mouse event maps the state to a
    `Reaction`: the next state, the files the handler asks to be written, and
    the error it raises, if any. */
module Selection {
  import opened Wrappers
  import opened Raster
  import opened ArtifactNames

  /** The mouse events the handler distinguishes; every other event the
      window reports falls through all of its branches. */
  datatype Event =
    | Down(x: int, y: int)
    | Move(x: int, y: int)
    | Up(x: int, y: int)
    | Other(x: int, y: int)

  /** The handler's variables: where the drag started and last stood,
      whether a drag is in progress, the number the next crop gets, the names
      of the two files the last crop wrote, and the displayed image, on which
      every finished drag leaves its outline. */
  datatype State = State(
    startPoint: Option<Point>,
    endPoint: Option<Point>,
    drawing: bool,
    counter: nat,
    lastCropped: Option<string>,
    lastAnnotated: Option<string>,
    image: Canvas)

  /** A request to save `buffer` under `filename`. */
  datatype WriteRequest = WriteRequest(filename: string, buffer: Canvas)

  /** The errors the handler raises: unpacking a start point that was never
      set, and asking the image writer to save a crop with no pixel. */
  datatype Fault = MissingStartPoint | EmptyCrop

  /** What one event does. */
  datatype Reaction = Reaction(state: State, writes: seq<WriteRequest>, fault: Option<Fault>)

  /** What a run of events does: the final state, every write in order, and
      every error raised in order. */
  datatype Trace = Trace(state: State, writes: seq<WriteRequest>, faults: seq<Fault>)

  /** The number of the first crop. */
  const FirstCrop: nat := 1

  /** Neither the width nor the height of the rectangle between the two
      corners is zero. It lets through only distinct corners. */
  predicate Selects(p1: Point, p2: Point)
    ensures Selects(p1, p2) ==> p1 != p2
  {
    p1.x != p2.x && p1.y != p2.y
  }

  /** A selection the zero-size test rejects could only have cropped
      nothing: on a rectangular image both of its slices have equal bounds in
      at least one direction. */
  lemma RejectedSelectionIsEmpty(c: Canvas, p1: Point, p2: Point)
    requires WellFormed(c)
    requires !Selects(p1, p2)
    ensures !HasPixels(Crop(c, p1, p2))
  {
    CropHasPixelsIff(c, p1, p2);
  }

  /** What every reachable state satisfies: the image is a rectangular
      grid, the counter has left 0 behind, a drag in progress has a start
      point, and the two remembered names are both absent or both those of
      the crop just before the counter. */
  predicate Valid(s: State)
  {
    && WellFormed(s.image)
    && s.counter >= FirstCrop
    && (s.drawing ==> s.startPoint.Some?)
    && (s.lastCropped.Some? <==> s.lastAnnotated.Some?)
    && (s.lastCropped.Some? ==>
          && s.counter >= FirstCrop + 1
          && s.lastCropped.value == CropName(s.counter - 1)
          && s.lastAnnotated.value == InsightsName(s.counter - 1))
  }

  function Filenames(ws: seq<WriteRequest>): (names: seq<string>)
    ensures |names| == |ws|
    ensures forall i :: 0 <= i < |ws| ==> names[i] == ws[i].filename
  {
    seq(|ws|, i requires 0 <= i < |ws| => ws[i].filename)
  }

  lemma FilenamesConcat(a: seq<WriteRequest>, b: seq<WriteRequest>)
    ensures Filenames(a + b) == Filenames(a) + Filenames(b)
  {
  }

  /** The state before any event, showing `img`, which like every decoded
      image is a rectangular grid. */
  function Init(img: Canvas): (s: State)
    requires WellFormed(img)
    ensures Valid(s)
    ensures s.counter == FirstCrop && !s.drawing && s.startPoint.None? && s.endPoint.None?
    ensures s.lastCropped.None? && s.lastAnnotated.None? && s.image == img
  {
    State(None, None, false, FirstCrop, None, None, img)
  }

  /** Button pressed: the press point becomes the start of a drag. The end
      point is not reset, and nothing else changes. */
  function OnDown(s: State, p: Point): (r: Reaction)
    ensures r.state.startPoint == Some(p) && r.state.drawing
    ensures r.state.endPoint == s.endPoint && r.state.counter == s.counter
    ensures r.state.lastCropped == s.lastCropped && r.state.lastAnnotated == s.lastAnnotated
    ensures r.state.image == s.image
    ensures r.writes == [] && r.fault.None?
  {
    Reaction(s.(startPoint := Some(p), drawing := true), [], None)
  }

  /** Mouse moved: during a drag the end point follows the mouse; otherwise
      the event is ignored. The live preview is display-only. */
  function OnMove(s: State, p: Point): (r: Reaction)
    ensures !s.drawing ==> r.state == s
    ensures s.drawing ==> r.state.endPoint == Some(p)
    ensures r.state.(endPoint := s.endPoint) == s
    ensures r.writes == [] && r.fault.None?
  {
    if s.drawing then Reaction(s.(endPoint := Some(p)), [], None)
    else Reaction(s, [], None)
  }

  /** The point OpenCV's drawing functions take in place of Python's
      `None`. */
  const NonePoint := Point(0, 0)

  /** Button released, whether or not a drag was in progress. The release
      point becomes the end point and the drag ends, and the outline from the
      start point is painted onto the displayed image (from (0, 0) when there
      is no start point). Then:
      - without a start point, unpacking it raises;
      - a selection of zero width or height stops;
      - a crop with no pixel makes the image writer raise before anything is
        saved;
      - any other selection writes the crop and then the annotated copy under
        the current number, remembers both names and advances the number. */
  function OnUp(s: State, p: Point): (r: Reaction)
    ensures r.state.endPoint == Some(p) && !r.state.drawing
    ensures r.state.startPoint == s.startPoint
    ensures r.state.image == DrawOutline(s.image, s.startPoint.GetOr(NonePoint), p)
    ensures r.fault == Some(MissingStartPoint) <==> s.startPoint.None?
    ensures r.fault == Some(EmptyCrop) <==>
              && s.startPoint.Some?
              && Selects(s.startPoint.value, p)
              && !HasPixels(Crop(r.state.image, s.startPoint.value, p))
    ensures r.writes == [] ==>
              && r.state.counter == s.counter
              && r.state.lastCropped == s.lastCropped
              && r.state.lastAnnotated == s.lastAnnotated
    ensures r.writes != [] <==> s.startPoint.Some? && Selects(s.startPoint.value, p) && r.fault.None?
    ensures r.writes != [] ==>
              var q, n := s.startPoint.value, s.counter;
              && r.writes == [WriteRequest(CropName(n), Crop(r.state.image, q, p)),
                              WriteRequest(InsightsName(n), Annotate(r.state.image, q, p))]
              && HasPixels(r.writes[0].buffer)
              && r.state.lastCropped == Some(CropName(n))
              && r.state.lastAnnotated == Some(InsightsName(n))
              && r.state.counter == n + 1
  {
    var released := s.(endPoint := Some(p), drawing := false);
    match s.startPoint
    case None =>
      Reaction(released.(image := DrawOutline(s.image, NonePoint, p)), [], Some(MissingStartPoint))
    case Some(q) =>
      var outlined := released.(image := DrawOutline(s.image, q, p));
      if !Selects(q, p) then Reaction(outlined, [], None)
      else if !HasPixels(Crop(outlined.image, q, p)) then Reaction(outlined, [], Some(EmptyCrop))
      else
        var n := s.counter;
        var cropped := WriteRequest(CropName(n), Crop(outlined.image, q, p));
        var annotated := WriteRequest(InsightsName(n), Annotate(outlined.image, q, p));
        Reaction(outlined.(lastCropped := Some(cropped.filename),
                           lastAnnotated := Some(annotated.filename),
                           counter := n + 1),
                 [cropped, annotated], None)
  }

  /** One event. Across every event: validity is kept, the counter advances
      by at most one, the files written are exactly those of the crops the
      counter moved past, and a start point once set stays set. The handler
      raises only on a release: for a missing start point exactly when there
      is none, and otherwise only for an empty crop. */
  function Step(s: State, e: Event): (r: Reaction)
    ensures Valid(s) ==> Valid(r.state)
    ensures s.counter <= r.state.counter <= s.counter + 1
    ensures Filenames(r.writes) == NamesBetween(s.counter, r.state.counter)
    ensures s.startPoint.Some? ==> r.state.startPoint.Some?
    ensures r.fault == Some(MissingStartPoint) <==> e.Up? && s.startPoint.None?
    ensures r.fault == Some(EmptyCrop) ==> e.Up? && s.startPoint.Some?
  {
    NamesBetweenSingle(s.counter);
    match e
    case Down(x, y) => OnDown(s, Point(x, y))
    case Move(x, y) => OnMove(s, Point(x, y))
    case Up(x, y) => UpKeepsInvariants(s, Point(x, y)); OnUp(s, Point(x, y))
    case Other(_, _) => Reaction(s, [], None)
  }

  /** The release handler keeps the invariants `Step` promises. */
  lemma UpKeepsInvariants(s: State, p: Point)
    ensures var r := OnUp(s, p);
            && (Valid(s) ==> Valid(r.state))
            && s.counter <= r.state.counter <= s.counter + 1
            && Filenames(r.writes) == NamesBetween(s.counter, r.state.counter)
            && (r.fault == Some(MissingStartPoint) <==> s.startPoint.None?)
            && (r.fault == Some(EmptyCrop) ==> s.startPoint.Some?)
  {
    NamesBetweenSingle(s.counter);
    var r := OnUp(s, p);
    assert r.state.image.pixels == s.image.pixels;
    if r.writes != [] {
      assert Filenames(r.writes) == [CropName(s.counter), InsightsName(s.counter)];
    } else {
      assert r.state.counter == s.counter;
    }
  }

  /** The errors raised during one event: none or one. */
  function Raised(f: Option<Fault>): (fs: seq<Fault>)
    ensures |fs| <= 1
    ensures f.None? <==> fs == []
    ensures f.Some? ==> fs == [f.value]
  {
    match f
    case Some(v) => [v]
    case None => []
  }

  /** Feeds the events in order. An event on which the handler raises keeps
      the state the handler had reached when it raised, and the next event is
      handled from there. */
  function Run(s: State, es: seq<Event>): (t: Trace)
    ensures |t.faults| <= |es|
    ensures |t.writes| <= 2 * |es|
    decreases |es|
  {
    if |es| == 0 then Trace(s, [], [])
    else
      var r := Step(s, es[0]);
      var rest := Run(r.state, es[1..]);
      Trace(rest.state, r.writes + rest.writes, Raised(r.fault) + rest.faults)
  }

  /** A run that starts with event `e` handles `e` and then runs the rest
      from where `e` left off. */
  lemma RunCons(s: State, e: Event, es: seq<Event>)
    ensures var r := Step(s, e);
            var rest := Run(r.state, es);
            Run(s, [e] + es) == Trace(rest.state, r.writes + rest.writes, Raised(r.fault) + rest.faults)
  {
    assert ([e] + es)[0] == e;
    assert ([e] + es)[1..] == es;
  }

  /** Every event other than a release writes nothing and never raises, so
      a run that begins with one is the run of the rest from the state that
      event leaves. */
  lemma QuietFirst(s: State, e: Event, es: seq<Event>)
    requires !e.Up?
    ensures Run(s, [e] + es) == Run(Step(s, e).state, es)
  {
    RunCons(s, e, es);
  }

  /** In particular a run that begins with a press is the run of the rest
      from the pressed state. */
  lemma PressFirst(s: State, a: Point, es: seq<Event>)
    ensures Run(s, [Down(a.x, a.y)] + es) == Run(OnDown(s, a).state, es)
  {
    assert Point(a.x, a.y) == a;
    QuietFirst(s, Down(a.x, a.y), es);
  }

  /** A run that begins with a release handles it with the release
      handler and then runs the rest from where it left off. */
  lemma ReleaseThen(s: State, b: Point, es: seq<Event>)
    ensures var up := OnUp(s, b);
            var rest := Run(up.state, es);
            Run(s, [Up(b.x, b.y)] + es) == Trace(rest.state, up.writes + rest.writes, Raised(up.fault) + rest.faults)
  {
    assert Point(b.x, b.y) == b;
    RunCons(s, Up(b.x, b.y), es);
  }

  /** A lone release reacts as the release handler does. */
  lemma ReleaseAlone(s: State, b: Point)
    ensures var up := OnUp(s, b);
            Run(s, [Up(b.x, b.y)]) == Trace(up.state, up.writes, Raised(up.fault))
  {
    var up := OnUp(s, b);
    ReleaseThen(s, b, []);
    assert [Up(b.x, b.y)] + [] == [Up(b.x, b.y)];
    assert up.writes + [] == up.writes;
    assert Raised(up.fault) + [] == Raised(up.fault);
  }

  /** Over any run: validity is kept, the counter never goes back, and the
      files written are, in order, the crop and annotated copy of every
      number the counter moved past. */
  lemma {:induction false} RunWrites(s: State, es: seq<Event>)
    ensures Valid(s) ==> Valid(Run(s, es).state)
    ensures s.counter <= Run(s, es).state.counter
    ensures Filenames(Run(s, es).writes) == NamesBetween(s.counter, Run(s, es).state.counter)
    decreases |es|
  {
    if |es| > 0 {
      var r := Step(s, es[0]);
      var rest := Run(r.state, es[1..]);
      assert Run(s, es).writes == r.writes + rest.writes;
      RunWrites(r.state, es[1..]);
      NamesBetweenConcat(s.counter, r.state.counter, rest.state.counter);
      FilenamesConcat(r.writes, rest.writes);
    }
  }

  /** No run writes the same file twice. */
  lemma RunWritesDistinct(s: State, es: seq<Event>)
    ensures forall i, j :: 0 <= i < j < |Run(s, es).writes| ==>
              Run(s, es).writes[i].filename != Run(s, es).writes[j].filename
  {
    RunWrites(s, es);
    NamesBetweenDistinct(s.counter, Run(s, es).state.counter);
    var names := Filenames(Run(s, es).writes);
    forall i, j | 0 <= i < j < |Run(s, es).writes|
      ensures Run(s, es).writes[i].filename != Run(s, es).writes[j].filename
    {
      assert names[i] != names[j];
    }
  }

  /** Once a press has happened the only error left is an empty crop. */
  lemma {:induction false} OnlyEmptyCropsAfterPress(s: State, es: seq<Event>)
    requires s.startPoint.Some?
    ensures forall k :: 0 <= k < |Run(s, es).faults| ==> Run(s, es).faults[k] == EmptyCrop
    decreases |es|
  {
    if |es| > 0 {
      var r := Step(s, es[0]);
      OnlyEmptyCropsAfterPress(r.state, es[1..]);
      assert Run(s, es).faults == Raised(r.fault) + Run(r.state, es[1..]).faults;
    }
  }

  /** A release ignores where the end point stood before it. */
  lemma UpIgnoresEndPoint(s: State, p: Point, q: Option<Point>)
    ensures OnUp(s.(endPoint := q), p) == OnUp(s, p)
  {
  }

  /** Mouse movements before a release change nothing the release produces:
      the outcome depends only on the state at the first move and the
      release point. */
  lemma {:induction false} MovesAreForgotten(s: State, ms: seq<Event>, p: Point)
    requires forall k :: 0 <= k < |ms| ==> ms[k].Move?
    ensures Run(s, ms + [Up(p.x, p.y)]) == Run(s, [Up(p.x, p.y)])
    decreases |ms|
  {
    if |ms| > 0 {
      var u := Up(p.x, p.y);
      var r := Step(s, ms[0]);
      assert ms + [u] == [ms[0]] + (ms[1..] + [u]);
      QuietFirst(s, ms[0], ms[1..] + [u]);
      MovesAreForgotten(r.state, ms[1..], p);
      ReleaseAlone(r.state, p);
      ReleaseAlone(s, p);
      UpIgnoresEndPoint(s, p, r.state.endPoint);
      assert r.state == s.(endPoint := r.state.endPoint);
    }
  }

  /** A whole drag — press, any number of moves, release — has the same
      outcome as the press followed directly by the release. */
  lemma DragDependsOnlyOnEnds(s: State, a: Point, ms: seq<Event>, b: Point)
    requires forall k :: 0 <= k < |ms| ==> ms[k].Move?
    ensures Run(s, [Down(a.x, a.y)] + ms + [Up(b.x, b.y)]) == Run(s, [Down(a.x, a.y), Up(b.x, b.y)])
  {
    var d, u := Down(a.x, a.y), Up(b.x, b.y);
    var es := [d] + ms + [u];
    assert es[0] == d;
    assert es[1..] == ms + [u];
    assert [d, u][1..] == [u];
    MovesAreForgotten(OnDown(s, a).state, ms, b);
  }
}
