/** Lines that are not finished. A line comes into the log when the pen is lifted, and any call may come before that.
    Here is what the layers then show, and exactly when the history is still right. */
module Pending {
  import opened Blending
  import opened Common
  import opened History

  // ----- solid strokes, pixel by pixel

  /** The colour of the last of the strokes on layer j that touch pixel k. */
  function LastInk(t: Tools, strokes: seq<Stroke>, j: int, w: nat, h: nat, k: nat): Option<nat> {
    if strokes == [] then None
    else
      var last := strokes[|strokes| - 1];
      if last.index == j && k in t.touch(last, w, h) then Some(last.color)
      else LastInk(t, strokes[..|strokes| - 1], j, w, h, k)
  }

  function Over(ink: Option<nat>, pixel: nat): nat {
    if ink.Some? then ink.value else pixel
  }

  /** A layer after the strokes that go to number j. */
  function Marked(t: Tools, strokes: seq<Stroke>, j: int, l: Layer): (r: Layer)
    ensures |r.pixels| == |l.pixels| && r == l.(pixels := r.pixels)
  {
    l.(pixels := seq(|l.pixels|, k requires 0 <= k < |l.pixels| => Over(LastInk(t, strokes, j, l.width, l.height, k), l.pixels[k])))
  }

  lemma SolidInk(below: nat, color: nat)
    requires Solid(color)
    ensures Ink(below, color) == color
  {
    hide Mixed, Div255;
  }

  lemma MarkedMore(t: Tools, strokes: seq<Stroke>, j: int, l: Layer)
    requires strokes != [] && Solid(strokes[|strokes| - 1].color)
    ensures var front, last := strokes[..|strokes| - 1], strokes[|strokes| - 1];
            Marked(t, strokes, j, l) == if last.index == j then Inked(t, Marked(t, front, j, l), last) else Marked(t, front, j, l)
  {
    var front, last := strokes[..|strokes| - 1], strokes[|strokes| - 1];
    forall below ensures Ink(below, last.color) == last.color { SolidInk(below, last.color); }
    hide Ink;
    var x := Marked(t, strokes, j, l);
    var y := if last.index == j then Inked(t, Marked(t, front, j, l), last) else Marked(t, front, j, l);
    assert x.pixels == y.pixels;
  }

  /** Solid strokes do not look at the base: what they leave is told by the last one at each pixel. */
  lemma {:induction false} DrawAllIs(t: Tools, c: Canvas, strokes: seq<Stroke>)
    requires AllSolid(strokes)
    ensures |DrawAll(t, c, strokes)| == |c|
    ensures forall j | 0 <= j < |c| :: DrawAll(t, c, strokes)[j] == Marked(t, strokes, j, c[j])
    decreases |strokes|
  {
    if strokes == [] {
      forall j | 0 <= j < |c| ensures c[j] == Marked(t, strokes, j, c[j]) {
        assert c[j].pixels == Marked(t, strokes, j, c[j]).pixels;
      }
    } else {
      var front, last := strokes[..|strokes| - 1], strokes[|strokes| - 1];
      DrawAllIs(t, c, front);
      hide Marked, Inked;
      forall j | 0 <= j < |c| ensures DrawAll(t, c, strokes)[j] == Marked(t, strokes, j, c[j]) {
        MarkedMore(t, strokes, j, c[j]);
      }
    }
  }

  lemma {:induction false} LastInkAppend(t: Tools, a: seq<Stroke>, b: seq<Stroke>, j: int, w: nat, h: nat, k: nat)
    ensures var ink := LastInk(t, b, j, w, h, k);
            LastInk(t, a + b, j, w, h, k) == if ink.Some? then ink else LastInk(t, a, j, w, h, k)
    decreases |b|
  {
    if b == [] {
      assert a + b == a;
    } else {
      assert (a + b)[..|a + b| - 1] == a + b[..|b| - 1];
      LastInkAppend(t, a, b[..|b| - 1], j, w, h, k);
    }
  }

  /** No layer changes under the strokes. */
  predicate Unmarked(t: Tools, c: Canvas, strokes: seq<Stroke>) {
    forall j | 0 <= j < |c| :: Marked(t, strokes, j, c[j]).pixels == c[j].pixels
  }

  lemma UnmarkedExactly(t: Tools, c: Canvas, strokes: seq<Stroke>)
    requires AllSolid(strokes)
    ensures Unmarked(t, c, strokes) <==> Same(c, DrawAll(t, c, strokes))
  {
    hide Marked;
    DrawAllIs(t, c, strokes);
    if Same(c, DrawAll(t, c, strokes)) {
      forall j | 0 <= j < |c| ensures Marked(t, strokes, j, c[j]).pixels == c[j].pixels {
        assert Picture(c[j]) == Picture(DrawAll(t, c, strokes)[j]);
      }
    }
  }

  lemma OverTwice(t: Tools, lost: seq<Stroke>, shown: seq<Stroke>, j: int, l: Layer)
    ensures Marked(t, lost + shown, j, l).pixels == Marked(t, shown, j, l).pixels <==>
            Marked(t, lost + shown, j, Marked(t, shown, j, l)).pixels == Marked(t, shown, j, l).pixels
  {
    forall k | 0 <= k < |l.pixels|
      ensures Marked(t, lost + shown, j, l).pixels[k] == Marked(t, shown, j, l).pixels[k] <==>
              Marked(t, lost + shown, j, Marked(t, shown, j, l)).pixels[k] == Marked(t, shown, j, l).pixels[k]
    {
      LastInkAppend(t, lost, shown, j, l.width, l.height, k);
    }
  }

  /** Strokes that are missing below later ones: to draw all of them gives what the later ones give exactly if drawing
      all of them once more would change nothing. */
  lemma MissingExactly(t: Tools, c: Canvas, lost: seq<Stroke>, shown: seq<Stroke>)
    requires AllSolid(lost) && AllSolid(shown)
    ensures Same(DrawAll(t, c, shown), DrawAll(t, c, lost + shown)) <==> Unmarked(t, DrawAll(t, c, shown), lost + shown)
  {
    hide Marked;
    DrawAllIs(t, c, shown);
    DrawAllIs(t, c, lost + shown);
    var d, e := DrawAll(t, c, shown), DrawAll(t, c, lost + shown);
    forall j | 0 <= j < |c|
      ensures Picture(d[j]) == Picture(e[j]) <==> Marked(t, lost + shown, j, d[j]).pixels == d[j].pixels
    {
      OverTwice(t, lost, shown, j, c[j]);
    }
  }

  // ----- operations while a line is pending

  /** Layer k gets the same from the strokes one number lower. */
  predicate MovesDown(t: Tools, c: Canvas, lines: seq<Stroke>, k: nat)
    requires 0 < k < |c|
  {
    Marked(t, lines, k, c[k]).pixels == Marked(t, lines, k - 1, c[k]).pixels
  }

  /** Whether the operation and the strokes can change places, by what the strokes leave on the layers. A stroke goes to
      a number, and an operation may put another layer there. */
  ghost predicate Commutes(t: Tools, c: Canvas, cmd: Command, lines: seq<Stroke>)
    requires Accepts(c, cmd)
  {
    match cmd
    case AddEmpty(x, y, w, h) =>
      var l := Layer(w, h, x, y, true, Common.Repeat(0, w * h), Common.Repeat(0, w * h));
      Marked(t, lines, |c|, l).pixels == l.pixels
    case Delete(i) => forall k | i < k < |c| :: MovesDown(t, c, lines, k)
    case Swap(i, j) =>
      && Marked(t, lines, i, c[i]).pixels == Marked(t, lines, j, c[i]).pixels
      && Marked(t, lines, j, c[j]).pixels == Marked(t, lines, i, c[j]).pixels
    case Visible(_) => true
    case Duplicate(i) => Marked(t, lines, i, c[i]).pixels == Marked(t, lines, |c|, c[i]).pixels
    case Move(_, _, _) => true
    case Lines(strokes) =>
      forall j | 0 <= j < |c| ::
        Marked(t, strokes, j, Marked(t, lines, j, c[j])).pixels == Marked(t, lines, j, Marked(t, strokes, j, c[j])).pixels
    case Other(text) => Same(t.other(DrawAll(t, c, lines), text), DrawAll(t, t.other(c, text), lines))
  }

  /** The marks depend on the size and the pixels alone. */
  lemma MarkedAlike(t: Tools, strokes: seq<Stroke>, j: int, l: Layer, m: Layer)
    requires l.width == m.width && l.height == m.height && l.pixels == m.pixels
    ensures Marked(t, strokes, j, l).pixels == Marked(t, strokes, j, m).pixels
  {
  }

  lemma AddCommutes(t: Tools, c: Canvas, cmd: Command, lines: seq<Stroke>)
    requires AllSolid(lines) && Accepts(c, cmd) && cmd.AddEmpty?
    ensures Commutes(t, c, cmd, lines) <==> Same(Exec(t, DrawAll(t, c, lines), cmd), DrawAll(t, Exec(t, c, cmd), lines))
  {
    hide Marked;
    DrawAllIs(t, c, lines);
    DrawAllIs(t, Exec(t, c, cmd), lines);
    var a, b := Exec(t, DrawAll(t, c, lines), cmd), DrawAll(t, Exec(t, c, cmd), lines);
    assert forall k | 0 <= k < |c| :: a[k] == b[k];
    assert Same(a, b) <==> Picture(a[|c|]) == Picture(b[|c|]);
  }

  lemma DuplicateCommutes(t: Tools, c: Canvas, cmd: Command, lines: seq<Stroke>)
    requires AllSolid(lines) && Accepts(c, cmd) && cmd.Duplicate?
    ensures Commutes(t, c, cmd, lines) <==> Same(Exec(t, DrawAll(t, c, lines), cmd), DrawAll(t, Exec(t, c, cmd), lines))
  {
    hide Marked;
    DrawAllIs(t, c, lines);
    DrawAllIs(t, Exec(t, c, cmd), lines);
    var a, b := Exec(t, DrawAll(t, c, lines), cmd), DrawAll(t, Exec(t, c, cmd), lines);
    MarkedAlike(t, lines, |c|, c[cmd.index], Exec(t, c, cmd)[|c|]);
    assert forall k | 0 <= k < |c| :: a[k] == b[k];
    assert Same(a, b) <==> Picture(a[|c|]) == Picture(b[|c|]);
  }

  lemma Deleted(t: Tools, c: Canvas, i: int)
    requires InBounds(c, i)
    ensures var d := Exec(t, c, Delete(i));
            |d| == |c| - 1 && forall k | 0 <= k < |d| :: d[k] == c[if k < i then k else k + 1]
  {
  }

  lemma DeletedAt(t: Tools, c: Canvas, i: int, lines: seq<Stroke>, k: nat)
    requires AllSolid(lines) && InBounds(c, i) && 0 < k < |c|
    ensures var a, b := Exec(t, DrawAll(t, c, lines), Delete(i)), DrawAll(t, Exec(t, c, Delete(i)), lines);
            && |a| == |b| == |c| - 1
            && (k <= i ==> a[k - 1] == b[k - 1])
            && (k > i ==> (Picture(a[k - 1]) == Picture(b[k - 1]) <==> MovesDown(t, c, lines, k)))
  {
    hide Marked, DrawAll, Exec;
    DrawAllIs(t, c, lines);
    DrawAllIs(t, Exec(t, c, Delete(i)), lines);
    Deleted(t, DrawAll(t, c, lines), i);
    Deleted(t, c, i);
  }

  lemma DeleteCommutes(t: Tools, c: Canvas, cmd: Command, lines: seq<Stroke>)
    requires AllSolid(lines) && Accepts(c, cmd) && cmd.Delete?
    ensures Commutes(t, c, cmd, lines) <==> Same(Exec(t, DrawAll(t, c, lines), cmd), DrawAll(t, Exec(t, c, cmd), lines))
  {
    hide Exec, DrawAll, MovesDown, Marked;
    var i := cmd.index;
    assert cmd == Delete(i) && (Commutes(t, c, cmd, lines) <==> forall k | i < k < |c| :: MovesDown(t, c, lines, k));
    DrawAllIs(t, c, lines);
    DrawAllIs(t, Exec(t, c, cmd), lines);
    Deleted(t, DrawAll(t, c, lines), i);
    Deleted(t, c, i);
    var a, b := Exec(t, DrawAll(t, c, lines), cmd), DrawAll(t, Exec(t, c, cmd), lines);
    hide Picture, Commutes;
    if Same(a, b) {
      forall k | i < k < |c| ensures MovesDown(t, c, lines, k) {
        DeletedAt(t, c, i, lines, k);
        assert Picture(a[k - 1]) == Picture(b[k - 1]);
      }
    }
    if forall k | i < k < |c| :: MovesDown(t, c, lines, k) {
      forall k | 0 <= k < |a| ensures Picture(a[k]) == Picture(b[k]) {
        DeletedAt(t, c, i, lines, k + 1);
      }
    }
  }

  lemma SwapCommutes(t: Tools, c: Canvas, cmd: Command, lines: seq<Stroke>)
    requires AllSolid(lines) && Accepts(c, cmd) && cmd.Swap?
    ensures Commutes(t, c, cmd, lines) <==> Same(Exec(t, DrawAll(t, c, lines), cmd), DrawAll(t, Exec(t, c, cmd), lines))
  {
    hide Marked;
    DrawAllIs(t, c, lines);
    DrawAllIs(t, Exec(t, c, cmd), lines);
    var i, j := cmd.index1, cmd.index2;
    var a, b := Exec(t, DrawAll(t, c, lines), cmd), DrawAll(t, Exec(t, c, cmd), lines);
    assert forall k | 0 <= k < |c| && k != i && k != j :: a[k] == b[k];
    assert Same(a, b) <==> Picture(a[i]) == Picture(b[i]) && Picture(a[j]) == Picture(b[j]);
  }

  lemma PlaceCommutes(t: Tools, c: Canvas, cmd: Command, lines: seq<Stroke>)
    requires AllSolid(lines) && Accepts(c, cmd) && (cmd.Visible? || cmd.Move?)
    ensures Same(Exec(t, DrawAll(t, c, lines), cmd), DrawAll(t, Exec(t, c, cmd), lines))
  {
    hide Marked;
    DrawAllIs(t, c, lines);
    DrawAllIs(t, Exec(t, c, cmd), lines);
    MarkedAlike(t, lines, cmd.index, c[cmd.index], Exec(t, c, cmd)[cmd.index]);
  }

  lemma LinesCommute(t: Tools, c: Canvas, cmd: Command, lines: seq<Stroke>)
    requires AllSolid(lines) && SolidCommand(cmd) && cmd.Lines?
    ensures Commutes(t, c, cmd, lines) <==> Same(Exec(t, DrawAll(t, c, lines), cmd), DrawAll(t, Exec(t, c, cmd), lines))
  {
    hide Marked;
    DrawAllIs(t, c, lines);
    DrawAllIs(t, c, cmd.strokes);
    DrawAllIs(t, DrawAll(t, c, lines), cmd.strokes);
    DrawAllIs(t, DrawAll(t, c, cmd.strokes), lines);
    var a, b := Exec(t, DrawAll(t, c, lines), cmd), DrawAll(t, Exec(t, c, cmd), lines);
    forall j | 0 <= j < |c|
      ensures Picture(a[j]) == Picture(b[j]) <==>
        Marked(t, cmd.strokes, j, Marked(t, lines, j, c[j])).pixels == Marked(t, lines, j, Marked(t, cmd.strokes, j, c[j])).pixels
    {
    }
  }

  /** The operation and the strokes can change places exactly under that condition. */
  lemma CommutesExactly(t: Tools, c: Canvas, cmd: Command, lines: seq<Stroke>)
    requires AllSolid(lines) && SolidCommand(cmd) && Accepts(c, cmd)
    ensures Commutes(t, c, cmd, lines) <==> Same(Exec(t, DrawAll(t, c, lines), cmd), DrawAll(t, Exec(t, c, cmd), lines))
  {
    hide DrawAll, Marked, Same;
    match cmd
    case AddEmpty(_, _, _, _) => AddCommutes(t, c, cmd, lines);
    case Delete(_) => DeleteCommutes(t, c, cmd, lines);
    case Swap(_, _) => SwapCommutes(t, c, cmd, lines);
    case Duplicate(_) => DuplicateCommutes(t, c, cmd, lines);
    case Lines(_) => LinesCommute(t, c, cmd, lines);
    case Other(_) =>
    case _ => PlaceCommutes(t, c, cmd, lines);
  }

  /** By numbers alone: the strokes go to layers that keep their numbers and are not copied. */
  predicate OutOfTheWay(c: Canvas, cmd: Command, lines: seq<Stroke>) {
    forall i | 0 <= i < |lines| ::
      var n := lines[i].index;
      match cmd
      case AddEmpty(_, _, _, _) => n != |c|
      case Delete(k) => n < k || n >= |c| || (n == k && k == |c| - 1)
      case Swap(k, m) => n != k && n != m
      case Visible(_) => true
      case Duplicate(k) => n != k && n != |c|
      case Move(_, _, _) => true
      case Lines(_) => false
      case Other(_) => false
  }

  lemma {:induction false} NoInk(t: Tools, strokes: seq<Stroke>, j: int, w: nat, h: nat, k: nat)
    requires forall i | 0 <= i < |strokes| :: strokes[i].index != j
    ensures LastInk(t, strokes, j, w, h, k) == None
    decreases |strokes|
  {
    if strokes == [] {
    } else {
      NoInk(t, strokes[..|strokes| - 1], j, w, h, k);
    }
  }

  lemma NotMarked(t: Tools, strokes: seq<Stroke>, j: int, l: Layer)
    requires forall i | 0 <= i < |strokes| :: strokes[i].index != j
    ensures Marked(t, strokes, j, l).pixels == l.pixels
  {
    forall k | 0 <= k < |l.pixels| ensures Marked(t, strokes, j, l).pixels[k] == l.pixels[k] {
      NoInk(t, strokes, j, l.width, l.height, k);
    }
  }

  lemma OutOfTheWayCommutes(t: Tools, c: Canvas, cmd: Command, lines: seq<Stroke>)
    requires Accepts(c, cmd) && OutOfTheWay(c, cmd, lines)
    ensures Commutes(t, c, cmd, lines)
  {
    match cmd
    case AddEmpty(x, y, w, h) =>
      NotMarked(t, lines, |c|, Layer(w, h, x, y, true, Common.Repeat(0, w * h), Common.Repeat(0, w * h)));
    case Delete(i) =>
      forall k | i < k < |c| ensures MovesDown(t, c, lines, k) {
        NotMarked(t, lines, k, c[k]);
        NotMarked(t, lines, k - 1, c[k]);
      }
    case Swap(i, j) =>
      NotMarked(t, lines, i, c[i]);
      NotMarked(t, lines, j, c[i]);
      NotMarked(t, lines, i, c[j]);
      NotMarked(t, lines, j, c[j]);
    case Duplicate(i) =>
      NotMarked(t, lines, i, c[i]);
      NotMarked(t, lines, |c|, c[i]);
    case _ =>
      assert (cmd.Lines? || cmd.Other?) ==> lines == [];
      if lines == [] { NothingCommutes(t, c, cmd); }
  }

  lemma NothingCommutes(t: Tools, c: Canvas, cmd: Command)
    requires Accepts(c, cmd)
    ensures Commutes(t, c, cmd, [])
  {
    forall j: int, l: Layer ensures Marked(t, [], j, l) == l {
      NotMarked(t, [], j, l);
    }
  }

  // ----- what the layers show

  /** Layers, log and snapshots are in step, but the first n of the pending strokes have gone from the layers. */
  ghost predicate Tracks(t: Tools, s: State, n: nat) {
    n <= |s.lines| && AllSolid(s.lines) && InSync(t, s.(lines := s.lines[n..]))
  }

  /** The log describes the layers. */
  ghost predicate Agrees(t: Tools, s: State) {
    s.cursor <= |s.commands| && Same(s.canvas, Replay(t, s.commands[..s.cursor]))
  }

  /** Undo takes all pending strokes from the layers, and lifting the pen leaves none pending. */
  function LostAfter(s: State, e: Event, n: nat): nat {
    match e
    case Undo => if s.cursor > 0 then |s.lines| else n
    case PenUp(i) => if InBounds(s.canvas, i) then 0 else n
    case _ => n
  }

  predicate SolidEvent(e: Event) {
    match e
    case Perform(cmd) => SolidCommand(cmd)
    case Pen(stroke) => Solid(stroke.color)
    case _ => true
  }

  /** What must hold before a call for the history to stay right. An operation must be able to change places with the
      strokes that the layers show, and if a snapshot is due they must leave no mark on it; after everything was undone, it
      must give the same with and without the undone commands. When the pen is lifted, drawing the line once more
      must change nothing. */
  ghost predicate Tame(t: Tools, s: State, n: nat, e: Event)
    requires s.cursor <= |s.commands| && n <= |s.lines|
  {
    SolidEvent(e) &&
    match e
    case Perform(cmd) =>
      var r, shown := Replay(t, s.commands[..s.cursor]), s.lines[n..];
      Accepts(s.canvas, cmd) && Accepts(r, cmd) ==>
        if s.cursor == 0 && s.commands != [] then Same(Exec(t, [], cmd), Exec(t, Replay(t, s.commands), cmd))
        else
          && Commutes(t, r, cmd, shown)
          && ((s.cursor + 1) % SNAPSHOT_INTERVAL == 0 ==> Unmarked(t, Exec(t, r, cmd), shown))
    case PenUp(i) => InBounds(s.canvas, i) ==> Unmarked(t, s.canvas, s.lines)
    case _ => true
  }

  // ----- one call

  lemma SnapshotsLogged(t: Tools, s: State, cmd: Command)
    requires Shape(s) && SnapshotsRight(t, s) && |s.commands| + 1 < UINT32_RANGE
    ensures var s' := Logged(s, cmd);
            Shape(s') && (SnapshotsRight(t, s') <==>
              (|s'.commands| % SNAPSHOT_INTERVAL == 0 ==> Same(s.canvas, Replay(t, s'.commands))))
  {
    var s' := Logged(s, cmd);
    assert s'.commands[..|s'.commands|] == s'.commands;
    forall k | 0 <= k < |s.snapshots| ensures SnapshotRight(t, s', k) {
      assert SnapshotRight(t, s, k);
      assert s'.commands[..SNAPSHOT_INTERVAL * (k + 1)] == s.commands[..SNAPSHOT_INTERVAL * (k + 1)];
    }
    if |s'.commands| % SNAPSHOT_INTERVAL == 0 {
      var k := |s.snapshots|;
      assert SNAPSHOT_INTERVAL * (k + 1) == |s'.commands|;
      assert SnapshotRight(t, s', k) <==> Same(Snapshot(s.canvas), Replay(t, s'.commands));
    }
  }

  /** A logged command keeps everything in step exactly if the layers show it, and the pending strokes on top, and a
      snapshot that is due shows it alone. */
  lemma LoggedExactly(t: Tools, s: State, cmd: Command)
    requires Shape(s) && SnapshotsRight(t, s) && |s.commands| + 1 < UINT32_RANGE
    requires SolidLog(s.commands) && SolidCommand(cmd) && AllSolid(s.lines)
    ensures var p := Exec(t, Replay(t, s.commands), cmd);
            InSync(t, Logged(s, cmd)) <==>
              && Same(s.canvas, DrawAll(t, p, s.lines))
              && ((|s.commands| + 1) % SNAPSHOT_INTERVAL == 0 ==> Same(s.canvas, p))
  {
    hide Exec, DrawAll, Snapshot;
    var s' := Logged(s, cmd);
    assert s'.commands[..|s'.commands| - 1] == s.commands && s'.commands[..s'.cursor] == s'.commands;
    SnapshotsLogged(t, s, cmd);
  }

  lemma NothingDrawn(t: Tools, strokes: seq<Stroke>)
    requires AllSolid(strokes)
    ensures DrawAll(t, [], strokes) == []
  {
    DrawAllIs(t, [], strokes);
  }

  /** With everything undone there are no layers. */
  lemma EmptyAtStart(t: Tools, s: State)
    requires InSync(t, s) && s.cursor == 0
    ensures s.canvas == []
  {
    assert s.commands[..0] == [];
    NothingDrawn(t, s.lines);
  }

  lemma Chained(a: Canvas, b: Canvas, d: Canvas, p: Canvas, due: bool)
    requires Same(a, b)
    ensures Same(a, d) && (due ==> Same(a, p)) <==> Same(b, d) && (due ==> Same(p, d))
  {
    hide Picture;
  }

  /** The state in which an operation records itself. */
  lemma Performing(t: Tools, s: State, cmd: Command) returns (s2: State)
    requires InSync(t, s) && (s.cursor > 0 || s.commands == []) && |s.commands| + 1 < UINT32_RANGE && Accepts(s.canvas, cmd)
    ensures Step(t, s, Perform(cmd)) == Logged(s2, cmd) && s2.commands == s.commands[..s.cursor] && s2.lines == s.lines
    ensures s2.canvas == Exec(t, s.canvas, cmd) && Shape(s2) && SnapshotsRight(t, s2) && |s2.commands| + 1 < UINT32_RANGE
    ensures SolidLog(s2.commands)
  {
    hide Exec, DrawAll, Same;
    TruncatedInSync(t, s);
    TruncatedShape(s);
    var s1 := Truncated(s);
    s2 := s1.(canvas := Exec(t, s.canvas, cmd));
    PrefixSnapshots(t, s1, s2);
  }

  lemma AcceptsAlike(c: Canvas, d: Canvas, cmd: Command)
    requires |c| == |d|
    ensures Accepts(c, cmd) <==> Accepts(d, cmd)
  {
  }

  lemma PerformInSync(t: Tools, s: State, cmd: Command)
    requires Faithful(t) && InSync(t, s) && (s.cursor > 0 || s.commands == []) && |s.commands| + 1 < UINT32_RANGE
    requires SolidCommand(cmd) && Accepts(s.canvas, cmd)
    ensures var r := Replay(t, s.commands[..s.cursor]);
            Accepts(r, cmd) && (InSync(t, Step(t, s, Perform(cmd))) <==>
              && Commutes(t, r, cmd, s.lines)
              && ((s.cursor + 1) % SNAPSHOT_INTERVAL == 0 ==> Unmarked(t, Exec(t, r, cmd), s.lines)))
  {
    hide Accepts, Commutes, Unmarked, Exec, ExecAll, DrawAll, Logged, Step, Marked, SnapshotsRight, Picture;
    var r := Replay(t, s.commands[..s.cursor]);
    DrawAllIs(t, r, s.lines);
    AcceptsAlike(s.canvas, r, cmd);
    var s2 := Performing(t, s, cmd);
    LoggedExactly(t, s2, cmd);
    var b, p := Exec(t, DrawAll(t, r, s.lines), cmd), Exec(t, r, cmd);
    ExecSame(t, s.canvas, DrawAll(t, r, s.lines), cmd);
    CommutesExactly(t, r, cmd, s.lines);
    UnmarkedExactly(t, p, s.lines);
    Chained(s2.canvas, b, DrawAll(t, p, s.lines), p, (s.cursor + 1) % SNAPSHOT_INTERVAL == 0);
  }

  /** The same after everything was undone: the undone commands stay in the log. */
  lemma PerformAtStart(t: Tools, s: State, cmd: Command)
    requires Faithful(t) && InSync(t, s) && s.cursor == 0 && s.commands != [] && |s.commands| + 1 < UINT32_RANGE
    requires SolidCommand(cmd) && Accepts(s.canvas, cmd)
    ensures s.canvas == []
    ensures InSync(t, Step(t, s, Perform(cmd))) <==> Same(Exec(t, [], cmd), Exec(t, Replay(t, s.commands), cmd))
  {
    hide Accepts, Exec, ExecAll, Logged, SnapshotsRight, Same;
    EmptyAtStart(t, s);
    TruncatedShape(s);
    var s2 := s.(canvas := Exec(t, [], cmd));
    PrefixSnapshots(t, s, s2);
    TruncatedShape(s2);
    assert Step(t, s, Perform(cmd)) == Logged(s2, cmd);
    LoggedExactly(t, s2, cmd);
  }

  /** For new layers that is so exactly if the undone commands leave no layer. */
  lemma AddAtStart(t: Tools, cmds: seq<Command>, cmd: Command)
    requires cmd.AddEmpty?
    ensures Same(Exec(t, [], cmd), Exec(t, Replay(t, cmds), cmd)) <==> Replay(t, cmds) == []
  {
    var r := Replay(t, cmds);
    assert |Exec(t, [], cmd)| == 1;
    assert |Exec(t, r, cmd)| == if |r| < MAX_LAYERS then |r| + 1 else |r|;
  }

  lemma UnmarkedSame(t: Tools, a: Canvas, b: Canvas, strokes: seq<Stroke>)
    requires Same(a, b)
    ensures Unmarked(t, a, strokes) <==> Unmarked(t, b, strokes)
  {
    hide Marked;
    forall j | 0 <= j < |a|
      ensures Marked(t, strokes, j, a[j]).pixels == a[j].pixels <==> Marked(t, strokes, j, b[j]).pixels == b[j].pixels
    {
      assert Picture(a[j]) == Picture(b[j]);
      MarkedAlike(t, strokes, j, a[j], b[j]);
    }
  }

  /** The state in which a line is logged, without its strokes. */
  lemma Finishing(t: Tools, s: State, n: nat, i: int) returns (s1: State)
    requires Tracks(t, s, n) && InBounds(s.canvas, i) && |s.commands| + 1 < UINT32_RANGE
    ensures s.cursor > 0 && s1.commands == s.commands[..s.cursor] && s1.lines == [] && Same(s1.canvas, s.canvas)
    ensures Shape(s1) && SnapshotsRight(t, s1) && SolidLog(s1.commands) && |s1.commands| + 1 < UINT32_RANGE
    ensures s1.cursor == |s1.commands|
    ensures Step(t, s, PenUp(i)) == if s.lines == [] then s1 else Logged(s1, Lines(s.lines))
  {
    hide Exec, ExecAll, DrawAll;
    var u := s.(lines := s.lines[n..]);
    if s.cursor == 0 { EmptyAtStart(t, u); }
    PreparedInSync(t, u, i);
    var v := u.(canvas := Prepared(s.canvas, i));
    TruncatedInSync(t, v);
    TruncatedShape(v);
    s1 := Truncated(v).(lines := []);
    PrefixSnapshots(t, Truncated(v), s1);
    assert Truncated(s.(canvas := Prepared(s.canvas, i))) == Truncated(v).(lines := s.lines);
  }

  lemma PenUpLines(t: Tools, s: State, n: nat, r: Canvas)
    requires Tracks(t, s, n) && r == Replay(t, s.commands[..s.cursor])
    ensures Same(s.canvas, DrawAll(t, r, s.lines)) <==> Unmarked(t, s.canvas, s.lines)
  {
    hide Marked, Unmarked, DrawAll, SnapshotsRight, Picture;
    var lost, shown := s.lines[..n], s.lines[n..];
    assert lost + shown == s.lines;
    MissingExactly(t, r, lost, shown);
    UnmarkedSame(t, s.canvas, DrawAll(t, r, shown), s.lines);
  }

  /** Lifting the pen keeps everything in step, and picture and log alike, exactly if drawing the whole line once more
      would change nothing. */
  lemma PenUpExactly(t: Tools, s: State, n: nat, i: int)
    requires Tracks(t, s, n) && InBounds(s.canvas, i) && |s.commands| + 1 < UINT32_RANGE
    ensures var s' := Step(t, s, PenUp(i));
            s'.lines == [] && (InSync(t, s') <==> Unmarked(t, s.canvas, s.lines)) &&
            (Agrees(t, s') <==> Unmarked(t, s.canvas, s.lines))
  {
    hide Marked, Unmarked, Exec, ExecAll, SnapshotsRight, Step, Picture;
    var s1 := Finishing(t, s, n, i);
    var r := Replay(t, s.commands[..s.cursor]);
    PenUpLines(t, s, n, r);
    var cs := s1.commands;
    assert cs[..|cs|] == cs;
    if s.lines != [] {
      hide DrawAll;
      LoggedExactly(t, s1, Lines(s.lines));
      LinesDrawn(t, cs, s.lines, s1.canvas);
    }
  }

  lemma LinesDrawn(t: Tools, cs: seq<Command>, lines: seq<Stroke>, p: Canvas)
    ensures Exec(t, Replay(t, cs), Lines(lines)) == DrawAll(t, Replay(t, cs), lines)
    ensures DrawAll(t, p, []) == p
    ensures Replay(t, (cs + [Lines(lines)])[..|cs| + 1]) == DrawAll(t, Replay(t, cs), lines)
  {
    hide DrawAll;
    var more := cs + [Lines(lines)];
    assert more[..|cs| + 1] == more && more[..|more| - 1] == cs;
    assert DrawAll(t, p, []) == p by { EmptyDraw(t, p); }
  }

  lemma EmptyDraw(t: Tools, p: Canvas)
    ensures DrawAll(t, p, []) == p
  {
  }

  /** Only the pen and its lifting look at the pending strokes. */
  lemma LinesKept(t: Tools, s: State, e: Event, lines: seq<Stroke>)
    requires e.Perform? || e.Refresh? || e.Undo? || e.Redo?
    ensures Step(t, s.(lines := lines), e) == Step(t, s, e).(lines := lines)
    ensures Step(t, s, e).lines == s.lines
  {
    hide Exec, ExecAll, Accepts, Prepared, Snapshot;
  }

  lemma UndoTracks(t: Tools, s: State, n: nat)
    requires Faithful(t) && Tracks(t, s, n) && s.cursor > 0
    ensures Tracks(t, Step(t, s, Undo), |s.lines|)
  {
    hide Exec, ExecAll, DrawAll, Same, Snapshot, SnapshotRight;
    var u := s.(lines := s.lines[n..]);
    var s' := Step(t, s, Undo);
    UndoneCanvas(t, u, s.cursor - 1);
    PrefixSnapshots(t, u, s'.(lines := []));
    EmptyDraw(t, Replay(t, s'.commands[..s'.cursor]));
    assert s'.lines == s.lines && s'.lines[|s.lines|..] == [];
  }

  lemma PenTracks(t: Tools, s: State, n: nat, stroke: Stroke)
    requires Tracks(t, s, n) && Solid(stroke.color) && InBounds(s.canvas, stroke.index)
    ensures Tracks(t, Step(t, s, Pen(stroke)), n)
  {
    hide Draw, ExecAll, DrawAll;
    var shown := s.lines[n..];
    var u := s.(lines := shown);
    if s.cursor == 0 { EmptyAtStart(t, u); }
    PenStepInSync(t, u, stroke);
    assert (s.lines + [stroke])[n..] == shown + [stroke];
    PenLines(t, s, shown, stroke);
  }

  lemma PenLines(t: Tools, s: State, lines: seq<Stroke>, stroke: Stroke)
    requires InBounds(s.canvas, stroke.index)
    ensures Step(t, s, Pen(stroke)).lines == s.lines + [stroke]
    ensures Step(t, s.(lines := lines), Pen(stroke)) == Step(t, s, Pen(stroke)).(lines := lines + [stroke])
  {
    hide Draw;
  }

  lemma PerformTracks(t: Tools, s: State, n: nat, cmd: Command)
    requires Faithful(t) && Tracks(t, s, n) && SolidCommand(cmd) && Accepts(s.canvas, cmd) && |s.commands| + 1 < UINT32_RANGE
    ensures Tracks(t, Step(t, s, Perform(cmd)), n) <==> Tame(t, s, n, Perform(cmd))
  {
    hide Accepts, Commutes, Unmarked, Exec, ExecAll, DrawAll, Step, SnapshotsRight, Same;
    var shown := s.lines[n..];
    var u := s.(lines := shown);
    LinesKept(t, s, Perform(cmd), shown);
    if s.cursor == 0 && s.commands != [] {
      PerformAtStart(t, u, cmd);
      assert s.commands[..0] == [] && Replay(t, []) == [] by { EmptyReplay(t); }
    } else {
      PerformInSync(t, u, cmd);
    }
  }

  lemma EmptyReplay(t: Tools)
    ensures Replay(t, []) == []
  {
  }

  /** Every call, whatever is pending: the history stays right exactly under its condition. */
  lemma StepExactly(t: Tools, s: State, n: nat, e: Event)
    requires Faithful(t) && Tracks(t, s, n) && SolidEvent(e) && |s.commands| + 1 < UINT32_RANGE
    ensures Tracks(t, Step(t, s, e), LostAfter(s, e, n)) <==> Tame(t, s, n, e)
  {
    hide Accepts, Commutes, Unmarked, Exec, ExecAll, DrawAll, Draw, SnapshotsRight, Same, Prepared, Snapshot;
    var shown := s.lines[n..];
    var u := s.(lines := shown);
    match e
    case Perform(cmd) => if Accepts(s.canvas, cmd) { PerformTracks(t, s, n, cmd); }
    case Pen(stroke) => if InBounds(s.canvas, stroke.index) { PenTracks(t, s, n, stroke); }
    case PenUp(i) =>
      if InBounds(s.canvas, i) {
        PenUpExactly(t, s, n, i);
        var s' := Step(t, s, e);
        assert s'.(lines := s'.lines[0..]) == s';
      }
    case Refresh(i) => PreparedInSync(t, u, i);
    case Undo => if s.cursor > 0 { UndoTracks(t, s, n); }
    case Redo =>
      if s.cursor < |s.commands| {
        RedoInSync(t, u);
        LinesKept(t, s, Redo, shown);
      }
  }

  // ----- whole runs

  /** How many of the pending strokes have gone from the layers. */
  function Lost(t: Tools, events: seq<Event>): nat {
    if events == [] then 0
    else
      var front := events[..|events| - 1];
      LostAfter(Run(t, front), events[|events| - 1], Lost(t, front))
  }

  ghost predicate AllTracked(t: Tools, events: seq<Event>) {
    Tracks(t, Run(t, events), Lost(t, events)) && (events == [] || AllTracked(t, events[..|events| - 1]))
  }

  ghost predicate AllTame(t: Tools, events: seq<Event>) {
    events == [] ||
    var front := events[..|events| - 1];
    var s := Run(t, front);
    AllTame(t, front) && s.cursor <= |s.commands| && Lost(t, front) <= |s.lines| &&
    Tame(t, s, Lost(t, front), events[|events| - 1])
  }

  /** Every run of opaque strokes and erasing, with undo, redo and operations at any time: after every call the layers
      show the first `cursor` commands and the pending strokes that were not lost, and snapshot k the first 5 (k + 1)
      commands, exactly if every call met its condition. */
  lemma {:induction false} RunExactly(t: Tools, events: seq<Event>)
    requires Faithful(t) && |events| < UINT32_RANGE && forall i | 0 <= i < |events| :: SolidEvent(events[i])
    ensures AllTracked(t, events) <==> AllTame(t, events)
    decreases |events|
  {
    hide Tame, Step, LostAfter;
    if events == [] {
      InitiallyTracked(t);
    } else {
      var front, e := events[..|events| - 1], events[|events| - 1];
      RunExactly(t, front);
      RunLength(t, front);
      if AllTracked(t, front) { StepExactly(t, Run(t, front), Lost(t, front), e); }
    }
  }

  lemma InitiallyTracked(t: Tools)
    ensures Tracks(t, INITIAL, 0)
  {
    assert INITIAL.commands[..0] == [] && INITIAL.lines[0..] == [];
  }

  /** With no stroke lost, the layers show all of the line. */
  lemma RunInSync(t: Tools, events: seq<Event>)
    requires Faithful(t) && |events| < UINT32_RANGE && AllTame(t, events)
    ensures Tracks(t, Run(t, events), Lost(t, events))
    ensures Lost(t, events) == 0 ==> InSync(t, Run(t, events))
  {
    hide Tame, Step, InSync;
    TameIsSolid(t, events);
    RunExactly(t, events);
    var s := Run(t, events);
    assert s.lines[0..] == s.lines;
  }

  lemma {:induction false} TameIsSolid(t: Tools, events: seq<Event>)
    requires AllTame(t, events)
    ensures forall i | 0 <= i < |events| :: SolidEvent(events[i])
    decreases |events|
  {
    hide Run, Replay, Exec, Commutes, Unmarked, Same, Accepts;
    if events == [] {
    } else {
      TameIsSolid(t, events[..|events| - 1]);
    }
  }

  // ----- undo and redo while a line is pending

  function Steps(t: Tools, s: State, es: seq<Event>): State {
    if es == [] then s else Step(t, Steps(t, s, es[..|es| - 1]), es[|es| - 1])
  }

  lemma NothingLost(t: Tools, s: State)
    requires InSync(t, s)
    ensures Tracks(t, s, 0)
  {
    assert s.lines[0..] == s.lines;
  }

  lemma {:induction false} UndoneLines(t: Tools, s: State, es: seq<Event>)
    requires Faithful(t) && InSync(t, s) && s.cursor > 0 && forall i | 0 <= i < |es| :: es[i] == Undo || es[i] == Redo
    ensures var s1 := Steps(t, s, es);
            s1.commands == s.commands && s1.lines == s.lines &&
            (if Undo in es then Tracks(t, s1, |s.lines|) else Tracks(t, s1, 0) && s1.cursor > 0)
    decreases |es|
  {
    hide Step, InSync;
    if es == [] {
      NothingLost(t, s);
    } else {
      var front, e := es[..|es| - 1], es[|es| - 1];
      UndoneLines(t, s, front);
      var s0 := Steps(t, s, front);
      var n := if Undo in front then |s.lines| else 0;
      OneUndone(t, s0, n, e);
      assert Undo in es <==> Undo in front || e == Undo;
    }
  }

  lemma OneUndone(t: Tools, s: State, n: nat, e: Event)
    requires Faithful(t) && Tracks(t, s, n) && (e == Undo || e == Redo)
    ensures var s' := Step(t, s, e);
            s'.commands == s.commands && s'.lines == s.lines && (e == Redo ==> s'.cursor >= s.cursor) &&
            Tracks(t, s', if e == Undo && s.cursor > 0 then |s.lines| else n)
  {
    hide Exec, ExecAll, DrawAll, SnapshotsRight, Same;
    if e == Undo {
      if s.cursor > 0 { UndoTracks(t, s, n); }
    } else if s.cursor < |s.commands| {
      RedoInSync(t, s.(lines := s.lines[n..]));
      LinesKept(t, s, Redo, s.lines[n..]);
    }
  }

  /** Undo and redo, in any order, before the pen is lifted: the log is right afterwards exactly if the line leaves no
      mark on the picture that is then shown. */
  lemma UndoneLineExactly(t: Tools, s: State, es: seq<Event>, i: int)
    requires Faithful(t) && InSync(t, s) && s.cursor > 0 && |s.commands| + 1 < UINT32_RANGE
    requires Undo in es && forall i | 0 <= i < |es| :: es[i] == Undo || es[i] == Redo
    requires InBounds(Steps(t, s, es).canvas, i)
    ensures var s1 := Steps(t, s, es);
            var s' := Step(t, s1, PenUp(i));
            s1.cursor <= |s.commands| && (InSync(t, s') <==> Unmarked(t, Replay(t, s.commands[..s1.cursor]), s.lines)) &&
            (Agrees(t, s') <==> Unmarked(t, Replay(t, s.commands[..s1.cursor]), s.lines))
  {
    hide Step, Unmarked, ExecAll, SnapshotsRight, Agrees;
    UndoneLines(t, s, es);
    var s1 := Steps(t, s, es);
    assert s1.lines[|s1.lines|..] == [];
    PenUpExactly(t, s1, |s.lines|, i);
    UnmarkedSame(t, s1.canvas, Replay(t, s.commands[..s1.cursor]), s.lines);
  }

  /** One undo and one redo: exactly if the line has changed no pixel. */
  lemma UndoRedoLineExactly(t: Tools, s: State, i: int)
    requires Faithful(t) && InSync(t, s) && s.lines != [] && s.cursor > 0 && |s.commands| + 1 < UINT32_RANGE
    requires InBounds(s.canvas, i)
    ensures var s' := Step(t, Step(t, Step(t, s, Undo), Redo), PenUp(i));
            Agrees(t, s') <==> Same(s.canvas, Replay(t, s.commands))
  {
    hide Unmarked, ExecAll, DrawAll, Exec, SnapshotsRight, Agrees;
    var es := [Undo, Redo];
    assert es[..1] == [Undo] && [Undo][..0] == [];
    var s0 := Step(t, s, Undo);
    assert Steps(t, s, [Undo]) == s0 by { assert Steps(t, s, []) == s; }
    assert Steps(t, s, es) == Step(t, s0, Redo);
    UndoneLines(t, s, es);
    var s1 := Step(t, s0, Redo);
    assert s1.cursor == s.cursor && s.commands[..s.cursor] == s.commands;
    assert s1.lines[|s1.lines|..] == [];
    EmptyDraw(t, Replay(t, s.commands));
    DrawAllIs(t, Replay(t, s.commands), s.lines);
    UndoneLineExactly(t, s, es, i);
    UnmarkedExactly(t, Replay(t, s.commands), s.lines);
    SameAround(s.canvas, DrawAll(t, Replay(t, s.commands), s.lines), Replay(t, s.commands));
  }

  lemma SameAround(a: Canvas, b: Canvas, c: Canvas)
    requires Same(a, b)
    ensures Same(a, c) <==> Same(c, b)
  {
    hide Picture;
  }

  // ----- operations while a line is pending

  lemma Finished(t: Tools, s: State, i: int)
    requires Shape(s) && 0 < s.cursor == |s.commands| && s.lines != [] && InBounds(s.canvas, i)
    ensures Step(t, s, PenUp(i)) == Logged(s.(canvas := Prepared(s.canvas, i), lines := []), Lines(s.lines))
  {
    assert s.commands[..|s.commands|] == s.commands && s.snapshots[..|s.snapshots|] == s.snapshots;
  }

  lemma PreparedSame(c: Canvas, i: int)
    ensures Same(c, Prepared(c, i))
  {
  }

  lemma OperatedState(t: Tools, s: State, cmd: Command, i: int)
    requires Faithful(t) && InSync(t, s) && s.lines != [] && s.cursor > 0 && |s.commands| + 1 < UINT32_RANGE
    requires SolidCommand(cmd) && Accepts(s.canvas, cmd) && InBounds(Exec(t, s.canvas, cmd), i)
    ensures var s1 := Step(t, s, Perform(cmd));
            var s' := Step(t, s1, PenUp(i));
            && s1.canvas == Exec(t, s.canvas, cmd) && s1.lines == s.lines && Shape(s1)
            && s1.commands == s.commands + [cmd] && s1.cursor == |s1.commands|
            && s1.snapshots == s.snapshots + (if |s1.commands| % SNAPSHOT_INTERVAL == 0 then [Snapshot(s1.canvas)] else [])
            && s' == Logged(s1.(canvas := Prepared(s1.canvas, i), lines := []), Lines(s.lines))
  {
    hide Exec, ExecAll, DrawAll, Same, SnapshotsRight, Snapshot, Prepared;
    assert s.commands[..s.cursor] == s.commands && s.snapshots[..|s.snapshots|] == s.snapshots;
    var s1 := Step(t, s, Perform(cmd));
    StepShape(t, s, Perform(cmd));
    Finished(t, s1, i);
  }

  /** What the layers and the log show after an operation and the end of the line. */
  lemma OperatedPictures(t: Tools, s: State, cmd: Command, i: int)
    requires Faithful(t) && InSync(t, s) && s.lines != [] && s.cursor > 0 && |s.commands| + 1 < UINT32_RANGE
    requires SolidCommand(cmd) && Accepts(s.canvas, cmd) && InBounds(Exec(t, s.canvas, cmd), i)
    ensures var s' := Step(t, Step(t, s, Perform(cmd)), PenUp(i));
            var r := Replay(t, s.commands);
            && s'.commands == s.commands + [cmd] + [Lines(s.lines)] && s'.cursor == |s'.commands|
            && Same(s'.canvas, Exec(t, DrawAll(t, r, s.lines), cmd))
            && Replay(t, s'.commands[..s'.cursor]) == DrawAll(t, Exec(t, r, cmd), s.lines)
            && Replay(t, s'.commands[..s'.cursor - 1]) == Exec(t, r, cmd)
  {
    hide Exec, DrawAll, SnapshotsRight, Snapshot, Picture, Step;
    OperatedState(t, s, cmd, i);
    var c1 := Exec(t, s.canvas, cmd);
    PreparedSame(c1, i);
    hide Prepared;
    assert s.commands[..s.cursor] == s.commands;
    ExecSame(t, s.canvas, DrawAll(t, Replay(t, s.commands), s.lines), cmd);
    var one := s.commands + [cmd];
    assert one[..|one| - 1] == s.commands;
    assert Replay(t, one) == Exec(t, Replay(t, s.commands), cmd);
    LinesDrawn(t, one, s.lines, []);
    assert (one + [Lines(s.lines)])[..|one|] == one;
  }

  /** An operation while the line is pending: when the pen is lifted, log and picture agree exactly if the operation and the
      strokes can change places. */
  lemma OperatedLineExactly(t: Tools, s: State, cmd: Command, i: int)
    requires Faithful(t) && InSync(t, s) && s.lines != [] && s.cursor > 0 && |s.commands| + 1 < UINT32_RANGE
    requires SolidCommand(cmd) && Accepts(s.canvas, cmd) && InBounds(Exec(t, s.canvas, cmd), i)
    ensures var r := Replay(t, s.commands);
            Accepts(r, cmd) && (Agrees(t, Step(t, Step(t, s, Perform(cmd)), PenUp(i))) <==> Commutes(t, r, cmd, s.lines))
  {
    hide Accepts, Commutes, Exec, ExecAll, DrawAll, Step, SnapshotsRight, Picture;
    var r := Replay(t, s.commands);
    assert s.commands[..s.cursor] == s.commands;
    DrawAllIs(t, r, s.lines);
    AcceptsAlike(s.canvas, r, cmd);
    OperatedPictures(t, s, cmd, i);
    CommutesExactly(t, r, cmd, s.lines);
  }

  /** The snapshot that is due shows the pending line, so the line can then not be undone, unless it leaves no mark. */
  lemma SnapshotLineExactly(t: Tools, s: State, cmd: Command, i: int)
    requires Faithful(t) && InSync(t, s) && s.lines != [] && s.cursor > 0 && |s.commands| + 2 < UINT32_RANGE
    requires SolidCommand(cmd) && Accepts(s.canvas, cmd) && InBounds(Exec(t, s.canvas, cmd), i)
    requires (|s.commands| + 1) % SNAPSHOT_INTERVAL == 0
    requires Accepts(Replay(t, s.commands), cmd) && Commutes(t, Replay(t, s.commands), cmd, s.lines)
    ensures var s' := Step(t, Step(t, Step(t, s, Perform(cmd)), PenUp(i)), Undo);
            Agrees(t, s') <==> Unmarked(t, Exec(t, Replay(t, s.commands), cmd), s.lines)
  {
    hide Accepts, Commutes, Unmarked, Exec, DrawAll, SnapshotsRight, Picture, Step;
    var r := Replay(t, s.commands);
    var p := Exec(t, r, cmd);
    CommutesExactly(t, r, cmd, s.lines);
    OperatedState(t, s, cmd, i);
    OperatedPictures(t, s, cmd, i);
    UnmarkedExactly(t, p, s.lines);
    var s1 := Step(t, s, Perform(cmd));
    var s3 := Step(t, s1, PenUp(i));
    ExecSame(t, s.canvas, DrawAll(t, r, s.lines), cmd) by { assert s.commands[..s.cursor] == s.commands; }
    UndoToSnapshot(t, s1, s3);
    assert s3.commands[..s3.cursor - 1] == s1.commands;
    var s4 := Step(t, s3, Undo);
    assert Agrees(t, s4) <==> Same(s4.canvas, p);
    assert Same(s1.canvas, DrawAll(t, p, s.lines));
    SameAround(s4.canvas, s1.canvas, p);
    SameAround(s1.canvas, DrawAll(t, p, s.lines), p);
  }

  lemma UndoToSnapshot(t: Tools, s1: State, s3: State)
    requires Shape(s1) && s1.cursor == |s1.commands| > 0 && |s1.commands| % SNAPSHOT_INTERVAL == 0
    requires s1.snapshots != [] && s1.snapshots[|s1.snapshots| - 1] == Snapshot(s1.canvas) && |s1.commands| + 1 < UINT32_RANGE
    requires exists c: Canvas, line: Command :: s3 == Logged(s1.(canvas := c, lines := []), line)
    ensures var s' := Step(t, s3, Undo);
            s'.cursor == |s1.commands| <= |s'.commands| && s'.commands[..s'.cursor] == s1.commands && Same(s'.canvas, s1.canvas)
  {
    var c: Canvas, line: Command :| s3 == Logged(s1.(canvas := c, lines := []), line);
    var k := s1.cursor / SNAPSHOT_INTERVAL;
    assert Shape(s3) && s3.snapshots == s1.snapshots && |s1.snapshots| == k && SNAPSHOT_INTERVAL * k == s1.cursor;
    assert s3.commands[SNAPSHOT_INTERVAL * k..s1.cursor] == [];
    assert ExecAll(t, Base(s3, k), []) == Base(s3, k);
  }

  // ----- where it goes wrong

  lemma UndoRedoPending(t: Tools, black: Stroke)
    requires HitsDot(t, black)
    ensures var s := State([ADD_DOT], 1, [black], [], Dot(Ink(0, black.color), 0));
            Step(t, Step(t, s, Undo), Redo) == s.(canvas := Dot(0, 0))
  {
    hide Ink, Draw, Exec, Dot;
    var s := State([ADD_DOT], 1, [black], [], Dot(Ink(0, black.color), 0));
    assert s.commands[0..0] == [];
    assert Step(t, s, Undo) == s.(cursor := 0, canvas := []);
    AddDot(t);
  }

  lemma FinishPending(t: Tools, black: Stroke)
    ensures Step(t, State([ADD_DOT], 1, [black], [], Dot(0, 0)), PenUp(0)) ==
            State([ADD_DOT, Lines([black])], 2, [], [], Dot(0, 0))
  {
    assert Prepared(Dot(0, 0), 0) == Dot(0, 0);
    assert [ADD_DOT][..1] == [ADD_DOT] && [ADD_DOT] + [Lines([black])] == [ADD_DOT, Lines([black])];
  }

  lemma DrawPending(t: Tools, black: Stroke)
    requires HitsDot(t, black)
    ensures Step(t, State([ADD_DOT], 1, [], [], Dot(0, 0)), Pen(black)) ==
            State([ADD_DOT], 1, [black], [], Dot(Ink(0, black.color), 0))
  {
    hide Ink, Draw;
    DrawDot(t, 0, 0, black);
    assert [ADD_DOT][..1] == [ADD_DOT];
  }

  /** Undo and redo before the pen is lifted: the line is gone from the layer and still comes into the log. */
  lemma PendingLineLogged(t: Tools, black: Stroke)
    requires HitsDot(t, black) && black.color == BLACK
    ensures var s := Run(t, [Perform(ADD_DOT), Pen(black), Undo, Redo, PenUp(0)]);
            !Agrees(t, s)
  {
    hide Ink, Step, Run, HitsDot;
    DotAdded(t);
    DrawPending(t, black);
    RunTwo(t, [Perform(ADD_DOT)], Pen(black), Undo);
    UndoRedoPending(t, black);
    RunTwo(t, [Perform(ADD_DOT)] + [Pen(black), Undo], Redo, PenUp(0));
    FinishPending(t, black);
    assert [Perform(ADD_DOT), Pen(black), Undo, Redo, PenUp(0)] == [Perform(ADD_DOT)] + [Pen(black), Undo] + [Redo, PenUp(0)];
    ReplayLines(t, black, black);
    BlackOverNothing(BLACK);
    assert [ADD_DOT, Lines([black])][..2] == [ADD_DOT, Lines([black])];
    assert Picture(Dot(0, 0)[0]) != Picture(Dot(BLACK, 0)[0]);
  }

  /** One black stroke that leaves its mark on a canvas of one pixel. */
  lemma DotMarked(t: Tools, black: Stroke)
    requires HitsDot(t, black) && black.color == BLACK
    ensures !Unmarked(t, Dot(0, 0), [black]) && Marked(t, [black], 0, Dot(0, 0)[0]).pixels == [BLACK]
    ensures Marked(t, [black], 1, Dot(0, 0)[0]).pixels == [0]
  {
    var l := Dot(0, 0)[0];
    assert LastInk(t, [black], 0, 1, 1, 0) == Some(BLACK);
    assert LastInk(t, [black][..0], 1, 1, 1, 0) == None;
    assert Marked(t, [black], 0, l).pixels == [BLACK];
    assert Marked(t, [black], 1, l).pixels == [0];
  }

  /** The state with that stroke pending, after commands that leave an empty pixel. */
  lemma DotPending(t: Tools, cmds: seq<Command>, black: Stroke)
    requires HitsDot(t, black) && black.color == BLACK && 0 < |cmds| < SNAPSHOT_INTERVAL && SolidLog(cmds)
    requires Replay(t, cmds) == Dot(0, 0)
    ensures InSync(t, State(cmds, |cmds|, [black], [], Dot(BLACK, 0)))
  {
    hide Draw, Dot, ExecAll;
    DrawDot(t, 0, 0, black);
    BlackOverNothing(BLACK);
    assert cmds[..|cmds|] == cmds && [black][..0] == [];
    assert Alpha(BLACK) == 255;
    assert DrawAll(t, Dot(0, 0), [black]) == Dot(BLACK, 0) by { EmptyDraw(t, Dot(0, 0)); }
  }

  lemma DotLogged(t: Tools)
    ensures Replay(t, [ADD_DOT]) == Dot(0, 0)
  {
    hide Exec, Dot;
    AddDot(t);
    assert [ADD_DOT][..0] == [] && ExecAll(t, [], []) == [];
  }

  /** A layer duplicated before the pen is lifted: its copy has the line, and in the log it has not. */
  lemma PendingDuplicated(t: Tools, black: Stroke)
    requires Faithful(t) && HitsDot(t, black) && black.color == BLACK
    ensures !Agrees(t, Run(t, [Perform(ADD_DOT), Pen(black), Perform(Duplicate(0)), PenUp(0)]))
  {
    hide Ink, Run, Step, InSync, Agrees, HitsDot, Marked;
    var s := State([ADD_DOT], 1, [black], [], Dot(BLACK, 0));
    DotAdded(t);
    DrawPending(t, black);
    BlackOverNothing(BLACK);
    RunSnoc(t, [Perform(ADD_DOT)], Pen(black));
    assert [Perform(ADD_DOT)] + [Pen(black)] == [Perform(ADD_DOT), Pen(black)];
    RunTwo(t, [Perform(ADD_DOT), Pen(black)], Perform(Duplicate(0)), PenUp(0));
    assert [Perform(ADD_DOT), Pen(black)] + [Perform(Duplicate(0)), PenUp(0)] ==
           [Perform(ADD_DOT), Pen(black), Perform(Duplicate(0)), PenUp(0)];
    DotLogged(t);
    DotPending(t, [ADD_DOT], black);
    DotMarked(t, black);
    OperatedLineExactly(t, s, Duplicate(0), 0);
  }

  const STAY := Move(0, 0, 0)
  const FOUR := [ADD_DOT, STAY, STAY, STAY]

  lemma Stays(t: Tools, pixel: nat)
    ensures Exec(t, Dot(pixel, 0), STAY) == Dot(pixel, 0)
  {
  }

  lemma FourLogged(t: Tools)
    ensures Replay(t, FOUR) == Dot(0, 0)
  {
    hide Exec, Dot;
    DotLogged(t);
    Stays(t, 0);
    assert FOUR[..3] == [ADD_DOT, STAY, STAY] && [ADD_DOT, STAY, STAY][..2] == [ADD_DOT, STAY];
    assert [ADD_DOT, STAY][..1] == [ADD_DOT];
    assert Replay(t, [ADD_DOT, STAY]) == Dot(0, 0);
    assert Replay(t, [ADD_DOT, STAY, STAY]) == Dot(0, 0);
  }

  lemma Stayed(t: Tools, cmds: seq<Command>)
    requires 0 < |cmds| < 4
    ensures Step(t, State(cmds, |cmds|, [], [], Dot(0, 0)), Perform(STAY)) == State(cmds + [STAY], |cmds| + 1, [], [], Dot(0, 0))
  {
    hide Exec;
    Stays(t, 0);
    assert Accepts(Dot(0, 0), STAY) && cmds[..|cmds|] == cmds;
  }

  const FIRST_FOUR := [Perform(ADD_DOT), Perform(STAY), Perform(STAY), Perform(STAY)]

  lemma FourPerformed(t: Tools)
    ensures Run(t, FIRST_FOUR) == State(FOUR, 4, [], [], Dot(0, 0))
  {
    hide Step, Dot, Run;
    DotAdded(t);
    Stayed(t, [ADD_DOT]);
    Stayed(t, [ADD_DOT, STAY]);
    RunTwo(t, [Perform(ADD_DOT)], Perform(STAY), Perform(STAY));
    assert [ADD_DOT] + [STAY] == [ADD_DOT, STAY] && [ADD_DOT, STAY] + [STAY] == [ADD_DOT, STAY, STAY];
    Stayed(t, [ADD_DOT, STAY, STAY]);
    RunSnoc(t, [Perform(ADD_DOT)] + [Perform(STAY), Perform(STAY)], Perform(STAY));
    assert [Perform(ADD_DOT)] + [Perform(STAY), Perform(STAY)] + [Perform(STAY)] == FIRST_FOUR;
    assert [ADD_DOT, STAY, STAY] + [STAY] == FOUR;
  }

  lemma FourthPending(t: Tools, black: Stroke)
    requires HitsDot(t, black) && black.color == BLACK
    ensures Step(t, State(FOUR, 4, [], [], Dot(0, 0)), Pen(black)) == State(FOUR, 4, [black], [], Dot(BLACK, 0))
  {
    hide Ink, Draw;
    DrawDot(t, 0, 0, black);
    BlackOverNothing(BLACK);
    assert FOUR[..4] == FOUR;
  }

  /** The fifth command, recorded before the pen is lifted, takes its snapshot with the line: undo does not remove it. */
  lemma PendingInSnapshot(t: Tools, black: Stroke)
    requires Faithful(t) && HitsDot(t, black) && black.color == BLACK
    ensures !Agrees(t, Run(t, FIRST_FOUR + [Pen(black)] + [Perform(STAY), PenUp(0)] + [Undo]))
  {
    hide Ink, Run, Step, InSync, Agrees, HitsDot, Marked, Unmarked, ExecAll;
    var s := State(FOUR, 4, [black], [], Dot(BLACK, 0));
    FourPerformed(t);
    FourthPending(t, black);
    RunSnoc(t, FIRST_FOUR, Pen(black));
    RunTwo(t, FIRST_FOUR + [Pen(black)], Perform(STAY), PenUp(0));
    RunSnoc(t, FIRST_FOUR + [Pen(black)] + [Perform(STAY), PenUp(0)], Undo);
    FourLogged(t);
    DotPending(t, FOUR, black);
    DotMarked(t, black);
    Stays(t, 0);
    Stays(t, BLACK);
    SnapshotLineExactly(t, s, STAY, 0);
  }
}
