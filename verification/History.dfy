/** The undo history of the picture editor: a command log, a cursor into it, and a snapshot after every fifth command.
    What matters is that a snapshot and a partial replay give the same picture as replaying the whole log. */
module History {
  import opened Blending
  import Common

  const SNAPSHOT_INTERVAL := 5
  const MAX_LAYERS := 18
  const UINT32_RANGE := 0x1_0000_0000

  /** The base is the second buffer of a layer: the pixels that a pen stroke is blended with. */
  datatype Layer = Layer(width: nat, height: nat, posX: int, posY: int, visible: bool, pixels: seq<nat>, base: seq<nat>)

  type Canvas = seq<Layer>

  /** A line segment of the pen. */
  datatype Stroke = Stroke(index: int, x1: int, y1: int, x2: int, y2: int, color: nat, thickness: int)

  datatype Command =
    | AddEmpty(posX: int, posY: int, width: nat, height: nat)
    | Delete(index: int)
    | Swap(index1: int, index2: int)
    | Visible(index: int)
    | Duplicate(index: int)
    | Move(index: int, posX: int, posY: int)
    | Lines(strokes: seq<Stroke>)
    | Other(text: string)

  /** Which pixels of a layer of the given size a stroke touches, and the pixel operations other than the pen. */
  datatype Tools = Tools(touch: (Stroke, nat, nat) -> set<nat>, other: (Canvas, string) -> Canvas)

  // ----- the pen

  /** What a stroke that touches pixel k finds below it. A base that is too short, left over from an operation that
      replaced the pixels, is taken to go on with zeros. */
  function Below(l: Layer, k: nat): nat {
    if k < |l.base| then l.base[k] else 0
  }

  function InkedPixel(t: Tools, l: Layer, stroke: Stroke, k: nat): nat
    requires k < |l.pixels|
  {
    if k in t.touch(stroke, l.width, l.height) then Ink(Below(l, k), stroke.color) else l.pixels[k]
  }

  /** The stroke on one layer. */
  function Inked(t: Tools, l: Layer, stroke: Stroke): Layer {
    l.(pixels := seq(|l.pixels|, k requires 0 <= k < |l.pixels| => InkedPixel(t, l, stroke, k)))
  }

  function Draw(t: Tools, c: Canvas, stroke: Stroke): Canvas {
    if InBounds(c, stroke.index) then c[stroke.index := Inked(t, c[stroke.index], stroke)] else c
  }

  /** The base of layer i becomes a copy of its pixels. */
  function Prepared(c: Canvas, i: int): Canvas {
    if InBounds(c, i) then c[i := c[i].(base := c[i].pixels)] else c
  }

  // ----- what commands do to the layers

  predicate InBounds(c: Canvas, i: int) {
    0 <= i < |c|
  }

  function DrawAll(t: Tools, c: Canvas, strokes: seq<Stroke>): Canvas {
    if strokes == [] then c else Draw(t, DrawAll(t, c, strokes[..|strokes| - 1]), strokes[|strokes| - 1])
  }

  /** What an operation checks before it acts. */
  predicate Accepts(c: Canvas, cmd: Command) {
    match cmd
    case AddEmpty(_, _, _, _) => |c| < MAX_LAYERS
    case Delete(i) => InBounds(c, i)
    case Swap(i, j) => InBounds(c, i) && InBounds(c, j) && i != j
    case Visible(i) => InBounds(c, i)
    case Duplicate(i) => |c| < MAX_LAYERS && InBounds(c, i)
    case Move(i, _, _) => InBounds(c, i)
    case Lines(_) => true
    case Other(_) => true
  }

  function Exec(t: Tools, c: Canvas, cmd: Command): Canvas {
    if !Accepts(c, cmd) then c
    else
      match cmd
      case AddEmpty(x, y, w, h) => c + [Layer(w, h, x, y, true, Common.Repeat(0, w * h), Common.Repeat(0, w * h))]
      case Delete(i) => c[..i] + c[i + 1..]
      case Swap(i, j) => c[i := c[j]][j := c[i]]
      case Visible(i) => c[i := c[i].(visible := !c[i].visible)]
      case Duplicate(i) => c + [c[i].(visible := true, base := c[i].pixels)]
      case Move(i, x, y) => c[i := c[i].(posX := x, posY := y)]
      case Lines(strokes) => DrawAll(t, c, strokes)
      case Other(text) => t.other(c, text)
  }

  /** What a layer operation does, field by field: from layers a to layers b. */
  ghost predicate Effect(cmd: Command, a: Canvas, b: Canvas) {
    match cmd
    case AddEmpty(x, y, w, h) =>
      if |a| < 18 then
        && |b| == |a| + 1 && (forall k | 0 <= k < |a| :: b[k] == a[k])
        && var l := b[|a|];
           l.width == w && l.height == h && l.posX == x && l.posY == y && l.visible && |l.pixels| == |l.base| == w * h &&
           forall k | 0 <= k < w * h :: l.pixels[k] == 0 && l.base[k] == 0
      else b == a
    case Delete(i) =>
      if 0 <= i < |a| then
        && |b| == |a| - 1 && (forall k | 0 <= k < i :: b[k] == a[k])
        && (forall k, m | i < k < |a| && m == k - 1 :: b[m] == a[k])
      else b == a
    case Swap(i, j) =>
      if 0 <= i < |a| && 0 <= j < |a| && i != j then
        |b| == |a| && b[i] == a[j] && b[j] == a[i] && forall k | 0 <= k < |a| && k != i && k != j :: b[k] == a[k]
      else b == a
    case Visible(i) =>
      if 0 <= i < |a| then
        && OthersKept(a, b, i) && b[i].visible == !a[i].visible && b[i].posX == a[i].posX && b[i].posY == a[i].posY
        && b[i].width == a[i].width && b[i].height == a[i].height && b[i].pixels == a[i].pixels && b[i].base == a[i].base
      else b == a
    case Duplicate(i) =>
      if |a| < 18 && 0 <= i < |a| then
        && |b| == |a| + 1 && (forall k | 0 <= k < |a| :: b[k] == a[k])
        && var l := b[|a|];
           l.width == a[i].width && l.height == a[i].height && l.posX == a[i].posX && l.posY == a[i].posY && l.visible &&
           l.pixels == a[i].pixels && l.base == a[i].pixels
      else b == a
    case Move(i, x, y) =>
      if 0 <= i < |a| then
        && OthersKept(a, b, i) && b[i].posX == x && b[i].posY == y && b[i].visible == a[i].visible
        && b[i].width == a[i].width && b[i].height == a[i].height && b[i].pixels == a[i].pixels && b[i].base == a[i].base
      else b == a
    case Lines(_) => true
    case Other(_) => true
  }

  ghost predicate OthersKept(a: Canvas, b: Canvas, i: int) {
    |b| == |a| && forall k | 0 <= k < |a| && k != i :: b[k] == a[k]
  }

  lemma ExecEffect(t: Tools, c: Canvas, cmd: Command)
    ensures Effect(cmd, c, Exec(t, c, cmd))
  {
  }

  /** The fields leave no choice. */
  lemma EffectUnique(cmd: Command, a: Canvas, b: Canvas, b': Canvas)
    requires Effect(cmd, a, b) && Effect(cmd, a, b') && !cmd.Lines? && !cmd.Other?
    ensures b == b'
  {
    assert |b| == |b'|;
    forall k | 0 <= k < |b| ensures b[k] == b'[k] {
      match cmd
      case AddEmpty(x, y, w, h) =>
        if |a| < 18 && k == |a| { assert b[k].pixels == b'[k].pixels && b[k].base == b'[k].base; }
      case Delete(i) => if 0 <= i <= k { assert k + 1 < |a| ==> b[k] == a[k + 1] && b'[k] == a[k + 1]; }
      case _ =>
    }
  }

  function ExecAll(t: Tools, c: Canvas, cmds: seq<Command>): Canvas {
    if cmds == [] then c else Exec(t, ExecAll(t, c, cmds[..|cmds| - 1]), cmds[|cmds| - 1])
  }

  /** The picture that a log describes. */
  function Replay(t: Tools, cmds: seq<Command>): Canvas {
    ExecAll(t, [], cmds)
  }

  // ----- pictures up to visibility and blending bases

  /** A snapshot: every layer copied, and every copy visible, with its pixels as its base. */
  function Snapshot(c: Canvas): (s: Canvas)
    ensures |s| == |c| && forall i | 0 <= i < |c| :: s[i] == c[i].(visible := true, base := c[i].pixels)
  {
    seq(|c|, i requires 0 <= i < |c| => c[i].(visible := true, base := c[i].pixels))
  }

  /** A layer without what a snapshot does not keep. */
  function Picture(l: Layer): Layer { l.(visible := true, base := []) }

  /** The same layers, whichever of them are shown and whatever their bases are. */
  ghost predicate Same(a: Canvas, b: Canvas) {
    |a| == |b| && forall i | 0 <= i < |a| :: Picture(a[i]) == Picture(b[i])
  }

  /** Pixel operations other than the pen look neither at visibility nor at the bases. */
  ghost predicate Faithful(t: Tools) {
    forall a, b, x {:trigger t.other(a, x), t.other(b, x)} :: Same(a, b) ==> Same(t.other(a, x), t.other(b, x))
  }

  predicate AllSolid(strokes: seq<Stroke>) {
    forall i | 0 <= i < |strokes| :: Solid(strokes[i].color)
  }

  predicate SolidCommand(cmd: Command) { cmd.Lines? ==> AllSolid(cmd.strokes) }

  predicate SolidLog(cmds: seq<Command>) {
    forall i | 0 <= i < |cmds| :: SolidCommand(cmds[i])
  }

  /** The stroke leaves the same ink on both layers, at every pixel it touches. */
  predicate SameInk(t: Tools, l: Layer, m: Layer, stroke: Stroke) {
    forall k | 0 <= k < |l.pixels| && k in t.touch(stroke, l.width, l.height) ::
      Ink(Below(l, k), stroke.color) == Ink(Below(m, k), stroke.color)
  }

  lemma InkedSameExactly(t: Tools, l: Layer, m: Layer, stroke: Stroke)
    requires Picture(l) == Picture(m)
    ensures Picture(Inked(t, l, stroke)) == Picture(Inked(t, m, stroke)) <==> SameInk(t, l, m, stroke)
  {
    hide Ink, Below;
    var x, y := Inked(t, l, stroke).pixels, Inked(t, m, stroke).pixels;
    assert l.pixels == m.pixels && l.width == m.width && l.height == m.height;
    if x == y {
      forall k | 0 <= k < |l.pixels| && k in t.touch(stroke, l.width, l.height)
        ensures Ink(Below(l, k), stroke.color) == Ink(Below(m, k), stroke.color)
      {
        assert x[k] == y[k];
      }
    }
    if SameInk(t, l, m, stroke) {
      assert forall k | 0 <= k < |x| :: x[k] == y[k];
    }
  }

  /** On equal pictures a stroke leaves equal pictures exactly if it leaves the same ink on both. */
  lemma DrawSameExactly(t: Tools, a: Canvas, b: Canvas, stroke: Stroke)
    requires Same(a, b)
    ensures Same(Draw(t, a, stroke), Draw(t, b, stroke)) <==>
      (InBounds(a, stroke.index) ==> SameInk(t, a[stroke.index], b[stroke.index], stroke))
  {
    hide SameInk, Inked, Picture;
    var i := stroke.index;
    if InBounds(a, i) {
      assert Picture(a[i]) == Picture(b[i]);
      InkedSameExactly(t, a[i], b[i], stroke);
      var c, d := Draw(t, a, stroke), Draw(t, b, stroke);
      assert c[i] == Inked(t, a[i], stroke) && d[i] == Inked(t, b[i], stroke);
      assert forall j | 0 <= j < |c| && j != i :: Picture(c[j]) == Picture(a[j]) == Picture(b[j]) == Picture(d[j]);
    }
  }

  lemma {:induction false} DrawAllSame(t: Tools, a: Canvas, b: Canvas, strokes: seq<Stroke>)
    requires Same(a, b) && AllSolid(strokes)
    ensures Same(DrawAll(t, a, strokes), DrawAll(t, b, strokes))
    decreases |strokes|
  {
    if strokes == [] {
    } else {
      var front, last := strokes[..|strokes| - 1], strokes[|strokes| - 1];
      DrawAllSame(t, a, b, front);
      SolidSame(t, DrawAll(t, a, front), DrawAll(t, b, front), last);
    }
  }

  lemma SolidSame(t: Tools, a: Canvas, b: Canvas, stroke: Stroke)
    requires Same(a, b) && Solid(stroke.color)
    ensures Same(Draw(t, a, stroke), Draw(t, b, stroke))
  {
    DrawSameExactly(t, a, b, stroke);
    SolidExactly(stroke.color);
  }

  /** No command without translucent strokes depends on which layers are shown or on their bases. */
  lemma ExecSame(t: Tools, a: Canvas, b: Canvas, cmd: Command)
    requires Faithful(t) && Same(a, b) && SolidCommand(cmd)
    ensures Same(Exec(t, a, cmd), Exec(t, b, cmd))
  {
    match cmd
    case Lines(strokes) => DrawAllSame(t, a, b, strokes);
    case _ =>
  }

  lemma {:induction false} ExecAllSame(t: Tools, a: Canvas, b: Canvas, cmds: seq<Command>)
    requires Faithful(t) && Same(a, b) && SolidLog(cmds)
    ensures Same(ExecAll(t, a, cmds), ExecAll(t, b, cmds))
    decreases |cmds|
  {
    if cmds == [] {
    } else {
      var front, last := cmds[..|cmds| - 1], cmds[|cmds| - 1];
      ExecAllSame(t, a, b, front);
      ExecSame(t, ExecAll(t, a, front), ExecAll(t, b, front), last);
    }
  }

  lemma {:induction false} ExecAllSplit(t: Tools, c: Canvas, xs: seq<Command>, ys: seq<Command>)
    ensures ExecAll(t, c, xs + ys) == ExecAll(t, ExecAll(t, c, xs), ys)
    decreases |ys|
  {
    if ys == [] {
      assert xs + ys == xs;
    } else {
      assert (xs + ys)[..|xs + ys| - 1] == xs + ys[..|ys| - 1];
      ExecAllSplit(t, c, xs, ys[..|ys| - 1]);
    }
  }

  // ----- the history as a value

  datatype State = State(commands: seq<Command>, cursor: nat, lines: seq<Stroke>, snapshots: seq<Canvas>, canvas: Canvas)

  const INITIAL := State([], 0, [], [], [])

  function Min(a: nat, b: nat): nat { if a < b then a else b }

  /** Forgets what was undone. The source compares with `currentCommand - 1` in 32 bits, so at cursor 0 nothing is forgotten. */
  function Truncated(s: State): State {
    if |s.commands| > (s.cursor + UINT32_RANGE - 1) % UINT32_RANGE
    then s.(commands := s.commands[..Min(s.cursor, |s.commands|)],
            snapshots := s.snapshots[..Min(|s.snapshots|, s.cursor / SNAPSHOT_INTERVAL)])
    else s
  }

  /** A new log entry, with a snapshot after every fifth. */
  function Logged(s: State, cmd: Command): State {
    var cs := s.commands + [cmd];
    s.(commands := cs, cursor := |cs|,
       snapshots := if |cs| % SNAPSHOT_INTERVAL == 0 then s.snapshots + [Snapshot(s.canvas)] else s.snapshots)
  }

  datatype Event =
    | Perform(cmd: Command)   // a layer operation, which records itself after it has acted, unless it refuses
    | Pen(stroke: Stroke)     // one segment of a line
    | PenUp(index: int)       // prepareNextDrawing: the segments become one command
    | Refresh(index: int)     // prepareNextDrawing without history, when a tool or a layer is chosen
    | Undo
    | Redo

  function Step(t: Tools, s: State, e: Event): State {
    match e
    case Perform(cmd) =>
      if Accepts(s.canvas, cmd) then Logged(Truncated(s.(canvas := Exec(t, s.canvas, cmd))), cmd) else s
    case Pen(stroke) =>
      if !InBounds(s.canvas, stroke.index) then s
      else
        var s1 := Truncated(s.(canvas := Draw(t, s.canvas, stroke)));
        s1.(lines := s1.lines + [stroke])
    case PenUp(i) =>
      if !InBounds(s.canvas, i) then s
      else
        var s1 := Truncated(s.(canvas := Prepared(s.canvas, i)));
        if s1.lines == [] then s1 else Logged(s1, Lines(s1.lines)).(lines := [])
    case Refresh(i) => s.(canvas := Prepared(s.canvas, i))
    case Undo => Undone(t, s)
    case Redo =>
      if s.cursor < |s.commands| then s.(canvas := Exec(t, s.canvas, s.commands[s.cursor]), cursor := s.cursor + 1) else s
  }

  /** The last snapshot at or before the command before the cursor, and the commands since. */
  function Undone(t: Tools, s: State): State {
    if s.cursor == 0 || !Shape(s) then s
    else
      var c := s.cursor - 1;
      var k := c / SNAPSHOT_INTERVAL;
      SnapshotThere(|s.commands|, c);
      s.(cursor := c, canvas := ExecAll(t, Base(s, k), s.commands[SNAPSHOT_INTERVAL * k..c]))
  }

  /** Where the replay starts: nothing, or the k-th snapshot. */
  function Base(s: State, k: nat): Canvas
    requires k <= |s.snapshots|
  {
    if k == 0 then [] else Snapshot(s.snapshots[k - 1])
  }

  lemma SnapshotThere(n: nat, c: nat)
    requires c <= n
    ensures c / SNAPSHOT_INTERVAL <= n / SNAPSHOT_INTERVAL && SNAPSHOT_INTERVAL * (c / SNAPSHOT_INTERVAL) <= c
  {
  }

  // ----- invariants

  /** The cursor points into the log and there is a snapshot for every five commands: no list is read out of bounds. */
  predicate Shape(s: State) {
    s.cursor <= |s.commands| < UINT32_RANGE && |s.snapshots| == |s.commands| / SNAPSHOT_INTERVAL
  }

  /** Snapshot k is the picture after 5 (k + 1) commands. */
  ghost predicate SnapshotsRight(t: Tools, s: State)
    requires Shape(s)
  {
    forall k | 0 <= k < |s.snapshots| :: SnapshotRight(t, s, k)
  }

  ghost predicate SnapshotRight(t: Tools, s: State, k: nat)
    requires Shape(s) && k < |s.snapshots|
  {
    Same(s.snapshots[k], Replay(t, s.commands[..SNAPSHOT_INTERVAL * (k + 1)]))
  }

  /** The layers show the first `cursor` commands, and the unfinished line on top. */
  ghost predicate InSync(t: Tools, s: State) {
    && Shape(s) && SnapshotsRight(t, s)
    && Same(s.canvas, DrawAll(t, Replay(t, s.commands[..s.cursor]), s.lines))
    && (s.lines != [] ==> s.cursor == |s.commands|)
    && SolidLog(s.commands) && AllSolid(s.lines)
  }

  function Run(t: Tools, events: seq<Event>): State {
    if events == [] then INITIAL else Step(t, Run(t, events[..|events| - 1]), events[|events| - 1])
  }

  // ----- every step keeps them

  lemma TruncatedShape(s: State)
    requires Shape(s)
    ensures Shape(Truncated(s)) && Truncated(s).cursor == s.cursor
    ensures s.cursor > 0 ==> Truncated(s).commands == s.commands[..s.cursor]
    ensures s.cursor == 0 ==> Truncated(s) == s
  {
  }

  /** Every run keeps the shape as long as the log fits 32 bits. */
  lemma StepShape(t: Tools, s: State, e: Event)
    requires Shape(s) && |s.commands| + 1 < UINT32_RANGE
    ensures Shape(Step(t, s, e))
  {
    match e
    case Perform(cmd) => TruncatedShape(s.(canvas := Exec(t, s.canvas, cmd)));
    case Pen(stroke) => TruncatedShape(s.(canvas := Draw(t, s.canvas, stroke)));
    case PenUp(i) => TruncatedShape(s.(canvas := Prepared(s.canvas, i)));
    case _ =>
  }

  lemma PrefixSnapshots(t: Tools, s: State, s': State)
    requires Shape(s) && Shape(s') && SnapshotsRight(t, s) && |s'.snapshots| <= |s.snapshots|
    requires s'.snapshots == s.snapshots[..|s'.snapshots|] && s'.commands <= s.commands
    ensures SnapshotsRight(t, s')
  {
    forall k | 0 <= k < |s'.snapshots| ensures SnapshotRight(t, s', k) {
      assert SnapshotRight(t, s, k);
      assert s'.commands[..SNAPSHOT_INTERVAL * (k + 1)] == s.commands[..SNAPSHOT_INTERVAL * (k + 1)];
    }
  }

  /** Forgetting undone commands forgets exactly the snapshots that came after the cursor. */
  lemma TruncatedInSync(t: Tools, s: State)
    requires InSync(t, s) && (s.cursor > 0 || s.commands == [])
    ensures InSync(t, Truncated(s)) && Truncated(s).cursor == |Truncated(s).commands|
    ensures Truncated(s).canvas == s.canvas && Truncated(s).lines == s.lines
  {
    var s' := Truncated(s);
    TruncatedShape(s);
    PrefixSnapshots(t, s, s');
    assert s'.commands[..s'.cursor] == s.commands[..s.cursor];
  }

  /** The picture after an undo: the snapshot and the few commands since it give what the whole log would. */
  lemma UndoneCanvas(t: Tools, s: State, c: nat)
    requires Faithful(t) && Shape(s) && SnapshotsRight(t, s) && c <= |s.commands| && SolidLog(s.commands)
    ensures var k := c / SNAPSHOT_INTERVAL;
            k <= |s.snapshots| && SNAPSHOT_INTERVAL * k <= c &&
            Same(ExecAll(t, Base(s, k), s.commands[SNAPSHOT_INTERVAL * k..c]), Replay(t, s.commands[..c]))
  {
    var k := c / SNAPSHOT_INTERVAL;
    SnapshotThere(|s.commands|, c);
    var before, since := s.commands[..SNAPSHOT_INTERVAL * k], s.commands[SNAPSHOT_INTERVAL * k..c];
    assert Same(Base(s, k), Replay(t, before)) by {
      if k == 0 { assert before == []; } else { assert SnapshotRight(t, s, k - 1); }
    }
    ExecAllSame(t, Base(s, k), Replay(t, before), since);
    ExecAllSplit(t, [], before, since);
    assert before + since == s.commands[..c];
  }

  lemma PenInSync(t: Tools, s: State, stroke: Stroke)
    requires InSync(t, s) && s.cursor == |s.commands| && Solid(stroke.color)
    ensures InSync(t, s.(canvas := Draw(t, s.canvas, stroke), lines := s.lines + [stroke]))
  {
    var lines := s.lines + [stroke];
    assert lines[..|lines| - 1] == s.lines;
    SolidSame(t, s.canvas, DrawAll(t, Replay(t, s.commands[..s.cursor]), s.lines), stroke);
    var s' := s.(canvas := Draw(t, s.canvas, stroke), lines := lines);
    PrefixSnapshots(t, s, s');
  }

  lemma PenStepInSync(t: Tools, s: State, stroke: Stroke)
    requires InSync(t, s) && Solid(stroke.color) && InBounds(s.canvas, stroke.index)
    requires s.cursor > 0 || s.commands == []
    ensures InSync(t, Step(t, s, Pen(stroke)))
  {
    hide InSync, Draw;
    TruncatedInSync(t, s);
    PenInSync(t, Truncated(s), stroke);
  }

  lemma RedoInSync(t: Tools, s: State)
    requires Faithful(t) && InSync(t, s) && s.lines == [] && s.cursor < |s.commands|
    ensures InSync(t, Step(t, s, Redo))
  {
    var s' := Step(t, s, Redo);
    var cs := s.commands[..s.cursor + 1];
    assert cs[..|cs| - 1] == s.commands[..s.cursor];
    ExecSame(t, s.canvas, Replay(t, s.commands[..s.cursor]), s.commands[s.cursor]);
    PrefixSnapshots(t, s, s');
  }

  lemma UndoInSync(t: Tools, s: State)
    requires Faithful(t) && InSync(t, s) && s.lines == [] && s.cursor > 0
    ensures InSync(t, Step(t, s, Undo))
  {
    UndoneCanvas(t, s, s.cursor - 1);
    PrefixSnapshots(t, s, Step(t, s, Undo));
  }

  lemma PreparedInSync(t: Tools, s: State, i: int)
    requires InSync(t, s)
    ensures InSync(t, s.(canvas := Prepared(s.canvas, i)))
  {
    PrefixSnapshots(t, s, s.(canvas := Prepared(s.canvas, i)));
  }

  lemma StepLength(t: Tools, s: State, e: Event)
    ensures |Step(t, s, e).commands| <= |s.commands| + 1
  {
    hide Exec, ExecAll, Draw, Accepts, Prepared;
  }

  lemma {:induction false} RunLength(t: Tools, events: seq<Event>)
    requires |events| < UINT32_RANGE
    ensures |Run(t, events).commands| <= |events|
    decreases |events|
  {
    hide Step;
    if events == [] {
    } else {
      var s, e := Run(t, events[..|events| - 1]), events[|events| - 1];
      RunLength(t, events[..|events| - 1]);
      StepLength(t, s, e);
    }
  }

  /** In every run at all, no list is read out of bounds. */
  lemma {:induction false} RunShape(t: Tools, events: seq<Event>)
    requires |events| < UINT32_RANGE
    ensures Shape(Run(t, events))
    decreases |events|
  {
    if events == [] {
    } else {
      RunShape(t, events[..|events| - 1]);
      RunLength(t, events[..|events| - 1]);
      StepShape(t, Run(t, events[..|events| - 1]), events[|events| - 1]);
    }
  }

  // ----- undo and redo

  /** Two states that differ only in which layers are shown. */
  ghost predicate SameState(a: State, b: State) {
    a.(canvas := []) == b.(canvas := []) && Same(a.canvas, b.canvas)
  }

  lemma UndoThenRedo(t: Tools, s: State)
    requires Faithful(t) && InSync(t, s) && s.lines == [] && s.cursor > 0
    ensures SameState(Step(t, Step(t, s, Undo), Redo), s)
  {
    UndoInSync(t, s);
    RedoInSync(t, Step(t, s, Undo));
  }

  lemma RedoThenUndo(t: Tools, s: State)
    requires Faithful(t) && InSync(t, s) && s.lines == [] && s.cursor < |s.commands|
    ensures SameState(Step(t, Step(t, s, Redo), Undo), s)
  {
    RedoInSync(t, s);
    UndoInSync(t, Step(t, s, Redo));
  }

  // ----- where it goes wrong

  /** A new command follows the commands up to the cursor exactly when the cursor is not at the start of a longer log. */
  lemma PerformExactly(t: Tools, s: State, cmd: Command)
    requires Shape(s) && Accepts(s.canvas, cmd)
    ensures Step(t, s, Perform(cmd)).commands == s.commands[..s.cursor] + [cmd] <==> s.cursor > 0 || s.commands == []
  {
    TruncatedShape(s.(canvas := Exec(t, s.canvas, cmd)));
    if s.cursor == 0 && s.commands != [] {
      assert |Step(t, s, Perform(cmd)).commands| == |s.commands| + 1;
    }
  }

  lemma RunSnoc(t: Tools, es: seq<Event>, e: Event)
    ensures Run(t, es + [e]) == Step(t, Run(t, es), e)
  {
    assert (es + [e])[..|es + [e]| - 1] == es;
  }

  lemma TwoAdded(t: Tools, a: Command, b: Command)
    requires a.AddEmpty? && b.AddEmpty?
    ensures |Exec(t, [], b)| == 1 && |Replay(t, [a, b])| == 2
  {
    assert [a, b][..1] == [a] && [a][..0] == [];
    assert |ExecAll(t, [], [a])| == 1;
  }

  lemma AddedUndoneAdded(t: Tools, a: Command, b: Command)
    requires a.AddEmpty? && b.AddEmpty?
    ensures Run(t, [Perform(a), Undo, Perform(b)]) == State([a, b], 2, [], [], Exec(t, [], b))
  {
    hide Exec;
    RunSnoc(t, [], Perform(a));
    RunSnoc(t, [Perform(a)], Undo);
    RunSnoc(t, [Perform(a), Undo], Perform(b));
    assert [] + [Perform(a)] == [Perform(a)] && [Perform(a)] + [Undo] == [Perform(a), Undo];
    assert [Perform(a), Undo] + [Perform(b)] == [Perform(a), Undo, Perform(b)];
    assert Run(t, [Perform(a)]) == State([a], 1, [], [], Exec(t, [], a));
    assert [a][0..0] == [];
    assert Run(t, [Perform(a), Undo]) == State([a], 0, [], [], []);
    assert [a] + [b] == [a, b];
  }

  /** Draw, undo, draw something else: the log then describes two layers and the picture has one. */
  lemma UndoneCommandComesBack(t: Tools, a: Command, b: Command)
    requires a.AddEmpty? && b.AddEmpty?
    ensures var s := Run(t, [Perform(a), Undo, Perform(b)]);
            s.cursor <= |s.commands| && !Same(s.canvas, Replay(t, s.commands[..s.cursor]))
  {
    hide Run, Exec, ExecAll;
    AddedUndoneAdded(t, a, b);
    TwoAdded(t, a, b);
    assert [a, b][..2] == [a, b];
  }

  // ----- translucent lines

  /** A canvas of one pixel. */
  function Dot(pixel: nat, base: nat): Canvas { [Layer(1, 1, 0, 0, true, [pixel], [base])] }

  predicate HitsDot(t: Tools, stroke: Stroke) { stroke.index == 0 && 0 in t.touch(stroke, 1, 1) }

  lemma DrawDot(t: Tools, pixel: nat, base: nat, stroke: Stroke)
    requires HitsDot(t, stroke)
    ensures Draw(t, Dot(pixel, base), stroke) == Dot(Ink(base, stroke.color), base)
  {
    hide Ink;
    var l := Dot(pixel, base)[0];
    assert InkedPixel(t, l, stroke, 0) == Ink(base, stroke.color);
    assert Inked(t, l, stroke).pixels == [Ink(base, stroke.color)];
  }

  const ADD_DOT := AddEmpty(0, 0, 1, 1)

  lemma AddDot(t: Tools)
    ensures Exec(t, [], ADD_DOT) == Dot(0, 0)
  {
    assert Common.Repeat(0, 1) == [0];
  }

  lemma ReplayLine(t: Tools, pixel: nat, base: nat, stroke: Stroke)
    requires HitsDot(t, stroke)
    ensures Exec(t, Dot(pixel, base), Lines([stroke])) == Dot(Ink(base, stroke.color), base)
  {
    var c := Dot(pixel, base);
    assert [stroke][..0] == [];
    assert DrawAll(t, c, [stroke]) == Draw(t, c, stroke) by { assert DrawAll(t, c, []) == c; }
    DrawDot(t, pixel, base, stroke);
  }

  /** Replay does not refresh the base: every line is blended with the empty layer. */
  lemma ReplayLines(t: Tools, black: Stroke, stroke: Stroke)
    requires HitsDot(t, black) && HitsDot(t, stroke)
    ensures Replay(t, [ADD_DOT, Lines([black])]) == Dot(Ink(0, black.color), 0)
    ensures Replay(t, [ADD_DOT, Lines([black]), Lines([stroke])]) == Dot(Ink(0, stroke.color), 0)
  {
    hide Ink, Draw, Exec, Dot;
    var b, c := Lines([black]), Lines([stroke]);
    assert [ADD_DOT, b, c][..2] == [ADD_DOT, b] && [ADD_DOT, b][..1] == [ADD_DOT] && [ADD_DOT][..0] == [];
    AddDot(t);
    ReplayLine(t, 0, 0, black);
    ReplayLine(t, Ink(0, black.color), 0, stroke);
    assert ExecAll(t, [], [ADD_DOT]) == Dot(0, 0);
    assert ExecAll(t, [], [ADD_DOT, b]) == Dot(Ink(0, black.color), 0);
  }

  /** A line drawn by hand on one pixel: it is blended with the base, and pen-up makes the result the next base. */
  lemma LineByHand(t: Tools, cmds: seq<Command>, below: nat, stroke: Stroke)
    requires HitsDot(t, stroke) && 0 < |cmds| < 3
    ensures var s := State(cmds, |cmds|, [], [], Dot(below, below));
            var ink := Ink(below, stroke.color);
            Step(t, Step(t, s, Pen(stroke)), PenUp(0)) ==
            State(cmds + [Lines([stroke])], |cmds| + 1, [], [], Dot(ink, ink))
  {
    hide Ink, Draw;
    DrawDot(t, below, below, stroke);
    var s := State(cmds, |cmds|, [], [], Dot(below, below));
    var ink := Ink(below, stroke.color);
    assert cmds[..|cmds|] == cmds && s.snapshots[..0] == [];
    var s1 := Step(t, s, Pen(stroke));
    assert s1 == State(cmds, |cmds|, [stroke], [], Dot(ink, below));
    assert Prepared(Dot(ink, below), 0) == Dot(ink, ink);
  }

  function TwoLines(black: Stroke, stroke: Stroke): seq<Event> {
    [Perform(ADD_DOT), Pen(black), PenUp(0), Pen(stroke), PenUp(0)]
  }

  lemma RunTwo(t: Tools, es: seq<Event>, e: Event, e': Event)
    ensures Run(t, es + [e, e']) == Step(t, Step(t, Run(t, es), e), e')
  {
    hide Step;
    RunSnoc(t, es, e);
    RunSnoc(t, es + [e], e');
    assert es + [e] + [e'] == es + [e, e'];
  }

  lemma DotAdded(t: Tools)
    ensures Run(t, [Perform(ADD_DOT)]) == State([ADD_DOT], 1, [], [], Dot(0, 0))
  {
    hide Exec, Dot;
    RunSnoc(t, [], Perform(ADD_DOT));
    assert [] + [Perform(ADD_DOT)] == [Perform(ADD_DOT)];
    AddDot(t);
  }

  lemma TwoLinesByHand(t: Tools, black: Stroke, stroke: Stroke)
    requires HitsDot(t, black) && HitsDot(t, stroke)
    ensures var ink := Ink(Ink(0, black.color), stroke.color);
            Run(t, TwoLines(black, stroke)) == State([ADD_DOT, Lines([black]), Lines([stroke])], 3, [], [], Dot(ink, ink))
  {
    hide Ink, Step, Run, Dot, HitsDot;
    var es := TwoLines(black, stroke);
    assert es == [Perform(ADD_DOT)] + [Pen(black), PenUp(0)] + [Pen(stroke), PenUp(0)];
    RunTwo(t, [Perform(ADD_DOT)], Pen(black), PenUp(0));
    RunTwo(t, [Perform(ADD_DOT)] + [Pen(black), PenUp(0)], Pen(stroke), PenUp(0));
    DotAdded(t);
    LineByHand(t, [ADD_DOT], 0, black);
    assert [ADD_DOT] + [Lines([black])] == [ADD_DOT, Lines([black])];
    LineByHand(t, [ADD_DOT, Lines([black])], Ink(0, black.color), stroke);
    assert [ADD_DOT, Lines([black])] + [Lines([stroke])] == [ADD_DOT, Lines([black]), Lines([stroke])];
  }

  lemma UndoRedoLine(t: Tools, black: Stroke, stroke: Stroke, canvas: Canvas)
    requires HitsDot(t, black) && HitsDot(t, stroke)
    ensures var s := State([ADD_DOT, Lines([black]), Lines([stroke])], 3, [], [], canvas);
            Step(t, Step(t, s, Undo), Redo).canvas == Dot(Ink(0, stroke.color), 0)
  {
    hide Ink, Draw, Exec, Dot;
    var b, c := Lines([black]), Lines([stroke]);
    var s := State([ADD_DOT, b, c], 3, [], [], canvas);
    assert s.commands[0..2] == [ADD_DOT, b];
    ReplayLines(t, black, stroke);
    assert Step(t, s, Undo) == s.(cursor := 2, canvas := Dot(Ink(0, black.color), 0));
    ReplayLine(t, Ink(0, black.color), 0, stroke);
  }

  /** For every colour that is neither opaque nor zero, a line over a black one is lost to the history: the log does
      not describe the picture, and undoing the line and redoing it changes it. */
  lemma TranslucentLine(t: Tools, stroke: Stroke)
    requires !Solid(stroke.color) && HitsDot(t, stroke) && HitsDot(t, stroke.(color := BLACK))
    ensures var s := Run(t, TwoLines(stroke.(color := BLACK), stroke));
            s.cursor <= |s.commands| && s.lines == [] &&
            !Same(s.canvas, Replay(t, s.commands[..s.cursor])) &&
            !Same(s.canvas, Step(t, Step(t, s, Undo), Redo).canvas)
  {
    hide Ink, Draw, Exec, Alpha;
    var black := stroke.(color := BLACK);
    var c := stroke.color;
    OverBlack(c, BLACK);
    BlackOverNothing(BLACK);
    TwoLinesByHand(t, black, stroke);
    ReplayLines(t, black, stroke);
    var s := Run(t, TwoLines(black, stroke));
    assert s.commands[..3] == s.commands;
    UndoRedoLine(t, black, stroke, s.canvas);
    assert Picture(s.canvas[0]) != Picture(Dot(c, 0)[0]);
  }
}
