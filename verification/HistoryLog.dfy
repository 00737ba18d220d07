/** The History class of the picture editor: the loops that truncate, snapshot and replay, tied to the steps of History. */
module HistoryLog {
  import opened Blending
  import Common
  import opened History

  /** A segment on layers a gives layers b: at every pixel it touches, the pen leaves its colour over the base, and the
      eraser leaves nothing. */
  ghost predicate Drawn(t: Tools, stroke: Stroke, a: Canvas, b: Canvas) {
    var i := stroke.index;
    if 0 <= i < |a| then
      && OthersKept(a, b, i) && b[i].visible == a[i].visible && b[i].posX == a[i].posX && b[i].posY == a[i].posY
      && b[i].width == a[i].width && b[i].height == a[i].height && b[i].base == a[i].base && |b[i].pixels| == |a[i].pixels|
      && forall k | 0 <= k < |a[i].pixels| :: b[i].pixels[k] ==
           (if k !in t.touch(stroke, a[i].width, a[i].height) then a[i].pixels[k]
            else if stroke.color == 0 then 0
            else Blend(if k < |a[i].base| then a[i].base[k] else 0, stroke.color))
    else b == a
  }

  class Layers {
    var canvas: Canvas

    constructor ()
      ensures canvas == []
    {
      canvas := [];
    }

    /** The layer operations; those that find no such layer, or no room, do nothing. */
    method Act(t: Tools, cmd: Command)
      modifies this
      ensures Effect(cmd, old(canvas), canvas) && canvas == Exec(t, old(canvas), cmd)
    {
      ExecEffect(t, canvas, cmd);
      match cmd
      case AddEmpty(x, y, w, h) =>
        if |canvas| >= MAX_LAYERS { return; }
        var zeros := Common.Repeat(0, w * h);
        canvas := canvas + [Layer(w, h, x, y, true, zeros, zeros)];
      case Delete(i) =>
        if i < 0 || i >= |canvas| { return; }
        canvas := canvas[..i] + canvas[i + 1..];
      case Swap(i, j) =>
        if i < 0 || i >= |canvas| || j < 0 || j >= |canvas| || i == j { return; }
        var temp := canvas[i];
        canvas := canvas[i := canvas[j]];
        canvas := canvas[j := temp];
      case Visible(i) =>
        if i < 0 || i >= |canvas| { return; }
        var l := canvas[i];
        canvas := canvas[i := l.(visible := !l.visible)];
      case Duplicate(i) =>
        if |canvas| >= MAX_LAYERS || i < 0 || i >= |canvas| { return; }
        var l := canvas[i];
        canvas := canvas + [Layer(l.width, l.height, l.posX, l.posY, true, l.pixels, l.pixels)];
      case Move(i, x, y) =>
        if i < 0 || i >= |canvas| { return; }
        var l := canvas[i];
        canvas := canvas[i := l.(posX := x)];
        canvas := canvas[i := canvas[i].(posY := y)];
      case Lines(strokes) => DrawLines(t, strokes);
      case Other(text) => canvas := t.other(canvas, text);
    }

    method DrawLines(t: Tools, strokes: seq<Stroke>)
      modifies this
      ensures canvas == DrawAll(t, old(canvas), strokes)
    {
      assert strokes[..0] == [];
      for i := 0 to |strokes|
        invariant canvas == DrawAll(t, old(canvas), strokes[..i])
      {
        assert strokes[..i + 1][..i] == strokes[..i];
        DrawSegment(t, strokes[i]);
      }
      assert strokes[..|strokes|] == strokes;
    }

    method DrawSegment(t: Tools, stroke: Stroke)
      modifies this
      ensures Drawn(t, stroke, old(canvas), canvas) && canvas == Draw(t, old(canvas), stroke)
    {
      var i := stroke.index;
      if i < 0 || i >= |canvas| { return; }
      canvas := canvas[i := Inked(t, canvas[i], stroke)];
    }
  }

  /** What a layer operation passes to addCommand. */
  datatype Entry = Line(stroke: Stroke) | LineFinished | Normal(cmd: Command)

  lemma OneMore(cmds: seq<Command>, from: nat, i: nat)
    requires from <= i < |cmds|
    ensures cmds[from..i + 1] == cmds[from..i] + [cmds[i]] && cmds[from..i + 1][..i - from] == cmds[from..i]
  {
  }

  class Log {
    var commands: seq<Command>
    var currentCommand: nat
    var lines: seq<Stroke>
    var snapshots: seq<Canvas>
    const t: Tools

    constructor (t: Tools)
      ensures this.t == t && commands == [] && currentCommand == 0 && lines == [] && snapshots == []
    {
      this.t := t;
      commands, currentCommand, lines, snapshots := [], 0, [], [];
    }

    function Now(layers: Layers): State
      reads this, layers
    {
      State(commands, currentCommand, lines, snapshots, layers.canvas)
    }

    /** Removes the commands and snapshots after the cursor, last one first. */
    method Truncate(layers: Layers)
      requires Shape(Now(layers))
      modifies this
      ensures Now(layers) == Truncated(old(Now(layers)))
    {
      var before := (currentCommand + UINT32_RANGE - 1) % UINT32_RANGE;
      if |commands| > before {
        var i := |commands| - 1;
        while i > before
          invariant currentCommand - 1 <= i == |commands| - 1
          invariant currentCommand == old(currentCommand) && lines == old(lines) && snapshots == old(snapshots)
          invariant commands == old(commands)[..i + 1] && i < |old(commands)|
        {
          commands := commands[..i] + commands[i + 1..];
          i := i - 1;
        }
        var j := |snapshots|;
        while j > currentCommand / SNAPSHOT_INTERVAL
          invariant currentCommand == old(currentCommand) && lines == old(lines) && commands == old(commands)[..currentCommand]
          invariant j == |snapshots| <= |old(snapshots)| && snapshots == old(snapshots)[..j]
          invariant j >= Min(|old(snapshots)|, currentCommand / SNAPSHOT_INTERVAL)
        {
          snapshots := snapshots[..j - 1] + snapshots[j..];
          j := j - 1;
        }
      }
    }

    /** A copy of every layer, each made visible. */
    method TakeSnapshot(layers: Layers) returns (copy: Canvas)
      ensures copy == Snapshot(layers.canvas)
    {
      copy := [];
      for i := 0 to |layers.canvas|
        invariant |copy| == i && forall j | 0 <= j < i :: copy[j] == layers.canvas[j].(visible := true, base := layers.canvas[j].pixels)
      {
        var l := layers.canvas[i];
        copy := copy + [Layer(l.width, l.height, l.posX, l.posY, true, l.pixels, l.pixels)];
      }
    }

    /** The part of addCommand that appends to the log. */
    method Append(layers: Layers, cmd: Command)
      requires Shape(Now(layers))
      modifies this
      ensures Now(layers) == Logged(old(Now(layers)), cmd)
      ensures snapshots == old(snapshots) + (if |commands| % 5 == 0 then [Snapshot(layers.canvas)] else [])
    {
      commands := commands + [cmd];
      currentCommand := |commands|;
      if currentCommand % SNAPSHOT_INTERVAL == 0 {
        var snapshot := TakeSnapshot(layers);
        snapshots := snapshots + [snapshot];
      }
    }

    /** History::addCommand. */
    method AddCommand(layers: Layers, e: Entry)
      requires Shape(Now(layers))
      modifies this
      ensures var s := Truncated(old(Now(layers)));
              match e
              case Line(stroke) => Now(layers) == s.(lines := s.lines + [stroke])
              case LineFinished => Now(layers) == if s.lines == [] then s else Logged(s, Lines(s.lines)).(lines := [])
              case Normal(cmd) => Now(layers) == Logged(s, cmd)
    {
      TruncatedShape(Now(layers));
      Truncate(layers);
      match e
      case Line(stroke) =>
        lines := lines + [stroke];
      case LineFinished =>
        if |lines| > 0 {
          Append(layers, Lines(lines));
          lines := [];
        }
      case Normal(cmd) =>
        Append(layers, cmd);
    }

    /** A layer operation acts and then records itself behind the commands up to the cursor; one that refuses does neither. */
    method Operate(layers: Layers, cmd: Command)
      requires Shape(Now(layers))
      modifies this, layers
      ensures Now(layers) == Step(t, old(Now(layers)), Perform(cmd))
      ensures Effect(cmd, old(layers.canvas), layers.canvas)
      ensures Accepts(old(layers.canvas), cmd) && (old(currentCommand) > 0 || old(commands) == []) ==>
                commands == old(commands[..currentCommand]) + [cmd] && currentCommand == |commands|
      ensures !Accepts(old(layers.canvas), cmd) ==> commands == old(commands) && currentCommand == old(currentCommand)
    {
      ghost var s := Now(layers);
      if !Accepts(layers.canvas, cmd) {
        ExecEffect(t, layers.canvas, cmd);
        return;
      }
      PerformExactly(t, s, cmd);
      layers.Act(t, cmd);
      AddCommand(layers, Normal(cmd));
    }

    method DrawLine(layers: Layers, stroke: Stroke)
      requires Shape(Now(layers))
      modifies this, layers
      ensures Now(layers) == Step(t, old(Now(layers)), Pen(stroke))
      ensures Drawn(t, stroke, old(layers.canvas), layers.canvas)
    {
      if !InBounds(layers.canvas, stroke.index) { return; }
      layers.DrawSegment(t, stroke);
      AddCommand(layers, Line(stroke));
    }

    /** Layers::prepareNextDrawing: what was drawn becomes the base of the next line. */
    method PrepareNextDrawing(layers: Layers, index: int, writeHistory: bool)
      requires Shape(Now(layers))
      modifies this, layers
      ensures Now(layers) == Step(t, old(Now(layers)), if writeHistory then PenUp(index) else Refresh(index))
    {
      if !InBounds(layers.canvas, index) { return; }
      var l := layers.canvas[index];
      layers.canvas := layers.canvas[index := l.(base := l.pixels)];
      if writeHistory { AddCommand(layers, LineFinished); }
    }

    /** execCommandOn with writeHistory == false: the cursor moves past the command. */
    method ExecCommandOn(layers: Layers, cmd: Command)
      modifies this`currentCommand, layers
      ensures layers.canvas == Exec(t, old(layers.canvas), cmd) && currentCommand == old(currentCommand) + 1
      ensures Effect(cmd, old(layers.canvas), layers.canvas)
    {
      currentCommand := currentCommand + 1;
      layers.Act(t, cmd);
    }

    /** History::undo. The snapshot it asks for is always there. */
    method Undo(layers: Layers)
      requires Shape(Now(layers))
      modifies this`currentCommand, layers
      ensures Now(layers) == Step(t, old(Now(layers)), History.Undo)
    {
      hide Exec, ExecAll, Snapshot, Draw;
      if currentCommand == 0 { return; }
      currentCommand := currentCommand - 1;
      var c := currentCommand;
      SnapshotThere(|commands|, c);
      var executeCounter;
      ghost var k := c / SNAPSHOT_INTERVAL;
      if c < SNAPSHOT_INTERVAL {
        layers.canvas := [];
        executeCounter := c;
      } else {
        Restore(layers, snapshots[c / SNAPSHOT_INTERVAL - 1]);
        executeCounter := c % SNAPSHOT_INTERVAL;
      }
      assert layers.canvas == Base(old(Now(layers)), k) && c - executeCounter == SNAPSHOT_INTERVAL * k;
      ReplayCommands(layers, c - executeCounter, c);
    }

    method Restore(layers: Layers, snapshot: Canvas)
      modifies layers
      ensures layers.canvas == Snapshot(snapshot)
    {
      var canvas: Canvas := [];
      for i := 0 to |snapshot|
        invariant |canvas| == i && forall j | 0 <= j < i :: canvas[j] == snapshot[j].(visible := true, base := snapshot[j].pixels)
      {
        var l := snapshot[i];
        canvas := canvas + [Layer(l.width, l.height, l.posX, l.posY, true, l.pixels, l.pixels)];
      }
      layers.canvas := canvas;
    }

    method ReplayCommands(layers: Layers, from: nat, to: nat)
      requires from <= to <= |commands| && currentCommand == to
      modifies this`currentCommand, layers
      ensures currentCommand == to && layers.canvas == ExecAll(t, old(layers.canvas), commands[from..to])
    {
      hide Effect, Exec;
      currentCommand := from;
      for i := from to to
        invariant currentCommand == i && layers.canvas == ExecAll(t, old(layers.canvas), commands[from..i])
      {
        OneMore(commands, from, i);
        ExecCommandOn(layers, commands[i]);
      }
    }

    /** History::redo. */
    method Redo(layers: Layers)
      requires Shape(Now(layers))
      modifies this`currentCommand, layers
      ensures Now(layers) == Step(t, old(Now(layers)), History.Redo)
    {
      if currentCommand < |commands| {
        ExecCommandOn(layers, commands[currentCommand]);
      }
    }
  }
}
