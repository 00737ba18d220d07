/** The layers of the picture editor as objects with pixel buffers: the live ones and those of the snapshots share no
    buffer, so what is drawn never reaches a snapshot, and a snapshot comes back as it was taken. */
module PixelLayers {
  import Common
  import opened History

  lemma IndexInRange(w: nat, h: nat, x: nat, y: nat)
    requires x < w && y < h
    ensures 0 <= y * w + x < w * h
  {
    assert y * w + w <= h * w by { MulMono(y + 1, h, w); }
  }

  lemma MulMono(a: nat, b: nat, w: nat)
    requires a <= b
    ensures a * w <= b * w
  {
  }

  /** Different coordinates are different places in the buffer. */
  lemma IndexInjective(w: nat, x: nat, y: nat, x': nat, y': nat)
    requires x < w && x' < w && y * w + x == y' * w + x'
    ensures x == x' && y == y'
  {
    if y < y' {
      MulMono(y + 1, y', w);
    } else if y' < y {
      MulMono(y' + 1, y, w);
    }
  }

  method CopyOf(pixels: array<nat>) returns (copy: array<nat>)
    ensures fresh(copy) && copy[..] == pixels[..]
  {
    copy := new nat[pixels.Length];
    for i := 0 to pixels.Length
      invariant copy[..i] == pixels[..i]
    {
      copy[i] := pixels[i];
    }
  }

  lemma {:induction false} ZerosAre(s: seq<nat>)
    requires forall i | 0 <= i < |s| :: s[i] == 0
    ensures s == Common.Repeat(0, |s|)
    decreases |s|
  {
    if s == [] {
    } else {
      ZerosAre(s[..|s| - 1]);
    }
  }

  /** The layer with the pixel at (x, y) changed, if there is one. */
  function Dotted(l: Layer, x: int, y: int, color: nat): Layer {
    if 0 <= x < l.width && 0 <= y < l.height && y * l.width + x < |l.pixels|
    then l.(pixels := l.pixels[y * l.width + x := color]) else l
  }

  class PixelLayer {
    var width: nat
    var height: nat
    var posX: int
    var posY: int
    var isVisible: bool
    var pixelData: array<nat>
    var tempPixelData: array<nat>

    ghost predicate Valid()
      reads this
    {
      pixelData.Length == width * height && pixelData != tempPixelData
    }

    /** The layer as a value. */
    ghost function View(): Layer
      reads this, pixelData, tempPixelData
    {
      Layer(width, height, posX, posY, isVisible, pixelData[..], tempPixelData[..])
    }

    /** The layer and both its buffers lie in this part of the memory. */
    ghost predicate In(cells: set<object>)
      reads this
    {
      this in cells && pixelData in cells && tempPixelData in cells
    }

    /** No buffer in common. */
    ghost predicate Apart(that: PixelLayer)
      reads this, that
    {
      this != that && {pixelData, tempPixelData} !! {that.pixelData, that.tempPixelData}
    }

    /** Copies the given pixels into buffers of its own. */
    constructor (width: nat, height: nat, posX: int, posY: int, visible: bool, pixels: array<nat>)
      requires pixels.Length == width * height
      ensures Valid() && fresh(pixelData) && fresh(tempPixelData)
      ensures this.width == width && this.height == height && this.posX == posX && this.posY == posY && isVisible == visible
      ensures pixelData[..] == pixels[..] && tempPixelData[..] == pixels[..]
    {
      this.width, this.height, this.posX, this.posY, isVisible := width, height, posX, posY, visible;
      var data := CopyOf(pixels);
      var temp := CopyOf(pixels);
      pixelData, tempPixelData := data, temp;
    }

    /** A layer of zeros. */
    constructor Empty(width: nat, height: nat, posX: int, posY: int, visible: bool)
      ensures Valid() && fresh(pixelData) && fresh(tempPixelData)
      ensures View() == Layer(width, height, posX, posY, visible, Common.Repeat(0, width * height), Common.Repeat(0, width * height))
    {
      this.width, this.height, this.posX, this.posY, isVisible := width, height, posX, posY, visible;
      var data := new nat[width * height](_ => 0);
      var temp := CopyOf(data);
      pixelData, tempPixelData := data, temp;
      new;
      ZerosAre(data[..]);
    }

    function GetPixel(x: int, y: int): nat
      requires Valid()
      reads this, pixelData
    {
      if x < 0 || x >= width || y < 0 || y >= height then 0
      else IndexInRange(width, height, x, y); pixelData[y * width + x]
    }

    /** Changes the pixel at (x, y), if there is one, and no other. */
    method SetPixel(x: int, y: int, color: nat)
      requires Valid()
      modifies pixelData
      ensures Valid() && View() == Dotted(old(View()), x, y, color)
      ensures forall x', y' :: GetPixel(x', y') ==
                if x' == x && y' == y && 0 <= x < width && 0 <= y < height then color else old(GetPixel(x', y'))
    {
      if x < 0 || x >= width || y < 0 || y >= height { return; }
      IndexInRange(width, height, x, y);
      ghost var before := pixelData[..];
      pixelData[y * width + x] := color;
      forall x', y' ensures GetPixel(x', y') ==
                if x' == x && y' == y then color else old(GetPixel(x', y'))
      {
        if 0 <= x' < width && 0 <= y' < height {
          IndexInRange(width, height, x', y');
          if y' * width + x' == y * width + x { IndexInjective(width, x, y, x', y'); }
        }
      }
    }

    /** Takes over a new buffer. */
    method SetNewBuffer(newBuffer: array<nat>, x: int, y: int, w: nat, h: nat)
      requires newBuffer.Length == w * h && newBuffer != tempPixelData
      modifies this
      ensures Valid() && pixelData == newBuffer && tempPixelData == old(tempPixelData)
      ensures width == w && height == h && posX == x && posY == y && isVisible == old(isVisible)
    {
      pixelData := newBuffer;
      posX, posY, width, height := x, y, w, h;
    }

    /** The blending base of the next line: a fresh copy of the pixels. */
    method PrepareNextDrawing()
      requires Valid()
      modifies this`tempPixelData
      ensures Valid() && fresh(tempPixelData) && tempPixelData[..] == pixelData[..]
    {
      tempPixelData := CopyOf(pixelData);
    }
  }

  /** Layers that share nothing, within one part of the memory. */
  ghost predicate Owned(layers: seq<PixelLayer>, cells: set<object>)
    reads cells
  {
    && (forall i | 0 <= i < |layers| :: layers[i] in cells && layers[i].In(cells) && layers[i].Valid())
    && (forall i, j | 0 <= i < j < |layers| :: layers[i].Apart(layers[j]))
  }

  ghost function Views(layers: seq<PixelLayer>, cells: set<object>): (c: Canvas)
    requires Owned(layers, cells)
    reads cells
    ensures |c| == |layers|
  {
    seq(|layers|, i requires 0 <= i < |layers| reads cells requires Owned(layers, cells) => layers[i].View())
  }

  function WithEmpty(c: Canvas, x: int, y: int, w: nat, h: nat): Canvas {
    if |c| < MAX_LAYERS then c + [Layer(w, h, x, y, true, Common.Repeat(0, w * h), Common.Repeat(0, w * h))] else c
  }

  lemma EmptyAdded(t: Tools, c: Canvas, x: int, y: int, w: nat, h: nat)
    ensures Exec(t, c, AddEmpty(x, y, w, h)) == WithEmpty(c, x, y, w, h)
  {
  }

  /** One more layer, with memory of its own. */
  lemma OneMore(layers: seq<PixelLayer>, cells: set<object>, l: PixelLayer)
    requires Owned(layers, cells) && l.Valid() && {l, l.pixelData, l.tempPixelData} !! cells
    ensures var more := cells + {l, l.pixelData, l.tempPixelData};
            Owned(layers + [l], more) && Views(layers + [l], more) == Views(layers, cells) + [l.View()]
  {
  }

  /** Copies of all layers, visible, in memory that nothing else refers to. */
  method Copies(layers: seq<PixelLayer>, ghost cells: set<object>) returns (copy: seq<PixelLayer>, ghost copied: set<object>)
    requires Owned(layers, cells)
    ensures fresh(copied) && Owned(copy, copied)
    ensures Views(copy, copied) == Snapshot(Views(layers, cells))
  {
    copy, copied := [], {};
    for i := 0 to |layers|
      modifies {}
      invariant |copy| == i && fresh(copied) && Owned(copy, copied) && Owned(layers, cells)
      invariant forall j | 0 <= j < i :: copy[j].View() == Snapshot(Views(layers, cells))[j]
    {
      var l := layers[i];
      var c := new PixelLayer(l.width, l.height, l.posX, l.posY, true, l.pixelData);
      OneMore(copy, copied, c);
      copy := copy + [c];
      copied := copied + {c, c.pixelData, c.tempPixelData};
    }
  }

  class Editor {
    var layers: seq<PixelLayer>
    var snapshots: seq<seq<PixelLayer>>
    ghost var live: set<object>
    ghost var stored: seq<set<object>>

    /** The live layers share no buffer with one another, and every snapshot has memory of its own. */
    ghost predicate Valid()
      reads this, live, Stored()
    {
      && this !in live && this !in Stored() && live !! Stored()
      && Owned(layers, live)
      && |stored| == |snapshots|
      && (forall k | 0 <= k < |stored| :: Owned(snapshots[k], stored[k]))
      && (forall k, m | 0 <= k < m < |stored| :: stored[k] !! stored[m])
    }

    ghost function Stored(): set<object>
      reads this
    {
      set k, x | 0 <= k < |stored| && x in stored[k] :: x
    }

    ghost function Shown(): Canvas
      requires Valid()
      reads this, live, Stored()
    {
      Views(layers, live)
    }

    ghost function Kept(): seq<Canvas>
      requires Valid()
      reads this, live, Stored()
    {
      seq(|snapshots|, k requires 0 <= k < |snapshots| && Valid() reads this, live, Stored() => Views(snapshots[k], stored[k]))
    }

    constructor ()
      ensures Valid() && fresh(live) && fresh(Stored()) && Shown() == [] && Kept() == []
    {
      layers, snapshots, live, stored := [], [], {}, [];
    }

    /** The part of addCommand that takes a snapshot. */
    method TakeSnapshot()
      requires Valid()
      modifies this
      ensures Valid() && live == old(live) && fresh(Stored() - old(Stored()))
      ensures Shown() == old(Shown())
      ensures Kept() == old(Kept()) + [Snapshot(old(Shown()))]
    {
      var copy, copied := Copies(layers, live);
      snapshots, stored := snapshots + [copy], stored + [copied];
    }

    /** The part of undo that brings a snapshot back. */
    method Restore(k: nat)
      requires Valid() && k < |snapshots|
      modifies this
      ensures Valid() && fresh(live) && Stored() == old(Stored())
      ensures Shown() == Snapshot(old(Kept())[k])
      ensures Kept() == old(Kept())
    {
      var copy, copied := Copies(snapshots[k], stored[k]);
      layers, live := copy, copied;
    }

    method AddEmpty(x: int, y: int, w: nat, h: nat)
      requires Valid()
      modifies this
      ensures Valid() && fresh(live - old(live)) && Stored() == old(Stored())
      ensures forall t :: Shown() == Exec(t, old(Shown()), History.AddEmpty(x, y, w, h))
      ensures Kept() == old(Kept())
    {
      forall t ensures Exec(t, Shown(), History.AddEmpty(x, y, w, h)) == WithEmpty(Shown(), x, y, w, h) {
        EmptyAdded(t, Shown(), x, y, w, h);
      }
      hide Exec;
      if |layers| >= MAX_LAYERS { return; }
      var l := new PixelLayer.Empty(w, h, x, y, true);
      OneMore(layers, live, l);
      layers, live := layers + [l], live + {l, l.pixelData, l.tempPixelData};
    }

    /** Drawing changes one pixel of one live layer. */
    method SetPixel(i: nat, x: int, y: int, color: nat)
      requires Valid() && i < |layers|
      modifies layers[i].pixelData
      ensures Valid()
      ensures Shown() == old(Shown())[i := Dotted(old(Shown())[i], x, y, color)]
      ensures Kept() == old(Kept())
    {
      layers[i].SetPixel(x, y, color);
    }

    /** The operations that scale, crop, rotate or filter a layer hand it a buffer that they have just made. */
    method SetNewBuffer(i: nat, newBuffer: array<nat>, x: int, y: int, w: nat, h: nat)
      requires Valid() && i < |layers|
      requires newBuffer.Length == w * h && newBuffer !in live && newBuffer !in Stored()
      modifies this`live, layers[i]
      ensures Valid() && live == old(live) + {newBuffer} && Stored() == old(Stored())
      ensures Shown() == old(Shown())[i := Layer(w, h, x, y, old(Shown())[i].visible, newBuffer[..], old(Shown())[i].base)]
      ensures Kept() == old(Kept())
    {
      layers[i].SetNewBuffer(newBuffer, x, y, w, h);
      live := live + {newBuffer};
    }

    /** Layers::prepareNextDrawing on the buffers. */
    method PrepareNextDrawing(i: int)
      requires Valid()
      modifies this`live, layers
      ensures Valid() && fresh(live - old(live)) && Stored() == old(Stored())
      ensures Shown() == Prepared(old(Shown()), i)
      ensures Kept() == old(Kept())
    {
      if i < 0 || i >= |layers| { return; }
      var l := layers[i];
      l.PrepareNextDrawing();
      live := live + {l.tempPixelData};
    }
  }
}
