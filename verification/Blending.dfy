/** Blending of ARGB colours, as the pen of the picture editor does it. */
module Blending {

  function Alpha(color: nat): nat { color / 0x100_0000 % 256 }

  function Channel(color: nat, unit: nat): nat
    requires unit > 0
  {
    color / unit % 256
  }

  /** The rounded division by 255 of blendPixels. */
  function Div255(color: nat, alpha: nat): nat { (color * alpha + 128) * 257 / 65536 }

  function Mixed(lower: nat, upper: nat, unit: nat): (m: nat)
    requires unit > 0
    ensures m < 256
  {
    (Div255(Channel(upper, unit), Alpha(upper)) + Div255(Channel(lower, unit), 255 - Alpha(upper))) % 256
  }

  /** blendPixels: two ARGB colours, one over the other. */
  function Blend(lower: nat, upper: nat): nat {
    if Alpha(upper) == 255 || Alpha(lower) == 0 then upper
    else if Alpha(upper) == 0 then lower
    else (Alpha(upper) + Div255(Alpha(lower), 255 - Alpha(upper))) % 256 * 0x100_0000
         + Mixed(lower, upper, 0x1_0000) * 0x1_0000 + Mixed(lower, upper, 0x100) * 0x100 + Mixed(lower, upper, 1)
  }

  /** What a stroke leaves at a pixel: the pen blends with the base, the eraser clears. */
  function Ink(below: nat, color: nat): nat {
    if color == 0 then 0 else Blend(below, color)
  }

  /** Opaque colours, and the eraser's. */
  predicate Solid(color: nat) { color == 0 || Alpha(color) == 255 }

  /** Solid colours are exactly those whose ink does not depend on what lies below. */
  lemma SolidExactly(color: nat)
    ensures Solid(color) <==> forall below, below' :: Ink(below, color) == Ink(below', color)
  {
    if !Solid(color) { OverBlack(color, BLACK); }
  }

  const BLACK: nat := 0xff00_0000

  /** A translucent colour over an opaque one gives an opaque one. */
  lemma OverOpaque(lower: nat, upper: nat)
    requires Alpha(lower) == 255 && 0 < Alpha(upper) < 255
    ensures Alpha(Blend(lower, upper)) == 255
  {
    hide Alpha, Mixed, Div255;
    OpaqueBelow(255 - Alpha(upper));
    ChannelsOfSum(255, Mixed(lower, upper, 0x1_0000), Mixed(lower, upper, 0x100), Mixed(lower, upper, 1));
  }

  lemma OverNothing(color: nat)
    ensures Ink(0, color) == color
  {
    hide Mixed, Div255;
    assert Alpha(0) == 0;
  }

  /** Over opaque black, a colour that is neither opaque nor zero does not stay itself; over nothing it does. */
  lemma OverBlack(color: nat, black: nat)
    requires !Solid(color) && black == BLACK
    ensures Ink(0, color) == color && Ink(black, color) != color
  {
    OverNothing(color);
    assert Alpha(BLACK) == 255;
    hide Alpha, Mixed, Div255;
    if Alpha(color) != 0 { OverOpaque(black, color); }
  }

  lemma OpaqueStays(below: nat, color: nat)
    requires Alpha(color) == 255
    ensures Ink(below, color) == color
  {
  }

  lemma BlackOverNothing(color: nat)
    requires color == BLACK
    ensures Ink(0, color) == color
  {
    hide Mixed, Div255, Ink;
    assert Alpha(BLACK) == 255;
    OpaqueStays(0, color);
  }

  lemma OpaqueBelow(k: nat)
    requires k <= 255
    ensures Div255(255, k) == k
  {
    assert (255 * k + 128) * 257 == 65536 * k + (32896 - k);
  }

  // ----- what blending computes

  /** The division by 255 is rounded to the nearest. */
  lemma Div255Rounds(color: nat, alpha: nat)
    requires color < 256 && alpha < 256
    ensures var d := Div255(color, alpha); -127 <= 255 * d - color * alpha <= 127 && d <= 255
  {
    var x := color * alpha;
    assert x <= 65025 by { Bounded(color, alpha); }
    Nearest(x);
  }

  lemma Bounded(a: nat, b: nat)
    requires a <= 255 && b <= 255
    ensures a * b <= 65025
  {
    assert a * b <= 255 * b;
  }

  lemma Nearest(x: nat)
    requires x <= 65025
    ensures var d := (x + 128) * 257 / 65536; -127 <= 255 * d - x <= 127 && d <= 255
  {
    var d := (x + 128) * 257 / 65536;
    assert 65536 * d <= (x + 128) * 257 < 65536 * d + 65536;
  }

  lemma ChannelsOfSum(a: nat, r: nat, g: nat, b: nat)
    requires a < 256 && r < 256 && g < 256 && b < 256
    ensures var v := a * 0x100_0000 + r * 0x1_0000 + g * 0x100 + b;
            Alpha(v) == a && Channel(v, 0x1_0000) == r && Channel(v, 0x100) == g && Channel(v, 1) == b
  {
    var v := a * 0x100_0000 + r * 0x1_0000 + g * 0x100 + b;
    assert v / 0x1_0000 == a * 0x100 + r && v / 0x100 == a * 0x1_0000 + r * 0x100 + g;
  }

  /** Where neither colour is opaque or transparent alone, each channel is the weighted sum of the two, rounded, and no
      channel mixes with another. */
  lemma BlendChannels(lower: nat, upper: nat)
    requires 0 < Alpha(upper) < 255 && Alpha(lower) > 0
    ensures var v, a := Blend(lower, upper), Alpha(upper);
            && Alpha(v) == (a + Div255(Alpha(lower), 255 - a)) % 256
            && (forall unit | unit in {0x1_0000, 0x100, 1} ::
                  Channel(v, unit) == (Div255(Channel(upper, unit), a) + Div255(Channel(lower, unit), 255 - a)) % 256)
  {
    hide Div255;
    ChannelsOfSum((Alpha(upper) + Div255(Alpha(lower), 255 - Alpha(upper))) % 256,
                  Mixed(lower, upper, 0x1_0000), Mixed(lower, upper, 0x100), Mixed(lower, upper, 1));
    hide Alpha, Channel;
  }
}
