/**
 Per-pixel terrain classification of the warped camera frame: the navigable
 colour rule, the rock colour rule, and the road and obstacle selections made
 through the visibility mask. Every selection is a single-channel grid of
 0/1 bytes with the frame's own shape, as numpy's `zeros_like(img[:,:,0])`
 with ones written where the rule holds.
 */
module Classify {
  import opened Bytes

  /** One RGB pixel of a camera or warped frame, channel 0 first. */
  datatype Pixel = Pixel(r: Byte, g: Byte, b: Byte)

  /** A frame or a 3-channel mask: rows of pixels. */
  type Image = seq<seq<Pixel>>

  /** A single-channel selection grid. */
  type Binary = seq<seq<Byte>>

  /** A per-channel threshold triple. */
  datatype Rgb = Rgb(r: int, g: int, b: int)

  /** Default thresholds of the navigable rule. */
  const NavigableThresh := Rgb(160, 160, 160)

  /** Default thresholds of the rock rule. */
  const RockThresh := Rgb(110, 110, 40)

  predicate SameShape<A, B>(x: seq<seq<A>>, y: seq<seq<B>>) {
    |x| == |y| && forall i :: 0 <= i < |x| ==> |x[i]| == |y[i]|
  }

  /** 1 where `keep` holds of the pixel, 0 elsewhere. */
  function Select(img: Image, keep: Pixel -> bool): Binary {
    seq(|img|, i requires 0 <= i < |img| =>
      seq(|img[i]|, j requires 0 <= j < |img[i]| => if keep(img[i][j]) then 1 else 0))
  }

  /** Channel-wise `img & mask`. */
  function Masked(img: Image, mask: Image): (r: Image)
    requires SameShape(img, mask)
    ensures SameShape(r, img)
    ensures forall i, j :: 0 <= i < |img| && 0 <= j < |img[i]| ==>
      r[i][j].r <= mask[i][j].r && r[i][j].g <= mask[i][j].g && r[i][j].b <= mask[i][j].b
    ensures forall i, j :: 0 <= i < |img| && 0 <= j < |img[i]| ==>
      r[i][j] == Pixel(And(img[i][j].r, mask[i][j].r), And(img[i][j].g, mask[i][j].g),
                       And(img[i][j].b, mask[i][j].b))
  {
    seq(|img|, i requires 0 <= i < |img| =>
      seq(|img[i]|, j requires 0 <= j < |img[i]| =>
        Pixel(And(img[i][j].r, mask[i][j].r), And(img[i][j].g, mask[i][j].g),
              And(img[i][j].b, mask[i][j].b))))
  }

  /** Channel-wise `~img`. */
  function Inverted(img: Image): (r: Image)
    ensures SameShape(r, img)
    ensures forall i, j :: 0 <= i < |img| && 0 <= j < |img[i]| ==>
      r[i][j].r + img[i][j].r == 255 && r[i][j].g + img[i][j].g == 255 &&
      r[i][j].b + img[i][j].b == 255
  {
    seq(|img|, i requires 0 <= i < |img| =>
      seq(|img[i]|, j requires 0 <= j < |img[i]| =>
        Pixel(Complement(img[i][j].r), Complement(img[i][j].g), Complement(img[i][j].b))))
  }

  /**
   `color_thresh`: a cell is 1 exactly when all three channels are strictly
   above their thresholds, and 0 otherwise.
   */
  function ColorThresh(img: Image, t: Rgb): (sel: Binary)
    ensures SameShape(sel, img)
    ensures forall i, j :: 0 <= i < |img| && 0 <= j < |img[i]| ==>
      (sel[i][j] == 0 || sel[i][j] == 1) &&
      (sel[i][j] == 1 <==> img[i][j].r > t.r && img[i][j].g > t.g && img[i][j].b > t.b)
  {
    Select(img, (p: Pixel) => p.r > t.r && p.g > t.g && p.b > t.b)
  }

  /**
   The selection step of `rock_thres`, before its dilation: red and green
   strictly above their thresholds and blue strictly below its own.
   */
  function RockThres(img: Image, t: Rgb): (sel: Binary)
    ensures SameShape(sel, img)
    ensures forall i, j :: 0 <= i < |img| && 0 <= j < |img[i]| ==>
      (sel[i][j] == 0 || sel[i][j] == 1) &&
      (sel[i][j] == 1 <==> img[i][j].r > t.r && img[i][j].g > t.g && img[i][j].b < t.b)
  {
    Select(img, (p: Pixel) => p.r > t.r && p.g > t.g && p.b < t.b)
  }

  /** `color_thresh(warped & mask)`: the road selection before erosion. */
  function Road(warped: Image, mask: Image): (sel: Binary)
    requires SameShape(warped, mask)
    ensures SameShape(sel, warped)
    ensures forall i, j :: 0 <= i < |warped| && 0 <= j < |warped[i]| ==>
      (sel[i][j] == 0 || sel[i][j] == 1) &&
      (sel[i][j] == 1 <==>
        And(warped[i][j].r, mask[i][j].r) > 160 && And(warped[i][j].g, mask[i][j].g) > 160 &&
        And(warped[i][j].b, mask[i][j].b) > 160)
  {
    ColorThresh(Masked(warped, mask), NavigableThresh)
  }

  /** `color_thresh(~warped & mask)`: the obstacle selection before dilation. */
  function Obstacles(warped: Image, mask: Image): (sel: Binary)
    requires SameShape(warped, mask)
    ensures SameShape(sel, warped)
    ensures forall i, j :: 0 <= i < |warped| && 0 <= j < |warped[i]| ==>
      (sel[i][j] == 0 || sel[i][j] == 1) &&
      (sel[i][j] == 1 <==>
        And(Complement(warped[i][j].r), mask[i][j].r) > 160 &&
        And(Complement(warped[i][j].g), mask[i][j].g) > 160 &&
        And(Complement(warped[i][j].b), mask[i][j].b) > 160)
  {
    ColorThresh(Masked(Inverted(warped), mask), NavigableThresh)
  }

  /** `rock_thres(rock_warped)` before dilation: no mask is applied. */
  function Rocks(warped: Image): (sel: Binary)
    ensures SameShape(sel, warped)
    ensures forall i, j :: 0 <= i < |warped| && 0 <= j < |warped[i]| ==>
      (sel[i][j] == 0 || sel[i][j] == 1) &&
      (sel[i][j] == 1 <==> warped[i][j].r > 110 && warped[i][j].g > 110 && warped[i][j].b < 40)
  {
    RockThres(warped, RockThresh)
  }

  /** A pixel is never selected as both road and obstacle. */
  lemma RoadObstacleDisjoint(warped: Image, mask: Image)
    requires SameShape(warped, mask)
    ensures forall i, j :: 0 <= i < |warped| && 0 <= j < |warped[i]| ==>
      !(Road(warped, mask)[i][j] == 1 && Obstacles(warped, mask)[i][j] == 1)
  {
    forall i, j | 0 <= i < |warped| && 0 <= j < |warped[i]|
      ensures !(Road(warped, mask)[i][j] == 1 && Obstacles(warped, mask)[i][j] == 1)
    {
      NeverBothAbove160(warped[i][j].r, mask[i][j].r);
    }
  }

  /**
   Road and obstacle evidence only comes from pixels whose mask is above 160
   on every channel; in particular a pixel masked to 0 is neither.
   */
  lemma ConfinedToMask(warped: Image, mask: Image, i: nat, j: nat)
    requires SameShape(warped, mask)
    requires i < |warped| && j < |warped[i]|
    requires mask[i][j].r <= 160 || mask[i][j].g <= 160 || mask[i][j].b <= 160
    ensures Road(warped, mask)[i][j] == 0 && Obstacles(warped, mask)[i][j] == 0
  {
  }

  /**
   Under a full mask the obstacle rule is "every channel below 95" and the
   road rule is "every channel above 160".
   */
  lemma FullMaskRules(warped: Image, mask: Image, i: nat, j: nat)
    requires SameShape(warped, mask)
    requires i < |warped| && j < |warped[i]|
    requires mask[i][j] == Pixel(255, 255, 255)
    ensures Obstacles(warped, mask)[i][j] == 1 <==>
      warped[i][j].r < 95 && warped[i][j].g < 95 && warped[i][j].b < 95
    ensures Road(warped, mask)[i][j] == 1 <==>
      warped[i][j].r > 160 && warped[i][j].g > 160 && warped[i][j].b > 160
  {
    var p := warped[i][j];
    AndFull(p.r); AndFull(p.g); AndFull(p.b);
    AndFull(Complement(p.r)); AndFull(Complement(p.g)); AndFull(Complement(p.b));
  }

  /**
   An all-black warped frame selects no road and no rock, and selects as
   obstacle exactly the pixels whose mask is above 160 on every channel.
   */
  lemma BlackFrame(warped: Image, mask: Image)
    requires SameShape(warped, mask)
    requires forall i, j :: 0 <= i < |warped| && 0 <= j < |warped[i]| ==>
      warped[i][j] == Pixel(0, 0, 0)
    ensures forall i, j :: 0 <= i < |warped| && 0 <= j < |warped[i]| ==>
      Road(warped, mask)[i][j] == 0 && Rocks(warped)[i][j] == 0 &&
      (Obstacles(warped, mask)[i][j] == 1 <==>
        mask[i][j].r > 160 && mask[i][j].g > 160 && mask[i][j].b > 160)
  {
    forall i, j | 0 <= i < |warped| && 0 <= j < |warped[i]|
      ensures Obstacles(warped, mask)[i][j] == 1 <==>
        mask[i][j].r > 160 && mask[i][j].g > 160 && mask[i][j].b > 160
    {
      FullAnd(mask[i][j].r); FullAnd(mask[i][j].g); FullAnd(mask[i][j].b);
    }
  }
}
