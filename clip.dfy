/**
 The last step of `pix_to_world`: a rotated, scaled and translated world
 coordinate (a float, modelled as a real) is cast with `np.int_`, which
 truncates toward zero, and then `np.clip`ped into [0, world_size - 1].
 */
module WorldClip {

  /** `np.int_` on a float: the integer part, truncated toward zero. */
  function Trunc(v: real): (t: int)
    ensures 0.0 <= v ==> 0 <= t && t as real <= v < t as real + 1.0
    ensures v < 0.0 ==> t <= 0 && t as real - 1.0 < v <= t as real
  {
    if v >= 0.0 then v.Floor else -((-v).Floor)
  }

  /** `np.clip(t, lo, hi)`, which is `minimum(maximum(t, lo), hi)`. */
  function Clip(t: int, lo: int, hi: int): (c: int)
    ensures lo <= hi ==> lo <= c <= hi
    ensures lo <= t <= hi ==> c == t
    ensures t < lo && lo <= hi ==> c == lo
    ensures hi < t ==> c == hi
  {
    var low := if t < lo then lo else t;
    if low > hi then hi else low
  }

  /** One world-grid coordinate: `np.clip(np.int_(v), 0, world_size - 1)`. */
  function WorldCoord(v: real, worldSize: int): (c: int)
    ensures 1 <= worldSize ==> 0 <= c < worldSize
    ensures 0 <= Trunc(v) < worldSize ==> c == Trunc(v)
    ensures Trunc(v) < 0 && 1 <= worldSize ==> c == 0
    ensures worldSize <= Trunc(v) ==> c == worldSize - 1
  {
    Clip(Trunc(v), 0, worldSize - 1)
  }

  /** The clip step over a whole coordinate array. */
  function WorldCoords(vs: seq<real>, worldSize: int): (cs: seq<int>)
    ensures |cs| == |vs|
    ensures 1 <= worldSize ==> forall k :: 0 <= k < |cs| ==> 0 <= cs[k] < worldSize
    ensures forall k :: 0 <= k < |cs| ==> cs[k] == WorldCoord(vs[k], worldSize)
  {
    seq(|vs|, k requires 0 <= k < |vs| => WorldCoord(vs[k], worldSize))
  }

  /** Truncation is symmetric about zero and never moves a value away from it. */
  lemma TruncTowardZero(v: real)
    ensures Trunc(-v) == -Trunc(v)
    ensures -1.0 < v < 1.0 ==> Trunc(v) == 0
  {
  }

  /** Truncation keeps order. */
  lemma TruncMonotone(u: real, v: real)
    requires u <= v
    ensures Trunc(u) <= Trunc(v)
  {
    if u < 0.0 && 0.0 <= v {
    } else if 0.0 <= u {
      assert Trunc(u) as real <= u <= v;
    } else {
      assert -v <= -u;
      assert Trunc(-v) as real <= -v;
      TruncTowardZero(u);
      TruncTowardZero(v);
    }
  }

  /**
   The clip step keeps order: points farther along an axis never land on a
   smaller cell, so out-of-range values fall onto the nearest edge rather
   than wrapping around.
   */
  lemma WorldCoordMonotone(u: real, v: real, worldSize: int)
    requires u <= v
    ensures WorldCoord(u, worldSize) <= WorldCoord(v, worldSize)
  {
    TruncMonotone(u, v);
  }
}
