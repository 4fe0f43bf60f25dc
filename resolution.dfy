/**
  Power-of-two snapping of bake resolutions: a size becomes 2^k where k is
  round(log2(size)) clamped to [0, 14]; it is used when the X or Y map
  resolution is edited and when the best bake size for a material input is
  chosen from the images that feed it.
*/
module Resolution {

  import opened Options

  const MaxExponent := 14

  function Pow2(k: nat): (r: nat)
    ensures r >= 1
  {
    if k == 0 then 1 else 2 * Pow2(k - 1)
  }

  lemma {:induction false} Pow2Monotone(a: nat, b: nat)
    requires a <= b
    ensures Pow2(a) <= Pow2(b)
    decreases b
  {
    if a < b { Pow2Monotone(a, b - 1); }
  }

  lemma {:induction false} Pow2Add(a: nat, b: nat)
    ensures Pow2(a + b) == Pow2(a) * Pow2(b)
    decreases a
  {
    if a > 0 { Pow2Add(a - 1, b); }
  }

  /** floor(log2(n)) */
  function FloorLog2(n: nat): (k: nat)
    requires n >= 1
    ensures Pow2(k) <= n < Pow2(k + 1)
  {
    if n == 1 then 0 else 1 + FloorLog2(n / 2)
  }

  /**
    round(math.log(x, 2)) for a whole number x >= 1. round(log2 x) == k exactly
    when k - 1/2 <= log2 x < k + 1/2, that is 4^k <= 2*x*x < 4^(k+1); the
    lower bound is never met with equality, so Python's round-half-to-even
    never comes into play.
  */
  function RoundLog2(x: nat): (k: nat)
    requires x >= 1
    ensures Pow2(2 * k) <= 2 * (x * x) < Pow2(2 * k + 2)
  {
    var m := FloorLog2(2 * (x * x));
    Pow2Monotone(2 * (m / 2), m);
    Pow2Monotone(m + 1, 2 * (m / 2) + 2);
    m / 2
  }

  /** The bracket of RoundLog2 holds for one exponent only. */
  lemma RoundLog2Unique(x: nat, k: nat)
    requires x >= 1
    requires Pow2(2 * k) <= 2 * (x * x) < Pow2(2 * k + 2)
    ensures RoundLog2(x) == k
  {
    var j := RoundLog2(x);
    if j < k { Pow2Monotone(2 * j + 2, 2 * k); }
    if k < j { Pow2Monotone(2 * k + 2, 2 * j); }
  }

  /** int(math.pow(2, max(min(round(math.log(x, 2)), 14), 0))) */
  function Snap(x: nat): (r: nat)
    requires x >= 1
  {
    var k := RoundLog2(x);
    Pow2(if k < MaxExponent then k else MaxExponent)
  }

  /**
    A snapped size is a power of two between 1 and 16384, it is the nearest
    power of two in log scale when that is at most 16384, and snapping a power
    of two in that range leaves it unchanged.
  */
  lemma SnapMeaning(x: nat)
    requires x >= 1
    ensures exists k :: 0 <= k <= MaxExponent && Snap(x) == Pow2(k)
    ensures 1 <= Snap(x) <= Pow2(MaxExponent)
    ensures RoundLog2(x) <= MaxExponent ==> Snap(x) == Pow2(RoundLog2(x))
    ensures RoundLog2(x) > MaxExponent ==> Snap(x) == Pow2(MaxExponent)
  {
    var k := RoundLog2(x);
    var e := if k < MaxExponent then k else MaxExponent;
    Pow2Monotone(e, MaxExponent);
  }

  lemma SnapPow2(k: nat)
    requires k <= MaxExponent
    ensures Snap(Pow2(k)) == Pow2(k)
  {
    var x := Pow2(k);
    SquareOfPow2(k);
    RoundLog2Unique(x, k);
  }

  lemma SquareOfPow2(k: nat)
    ensures 2 * (Pow2(k) * Pow2(k)) == Pow2(2 * k + 1)
  {
    Pow2Add(k, k);
    assert k + k == 2 * k;
    var p := Pow2(2 * k);
    assert Pow2(2 * k + 1) == 2 * p;
  }

  /** Snapping twice is the same as snapping once. */
  lemma SnapIdempotent(x: nat)
    requires x >= 1
    ensures Snap(Snap(x)) == Snap(x)
  {
    SnapMeaning(x);
    var k :| 0 <= k <= MaxExponent && Snap(x) == Pow2(k);
    SnapPow2(k);
  }

  /**
    The X (or, with the roles swapped, the Y) resolution callback: the edited
    value is snapped and, with a square image, copied to the other axis.
  */
  function UpdateResolution(edited: nat, other: nat, square: bool): (r: (nat, nat))
    requires edited >= 1
    ensures r.0 == Snap(edited)
    ensures square ==> r.1 == r.0
    ensures !square ==> r.1 == other
  {
    var s := Snap(edited);
    (s, if square then s else other)
  }

  /**
    The callback is idempotent: run again on the values it set, it changes
    nothing.
  */
  lemma UpdateResolutionSettles(edited: nat, other: nat, square: bool)
    requires edited >= 1
    ensures var r := UpdateResolution(edited, other, square);
      r.0 >= 1 && UpdateResolution(r.0, r.1, square) == r
  {
    SnapMeaning(edited);
    SnapIdempotent(edited);
  }

  function Max(a: nat, b: nat): nat { if a < b then b else a }
  function Min(a: nat, b: nat): nat { if a < b then a else b }

  /** The size of an image node in the subtree: None when the node has no image. */
  type ImageSize = Option<(nat, nat)>

  /** The largest width (first) or height (second) among the images that exist, 0 if none. */
  function LargestSide(images: seq<ImageSize>, height: bool): (m: nat)
    ensures forall k :: 0 <= k < |images| && images[k].Some? ==>
      (if height then images[k].value.1 else images[k].value.0) <= m
    ensures m == 0 ||
      exists k :: 0 <= k < |images| && images[k].Some? && (if height then images[k].value.1 else images[k].value.0) == m
  {
    if images == [] then 0
    else
      var rest := LargestSide(images[..|images| - 1], height);
      var last := images[|images| - 1];
      if last.None? then rest
      else Max(rest, if height then last.value.1 else last.value.0)
  }

  /** The bake size chosen from the largest sides, limited by the map resolution. */
  function BakeSize(maxSide: nat, maxOther: nat, mapRes: nat): nat {
    if maxSide != 0 && maxOther != 0 then Min(Snap(maxSide), mapRes) else mapRes
  }

  /**
    get_optimal_image_size over the image sizes of the texture nodes in the
    socket's subtree: (4, 4, false) for an unlinked socket; otherwise each side
    is the snapped largest side limited by the map resolution when images of
    both sides were found, and the map resolution otherwise.
  */
  method OptimalImageSize(linked: bool, images: seq<ImageSize>, mapResX: nat, mapResY: nat)
    returns (x: nat, y: nat, isLinked: bool)
    ensures !linked ==> x == 4 && y == 4 && !isLinked
    ensures linked ==> isLinked
    ensures linked ==>
      var w, h := LargestSide(images, false), LargestSide(images, true);
      x == BakeSize(w, h, mapResX) && y == BakeSize(h, w, mapResY)
    ensures linked ==> x <= mapResX && y <= mapResY
  {
    if !linked {
      return 4, 4, false;
    }
    var maxX, maxY := 0, 0;
    var i := 0;
    while i < |images|
      invariant 0 <= i <= |images|
      invariant maxX == LargestSide(images[..i], false)
      invariant maxY == LargestSide(images[..i], true)
    {
      assert images[..i + 1][..i] == images[..i];
      if images[i].Some? {
        maxX := Max(images[i].value.0, maxX);
        maxY := Max(images[i].value.1, maxY);
      }
      i := i + 1;
    }
    assert images[..i] == images;
    if maxX != 0 && maxY != 0 {
      x := Min(Snap(maxX), mapResX);
      y := Min(Snap(maxY), mapResY);
    } else {
      x, y := mapResX, mapResY;
    }
    isLinked := true;
  }

}
