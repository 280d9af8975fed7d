/**
 * QuantizationService.findNearestColor: a left-to-right scan of the palette
 * keeping the first colour at minimal Lab distance.
 */
module NearestColor {
  import W = Wrappers
  import opened ProcessingModels

  /** d[k] is minimal in d and every earlier entry is strictly larger. */
  ghost predicate IsFirstMinimum(d: seq<real>, k: int) {
    0 <= k < |d| &&
    (forall j :: 0 <= j < |d| ==> d[k] <= d[j]) &&
    (forall j :: 0 <= j < k ==> d[k] < d[j])
  }

  /** One more step of the scan: a new entry takes over only when strictly smaller. */
  lemma FirstMinimumSnoc(d: seq<real>, k: int, x: real)
    requires IsFirstMinimum(d, k)
    ensures IsFirstMinimum(d + [x], if x < d[k] then |d| else k)
  {
    var e := d + [x];
    assert forall j :: 0 <= j < |d| ==> e[j] == d[j];
  }

  /** At most one index is the first minimum. */
  lemma FirstMinimumUnique(d: seq<real>, k1: int, k2: int)
    requires IsFirstMinimum(d, k1) && IsFirstMinimum(d, k2)
    ensures k1 == k2
  {
    assert d[k1] <= d[k2] && d[k2] <= d[k1];
  }

  function Keys(palette: seq<Color>): (ks: seq<Rgb>)
    ensures |ks| == |palette|
    ensures forall i :: 0 <= i < |palette| ==> ks[i] == palette[i].Key()
  {
    seq(|palette|, i requires 0 <= i < |palette| => palette[i].Key())
  }

  function Distances(pow: Pow, c: Rgb, palette: seq<Rgb>): (d: seq<real>)
    ensures |d| == |palette|
    ensures forall i :: 0 <= i < |palette| ==> d[i] == ColorDistance(pow, c, palette[i])
  {
    seq(|palette|, i requires 0 <= i < |palette| => ColorDistance(pow, c, palette[i]))
  }

  lemma DistancesSnoc(pow: Pow, c: Rgb, ps: seq<Rgb>, i: nat)
    requires i < |ps|
    ensures Distances(pow, c, ps[..i+1]) == Distances(pow, c, ps[..i]) + [ColorDistance(pow, c, ps[i])]
  {
    var lhs := Distances(pow, c, ps[..i+1]);
    var rhs := Distances(pow, c, ps[..i]) + [ColorDistance(pow, c, ps[i])];
    assert |lhs| == |rhs|;
    forall j | 0 <= j < |lhs| ensures lhs[j] == rhs[j] {
    }
  }

  /**
   * Index of the palette entry findNearestColor returns: a running minimum
   * over the palette in which a later entry takes over only when it is
   * strictly closer.
   */
  function NearestIndex(pow: Pow, c: Rgb, palette: seq<Rgb>): (k: nat)
    requires |palette| > 0
    ensures k < |palette|
    decreases |palette|
  {
    if |palette| == 1 then 0
    else
      var k := NearestIndex(pow, c, palette[..|palette| - 1]);
      if ColorDistance(pow, c, palette[|palette| - 1]) < ColorDistance(pow, c, palette[k]) then |palette| - 1 else k
  }

  /** The running minimum finds the first entry at minimal distance. */
  lemma {:induction false} NearestIsFirstMinimum(pow: Pow, c: Rgb, palette: seq<Rgb>)
    requires |palette| > 0
    ensures IsFirstMinimum(Distances(pow, c, palette), NearestIndex(pow, c, palette))
    decreases |palette|
  {
    var n := |palette|;
    if n > 1 {
      var init := palette[..n - 1];
      NearestIsFirstMinimum(pow, c, init);
      var k := NearestIndex(pow, c, init);
      DistancesSnoc(pow, c, palette, n - 1);
      assert palette[..n] == palette;
      FirstMinimumSnoc(Distances(pow, c, init), k, ColorDistance(pow, c, palette[n - 1]));
      assert init[k] == palette[k];
    }
  }

  /** The chosen entry is at minimal distance, and every entry before it is strictly farther. */
  lemma NearestIsClosest(pow: Pow, c: Rgb, palette: seq<Rgb>)
    requires |palette| > 0
    ensures forall j :: 0 <= j < |palette| ==>
      ColorDistance(pow, c, palette[NearestIndex(pow, c, palette)]) <= ColorDistance(pow, c, palette[j])
    ensures forall j :: 0 <= j < NearestIndex(pow, c, palette) ==>
      ColorDistance(pow, c, palette[NearestIndex(pow, c, palette)]) < ColorDistance(pow, c, palette[j])
  {
    NearestIsFirstMinimum(pow, c, palette);
  }

  /** A colour whose Lab value is that of the first palette entry maps to that entry. */
  lemma ExactFirstEntry(pow: Pow, c: Rgb, palette: seq<Rgb>)
    requires |palette| > 0 && RgbToLab(pow, c) == RgbToLab(pow, palette[0])
    ensures NearestIndex(pow, c, palette) == 0
  {
    var d := Distances(pow, c, palette);
    assert d[0] == 0.0;
    NearestIsFirstMinimum(pow, c, palette);
  }

  /**
   * findNearestColor. Color.distance fills the Lab caches of the colour and of
   * every palette entry. An empty palette yields undefined (here null).
   */
  method FindNearestColor(pow: Pow, color: Color, palette: seq<Color>) returns (nearest: Color?)
    requires color.Valid(pow)
    requires forall k :: 0 <= k < |palette| ==> palette[k].Valid(pow)
    modifies color, palette
    ensures color.Valid(pow)
    ensures forall k :: 0 <= k < |palette| ==> palette[k].Valid(pow)
    ensures palette == [] ==> nearest == null
    ensures palette != [] ==> nearest == palette[NearestIndex(pow, color.Key(), Keys(palette))]
  {
    var minDistance: W.Option<real> := W.None;  // Infinity
    nearest := if |palette| > 0 then palette[0] else null;
    ghost var target := color.Key();
    ghost var keys := Keys(palette);
    ghost var d: seq<real> := [];  // the distances computed so far
    ghost var best := 0;
    for i := 0 to |palette|
      invariant color.Valid(pow)
      invariant forall k :: 0 <= k < |palette| ==> palette[k].Valid(pow)
      invariant d == Distances(pow, target, keys[..i])
      invariant i == 0 ==> minDistance.None? && nearest == (if |palette| > 0 then palette[0] else null)
      invariant i > 0 ==> IsFirstMinimum(d, best) && minDistance == W.Some(d[best])
      invariant i > 0 ==> nearest == palette[best]
    {
      var distance := color.Distance(pow, palette[i]);
      DistancesSnoc(pow, target, keys, i);
      if i > 0 {
        FirstMinimumSnoc(d, best, distance);
      }
      if minDistance.None? || distance < minDistance.value {
        minDistance := W.Some(distance);
        nearest := palette[i];
        best := i;
      }
      d := d + [distance];
    }
    assert keys[..|palette|] == keys;
    if |palette| > 0 {
      NearestIsFirstMinimum(pow, target, keys);
      FirstMinimumUnique(d, best, NearestIndex(pow, target, keys));
    }
  }
}
