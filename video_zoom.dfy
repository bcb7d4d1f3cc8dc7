/**
 * The slow zoom-out behind the words (scripts/create_audiobook_video.py):
 * one hundred precomputed crops of a 130% background, from 130% down to
 * 100%, and the index a frame at time `t` picks from them.
 */
module VideoZoom {

  const ZoomSteps: nat := 100

  /** `1.3 - 0.3 * (i / 99)`. */
  function ZoomFactor(i: nat): real
  {
    1.3 - 0.3 * (i as real / 99.0)
  }

  /** The zoom falls strictly from 1.3 at step 0 to exactly 1.0 at step 99. */
  lemma ZoomStrictlyDecreasing(i: nat, j: nat)
    requires i < j
    ensures ZoomFactor(j) < ZoomFactor(i)
  {
  }

  lemma ZoomEnds(i: nat)
    ensures ZoomFactor(0) == 1.3 && ZoomFactor(99) == 1.0
    ensures ZoomFactor(i) > 1.0 <==> i < 99
  {
  }

  /** `int(n * 1.3)`: a side of the enlarged background. */
  function Enlarged(n: nat): (e: int)
    ensures n <= e
  {
    (n as real * 1.3).Floor
  }

  /** One entry of the zoom table: a crop rectangle of the enlarged image, or the plain final image. */
  datatype ZoomFrame = Cropped(x: int, y: int, width: int, height: int) | Final

  /** `int(n / zoom)`: the cropped side at a zoom above 1. */
  function CropSide(n: nat, zoom: real): (c: int)
    requires zoom > 1.0
    ensures 0 <= c <= n
  {
    (n as real / zoom).Floor
  }

  /** The entry the table holds for step `i`. */
  function ZoomEntry(width: nat, height: nat, i: nat): ZoomFrame
  {
    var zoom := ZoomFactor(i);
    if zoom > 1.0 then
      var cw := CropSide(width, zoom);
      var ch := CropSide(height, zoom);
      Cropped((Enlarged(width) - cw) / 2, (Enlarged(height) - ch) / 2, cw, ch)
    else Final
  }

  /** Fills the table exactly as the precomputation loop does. */
  method BuildZoomCache(width: nat, height: nat) returns (cache: map<nat, ZoomFrame>)
    ensures forall i: nat :: i in cache <==> i < ZoomSteps
    ensures forall i | i in cache :: cache[i] == ZoomEntry(width, height, i)
  {
    cache := map[];
    var i: nat := 0;
    while i < ZoomSteps
      invariant i <= ZoomSteps
      invariant forall k: nat :: k in cache <==> k < i
      invariant forall k | k in cache :: cache[k] == ZoomEntry(width, height, k)
    {
      var progress := i as real / (ZoomSteps - 1) as real;
      var zoom := 1.3 - 0.3 * progress;
      if zoom > 1.0 {
        var cropWidth := CropSide(width, zoom);
        var cropHeight := CropSide(height, zoom);
        var cropX := (Enlarged(width) - cropWidth) / 2;
        var cropY := (Enlarged(height) - cropHeight) / 2;
        cache := cache[i := Cropped(cropX, cropY, cropWidth, cropHeight)];
      } else {
        cache := cache[i := Final];
      }
      i := i + 1;
    }
  }

  /** Steps 0..98 are crops, step 99 is the final image. */
  lemma EntryKinds(width: nat, height: nat, i: nat)
    requires i < ZoomSteps
    ensures ZoomEntry(width, height, i).Cropped? <==> i < 99
  {
  }

  /** Every crop lies inside the enlarged image and is centred in it, to within one pixel. */
  lemma CropInsideAndCentred(width: nat, height: nat, i: nat)
    requires i < 99
    ensures var e := ZoomEntry(width, height, i);
      e.Cropped?
      && 0 <= e.x && e.x + e.width <= Enlarged(width)
      && 0 <= e.y && e.y + e.height <= Enlarged(height)
      && e.x <= Enlarged(width) - (e.x + e.width) <= e.x + 1
      && e.y <= Enlarged(height) - (e.y + e.height) <= e.y + 1
  {
  }

  /** Later steps crop at least as much of the image: crop sides never shrink. */
  lemma CropGrows(width: nat, height: nat, i: nat, j: nat)
    requires i <= j < 99
    ensures ZoomEntry(width, height, i).width <= ZoomEntry(width, height, j).width
    ensures ZoomEntry(width, height, i).height <= ZoomEntry(width, height, j).height
  {
    var zi := ZoomFactor(i);
    var zj := ZoomFactor(j);
    assert zj <= zi;
    DivideByLarger(width as real, zi, zj);
    DivideByLarger(height as real, zi, zj);
  }

  lemma DivideByLarger(n: real, big: real, small: real)
    requires n >= 0.0 && big >= small > 0.0
    ensures (n / big).Floor <= (n / small).Floor
  {
    assert n / small - n / big == n * (big - small) / (big * small);
    assert n * (big - small) >= 0.0;
  }

  /** `int(min(0.99, t / video_duration) * 99)`: the table index a frame at time `t` uses. */
  function RenderIndex(t: real, videoDuration: real): int
    requires videoDuration > 0.0
  {
    var p := t / videoDuration;
    ((if p < 0.99 then p else 0.99) * 99.0).Floor
  }

  /** For `t >= 0` the index stays in 0..98: the final image at 99 is never shown. */
  lemma RenderIndexRange(t: real, videoDuration: real)
    requires videoDuration > 0.0 && t >= 0.0
    ensures 0 <= RenderIndex(t, videoDuration) <= 98
    ensures ZoomEntry(1920, 1080, RenderIndex(t, videoDuration)).Cropped?
  {
    assert t / videoDuration >= 0.0;
  }

  /** The zoom only ever moves one way: later frames never use an earlier step. */
  lemma RenderIndexMonotone(t1: real, t2: real, videoDuration: real)
    requires videoDuration > 0.0 && 0.0 <= t1 <= t2
    ensures RenderIndex(t1, videoDuration) <= RenderIndex(t2, videoDuration)
  {
    assert t2 / videoDuration - t1 / videoDuration == (t2 - t1) / videoDuration;
  }
}
