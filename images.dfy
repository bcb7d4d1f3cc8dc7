/**
 * `scripts/optimize_images.py`: per-device copies of the generated art. Each
 * device has a size box, a JPEG quality, a grayscale flag and an output
 * encoding; an image is converted to a suitable colour mode, scaled down (never
 * up) to fit the box with its aspect ratio kept, and saved under its target
 * name. Pixel work and encoding belong to the image library and are left out;
 * file sizes and the library's success are inputs.
 */
module Images {
  import opened Wrappers
  import opened Text
  import Paths

  datatype Encoding = JPEG | PNG

  datatype Spec = Spec(maxWidth: nat, maxHeight: nat, quality: nat, grayscale: bool, encoding: Encoding)

  /** `DEVICE_SPECS`. */
  function DeviceSpec(format: string): Option<Spec>
  {
    if format == "kindle" then Some(Spec(600, 800, 85, true, JPEG))
    else if format == "epub" then Some(Spec(768, 1024, 90, false, JPEG))
    else if format == "pdf" then Some(Spec(1200, 1600, 95, false, PNG))
    else if format == "pages" then Some(Spec(800, 600, 88, false, JPEG))
    else None
  }

  /** Only the e-ink device is grayscale, only print keeps PNG, and every box is non-empty. */
  lemma {:induction false} DeviceSpecs(format: string)
    ensures DeviceSpec(format).Some? <==> format in {"kindle", "epub", "pdf", "pages"}
    ensures DeviceSpec(format).Some? ==>
      var s := DeviceSpec(format).value;
      && s.maxWidth > 0 && s.maxHeight > 0 && s.quality <= 100
      && (s.grayscale <==> format == "kindle")
      && (s.encoding == PNG <==> format == "pdf")
  {
  }

  // ----- colour mode -----

  /** PIL's image modes, as far as the rules here tell them apart. */
  datatype Mode = RGB | L | OtherMode(name: string)

  /** The mode after the conversions: anything but RGB or L to RGB, then to L for grayscale, and back to RGB for a grayscale JPEG. */
  function FinalMode(mode: Mode, spec: Spec): Mode
  {
    var m := if mode != RGB && mode != L then RGB else mode;
    if spec.grayscale then
      if spec.encoding == JPEG then RGB else L
    else m
  }

  /** The saved image is always RGB or L: L exactly for a grayscale PNG spec, or for a colour spec given an L image. */
  lemma {:induction false} FinalModeRule(mode: Mode, spec: Spec)
    ensures FinalMode(mode, spec) == RGB || FinalMode(mode, spec) == L
    ensures FinalMode(mode, spec) == L <==> (spec.grayscale && spec.encoding == PNG) || (!spec.grayscale && mode == L)
    ensures mode.OtherMode? && !spec.grayscale ==> FinalMode(mode, spec) == RGB
  {
  }

  // ----- size -----

  datatype Size = Size(width: nat, height: nat)

  function Min(a: real, b: real): real
  {
    if a <= b then a else b
  }

  /** `min(max_w / w, max_h / h, 1.0)`. */
  function ScaleFactor(size: Size, spec: Spec): real
    requires size.width > 0 && size.height > 0
  {
    Min(Min(spec.maxWidth as real / size.width as real, spec.maxHeight as real / size.height as real), 1.0)
  }

  /** The size after scaling: unchanged unless the factor is below one; a zero dimension makes the division fail. */
  function Resized(size: Size, spec: Spec): Option<Size>
  {
    if size.width == 0 || size.height == 0 then None
    else
      var s := ScaleFactor(size, spec);
      if s < 1.0 then Some(Size((size.width as real * s).Floor as nat, (size.height as real * s).Floor as nat))
      else Some(size)
  }

  predicate Fits(size: Size, spec: Spec)
  {
    size.width <= spec.maxWidth && size.height <= spec.maxHeight
  }

  lemma {:induction false} RatioAtLeastOne(m: nat, d: nat)
    requires 0 < d <= m
    ensures m as real / d as real >= 1.0
  {
    assert (m as real / d as real) * d as real == m as real;
  }

  lemma {:induction false} RatioBelowOne(m: nat, d: nat)
    requires m < d
    ensures m as real / d as real < 1.0
  {
    assert (m as real / d as real) * d as real == m as real;
  }

  /** The factor is at most one, at most each side's ratio, and exactly one when the image fits. */
  lemma {:induction false} FactorBounds(size: Size, spec: Spec)
    requires size.width > 0 && size.height > 0
    ensures var s := ScaleFactor(size, spec);
      && 0.0 <= s <= 1.0
      && s <= spec.maxWidth as real / size.width as real
      && s <= spec.maxHeight as real / size.height as real
      && (s == 1.0 <==> Fits(size, spec))
  {
    if size.width <= spec.maxWidth {
      RatioAtLeastOne(spec.maxWidth, size.width);
    } else {
      RatioBelowOne(spec.maxWidth, size.width);
    }
    if size.height <= spec.maxHeight {
      RatioAtLeastOne(spec.maxHeight, size.height);
    } else {
      RatioBelowOne(spec.maxHeight, size.height);
    }
  }

  /** Shrinking one side by a factor below one and below `m / d` lands strictly under `d` and at most at `m`. */
  lemma {:induction false} ShrunkSide(d: nat, s: real, m: nat)
    requires d > 0 && 0.0 <= s < 1.0 && s <= m as real / d as real
    ensures 0 <= (d as real * s).Floor < d
    ensures (d as real * s).Floor <= m
  {
    ScaleBelow(d as real, s, m as real);
    FloorBounds(d as real * s, d, m);
  }

  /** A factor in `[0, 1)` that is at most `m / d` scales `d` into `[0, d)` and to at most `m`. */
  lemma {:induction false} ScaleBelow(d: real, s: real, m: real)
    requires d > 0.0 && 0.0 <= s < 1.0 && s <= m / d
    ensures 0.0 <= d * s < d && d * s <= m
  {
    MulMonotone(d, 0.0, s);
    MulMonotone(d, s, 1.0);
    MulMonotone(d, s, m / d);
    assert d * (m / d) == m;
  }

  /** The floor of a number in `[0, d)` that is at most `m` lies in `0..d - 1` and is at most `m`. */
  lemma {:induction false} FloorBounds(x: real, d: nat, m: nat)
    requires 0.0 <= x < d as real && x <= m as real
    ensures 0 <= x.Floor < d && x.Floor <= m
  {
    assert x.Floor as real <= x;
  }

  /** Multiplying by a positive number keeps the order. */
  lemma {:induction false} MulMonotone(d: real, a: real, b: real)
    requires d > 0.0 && a <= b
    ensures d * a <= d * b
    ensures a < b ==> d * a < d * b
  {
    assert d * b - d * a == d * (b - a);
  }

  /** The result never exceeds the box or the original; it is the original exactly when that already fits. */
  lemma {:induction false} ResizedFits(size: Size, spec: Spec)
    requires size.width > 0 && size.height > 0
    ensures Resized(size, spec).Some?
    ensures var r := Resized(size, spec).value;
      && r.width <= size.width && r.height <= size.height
      && (spec.maxWidth > 0 && spec.maxHeight > 0 ==> Fits(r, spec))
      && (r == size <==> Fits(size, spec))
  {
    var s := ScaleFactor(size, spec);
    FactorBounds(size, spec);
    if s < 1.0 {
      ShrunkSide(size.width, s, spec.maxWidth);
      ShrunkSide(size.height, s, spec.maxHeight);
    }
  }

  /** The factor both sides are multiplied by: the scale factor when it is below one, else one. */
  function AppliedFactor(size: Size, spec: Spec): real
    requires size.width > 0 && size.height > 0
  {
    if ScaleFactor(size, spec) < 1.0 then ScaleFactor(size, spec) else 1.0
  }

  /** Both sides are scaled by the same factor, so the aspect ratio is kept up to truncation. */
  lemma {:induction false} ResizedKeepsAspect(size: Size, spec: Spec)
    requires size.width > 0 && size.height > 0
    ensures 0.0 <= AppliedFactor(size, spec) <= 1.0
    ensures var r, f := Resized(size, spec).value, AppliedFactor(size, spec);
      r.width == (size.width as real * f).Floor && r.height == (size.height as real * f).Floor
  {
    FactorBounds(size, spec);
    if ScaleFactor(size, spec) >= 1.0 {
      assert size.width as real * 1.0 == size.width as real;
      assert size.height as real * 1.0 == size.height as real;
    }
  }

  // ----- one image -----

  /** What `optimize_image` produces: the mode, size and encoding of the saved file, or failure. */
  datatype Optimized = Optimized(mode: Mode, size: Size, encoding: Encoding, quality: Option<nat>)

  /**
   * The resize succeeds: both original sides are non-zero (else the ratio
   * divides by zero) and, when the image is shrunk, neither new side
   * truncates to zero (the library refuses an empty image).
   */
  predicate Resizable(size: Size, spec: Spec)
  {
    Resized(size, spec).Some? && Resized(size, spec).value.width > 0 && Resized(size, spec).value.height > 0
  }

  /** A very thin image can shrink to nothing: 10000 by 1 in the e-ink box gives a height of 0. */
  lemma {:induction false} ThinImageNotResizable()
    ensures DeviceSpec("kindle").Some? && !Resizable(Size(10000, 1), DeviceSpec("kindle").value)
  {
    var spec := DeviceSpec("kindle").value;
    var size := Size(10000, 1);
    assert ScaleFactor(size, spec) == 600.0 / 10000.0;
    assert (1 as real * (600.0 / 10000.0)).Floor == 0;
  }

  /** An image that already fits is always resizable, since it is kept as it is. */
  lemma {:induction false} FittingImageResizable(size: Size, spec: Spec)
    requires size.width > 0 && size.height > 0 && Fits(size, spec)
    ensures Resizable(size, spec) && Resized(size, spec) == Some(size)
  {
    FactorBounds(size, spec);
  }

  /**
   * `optimize_image`: `readable` is whether the library could read the file and
   * `saved` whether it could write the result; any error makes it fail.
   */
  method OptimizeImage(readable: bool, mode: Mode, size: Size, spec: Spec, saved: bool) returns (r: Option<Optimized>)
    ensures r.Some? <==> readable && saved && Resizable(size, spec)
    ensures r.Some? ==>
      && r.value.mode == FinalMode(mode, spec)
      && Some(r.value.size) == Resized(size, spec)
      && r.value.size.width > 0 && r.value.size.height > 0
      && r.value.encoding == spec.encoding
      && r.value.quality == (if spec.encoding == JPEG then Some(spec.quality) else None)
  {
    if !readable {
      return None;
    }
    var m := mode;
    if m != RGB && m != L {
      m := RGB;
    }
    if spec.grayscale {
      m := L;
      if spec.encoding == JPEG {
        m := RGB;
      }
    }
    var resized := Resized(size, spec);
    if resized.None? || resized.value.width == 0 || resized.value.height == 0 {
      return None;
    }
    var quality := if spec.encoding == JPEG then Some(spec.quality) else None;
    if !saved {
      return None;
    }
    r := Some(Optimized(m, resized.value, spec.encoding, quality));
  }

  // ----- a whole format -----

  /** The optimized copy's name: the stem with `.jpg` for JPEG specs, the original name otherwise. */
  function TargetName(name: string, spec: Spec): string
  {
    if spec.encoding == JPEG then Paths.Stem(name) + ".jpg" else name
  }

  /** `chapter_1.png` becomes `chapter_1.jpg` for a JPEG device and stays as it is for PNG. */
  lemma {:induction false} TargetNames(base: string, spec: Spec)
    requires base != []
    ensures spec.encoding == JPEG ==> TargetName(base + ".png", spec) == base + ".jpg"
    ensures spec.encoding == PNG ==> TargetName(base + ".png", spec) == base + ".png"
  {
    assert base + ".png" == base + "." + "png";
    Paths.WithExtension(base, "png");
  }

  /** A source image: its file name and its size on disk. */
  datatype ImageFile = ImageFile(name: string, bytes: nat)

  /** `source_dir.glob("*.png")`: the entries whose names end in `.png`, in listing order. */
  function PngFiles(listing: seq<ImageFile>): (r: seq<ImageFile>)
    ensures forall f :: f in r <==> f in listing && EndsWith(f.name, ".png")
    ensures |r| <= |listing|
  {
    if listing == [] then []
    else
      var last := listing[|listing| - 1];
      assert listing == listing[..|listing| - 1] + [last];
      PngFiles(listing[..|listing| - 1]) + (if EndsWith(last.name, ".png") then [last] else [])
  }

  /** Listing order is kept: the images of two listings are those of the first, then those of the second. */
  lemma {:induction false} PngFilesAppend(a: seq<ImageFile>, b: seq<ImageFile>)
    ensures PngFiles(a + b) == PngFiles(a) + PngFiles(b)
    decreases |b|
  {
    if b == [] {
      assert a + b == a;
    } else {
      var init := b[..|b| - 1];
      assert (a + b)[..|a + b| - 1] == a + init;
      PngFilesAppend(a, init);
    }
  }

  /** The metadata check inside the loop never fires: no name ends in both `.png` and `_metadata.json`. */
  lemma {:induction false} MetadataNeverPng(name: string)
    requires EndsWith(name, ".png")
    ensures !EndsWith(name, "_metadata.json")
  {
    assert name[|name| - 1] == name[|name| - 4..][3];
    if |name| >= 14 {
      assert name[|name| - 14..][13] == name[|name| - 1];
    }
  }

  /** The outcome of `optimize_format_images`. */
  datatype Report =
    | UnknownFormat
    | NoSourceDir
    | NoImages
    | Totals(succeeded: nat, originalBytes: nat, optimizedBytes: nat, targets: seq<string>)

  /** Bytes of all the images, whether or not they were optimized. */
  function OriginalBytes(files: seq<ImageFile>): nat
  {
    if files == [] then 0 else OriginalBytes(files[..|files| - 1]) + files[|files| - 1].bytes
  }

  /** Bytes of the optimized copies, counting only the images that succeeded. */
  function OptimizedBytes(files: seq<ImageFile>, optimize: string -> Option<nat>): nat
  {
    if files == [] then 0
    else
      var last := files[|files| - 1];
      OptimizedBytes(files[..|files| - 1], optimize) + (if optimize(last.name).Some? then optimize(last.name).value else 0)
  }

  function Succeeded(files: seq<ImageFile>, optimize: string -> Option<nat>): nat
  {
    if files == [] then 0
    else Succeeded(files[..|files| - 1], optimize) + (if optimize(files[|files| - 1].name).Some? then 1 else 0)
  }

  function Targets(files: seq<ImageFile>, spec: Spec): (r: seq<string>)
    ensures |r| == |files| && forall k | 0 <= k < |r| :: r[k] == TargetName(files[k].name, spec)
  {
    seq(|files|, k requires 0 <= k < |files| => TargetName(files[k].name, spec))
  }

  /** The successes are at most all images; all succeed exactly when every optimization did. */
  lemma {:induction false} SucceededBounds(files: seq<ImageFile>, optimize: string -> Option<nat>)
    ensures Succeeded(files, optimize) <= |files|
    ensures Succeeded(files, optimize) == |files| <==> forall k | 0 <= k < |files| :: optimize(files[k].name).Some?
    ensures Succeeded(files, optimize) == 0 ==> OptimizedBytes(files, optimize) == 0
  {
    if files != [] {
      var init := files[..|files| - 1];
      SucceededBounds(init, optimize);
      assert forall k | 0 <= k < |init| :: init[k] == files[k];
    }
  }

  /** The totals leave out the optimized size of a failed image but still count its original size. */
  lemma {:induction false} FailureCountsOriginal(files: seq<ImageFile>, f: ImageFile, optimize: string -> Option<nat>)
    requires optimize(f.name).None?
    ensures OriginalBytes(files + [f]) == OriginalBytes(files) + f.bytes
    ensures OptimizedBytes(files + [f], optimize) == OptimizedBytes(files, optimize)
    ensures Succeeded(files + [f], optimize) == Succeeded(files, optimize)
  {
    assert (files + [f])[..|files|] == files;
  }

  /**
   * `optimize_format_images`: `dirExists` and `listing` describe `art/<format>`,
   * and `optimize(name)` is the optimized file's size when `optimize_image`
   * succeeded for that file.
   */
  method OptimizeFormatImages(format: string, dirExists: bool, listing: seq<ImageFile>, optimize: string -> Option<nat>)
    returns (r: Report)
    ensures DeviceSpec(format).None? ==> r == UnknownFormat
    ensures DeviceSpec(format).Some? && !dirExists ==> r == NoSourceDir
    ensures DeviceSpec(format).Some? && dirExists && PngFiles(listing) == [] ==> r == NoImages
    ensures DeviceSpec(format).Some? && dirExists && PngFiles(listing) != [] ==>
      var files := PngFiles(listing);
      r == Totals(Succeeded(files, optimize), OriginalBytes(files), OptimizedBytes(files, optimize),
                  Targets(files, DeviceSpec(format).value))
  {
    var spec := DeviceSpec(format);
    if spec.None? {
      return UnknownFormat;
    }
    if !dirExists {
      return NoSourceDir;
    }
    var files := PngFiles(listing);
    if files == [] {
      return NoImages;
    }
    r := TotalFiles(files, spec.value, optimize);
  }

  /** The loop over the PNG files, adding up the totals. */
  method TotalFiles(files: seq<ImageFile>, spec: Spec, optimize: string -> Option<nat>) returns (r: Report)
    requires forall k | 0 <= k < |files| :: EndsWith(files[k].name, ".png")
    ensures r == Totals(Succeeded(files, optimize), OriginalBytes(files), OptimizedBytes(files, optimize), Targets(files, spec))
  {
    var succeeded, original, optimized, targets := 0, 0, 0, [];
    var i := 0;
    while i < |files|
      invariant 0 <= i <= |files|
      invariant succeeded == Succeeded(files[..i], optimize)
      invariant original == OriginalBytes(files[..i])
      invariant optimized == OptimizedBytes(files[..i], optimize)
      invariant targets == Targets(files[..i], spec)
    {
      MetadataNeverPng(files[i].name);
      TotalsStep(files, i, optimize, spec);
      if !EndsWith(files[i].name, "_metadata.json") {
        var target := TargetName(files[i].name, spec);
        targets := targets + [target];
        original := original + files[i].bytes;
        var result := optimize(files[i].name);
        if result.Some? {
          succeeded := succeeded + 1;
          optimized := optimized + result.value;
        }
      }
      i := i + 1;
    }
    assert files[..i] == files;
    r := Totals(succeeded, original, optimized, targets);
  }

  lemma {:induction false} TotalsStep(files: seq<ImageFile>, i: nat, optimize: string -> Option<nat>, spec: Spec)
    requires i < |files|
    ensures var f, p := files[i], files[..i];
      && Succeeded(files[..i + 1], optimize) == Succeeded(p, optimize) + (if optimize(f.name).Some? then 1 else 0)
      && OriginalBytes(files[..i + 1]) == OriginalBytes(p) + f.bytes
      && OptimizedBytes(files[..i + 1], optimize) == OptimizedBytes(p, optimize) + (if optimize(f.name).Some? then optimize(f.name).value else 0)
      && Targets(files[..i + 1], spec) == Targets(p, spec) + [TargetName(f.name, spec)]
  {
    assert files[..i + 1][..i] == files[..i];
    var a, b := Targets(files[..i], spec), Targets(files[..i + 1], spec);
    forall k | 0 <= k < |a| ensures b[k] == a[k] {
      assert files[..i + 1][k] == files[..i][k];
    }
    assert b == a + [TargetName(files[i].name, spec)];
  }
}
