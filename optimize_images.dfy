/** `_scripts/optimize-images.js`: for every original image, plan four widths
    times three formats of responsive variants, skip those over the encoders'
    limits, isolate each variant's failure, add a social-media pair when the
    output directory is a "social" one, and tally what was produced. sharp
    and the file system are oracles: what they answer is a parameter. */
module OptimizeImages {
  import opened Text
  import opened Paths

  // ---------------------------------------------------------------------
  // Configuration
  // ---------------------------------------------------------------------

  datatype Format = Avif | Webp | Jpg

  /** `format.ext`. */
  function Ext(f: Format): string {
    match f
    case Avif => "avif"
    case Webp => "webp"
    case Jpg => "jpg"
  }

  const INPUT_DIRS: seq<string> := ["assets/img/originals"]
  const SIZES: seq<nat> := [400, 800, 1200, 1600]
  const FORMATS: seq<Format> := [Avif, Webp, Jpg]
  const MAX_PIXELS_AVIF: int := 16000 * 16000
  const MAX_PIXELS_WEBP: int := 16383 * 16383
  const MAX_DIMENSION: int := 16000

  /** What `main` adds to `totalVariants` per image,
      `sizes.length * formats.length` (`VariantsPerImage`). */
  const VARIANTS_PER_IMAGE: nat := 12

  // ---------------------------------------------------------------------
  // getImages
  // ---------------------------------------------------------------------

  const IMAGE_EXTENSIONS: seq<string> := [".jpg", ".jpeg", ".png", ".webp", ".tiff"]

  /** The test `/\.(jpg|jpeg|png|webp|tiff)$/i`. */
  predicate IsImageName(file: string) {
    exists e :: e in IMAGE_EXTENSIONS && EndsWith(ToLower(file), e)
  }

  /** One element of `getImages`' result. */
  datatype Image = Image(fullPath: string, filename: string, ext: string)

  /** `{ fullPath: path.join(dir, file), filename: path.parse(file).name,
      ext: path.parse(file).ext }`. */
  function ToImage(dir: string, file: string): (r: Image)
    ensures r.fullPath == Join(dir, file) && r.filename + r.ext == file
  {
    var (name, ext) := ParseBase(file);
    Image(Join(dir, file), name, ext)
  }

  /** `getImages(dir)`, given what `readdir` answers (None when it throws):
      the image names of the listing, in listing order, as records; `[]`
      when the directory cannot be read. */
  function GetImages(dir: string, listing: Option<seq<string>>): (r: seq<Image>)
    ensures listing.None? ==> r == []
    ensures listing.Some? ==> |r| <= |listing.value|
  {
    match listing
    case None => []
    case Some(files) => ImagesOf(dir, Filter(files, IsImageName))
  }

  function ImagesOf(dir: string, files: seq<string>): (r: seq<Image>)
    ensures |r| == |files| && forall i :: 0 <= i < |files| ==> r[i] == ToImage(dir, files[i])
  {
    seq(|files|, i requires 0 <= i < |files| => ToImage(dir, files[i]))
  }

  /** `getImages` keeps exactly the image names of the listing: every record
      is that of a listed image name (its name and extension put back
      together), and every listed image name has its record. */
  lemma GetImagesSelects(dir: string, files: seq<string>)
    ensures var r := GetImages(dir, Some(files));
      && (forall i :: 0 <= i < |r| ==>
            var file := r[i].filename + r[i].ext;
            file in files && IsImageName(file) && r[i] == ToImage(dir, file))
      && (forall file :: file in files && IsImageName(file) ==> ToImage(dir, file) in r)
  {
    var kept := Filter(files, IsImageName);
    var r := GetImages(dir, Some(files));
    assert r == ImagesOf(dir, kept);
    FilterSelects(files, IsImageName);
    forall i | 0 <= i < |r|
      ensures r[i].filename + r[i].ext in files && IsImageName(r[i].filename + r[i].ext)
    {
      assert kept[i] in kept;
    }
    forall file | file in files && IsImageName(file)
      ensures ToImage(dir, file) in r
    {
      var j :| 0 <= j < |kept| && kept[j] == file;
      assert r[j] == ToImage(dir, file);
    }
  }

  /** Each image extension is a dot followed by dot-free characters, so
      `Paths.ParseBaseExtension` applies to every name the filter keeps: the
      record's `ext` is the suffix that matched and `filename` what precedes
      it. */
  lemma ImageExtensionShape(e: string)
    requires e in IMAGE_EXTENSIONS
    ensures |e| >= 2 && e[0] == '.' && forall k :: 1 <= k < |e| ==> e[k] != '.'
  {
  }

  /** The record of a name the filter keeps through extension `e`: `ext` is
      the matched suffix, whose lowered form is `e`, and `filename` is what
      precedes it; a name that is only the extension has no `ext`. */
  lemma ImageRecord(dir: string, file: string, e: string)
    requires e in IMAGE_EXTENSIONS && EndsWith(ToLower(file), e)
    ensures var r := ToImage(dir, file);
      && (|file| == |e| ==> r.filename == file && r.ext == "")
      && (|file| > |e| ==> r.filename == file[..|file| - |e|] && r.ext == file[|file| - |e|..] && ToLower(r.ext) == e)
  {
    ImageExtensionShape(e);
    ParseBaseExtension(file, ToLower(file), e);
    LowerEnding(file, e);
  }

  /** Every record `getImages` returns is that of a listed name, split by
      `path.parse` at an image extension: its lowered `ext` is one of the
      five, or it is empty for a name that is only an extension. */
  lemma GetImagesExtensions(dir: string, files: seq<string>)
    ensures var r := GetImages(dir, Some(files));
      forall i :: 0 <= i < |r| ==> r[i].ext == "" || ToLower(r[i].ext) in IMAGE_EXTENSIONS
  {
    var r := GetImages(dir, Some(files));
    GetImagesSelects(dir, files);
    forall i | 0 <= i < |r|
      ensures r[i].ext == "" || ToLower(r[i].ext) in IMAGE_EXTENSIONS
    {
      var file := r[i].filename + r[i].ext;
      var e :| e in IMAGE_EXTENSIONS && EndsWith(ToLower(file), e);
      ImageRecord(dir, file, e);
    }
  }

  // ---------------------------------------------------------------------
  // canGenerateFormat and the target dimensions
  // ---------------------------------------------------------------------

  /** `canGenerateFormat(width, height, format.ext)`. */
  function CanGenerateFormat(width: int, height: int, f: Format): bool {
    var totalPixels := width * height;
    if f == Avif && totalPixels > MAX_PIXELS_AVIF then false
    else if f == Webp && totalPixels > MAX_PIXELS_WEBP then false
    else if width > MAX_DIMENSION || height > MAX_DIMENSION then false
    else true
  }

  /** The dimension limit alone decides: within 16000 x 16000 no image has
      more pixels than the AVIF or WebP limits, so those two checks never
      reject anything the dimension check lets through, and JPEG is bound
      by the dimension check alone. */
  lemma PixelLimitsNeverBind(width: nat, height: nat, f: Format)
    ensures CanGenerateFormat(width, height, f) <==> width <= MAX_DIMENSION && height <= MAX_DIMENSION
  {
    if width <= MAX_DIMENSION && height <= MAX_DIMENSION {
      assert width * height <= MAX_DIMENSION * height;
      assert MAX_DIMENSION * height <= MAX_DIMENSION * MAX_DIMENSION;
    }
  }

  /** Positive pixel dimensions, as sharp reports them. */
  type Dim = x: nat | 0 < x witness 1

  /** What `image.metadata()` reports. */
  datatype Meta = Meta(width: Dim, height: nat)

  /** `Math.min(width, metadata.width)`: never enlarged. */
  function TargetWidth(requested: nat, m: Meta): (r: nat)
    ensures r <= requested && r <= m.width && (r == requested || r == m.width)
  {
    if requested < m.width then requested else m.width
  }

  /** `Math.round(targetWidth / metadata.width * metadata.height)` in
      integers: `floor((2 * tw * h + w) / (2 * w))`. */
  function TargetHeight(tw: nat, m: Meta): nat {
    (2 * tw * m.height + m.width) / (2 * m.width)
  }

  lemma DivBounds(x: nat, d: Dim)
    ensures d * (x / d) <= x < d * (x / d) + d
  {
  }

  lemma MulMono(d: nat, a: int, b: int)
    requires a <= b
    ensures d * a <= d * b
  {
  }

  lemma DivExact(x: nat, d: Dim, q: nat, r: nat)
    requires x == d * q + r && r < d
    ensures x / d == q
  {
    DivBounds(x, d);
    var q' := x / d;
    if q' < q {
      MulMono(d, q' + 1, q);
      assert false;
    } else if q' > q {
      MulMono(d, q + 1, q');
      assert false;
    }
  }

  /** The target height is `tw * h / w` rounded to the nearest integer,
      halves up. */
  lemma TargetHeightBounds(tw: nat, m: Meta)
    ensures var th := TargetHeight(tw, m);
      2 * th * m.width - m.width <= 2 * tw * m.height < 2 * th * m.width + m.width
  {
    var w, h := m.width, m.height;
    var x := 2 * tw * h + w;
    var d: Dim := 2 * w;
    var th := x / d;
    DivBounds(x, d);
    assert d * th == 2 * th * w;
  }

  lemma DivBelow(x: nat, d: Dim, q: nat)
    requires x < d * q
    ensures x / d < q
  {
    DivBounds(x, d);
    if x / d >= q {
      MulMono(d, q, x / d);
    }
  }

  /** An image is never made taller than the source. */
  lemma TargetHeightAtMost(tw: nat, m: Meta)
    requires tw <= m.width
    ensures TargetHeight(tw, m) <= m.height
  {
    var w, h := m.width, m.height;
    var d: Dim := 2 * w;
    MulMono(h, tw, w);
    assert 2 * tw * h == 2 * (h * tw);
    assert d * (h + 1) == 2 * (h * w) + 2 * w;
    DivBelow(2 * tw * h + w, d, h + 1);
  }

  /** At the full width the height is the source height. */
  lemma TargetHeightFull(m: Meta)
    ensures TargetHeight(m.width, m) == m.height
  {
    var w, h := m.width, m.height;
    var d: Dim := 2 * w;
    assert 2 * w * h + w == d * h + w;
    DivExact(2 * w * h + w, d, h, w);
  }

  /** A request at or above the source width keeps the source dimensions. */
  lemma NoUpscale(requested: nat, m: Meta)
    requires requested >= m.width
    ensures TargetWidth(requested, m) == m.width && TargetHeight(TargetWidth(requested, m), m) == m.height
  {
    TargetHeightFull(m);
  }

  // ---------------------------------------------------------------------
  // generateVariant
  // ---------------------------------------------------------------------

  /** How one `generateVariant` call ends: `metadata()` throws, the limit
      check throws, encoding or `toFile`/`stat` throws, or the variant is
      written with the size `stat` reports. */
  datatype VariantOutcome =
    | NoMetadata
    | TooLarge(width: nat, height: nat)
    | EncodeFailed
    | Written(size: nat, width: nat, height: nat)

  /** `toFile` was called for the variant. */
  predicate CallsToFile(o: VariantOutcome) {
    o.EncodeFailed? || o.Written?
  }

  /** `generateVariant(inputPath, outputPath, width, format)`, with sharp's
      answers as `meta` and `encode` (the size of the written file, or None
      when encoding, `toFile` or `stat` fails). */
  function GenerateVariant(meta: Option<Meta>, encode: (nat, Format) -> Option<nat>, width: nat, f: Format): (r: VariantOutcome)
    ensures CallsToFile(r) <==> (meta.Some? &&
      CanGenerateFormat(TargetWidth(width, meta.value), TargetHeight(TargetWidth(width, meta.value), meta.value), f))
    ensures r.NoMetadata? <==> meta.None?
    ensures r.TooLarge? || r.Written? ==>
      meta.Some? && r.width == TargetWidth(width, meta.value) && r.height == TargetHeight(r.width, meta.value)
    ensures r.TooLarge? ==> !CanGenerateFormat(r.width, r.height, f)
    ensures r.Written? ==> r.width <= width && CanGenerateFormat(r.width, r.height, f)
    ensures r.Written? ==> encode(width, f) == Some(r.size)
    ensures r.EncodeFailed? ==> encode(width, f).None?
  {
    match meta
    case None => NoMetadata
    case Some(m) =>
      var tw := TargetWidth(width, m);
      var th := TargetHeight(tw, m);
      if !CanGenerateFormat(tw, th, f) then TooLarge(tw, th)
      else match encode(width, f)
        case None => EncodeFailed
        case Some(size) => Written(size, tw, th)
  }

  // ---------------------------------------------------------------------
  // Output names
  // ---------------------------------------------------------------------

  /** `${image.filename}-${size}.${format.ext}`. */
  function VariantName(filename: string, size: nat, f: Format): string {
    filename + "-" + Decimal(size) + "." + Ext(f)
  }

  /** `${filename}-social.${format.ext}`. */
  function SocialName(filename: string, f: Format): string {
    filename + "-social." + Ext(f)
  }

  lemma ExtShape(f: Format)
    ensures |Ext(f)| >= 3 && forall k :: 0 <= k < |Ext(f)| ==> Ext(f)[k] != '.' && !IsDigit(Ext(f)[k])
  {
  }

  lemma ExtInjective(f: Format, g: Format)
    requires Ext(f) == Ext(g)
    ensures f == g
  {
    assert Ext(f)[0] == Ext(g)[0];
    assert Ext(f)[1] == Ext(g)[1];
  }

  lemma DotMismatch(a1: string, b1: string, a2: string, b2: string)
    requires forall k :: 0 <= k < |a2| ==> a2[k] != '.'
    requires |a1| < |a2|
    ensures a1 + "." + b1 != a2 + "." + b2
  {
    assert (a1 + "." + b1)[|a1|] == '.';
    assert (a2 + "." + b2)[|a1|] == a2[|a1|];
  }

  /** Two strings without a dot, each followed by a dot and a tail, are
      equal only if the heads and the tails are. */
  lemma SplitAtDot(a1: string, b1: string, a2: string, b2: string)
    requires forall k :: 0 <= k < |a1| ==> a1[k] != '.'
    requires forall k :: 0 <= k < |a2| ==> a2[k] != '.'
    requires a1 + "." + b1 == a2 + "." + b2
    ensures a1 == a2 && b1 == b2
  {
    var s := a1 + "." + b1;
    if |a1| < |a2| {
      DotMismatch(a1, b1, a2, b2);
      assert false;
    } else if |a2| < |a1| {
      DotMismatch(a2, b2, a1, b1);
      assert false;
    } else {
      assert a1 == s[..|a1|] == a2;
      assert b1 == s[|a1| + 1..] == b2;
    }
  }

  lemma PrefixCancel(p: string, t1: string, t2: string)
    requires p + t1 == p + t2
    ensures t1 == t2
  {
    assert t1 == (p + t1)[|p|..];
    assert t2 == (p + t2)[|p|..];
  }

  /** Distinct (size, format) pairs get distinct names, so no variant of an
      image overwrites another. */
  lemma VariantNamesDistinct(filename: string, s1: nat, f1: Format, s2: nat, f2: Format)
    requires (s1, f1) != (s2, f2)
    ensures VariantName(filename, s1, f1) != VariantName(filename, s2, f2)
  {
    var p := filename + "-";
    var t1 := Decimal(s1) + "." + Ext(f1);
    var t2 := Decimal(s2) + "." + Ext(f2);
    assert VariantName(filename, s1, f1) == p + t1;
    assert VariantName(filename, s2, f2) == p + t2;
    if p + t1 == p + t2 {
      PrefixCancel(p, t1, t2);
      ExtShape(f1);
      ExtShape(f2);
      SplitAtDot(Decimal(s1), Ext(f1), Decimal(s2), Ext(f2));
      DecimalRoundTrip(s1);
      DecimalRoundTrip(s2);
      ExtInjective(f1, f2);
    }
  }

  /** The social names never coincide with a variant name: after the `-`
      comes `s`, not a digit. */
  lemma SocialNameNotVariant(filename: string, size: nat, f: Format, g: Format)
    ensures SocialName(filename, g) != VariantName(filename, size, f)
  {
    var k := |filename| + 1;
    assert SocialName(filename, g)[k] == 's';
    assert VariantName(filename, size, f)[k] == Decimal(size)[0];
  }

  // ---------------------------------------------------------------------
  // processImage
  // ---------------------------------------------------------------------

  /** The variants of one size, in format order. */
  function Row(size: nat, formats: seq<Format>): seq<(nat, Format)> {
    if formats == [] then []
    else Row(size, formats[..|formats| - 1]) + [(size, formats[|formats| - 1])]
  }

  /** The variants the nested loops attempt: sizes in the outer loop,
      formats in the inner one. */
  function Plan(sizes: seq<nat>, formats: seq<Format>): seq<(nat, Format)> {
    if sizes == [] then []
    else Plan(sizes[..|sizes| - 1], formats) + Row(sizes[|sizes| - 1], formats)
  }

  lemma PlanAppend(sizes: seq<nat>, size: nat, formats: seq<Format>)
    ensures Plan(sizes + [size], formats) == Plan(sizes, formats) + Row(size, formats)
  {
    assert (sizes + [size])[..|sizes|] == sizes;
  }

  lemma RowAppend(size: nat, formats: seq<Format>, f: Format)
    ensures Row(size, formats + [f]) == Row(size, formats) + [(size, f)]
  {
    assert (formats + [f])[..|formats|] == formats;
  }

  lemma RowFormats(size: nat)
    ensures Row(size, FORMATS) == [(size, Avif), (size, Webp), (size, Jpg)]
  {
    RowAppend(size, [], Avif);
    RowAppend(size, [Avif], Webp);
    RowAppend(size, [Avif, Webp], Jpg);
    assert [] + [Avif] == [Avif];
    assert [Avif] + [Webp] == [Avif, Webp];
    assert [Avif, Webp] + [Jpg] == FORMATS;
  }

  /** One more size adds its three formats after the variants so far. */
  lemma PlanStep(sizes: seq<nat>, size: nat, before: seq<(nat, Format)>, after: seq<(nat, Format)>)
    requires Plan(sizes, FORMATS) == before
    requires after == before + [(size, Avif), (size, Webp), (size, Jpg)]
    ensures Plan(sizes + [size], FORMATS) == after
  {
    PlanAppend(sizes, size, FORMATS);
    RowFormats(size);
  }

  /** The variants of the two smallest sizes. */
  lemma PlanFirstTwo()
    ensures Plan([400, 800], FORMATS) == [
      (400, Avif), (400, Webp), (400, Jpg),
      (800, Avif), (800, Webp), (800, Jpg)]
  {
    var p1 := [(400, Avif), (400, Webp), (400, Jpg)];
    PlanStep([], 400, [], p1);
    assert [] + [400] == [400];
    PlanStep([400], 800, p1, p1 + [(800, Avif), (800, Webp), (800, Jpg)]);
    assert [400] + [800] == [400, 800];
  }

  /** Exactly twelve variants, in this order. */
  lemma PlanOrder()
    ensures Plan(SIZES, FORMATS) == [
      (400, Avif), (400, Webp), (400, Jpg),
      (800, Avif), (800, Webp), (800, Jpg),
      (1200, Avif), (1200, Webp), (1200, Jpg),
      (1600, Avif), (1600, Webp), (1600, Jpg)]
  {
    var p2 := [(400, Avif), (400, Webp), (400, Jpg), (800, Avif), (800, Webp), (800, Jpg)];
    PlanFirstTwo();
    var p3 := p2 + [(1200, Avif), (1200, Webp), (1200, Jpg)];
    PlanStep([400, 800], 1200, p2, p3);
    assert [400, 800] + [1200] == [400, 800, 1200];
    PlanStep([400, 800, 1200], 1600, p3, p3 + [(1600, Avif), (1600, Webp), (1600, Jpg)]);
    assert [400, 800, 1200] + [1600] == SIZES;
  }

  lemma PlanLength()
    ensures |Plan(SIZES, FORMATS)| == VARIANTS_PER_IMAGE
  {
    PlanOrder();
  }

  /** `CONFIG.sizes.length * CONFIG.formats.length` is twelve. */
  lemma VariantsPerImage()
    ensures VARIANTS_PER_IMAGE == |SIZES| * |FORMATS|
  {
  }

  /** The formats `generateSocialImage` keeps: webp and jpg. */
  predicate IsSocialFormat(f: Format) {
    f == Webp || f == Jpg
  }

  const SOCIAL_FORMATS: seq<Format> := Filter(FORMATS, IsSocialFormat)

  /** The social pair is webp then jpg, never avif. */
  lemma SocialFormats()
    ensures SOCIAL_FORMATS == [Webp, Jpg]
  {
    assert FORMATS[1..][1..][1..] == [];
  }

  /** sharp's and the file system's answers for one image: the original's
      size (None when `stat` throws), its metadata, each variant's encoded
      size, and whether each social format is written. */
  datatype Sharp = Sharp(
    originalSize: Option<nat>,
    meta: Option<Meta>,
    encode: (nat, Format) -> Option<nat>,
    social: Format -> bool)

  /** What becomes of each variant, given sharp's answers. */
  function Outcomes(s: Sharp): ((nat, Format)) -> VariantOutcome {
    (v: (nat, Format)) => GenerateVariant(s.meta, s.encode, v.0, v.1)
  }

  /** How many of the given variants were written. */
  function WrittenCount(outcome: ((nat, Format)) -> VariantOutcome, vs: seq<(nat, Format)>): (r: nat)
    ensures r <= |vs|
  {
    if vs == [] then 0
    else WrittenCount(outcome, vs[..|vs| - 1]) + (if outcome(vs[|vs| - 1]).Written? then 1 else 0)
  }

  /** `totalSaved` over the given variants: original size minus written
      size, summed over the written ones. */
  function SavedBy(original: nat, outcome: ((nat, Format)) -> VariantOutcome, vs: seq<(nat, Format)>): int {
    if vs == [] then 0
    else
      var o := outcome(vs[|vs| - 1]);
      SavedBy(original, outcome, vs[..|vs| - 1]) + (if o.Written? then original - o.size else 0)
  }

  /** The output paths `toFile` is called with, in order, for the given
      variants. */
  function TouchedPaths(outputDir: string, filename: string, outcome: ((nat, Format)) -> VariantOutcome, vs: seq<(nat, Format)>): seq<string> {
    if vs == [] then []
    else
      var v := vs[|vs| - 1];
      TouchedPaths(outputDir, filename, outcome, vs[..|vs| - 1])
      + (if CallsToFile(outcome(v)) then [Join(outputDir, VariantName(filename, v.0, v.1))] else [])
  }

  /** The three things the variant loops accumulate. */
  datatype Tally = Tally(variantCount: nat, totalSaved: int, calls: seq<string>)

  function TallyOf(outputDir: string, filename: string, original: nat, outcome: ((nat, Format)) -> VariantOutcome,
                   vs: seq<(nat, Format)>): Tally {
    Tally(WrittenCount(outcome, vs), SavedBy(original, outcome, vs), TouchedPaths(outputDir, filename, outcome, vs))
  }

  /** `generateSocialImage` is called, and one of its writes throws. */
  predicate SocialFails(outputDir: string, s: Sharp) {
    Contains(outputDir, "social") && (!s.social(Webp) || !s.social(Jpg))
  }

  /** The social paths `toFile` is called with: none unless the output
      directory contains "social"; then webp, and jpg if webp succeeded. */
  function SocialPaths(outputDir: string, filename: string, s: Sharp): seq<string> {
    if !Contains(outputDir, "social") then []
    else
      [Join(outputDir, SocialName(filename, Webp))]
      + (if s.social(Webp) then [Join(outputDir, SocialName(filename, Jpg))] else [])
  }

  /** The first `k` social paths. */
  function SocialPrefix(outputDir: string, filename: string, k: nat): seq<string>
    requires k <= |SOCIAL_FORMATS|
  {
    seq(k, m requires 0 <= m < k => Join(outputDir, SocialName(filename, SOCIAL_FORMATS[m])))
  }

  /** How `processImage` ends: it throws (the original's `stat` or a social
      write), or it finishes with the counters it logs. `toFileCalls` lists
      every output path `toFile` was called with, in order. */
  datatype ImageReport =
    | Aborted(toFileCalls: seq<string>)
    | Done(variantCount: nat, totalSaved: int, toFileCalls: seq<string>)

  /** The counters and the `toFile` log after one more variant. */
  lemma TallySnoc(outputDir: string, filename: string, original: nat, outcome: ((nat, Format)) -> VariantOutcome,
                  vs: seq<(nat, Format)>, v: (nat, Format))
    ensures var o := outcome(v);
      var t := TallyOf(outputDir, filename, original, outcome, vs);
      TallyOf(outputDir, filename, original, outcome, vs + [v]) == Tally(
        t.variantCount + (if o.Written? then 1 else 0),
        t.totalSaved + (if o.Written? then original - o.size else 0),
        t.calls + (if CallsToFile(o) then [Join(outputDir, VariantName(filename, v.0, v.1))] else []))
  {
    assert (vs + [v])[..|vs|] == vs;
  }

  lemma RowSnoc(size: nat, formats: seq<Format>, j: nat)
    requires j < |formats|
    ensures Row(size, formats[..j + 1]) == Row(size, formats[..j]) + [(size, formats[j])]
  {
    assert formats[..j + 1][..j] == formats[..j];
  }

  lemma PlanRowDone(sizes: seq<nat>, i: nat, formats: seq<Format>)
    requires i < |sizes|
    ensures Plan(sizes[..i], formats) + Row(sizes[i], formats[..|formats|]) == Plan(sizes[..i + 1], formats)
  {
    assert sizes[..i + 1][..i] == sizes[..i];
    assert formats[..|formats|] == formats;
  }

  /** `generateSocialImage(inputPath, outputDir, filename)`: writes webp
      then jpg; the first write that throws ends it (`ok` false). `calls`
      lists the paths `toFile` was called with. */
  method GenerateSocialImage(outputDir: string, filename: string, s: Sharp) returns (ok: bool, calls: seq<string>)
    ensures ok <==> s.social(Webp) && s.social(Jpg)
    ensures calls == [Join(outputDir, SocialName(filename, Webp))]
      + (if s.social(Webp) then [Join(outputDir, SocialName(filename, Jpg))] else [])
  {
    SocialFormats();
    calls := [];
    for k := 0 to |SOCIAL_FORMATS|
      invariant calls == SocialPrefix(outputDir, filename, k)
      invariant forall m :: 0 <= m < k ==> s.social(SOCIAL_FORMATS[m])
    {
      var format := SOCIAL_FORMATS[k];
      calls := calls + [Join(outputDir, SocialName(filename, format))];
      if !s.social(format) {
        return false, calls;
      }
    }
    return true, calls;
  }

  /** The nested loops of `processImage`: every size, and within it every
      format, is attempted; `outcome` is how each `generateVariant` call
      ends. A failure is caught and the loop goes on; `variantCount` counts
      the written variants, `totalSaved` sums their savings, and `calls`
      lists the paths `toFile` was called with. */
  method GenerateVariants(outputDir: string, filename: string, originalSize: nat, outcome: ((nat, Format)) -> VariantOutcome)
    returns (variantCount: nat, totalSaved: int, calls: seq<string>)
    ensures Tally(variantCount, totalSaved, calls) == TallyOf(outputDir, filename, originalSize, outcome, Plan(SIZES, FORMATS))
  {
    totalSaved := 0;
    variantCount := 0;
    calls := [];
    ghost var done: seq<(nat, Format)> := [];
    for i := 0 to |SIZES|
      invariant done == Plan(SIZES[..i], FORMATS)
      invariant Tally(variantCount, totalSaved, calls) == TallyOf(outputDir, filename, originalSize, outcome, done)
    {
      var size := SIZES[i];
      ghost var before := done;
      for j := 0 to |FORMATS|
        invariant done == before + Row(size, FORMATS[..j])
        invariant Tally(variantCount, totalSaved, calls) == TallyOf(outputDir, filename, originalSize, outcome, done)
      {
        var format := FORMATS[j];
        var outputPath := Join(outputDir, VariantName(filename, size, format));
        var result := outcome((size, format));
        TallySnoc(outputDir, filename, originalSize, outcome, done, (size, format));
        RowSnoc(size, FORMATS, j);
        if CallsToFile(result) {
          calls := calls + [outputPath];
        }
        if result.Written? {
          totalSaved := totalSaved + (originalSize - result.size);
          variantCount := variantCount + 1;
        }
        done := done + [(size, format)];
      }
      PlanRowDone(SIZES, i, FORMATS);
    }
    assert SIZES[..|SIZES|] == SIZES;
  }

  /** `processImage(image, outputDir)`: the original's `stat` throws before
      anything is attempted; otherwise the twelve variants are attempted in
      order, each failure caught, `variantCount` counting the written ones
      and `totalSaved` summing their savings; then the social pair, whose
      failure is not caught. */
  method ProcessImage(image: Image, outputDir: string, s: Sharp) returns (r: ImageReport)
    ensures s.originalSize.None? ==> r == Aborted([])
    ensures s.originalSize.Some? ==>
      var plan := Plan(SIZES, FORMATS);
      && (r.Aborted? <==> SocialFails(outputDir, s))
      && r.toFileCalls == TouchedPaths(outputDir, image.filename, Outcomes(s), plan)
                          + SocialPaths(outputDir, image.filename, s)
      && (r.Done? ==>
            && r.variantCount == WrittenCount(Outcomes(s), plan) <= VARIANTS_PER_IMAGE
            && r.totalSaved == SavedBy(s.originalSize.value, Outcomes(s), plan))
  {
    if s.originalSize.None? {
      return Aborted([]);
    }
    var variantCount, totalSaved, calls := GenerateVariants(outputDir, image.filename, s.originalSize.value, Outcomes(s));
    PlanLength();
    if Contains(outputDir, "social") {
      var ok, socialCalls := GenerateSocialImage(outputDir, image.filename, s);
      calls := calls + socialCalls;
      if !ok {
        return Aborted(calls);
      }
    }
    return Done(variantCount, totalSaved, calls);
  }

  // ---------------------------------------------------------------------
  // main
  // ---------------------------------------------------------------------

  /** `path.join(path.dirname(inputDir), 'optimized')`. */
  function OutputDir(inputDir: string): string {
    Join(Dirname(inputDir), "optimized")
  }

  /** With the configured input directory the output directory is
      `assets/img/optimized`, which does not contain "social": the social
      variant is never produced by `main`. */
  lemma ConfiguredOutputDir()
    ensures OutputDir(INPUT_DIRS[0]) == "assets/img/optimized"
    ensures !Contains(OutputDir(INPUT_DIRS[0]), "social")
  {
    ConfiguredInputDir();
    DirnameJoin("assets/img", "originals");
    ConfiguredOutputNotSocial();
  }

  lemma ConfiguredInputDir()
    ensures INPUT_DIRS[0] == Join("assets/img", "originals")
    ensures Join("assets/img", "optimized") == "assets/img/optimized"
  {
  }

  lemma ConfiguredOutputNotSocial()
    ensures !Contains("assets/img/optimized", "social")
  {
    var out := "assets/img/optimized";
    assert 'l' !in out;
    assert 'l' in "social";
    if Contains(out, "social") {
      ContainsChars(out, "social");
      assert false;
    }
  }

  /** processImage throws for this image: the original's `stat`, or a social
      write. */
  predicate ImageAborts(outputDir: string, s: Sharp) {
    s.originalSize.None? || SocialFails(outputDir, s)
  }

  /** What the environment answers: each directory's listing (None when
      `readdir` throws), whether `ensureDir` succeeds, and sharp's answers
      for each image path. */
  datatype Env = Env(
    listing: string -> Option<seq<string>>,
    ensureDirOk: string -> bool,
    sharp: string -> Sharp)

  function DirImages(env: Env, dir: string): seq<Image> {
    GetImages(dir, env.listing(dir))
  }

  /** `main` gets through `dir`: it has no images, or its output directory
      can be ensured and no image's `processImage` throws. */
  predicate DirSucceeds(env: Env, dir: string) {
    var images := DirImages(env, dir);
    images == [] ||
      (env.ensureDirOk(OutputDir(dir)) &&
       forall j :: 0 <= j < |images| ==> !ImageAborts(OutputDir(dir), env.sharp(images[j].fullPath)))
  }

  /** The number of images found in the given directories. */
  function ImagesIn(env: Env, dirs: seq<string>): nat {
    if dirs == [] then 0
    else ImagesIn(env, dirs[..|dirs| - 1]) + |DirImages(env, dirs[|dirs| - 1])|
  }

  lemma ImagesInStep(env: Env, dirs: seq<string>, i: nat)
    requires i < |dirs|
    ensures ImagesIn(env, dirs[..i + 1]) == ImagesIn(env, dirs[..i]) + |DirImages(env, dirs[i])|
  {
    assert dirs[..i + 1][..i] == dirs[..i];
  }

  /** The variants `processImage` writes and counts for `image`: at most
      the twelve it attempts. */
  function ImageWritten(env: Env, image: Image): (r: nat)
    ensures r <= VARIANTS_PER_IMAGE
  {
    PlanLength();
    WrittenCount(Outcomes(env.sharp(image.fullPath)), PLAN)
  }

  const PLAN: seq<(nat, Format)> := Plan(SIZES, FORMATS)

  /** The variants written and counted for each of the given images, summed:
      never more than the twelve per image that `main` adds to
      `totalVariants`. */
  function WrittenOf(env: Env, images: seq<Image>): (r: nat)
    ensures r <= 12 * |images|
  {
    if images == [] then 0
    else WrittenOf(env, images[..|images| - 1]) + ImageWritten(env, images[|images| - 1])
  }

  lemma WrittenOfStep(env: Env, images: seq<Image>, j: nat)
    requires j < |images|
    ensures WrittenOf(env, images[..j + 1]) == WrittenOf(env, images[..j]) + ImageWritten(env, images[j])
  {
    assert images[..j + 1][..j] == images[..j];
  }

  /** The variants written and counted over all images of the given
      directories. */
  function WrittenIn(env: Env, dirs: seq<string>): nat {
    if dirs == [] then 0
    else WrittenIn(env, dirs[..|dirs| - 1]) + WrittenOf(env, DirImages(env, dirs[|dirs| - 1]))
  }

  lemma WrittenInStep(env: Env, dirs: seq<string>, i: nat)
    requires i < |dirs|
    ensures WrittenIn(env, dirs[..i + 1]) == WrittenIn(env, dirs[..i]) + WrittenOf(env, DirImages(env, dirs[i]))
  {
    assert dirs[..i + 1][..i] == dirs[..i];
  }

  /** Over the directories `main` gets through, the variants written never
      exceed the twelve per image it adds to `totalVariants`. */
  lemma {:induction false} WrittenInBound(env: Env, dirs: seq<string>)
    ensures WrittenIn(env, dirs) <= 12 * ImagesIn(env, dirs)
  {
    if dirs != [] {
      WrittenInBound(env, dirs[..|dirs| - 1]);
    }
  }

  /** One `await processImage(image, outputDir)` of `main`, for the `j`-th
      image: whether it throws, and otherwise how many variants it wrote,
      which extends the running sum by one image. */
  method CountImage(env: Env, images: seq<Image>, j: nat, outputDir: string) returns (aborted: bool, count: nat)
    requires j < |images|
    ensures aborted <==> ImageAborts(outputDir, env.sharp(images[j].fullPath))
    ensures !aborted ==> WrittenOf(env, images[..j + 1]) == WrittenOf(env, images[..j]) + count
  {
    var report := ProcessImage(images[j], outputDir, env.sharp(images[j].fullPath));
    aborted := report.Aborted?;
    count := if report.Done? then report.variantCount else 0;
    WrittenOfStep(env, images, j);
  }

  lemma ProcessedStep(env: Env, images: seq<Image>, outputDir: string, j: nat)
    requires j < |images|
    requires forall k :: 0 <= k < j ==> !ImageAborts(outputDir, env.sharp(images[k].fullPath))
    requires !ImageAborts(outputDir, env.sharp(images[j].fullPath))
    ensures forall k :: 0 <= k < j + 1 ==> !ImageAborts(outputDir, env.sharp(images[k].fullPath))
  {
  }

  /** The inner loop of `main` over one directory's images: each is
      processed and counted, twelve variants added per image; the first
      `processImage` that throws ends the run (`ok` false). `written` sums
      the variants written by the images processed so far. */
  method ProcessImages(env: Env, images: seq<Image>, outputDir: string, totalImages0: nat, totalVariants0: nat)
    returns (ok: bool, totalImages: nat, totalVariants: nat, ghost written: nat)
    requires totalVariants0 == VARIANTS_PER_IMAGE * totalImages0
    ensures totalVariants == VARIANTS_PER_IMAGE * totalImages && totalImages0 <= totalImages
    ensures totalImages - totalImages0 <= |images|
    ensures written == WrittenOf(env, images[..totalImages - totalImages0])
    ensures written <= VARIANTS_PER_IMAGE * (totalImages - totalImages0)
    ensures ok <==> forall k :: 0 <= k < |images| ==> !ImageAborts(outputDir, env.sharp(images[k].fullPath))
    ensures ok ==> totalImages == totalImages0 + |images| && written == WrittenOf(env, images)
  {
    ok, totalImages, totalVariants, written := true, totalImages0, totalVariants0, 0;
    for j := 0 to |images|
      invariant forall k :: 0 <= k < j ==> !ImageAborts(outputDir, env.sharp(images[k].fullPath))
      invariant totalImages == totalImages0 + j
      invariant totalVariants == VARIANTS_PER_IMAGE * totalImages
      invariant written == WrittenOf(env, images[..j])
    {
      var aborted, count := CountImage(env, images, j, outputDir);
      if aborted {
        return false, totalImages, totalVariants, written;
      }
      ProcessedStep(env, images, outputDir, j);
      totalImages := totalImages + 1;
      totalVariants := totalVariants + VARIANTS_PER_IMAGE;
      written := written + count;
    }
    assert images[..|images|] == images;
  }

  lemma SucceedsStep(env: Env, dirs: seq<string>, i: nat)
    requires i < |dirs|
    requires forall k :: 0 <= k < i ==> DirSucceeds(env, dirs[k])
    requires DirSucceeds(env, dirs[i])
    ensures forall k :: 0 <= k < i + 1 ==> DirSucceeds(env, dirs[k])
  {
  }

  /** `main()`: each input directory in turn; one without images is
      skipped, otherwise its output directory is ensured and its images
      processed. Any exception ends the run (`ok` false). `totalVariants`
      grows by twelve per image whatever the variants' fate, so it bounds
      `written`, the number of variants actually written. */
  method OptimizeAll(env: Env, inputDirs: seq<string>)
    returns (ok: bool, totalImages: nat, totalVariants: nat, ghost written: nat)
    ensures totalVariants == VARIANTS_PER_IMAGE * totalImages
    ensures written <= totalVariants
    ensures ok <==> forall i :: 0 <= i < |inputDirs| ==> DirSucceeds(env, inputDirs[i])
    ensures ok ==> totalImages == ImagesIn(env, inputDirs) && written == WrittenIn(env, inputDirs)
  {
    ok, totalImages, totalVariants, written := true, 0, 0, 0;
    for i := 0 to |inputDirs|
      invariant forall k :: 0 <= k < i ==> DirSucceeds(env, inputDirs[k])
      invariant totalImages == ImagesIn(env, inputDirs[..i])
      invariant totalVariants == VARIANTS_PER_IMAGE * totalImages
      invariant written == WrittenIn(env, inputDirs[..i])
      invariant written <= totalVariants
    {
      var inputDir := inputDirs[i];
      var images := DirImages(env, inputDir);
      ImagesInStep(env, inputDirs, i);
      WrittenInStep(env, inputDirs, i);
      if |images| == 0 {
        SucceedsStep(env, inputDirs, i);
        continue;
      }
      var outputDir := OutputDir(inputDir);
      if !env.ensureDirOk(outputDir) {
        assert !DirSucceeds(env, inputDirs[i]);
        return false, totalImages, totalVariants, written;
      }
      var dirOk;
      ghost var dirWritten;
      dirOk, totalImages, totalVariants, dirWritten := ProcessImages(env, images, outputDir, totalImages, totalVariants);
      written := written + dirWritten;
      if !dirOk {
        assert !DirSucceeds(env, inputDirs[i]);
        return false, totalImages, totalVariants, written;
      }
      SucceedsStep(env, inputDirs, i);
    }
    assert inputDirs[..|inputDirs|] == inputDirs;
  }
}
