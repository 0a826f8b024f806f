/** The `GrayscaleBlend` class: its two constructors (path checks, the
    resolution specifier, the size check), `convert` (working images and the
    pixel loop) and `main` (help, scanning, constructor dispatch).

    Reading and writing image files is I/O: reading is the parameter `load`,
    a total map from path to image, and writing is the `Written` outcome
    carrying the output path and image. The AWT resampler behind `resize` is
    a foreign library call: it is the parameter `rs`, of which the model
    assumes only that it returns a well-formed image of the requested size. */
module GrayscaleBlend {
  import opened Results
  import opened JavaNum
  import opened Text
  import opened Pixel
  import opened Raster
  import opened Cli

  /** An image reader that always yields a well-formed image. */
  ghost predicate Loads(load: string -> Image)
  {
    forall path :: Valid(load(path))
  }

  /** `resize(img, w, h)`: some image of exactly `w` x `h` pixels. */
  type Resampler = (Image, nat, nat) -> Image

  ghost predicate Resizes(rs: Resampler)
  {
    forall img, w: nat, h: nat :: Valid(rs(img, w, h)) && rs(img, w, h).width == w && rs(img, w, h).height == h
  }

  /** The fields of a constructed instance. */
  datatype Converter = Converter(imgW: Image, imgB: Image, output: string, resize: bool, width: nat, height: nat)

  /** What a constructor guarantees: well-formed images, a positive explicit
      resolution, or matching native sizes that become the working size. */
  predicate ValidConverter(c: Converter)
  {
    && Valid(c.imgW) && Valid(c.imgB)
    && (c.resize ==> 0 < c.width && 0 < c.height)
    && (!c.resize ==>
          && c.width == c.imgW.width == c.imgB.width
          && c.height == c.imgW.height == c.imgB.height)
  }

  /** The resolution specifier: split at the first `x`, parse the width,
      then read the second part (an index error when there is none), parse
      it, and only then reject non-positive values. */
  function ParseResolution(spec: string): (r: Result<(nat, nat)>)
    ensures r.Ok? ==> 0 < r.value.0 <= IntMax && 0 < r.value.1 <= IntMax
    ensures r.Err? ==>
              r.error == InvalidResolution(spec) || r.error == NonPositiveResolution ||
              r.error == ResolutionIndexOutOfBounds
    ensures r == Err(ResolutionIndexOutOfBounds) <==> 'x' !in spec && ParseInt(spec).Some?
  {
    var cache := SplitOnce(spec, 'x');
    match ParseInt(cache[0])
    case None => Err(InvalidResolution(spec))
    case Some(w) =>
      if |cache| < 2 then Err(ResolutionIndexOutOfBounds)
      else
        match ParseInt(cache[1])
        case None => Err(InvalidResolution(spec))
        case Some(h) => if w <= 0 || h <= 0 then Err(NonPositiveResolution) else Ok((w, h))
  }

  /** A successful parse came from a width and a height, each accepted by
      `parseInt`, on either side of the first `x`. */
  lemma ParseResolutionOk(spec: string)
    requires ParseResolution(spec).Ok?
    ensures exists k :: 0 <= k < |spec| && spec[k] == 'x' && 'x' !in spec[..k] &&
              ParseInt(spec[..k]) == Some(ParseResolution(spec).value.0 as int) &&
              ParseInt(spec[k + 1..]) == Some(ParseResolution(spec).value.1 as int)
  {
    var cache := SplitOnce(spec, 'x');
    var k := |cache[0]|;
    assert spec[..k] == cache[0];
    assert spec[k + 1..] == cache[1];
  }

  /** Every positive width and height written as `<w>x<h>` parses back. */
  lemma ParseResolutionRoundTrip(w: int, h: int)
    requires 0 < w <= IntMax && 0 < h <= IntMax
    ensures ParseResolution(FormatInt(w) + "x" + FormatInt(h)) == Ok((w, h))
  {
    var spec := FormatInt(w) + "x" + FormatInt(h);
    FormatHasNoLetterX(w);
    FormatHasNoLetterX(h);
    ParseFormatRoundTrip(w);
    ParseFormatRoundTrip(h);
    var k := |FormatInt(w)|;
    assert spec[k] == 'x';
    assert spec[..k] == FormatInt(w);
    assert spec[k + 1..] == FormatInt(h);
    SplitOnceAt(spec, 'x', k);
  }

  /** Conversely, every specifier whose parts around the first `x` both
      parse as positive `int`s is accepted, however they are spelled. */
  lemma ParseResolutionAccepts(spec: string, k: nat, w: int, h: int)
    requires k < |spec| && spec[k] == 'x' && 'x' !in spec[..k]
    requires ParseInt(spec[..k]) == Some(w) && ParseInt(spec[k + 1..]) == Some(h)
    requires 0 < w && 0 < h
    ensures ParseResolution(spec) == Ok((w, h))
  {
    SplitOnceAt(spec, 'x', k);
  }

  /** A sign and leading zeros are accepted: `+5x07` is 5 by 7. */
  lemma ParseResolutionSignedExample()
    ensures ParseResolution("+5x07") == Ok((5, 7))
  {
    var spec := "+5x07";
    assert spec[..2] == "+5" && spec[3..] == "07";
    assert "+5"[1..] == "5" && "07"[..1] == "0";
    assert AllDigits("5") && DigitsValue("5") == 5;
    assert AllDigits("07") && DigitsValue("07") == 7;
    ParseResolutionAccepts(spec, 2, 5, 7);
  }

  /** Which failure a rejected specifier reports, in terms of the text
      around its first `x` (all of it when there is none): invalid exactly
      when a part that is read does not parse, non-positive exactly when
      both parts parse and one of them is zero or negative. */
  lemma ParseResolutionErrors(spec: string)
    ensures var k := IndexOf(spec, 'x');
            && (ParseResolution(spec) == Err(InvalidResolution(spec)) <==>
                  ParseInt(spec[..k]).None? || (k < |spec| && ParseInt(spec[k + 1..]).None?))
            && (ParseResolution(spec) == Err(NonPositiveResolution) <==>
                  && k < |spec| && ParseInt(spec[..k]).Some? && ParseInt(spec[k + 1..]).Some?
                  && (ParseInt(spec[..k]).value <= 0 || ParseInt(spec[k + 1..]).value <= 0))
  {
    var k := IndexOf(spec, 'x');
    SplitAtFirst(spec);
    var first := ParseInt(spec[..k]);
    if first.Some? && k < |spec| {
      var second := ParseInt(spec[k + 1..]);
      assert ParseResolution(spec) ==
               if second.None? then Err(InvalidResolution(spec))
               else if first.value <= 0 || second.value <= 0 then Err(NonPositiveResolution)
               else Ok((first.value, second.value));
    }
  }

  /** `split("x", 2)` cuts at the first `x`. */
  lemma SplitAtFirst(spec: string)
    ensures var k := IndexOf(spec, 'x');
            SplitOnce(spec, 'x') == if k < |spec| then [spec[..k], spec[k + 1..]] else [spec[..k]]
  {
    var k := IndexOf(spec, 'x');
    if k < |spec| {
      assert 'x' !in spec[..k] by {
        forall i | 0 <= i < k ensures spec[..k][i] != 'x' {
          assert spec[..k][i] == spec[i];
        }
      }
      SplitOnceAt(spec, 'x', k);
    } else {
      assert spec[..k] == spec;
    }
  }

  /** A specifier that is not a number at all is rejected as invalid. */
  lemma ParseResolutionRejectsText()
    ensures ParseResolution("abc") == Err(InvalidResolution("abc"))
  {
    assert !AllDigits("abc") by {
      assert !IsDigit("abc"[0]);
    }
  }

  /** A zero width is rejected as non-positive. */
  lemma ParseResolutionRejectsZero()
    ensures ParseResolution("0x10") == Err(NonPositiveResolution)
  {
    assert "0x10"[..1] == "0" && "0x10"[2..] == "10";
    SplitOnceAt("0x10", 'x', 1);
    assert FormatInt(0) == "0" && FormatInt(10) == "10";
    ParseFormatRoundTrip(0);
    ParseFormatRoundTrip(10);
  }

  /** A number without a separator fails on reading the missing second
      part, not as an invalid specifier. */
  lemma ParseResolutionMissingSeparator()
    ensures ParseResolution("100") == Err(ResolutionIndexOutOfBounds)
  {
    assert 'x' !in "100" by {
      assert "100"[0] != 'x' && "100"[1] != 'x' && "100"[2] != 'x';
    }
    assert AllDigits("100");
    assert DigitsValue("100") == 100 by {
      assert "100"[..2] == "10" && "10"[..1] == "1";
    }
  }

  /** An empty height is invalid. */
  lemma ParseResolutionEmptyHeight()
    ensures ParseResolution("10x") == Err(InvalidResolution("10x"))
  {
    assert "10x"[..2] == "10" && "10x"[3..] == "";
    SplitOnceAt("10x", 'x', 2);
    assert AllDigits("10");
  }

  /** The constructor taking an explicit resolution: null checks in the
      order white input, black input, output; then both images are read;
      then the specifier is parsed. */
  function NewResized(inpath1: Option<string>, inpath2: Option<string>, outpath: Option<string>,
                      res: string, load: string -> Image): (r: Result<Converter>)
    ensures r.Ok? <==> inpath1.Some? && inpath2.Some? && outpath.Some? && ParseResolution(res).Ok?
    ensures r.Ok? ==>
              r.value == Converter(load(inpath1.value), load(inpath2.value), outpath.value, true,
                                   ParseResolution(res).value.0, ParseResolution(res).value.1)
    ensures inpath1.Some? && inpath2.Some? && outpath.Some? && ParseResolution(res).Err? ==>
              r == Err(ParseResolution(res).error)
  {
    if inpath1.None? then Err(MissingWhiteInput)
    else if inpath2.None? then Err(MissingBlackInput)
    else if outpath.None? then Err(MissingOutput)
    else
      var imgW, imgB := load(inpath1.value), load(inpath2.value);
      match ParseResolution(res)
      case Err(e) => Err(e)
      case Ok(dims) => Ok(Converter(imgW, imgB, outpath.value, true, dims.0, dims.1))
  }

  /** The constructor without a resolution: the same null checks, then the
      two images must agree in width and height, which become the working
      size. */
  function NewNative(inpath1: Option<string>, inpath2: Option<string>, outpath: Option<string>,
                     load: string -> Image): (r: Result<Converter>)
    ensures r.Ok? <==>
              && inpath1.Some? && inpath2.Some? && outpath.Some?
              && load(inpath1.value).width == load(inpath2.value).width
              && load(inpath1.value).height == load(inpath2.value).height
    ensures r.Ok? ==>
              r.value == Converter(load(inpath1.value), load(inpath2.value), outpath.value, false,
                                   load(inpath1.value).width, load(inpath1.value).height)
    ensures inpath1.Some? && inpath2.Some? && outpath.Some? && r.Err? ==> r == Err(ResolutionMismatch)
  {
    if inpath1.None? then Err(MissingWhiteInput)
    else if inpath2.None? then Err(MissingBlackInput)
    else if outpath.None? then Err(MissingOutput)
    else
      var imgW, imgB := load(inpath1.value), load(inpath2.value);
      if imgW.width != imgB.width || imgW.height != imgB.height then Err(ResolutionMismatch)
      else Ok(Converter(imgW, imgB, outpath.value, false, imgW.width, imgW.height))
  }

  function Get(params: map<string, string>, key: string): Option<string>
  {
    if key in params then Some(params[key]) else None
  }

  /** `main`'s choice of constructor: the explicit-resolution one exactly
      when the map has a `--res` key. */
  function Construct(params: map<string, string>, load: string -> Image): (r: Result<Converter>)
    requires Loads(load)
    ensures r.Ok? ==> ValidConverter(r.value)
  {
    if "--res" in params then
      NewResized(Get(params, "--in1"), Get(params, "--in2"), Get(params, "--out"), params["--res"], load)
    else
      NewNative(Get(params, "--in1"), Get(params, "--in2"), Get(params, "--out"), load)
  }

  /** The missing-path checks come first, in the order white input, black
      input, output, whatever else the map holds. */
  lemma ConstructChecksPathsFirst(params: map<string, string>, load: string -> Image)
    requires Loads(load)
    ensures "--in1" !in params ==> Construct(params, load) == Err(MissingWhiteInput)
    ensures "--in1" in params && "--in2" !in params ==> Construct(params, load) == Err(MissingBlackInput)
    ensures "--in1" in params && "--in2" in params && "--out" !in params ==>
              Construct(params, load) == Err(MissingOutput)
  {
  }

  /** Construction succeeds exactly when all three paths are given and
      either the resolution specifier parses or, without one, the two
      images have the same size; the working size is the parsed one or the
      native one. */
  lemma ConstructOkIff(params: map<string, string>, load: string -> Image)
    requires Loads(load)
    ensures Construct(params, load).Ok? <==>
              && "--in1" in params && "--in2" in params && "--out" in params
              && ("--res" in params ==> ParseResolution(params["--res"]).Ok?)
              && ("--res" !in params ==>
                    load(params["--in1"]).width == load(params["--in2"]).width &&
                    load(params["--in1"]).height == load(params["--in2"]).height)
    ensures Construct(params, load).Ok? ==>
              var c := Construct(params, load).value;
              && c.imgW == load(params["--in1"]) && c.imgB == load(params["--in2"])
              && c.output == params["--out"]
              && c.resize == ("--res" in params)
              && (c.resize ==> ParseResolution(params["--res"]) == Ok((c.width, c.height)))
  {
  }

  /** The working images of `convert` as the source writes them: with a
      resolution, the second image is resized from the already resized
      white image instead of from the black image. */
  function WorkingImagesAsWritten(c: Converter, rs: Resampler): (pair: (Image, Image))
    requires ValidConverter(c) && Resizes(rs)
    ensures Valid(pair.0) && Valid(pair.1)
    ensures pair.0.width == pair.1.width == c.width && pair.0.height == pair.1.height == c.height
  {
    if c.resize then
      var cache1 := rs(c.imgW, c.width, c.height);
      (cache1, rs(cache1, c.width, c.height))
    else (c.imgW, c.imgB)
  }

  /** The working images as evidently intended: each input resized on its
      own. */
  function WorkingImages(c: Converter, rs: Resampler): (pair: (Image, Image))
    requires ValidConverter(c) && Resizes(rs)
    ensures Valid(pair.0) && Valid(pair.1)
    ensures pair.0.width == pair.1.width == c.width && pair.0.height == pair.1.height == c.height
  {
    if c.resize then (rs(c.imgW, c.width, c.height), rs(c.imgB, c.width, c.height))
    else (c.imgW, c.imgB)
  }

  /** `convert` as written: a `width` x `height` result whose every pixel is
      blended from the two working images at the same coordinate. */
  function ConvertAsWritten(c: Converter, rs: Resampler): (out: Image)
    requires ValidConverter(c) && Resizes(rs)
    ensures Valid(out) && out.width == c.width && out.height == c.height
  {
    var pair := WorkingImagesAsWritten(c, rs);
    Blend(pair.0, pair.1)
  }

  /** `convert` with each input resized independently. */
  function Convert(c: Converter, rs: Resampler): (out: Image)
    requires ValidConverter(c) && Resizes(rs)
    ensures Valid(out) && out.width == c.width && out.height == c.height
  {
    var pair := WorkingImages(c, rs);
    Blend(pair.0, pair.1)
  }

  /** Without a resolution both versions blend the two original images;
      with one, the source's output equals the corrected output for a black
      image replaced by the resized white image. */
  lemma AsWrittenIsCorrectedOnResizedWhite(c: Converter, rs: Resampler)
    requires ValidConverter(c) && Resizes(rs)
    ensures !c.resize ==> ConvertAsWritten(c, rs) == Convert(c, rs) == Blend(c.imgW, c.imgB)
    ensures c.resize ==>
              var c' := c.(imgB := rs(c.imgW, c.width, c.height));
              ValidConverter(c') && ConvertAsWritten(c, rs) == Convert(c', rs)
  {
  }

  /** With a resolution the source's output does not depend on the image
      rendered over black at all. */
  lemma AsWrittenIgnoresBlackImage(c: Converter, other: Image, rs: Resampler)
    requires ValidConverter(c) && c.resize && Valid(other) && Resizes(rs)
    ensures ValidConverter(c.(imgB := other))
    ensures ConvertAsWritten(c.(imgB := other), rs) == ConvertAsWritten(c, rs)
  {
  }

  /** A resampler that leaves images already at the requested size alone. */
  ghost predicate KeepsNativeSize(rs: Resampler)
  {
    forall img: Image :: Valid(img) ==> rs(img, img.width, img.height) == img
  }

  /** Corrected behaviour: asking for the size the two inputs already have
      gives the same output as giving no resolution at all. */
  lemma ResizeToNativeSizeIsNeutral(c: Converter, rs: Resampler)
    requires ValidConverter(c) && c.resize && Resizes(rs) && KeepsNativeSize(rs)
    requires c.imgW.width == c.imgB.width == c.width && c.imgW.height == c.imgB.height == c.height
    ensures ValidConverter(c.(resize := false))
    ensures Convert(c, rs) == Convert(c.(resize := false), rs)
  {
    assert rs(c.imgW, c.imgW.width, c.imgW.height) == c.imgW;
    assert rs(c.imgB, c.imgB.width, c.imgB.height) == c.imgB;
  }

  /** A one-pixel image. */
  function Single(p: bv32): (img: Image)
    ensures Valid(img) && img.width == 1 && img.height == 1 && At(img, 0, 0) == p
  {
    Image(1, 1, [[p]])
  }

  /** A resampler that keeps images already at the requested size and
      returns a blank image otherwise. */
  function KeepSize(img: Image, w: nat, h: nat): Image
  {
    if Valid(img) && img.width == w && img.height == h then img else Blank(w, h)
  }

  /** `KeepSize` is a resampler that keeps same-size images. */
  lemma KeepSizeResamples()
    ensures Resizes(KeepSize) && KeepsNativeSize(KeepSize)
  {
  }

  /** The source's defect on a concrete input: a black pixel over white and
      a green pixel over black, both 1 x 1, with `--res 1x1` and a resampler
      that keeps same-size images. The source blends the white image with
      itself, while the same run without `--res` blends it with the black
      image, and the two outputs differ; the corrected conversion gives the
      same output either way. */
  lemma ResizeDefectWitness()
    ensures Resizes(KeepSize) && KeepsNativeSize(KeepSize)
    ensures var c := Converter(Single(0), Single(0x0000_FF00), "out.png", true, 1, 1);
            ValidConverter(c) && ValidConverter(c.(resize := false)) &&
            ConvertAsWritten(c, KeepSize) != ConvertAsWritten(c.(resize := false), KeepSize) &&
            Convert(c, KeepSize) == Convert(c.(resize := false), KeepSize)
  {
    KeepSizeResamples();
    var c := Converter(Single(0), Single(0x0000_FF00), "out.png", true, 1, 1);
    ResizeToNativeSizeIsNeutral(c, KeepSize);
    var asWritten := ConvertAsWritten(c, KeepSize);
    var native := ConvertAsWritten(c.(resize := false), KeepSize);
    assert WorkingImagesAsWritten(c, KeepSize) == (Single(0), Single(0));
    assert At(asWritten, 0, 0) == BlendPixel(0, 0);
    assert At(native, 0, 0) == BlendPixel(0, 0x0000_FF00);
    DefectPixelsDiffer();
  }

  /** Blending a black pixel with itself and with a green pixel gives
      different alpha values, hence different words. */
  lemma DefectPixelsDiffer()
    ensures BlendPixel(0, 0) != BlendPixel(0, 0x0000_FF00)
  {
    BlackSampleOfBlack();
    GreenBlackSamplePositive();
    AlphaRecoversBlackSample(WhiteSample(0), BlackSample(0));
    AlphaRecoversBlackSample(WhiteSample(0), BlackSample(0x0000_FF00));
  }

  lemma BlackSampleOfBlack()
    ensures BlackSample(0) == 0
  {
    assert Blue(0) == 0 && Green(0) == 0 && Red(0) == 0;
    assert Luminance(0) == 0.0;
    assert TruncateTowardZero(0.5) == 0;
  }

  lemma GreenBlackSamplePositive()
    ensures BlackSample(0x0000_FF00) > 0
  {
    assert Green(0x0000_FF00) == 255;
    assert Luminance(0x0000_FF00) >= 182.0;
    HalfRangeLower(Luminance(0x0000_FF00));
  }

  /** A luminance of at least 2 gives a positive black sample. */
  lemma HalfRangeLower(l: real)
    requires 2.0 <= l <= 255.0
    ensures OffsetLuminance(l, 0) > 0
  {
    var t := TruncateTowardZero(l / 2.0 + 0.5 + 0 as real);
    assert 1 <= t <= 128;
  }

  /** What a run ends in when no failure aborts it. */
  datatype Outcome =
    /** Usage was printed; no image was read or written. */
    | Help
    /** `image` was written to `path`. */
    | Written(path: string, image: Image)

  /** `main` up to the conversion: the help test, the scan of the
      arguments and the choice of constructor. `None` is the help path. */
  function Prepare(args: seq<string>, load: string -> Image): (r: Result<Option<Converter>>)
    requires Loads(load)
    ensures (r.Ok? && r.value.None?) <==> IsHelp(args)
    ensures r.Ok? && r.value.Some? ==> ValidConverter(r.value.value)
  {
    if IsHelp(args) then Ok(None)
    else
      match Scan(args)
      case Err(e) => Err(e)
      case Ok(params) =>
        match Construct(params, load)
        case Err(e) => Err(e)
        case Ok(c) => Ok(Some(c))
  }

  /** `main` as written: the help test, the scan of the arguments,
      construction and the source's `convert`. A failed scan or a failed
      construction is the run's failure; otherwise the source's conversion
      of the constructed instance is written to the `--out` path. */
  function Run(args: seq<string>, load: string -> Image, rs: Resampler): (r: Result<Outcome>)
    requires Loads(load) && Resizes(rs)
    ensures (r.Ok? && r.value.Help?) <==> IsHelp(args)
    ensures r.Ok? && r.value.Written? ==>
              && Valid(r.value.image)
              && Scan(args).Ok? && "--out" in Scan(args).value && r.value.path == Scan(args).value["--out"]
    ensures !IsHelp(args) && Scan(args).Err? ==> r == Err(Scan(args).error)
    ensures !IsHelp(args) && Scan(args).Ok? && Construct(Scan(args).value, load).Err? ==>
              r == Err(Construct(Scan(args).value, load).error)
    ensures !IsHelp(args) && Scan(args).Ok? && Construct(Scan(args).value, load).Ok? ==>
              var c := Construct(Scan(args).value, load).value;
              r == Ok(Written(c.output, ConvertAsWritten(c, rs)))
  {
    match Prepare(args, load)
    case Err(e) => Err(e)
    case Ok(None) => Ok(Help)
    case Ok(Some(c)) => Ok(Written(c.output, ConvertAsWritten(c, rs)))
  }

  /** `main` with the corrected `convert`: the same failures, and the
      corrected conversion of the constructed instance is written. */
  function RunCorrected(args: seq<string>, load: string -> Image, rs: Resampler): (r: Result<Outcome>)
    requires Loads(load) && Resizes(rs)
    ensures (r.Ok? && r.value.Help?) <==> IsHelp(args)
    ensures r.Ok? && r.value.Written? ==> Valid(r.value.image)
    ensures !IsHelp(args) && Scan(args).Err? ==> r == Err(Scan(args).error)
    ensures !IsHelp(args) && Scan(args).Ok? && Construct(Scan(args).value, load).Err? ==>
              r == Err(Construct(Scan(args).value, load).error)
    ensures !IsHelp(args) && Scan(args).Ok? && Construct(Scan(args).value, load).Ok? ==>
              var c := Construct(Scan(args).value, load).value;
              r == Ok(Written(c.output, Convert(c, rs)))
  {
    match Prepare(args, load)
    case Err(e) => Err(e)
    case Ok(None) => Ok(Help)
    case Ok(Some(c)) => Ok(Written(c.output, Convert(c, rs)))
  }

  /** The two runs fail alike, and they differ at most on command lines
      with `--res`. */
  lemma RunsAgreeWithoutResolution(args: seq<string>, load: string -> Image, rs: Resampler)
    requires Loads(load) && Resizes(rs)
    ensures Run(args, load, rs).Err? <==> RunCorrected(args, load, rs).Err?
    ensures Run(args, load, rs).Err? ==> Run(args, load, rs) == RunCorrected(args, load, rs)
    ensures Scan(args).Ok? && "--res" !in Scan(args).value ==> Run(args, load, rs) == RunCorrected(args, load, rs)
  {
    var p := Prepare(args, load);
    if p.Ok? && p.value.Some? {
      AsWrittenIsCorrectedOnResizedWhite(p.value.value, rs);
    }
  }

  /** Any letter case of `--help`, alone, asks for usage; with anything
      else beside it the token is an ordinary flag. */
  lemma HelpExamples(load: string -> Image, rs: Resampler)
    requires Loads(load) && Resizes(rs)
    ensures Run(["--HeLp"], load, rs) == Ok(Help)
    ensures Run(["--help", "x"], load, rs) == Err(MissingWhiteInput)
  {
    assert Lower("--HeLp") == "--help";
    assert IsFlag("--help");
    assert Lower("--help") == "--help";
    assert Scan(["--help", "x"]) == Ok(map["--help" := "x"]);
  }

  /** A full command line with an explicit resolution runs the source's
      conversion of the two named images at that resolution and writes the
      result to the named output. */
  lemma RunWithResolution(a: string, b: string, o: string, w: int, h: int, load: string -> Image, rs: Resampler)
    requires Loads(load) && Resizes(rs)
    requires 0 < w <= IntMax && 0 < h <= IntMax
    ensures var args := ["--in1", a, "--in2", b, "--out", o, "--res", FormatInt(w) + "x" + FormatInt(h)];
            Run(args, load, rs) == Ok(Written(o, ConvertAsWritten(Converter(load(a), load(b), o, true, w, h), rs)))
  {
    var args := ["--in1", a, "--in2", b, "--out", o, "--res", FormatInt(w) + "x" + FormatInt(h)];
    var params := map["--in1" := a, "--in2" := b, "--out" := o, "--res" := FormatInt(w) + "x" + FormatInt(h)];
    ScanStandardFlags(args);
    ParseResolutionRoundTrip(w, h);
    StandardFlagsDistinct();
    assert params["--in1"] == a && params["--in2"] == b && params["--out"] == o;
    ConstructResized(params, load, w, h);
    RunConverts(args, params, Converter(load(a), load(b), o, true, w, h), load, rs);
  }

  /** The source's defect end to end: with `--res`, swapping the image
      named by `--in2` for any other leaves the written output unchanged. */
  lemma RunWithResolutionIgnoresBlackImage(a: string, b1: string, b2: string, o: string, w: int, h: int,
                                           load: string -> Image, rs: Resampler)
    requires Loads(load) && Resizes(rs)
    requires 0 < w <= IntMax && 0 < h <= IntMax
    ensures var res := FormatInt(w) + "x" + FormatInt(h);
            Run(["--in1", a, "--in2", b1, "--out", o, "--res", res], load, rs) ==
            Run(["--in1", a, "--in2", b2, "--out", o, "--res", res], load, rs)
  {
    RunWithResolution(a, b1, o, w, h, load, rs);
    RunWithResolution(a, b2, o, w, h, load, rs);
    AsWrittenIgnoresBlackImage(Converter(load(a), load(b1), o, true, w, h), load(b2), rs);
  }

  /** With all four keys present and a parsable specifier, construction
      yields the two loaded images at the parsed size. */
  lemma ConstructResized(params: map<string, string>, load: string -> Image, w: nat, h: nat)
    requires Loads(load)
    requires "--in1" in params && "--in2" in params && "--out" in params && "--res" in params
    requires ParseResolution(params["--res"]) == Ok((w, h))
    ensures Construct(params, load) ==
              Ok(Converter(load(params["--in1"]), load(params["--in2"]), params["--out"], true, w, h))
  {
  }

  /** Past the help test, a run writes the conversion of whatever the
      scanned parameters construct. */
  lemma RunConverts(args: seq<string>, params: map<string, string>, c: Converter, load: string -> Image, rs: Resampler)
    requires Loads(load) && Resizes(rs)
    requires |args| != 1 && Scan(args) == Ok(params) && Construct(params, load) == Ok(c)
    ensures ValidConverter(c)
    ensures Run(args, load, rs) == Ok(Written(c.output, ConvertAsWritten(c, rs)))
  {
  }

  /** A full command line without a resolution blends the two original
      images when their sizes agree and fails with a mismatch otherwise. */
  lemma RunNative(a: string, b: string, o: string, load: string -> Image, rs: Resampler)
    requires Loads(load) && Resizes(rs)
    ensures var args := ["--in1", a, "--in2", b, "--out", o];
            if load(a).width == load(b).width && load(a).height == load(b).height then
              Run(args, load, rs) == Ok(Written(o, Blend(load(a), load(b))))
            else
              Run(args, load, rs) == Err(ResolutionMismatch)
  {
    var args := ["--in1", a, "--in2", b, "--out", o];
    ScanPathFlags(args);
  }

  /** The four flag names are already lower case and pairwise distinct. */
  lemma StandardFlagsDistinct()
    ensures Lower("--in1") == "--in1" && Lower("--in2") == "--in2"
    ensures Lower("--out") == "--out" && Lower("--res") == "--res"
    ensures "--in1" != "--in2" && "--in1" != "--out" && "--in1" != "--res"
    ensures "--in2" != "--out" && "--in2" != "--res" && "--out" != "--res"
    ensures IsFlag("--in1") && IsFlag("--in2") && IsFlag("--out") && IsFlag("--res")
  {
    assert "--in1"[4] != "--in2"[4];
    assert "--in1"[2] != "--out"[2] && "--in1"[2] != "--res"[2];
    assert "--in2"[2] != "--out"[2] && "--in2"[2] != "--res"[2];
    assert "--out"[2] != "--res"[2];
  }

  /** Scanning the three path flags, each followed by its value. */
  lemma ScanPathFlags(args: seq<string>)
    requires |args| == 6 && args[0] == "--in1" && args[2] == "--in2" && args[4] == "--out"
    ensures Scan(args) == Ok(map["--in1" := args[1], "--in2" := args[3], "--out" := args[5]])
  {
    StandardFlagsDistinct();
    var m1 := map["--in1" := args[1]];
    var m2 := m1["--in2" := args[3]];
    var m3 := m2["--out" := args[5]];
    assert ScanFrom(args, 0, map[]) == ScanFrom(args, 2, m1);
    assert ScanFrom(args, 2, m1) == ScanFrom(args, 4, m2);
    assert ScanFrom(args, 4, m2) == ScanFrom(args, 6, m3);
  }

  /** Scanning the four standard flags, each followed by its value. */
  lemma ScanStandardFlags(args: seq<string>)
    requires |args| == 8 && args[0] == "--in1" && args[2] == "--in2" && args[4] == "--out" && args[6] == "--res"
    ensures Scan(args) == Ok(map["--in1" := args[1], "--in2" := args[3], "--out" := args[5], "--res" := args[7]])
  {
    StandardFlagsDistinct();
    var m1 := map["--in1" := args[1]];
    var m2 := m1["--in2" := args[3]];
    var m3 := m2["--out" := args[5]];
    var m4 := m3["--res" := args[7]];
    assert ScanFrom(args, 0, map[]) == ScanFrom(args, 2, m1);
    assert ScanFrom(args, 2, m1) == ScanFrom(args, 4, m2);
    assert ScanFrom(args, 4, m2) == ScanFrom(args, 6, m3);
    assert ScanFrom(args, 6, m3) == ScanFrom(args, 8, m4);
  }
}
