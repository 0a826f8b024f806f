# GrayscaleBlend in Dafny

A model of `GrayscaleBlend`, a command-line tool that recovers a grayscale
image with an alpha channel from two opaque renderings of the same picture:
one composited over a white background, one over a black background. For
every pixel it takes an offset luminance byte of each rendering, derives
alpha from their difference and a gray value from the black-background
sample divided by alpha, and writes `R = G = B = gray`, `A = alpha`.

The model covers:

- the per-pixel arithmetic of `convert`: channel extraction, offset luminance
  bytes, `alpha = (0xFF + pixel2 - pixel1) & 0xFF`, the `double` expression
  `(int)(pixel2 * 255. / alpha + .5) & 0xFF` with Java's division and
  narrowing semantics, and packing into an ARGB word (module `Pixel`, with
  the Java numeric semantics in `JavaNum`);
- the pixel loop of `convert` over a `width` x `height` grid (module
  `Raster`);
- the choice of working images, as written and as evidently intended
  (module `GrayscaleBlend`);
- both constructors (null checks, the `--res` specifier, the size check),
  `main`'s help test, argument scanner and constructor dispatch (modules
  `Cli`, `Text`, `GrayscaleBlend`).

Failures are a `Result` whose error names the kind of exception
(`Results.Failure`); messages are not modelled. Images are grids of 32-bit
ARGB words (`seq<seq<bv32>>`) with their width and height. Reading an
image file is the parameter `load`, and the AWT resampler is the parameter
`rs`. The model assumes only that `load` returns a well-formed grid
(`Loads`) and that `rs` returns a grid of the requested size (`Resizes`).

Numeric choices:

- Java `& 0xFF` on an `int` is written `% 256`: the low byte of a
  two's-complement word is its Euclidean residue.
- The division in the gray expression is modelled exactly. A finite
  `double` is held as an exact real, and `Pixel.Gray` states the result as
  integer round-half-up. The doc comment of `Pixel.RoundedQuotient`
  explains why no double rounding can change the cast's result for
  operands up to 255.
- The CIE 1931 luminance `0.0722 B + 0.7152 G + 0.2126 R` is an exact-real
  approximation of the source's `double` sum. The `double` sum can fall
  just below the exact one, and the black-background sample then differs
  from the source's by one. "## Left out" lists the consequences. The
  sample ranges and the positive sample of a pure green pixel do not
  depend on it. The two worked examples, `MidGrayExample` and
  `WhiteOverBlackExample`, hold in `double` evaluation too; their doc
  comments say why.

Behaviour of the code that the model records:

- Line 125 never faults at alpha 0. `0 / 0.0` is NaN, which casts to 0,
  so gray is 0 when `pixel2` is 0. Any other `pixel2` gives +infinity,
  which casts to `Integer.MAX_VALUE`, so gray is 255 (`Pixel.Gray`). On
  real samples the second case arises only in the exact-real model: it
  needs a black-background sample of 128, which the source's `double`
  luminance never reaches.
- The luminance is halved in `double`, not in integer arithmetic. So a
  white pixel rendered over white has a white-background sample of 255. A
  black pixel rendered over black has a black-background sample of 0, and
  together they give the output word 0 (`Pixel.WhiteOverBlackExample`).
- A `--res` value with no `x` whose whole text parses as an `int` fails
  with an index error rather than an invalid-argument error.
- A `--res` part may carry a sign and leading zeros: `+5x07` is 5 by 7.
- Unknown `--` flags are accepted and ignored. A flag is a duplicate only
  when the raw token equals a stored (lower-cased) key, so `--in1 a --IN1 b`
  overwrites instead of failing.
- With `--res`, line 102 resizes the already resized white image in place
  of the black one, so the image named by `--in2` has no effect on the
  output (see "## Findings").

## Model

| member | source | states |
|---|---|---|
| JavaNum.TruncateQuotient | src/tan2pow16/GrayscaleBlend.java:125 | casting the real quotient of two non-negative integers to `int` gives their integer quotient |
| JavaNum.Divide | src/tan2pow16/GrayscaleBlend.java:125 | `double` division of two `int`s: a non-zero divisor gives the exact quotient; a zero divisor gives NaN for `0 / 0` and an infinity with the dividend's sign otherwise |
| JavaNum.Plus | src/tan2pow16/GrayscaleBlend.java:125 | adding `.5` keeps a value finite exactly when it was finite, can be undone by subtracting `.5`, and leaves NaN and the infinities unchanged |
| JavaNum.NarrowToInt | src/tan2pow16/GrayscaleBlend.java:125 | the `(int)` cast always yields a 32-bit value, and a finite in-range value is rounded toward zero |
| Pixel.Pack | src/tan2pow16/GrayscaleBlend.java:115-126 | unpacking `gray \| gray<<8 \| gray<<16 \| alpha<<24` with the mask-and-shift extraction of line 115 gives gray in blue, green and red, and alpha in the top byte |
| Pixel.Luminance | src/tan2pow16/GrayscaleBlend.java:115-122 | the CIE 1931 weighted sum of the three channels lies in [0, 255] (as an exact real; see "## Left out") |
| Pixel.OffsetLuminance | src/tan2pow16/GrayscaleBlend.java:115-122 | for a luminance in [0, 255] and offset 0 or 0x7F, the cast-and-mask byte lies between the offset and 128 above it, so the mask never wraps |
| Pixel.OffsetLuminanceRounds | src/tan2pow16/GrayscaleBlend.java:115-122 | the cast-and-mask byte is half the luminance rounded to the nearest integer, halves up, plus the offset |
| Pixel.WhiteSample | src/tan2pow16/GrayscaleBlend.java:115 | `pixel1` lies in [127, 255], so its mask never wraps |
| Pixel.BlackSample | src/tan2pow16/GrayscaleBlend.java:122 | `pixel2` lies in [0, 128], so its mask never wraps |
| Pixel.SamplesRoundHalfLuminance | src/tan2pow16/GrayscaleBlend.java:115-122 | each sample is half the luminance rounded to the nearest integer, halves up, plus its offset (0x7F over white, none over black) |
| Pixel.Alpha | src/tan2pow16/GrayscaleBlend.java:124 | for two bytes the pre-mask sum lies in [0, 510]; alpha is `255 + pixel2 - pixel1` when the black sample does not exceed the white one, and 256 less otherwise |
| Pixel.AlphaRecoversBlackSample | src/tan2pow16/GrayscaleBlend.java:124 | given the white sample, alpha determines the black sample (`pixel2 = (pixel1 + alpha + 1) mod 256`) |
| Pixel.AlphaZeroCases | src/tan2pow16/GrayscaleBlend.java:115-124 | within the sample ranges alpha is 0 exactly for the pairs (255, 0) and (127, 128); the second pair needs the exact-real black sample 128, which the source's `double` sum never yields |
| Pixel.RoundHalfUpIsNearest | src/tan2pow16/GrayscaleBlend.java:125 | the reference rounding `(2n + d) div 2d` is within one half of `n / d`, the upper half included |
| Pixel.RoundedQuotient | src/tan2pow16/GrayscaleBlend.java:125 | for alpha > 0 the `double` expression `pixel2 * 255. / alpha + .5`, cast to `int`, is exactly the round-half-up of `pixel2 * 255 / alpha` |
| Pixel.Gray | src/tan2pow16/GrayscaleBlend.java:125 | for alpha > 0 gray is the round-half-up of `pixel2 * 255 / alpha` modulo 256, wrapped and not clamped; for alpha 0 it is 0 when pixel2 is 0 (NaN casts to 0) and 255 otherwise (+infinity casts to `Integer.MAX_VALUE`) |
| Pixel.GrayIsNearest | src/tan2pow16/GrayscaleBlend.java:125 | when the black sample does not exceed alpha, gray is within one half of `pixel2 * 255 / alpha`, halves rounded up |
| Pixel.GrayWrapsExample | src/tan2pow16/GrayscaleBlend.java:125 | pixel2 128 over alpha 1 gives 128, and pixel2 2 over alpha 1 gives 254: the mask wraps modulo 256 |
| Pixel.SampledGrayIsNearest | src/tan2pow16/GrayscaleBlend.java:113-125 | on the samples of two pixels a positive alpha is at least pixel2, so gray never wraps and is the nearest integer to `pixel2 * 255 / alpha` |
| Pixel.BlendPixel | src/tan2pow16/GrayscaleBlend.java:113-126 | an output pixel has equal colour channels holding the gray value of its two samples and a top byte holding their alpha |
| Pixel.MidGrayExample | src/tan2pow16/GrayscaleBlend.java:113-126 | two identical mid-gray inputs (R = G = B = 128) give samples 191 and 64 and an output of gray 128 at alpha 128, so the transform is not the identity |
| Pixel.WhiteOverBlackExample | src/tan2pow16/GrayscaleBlend.java:113-126 | white over white and black over black give samples 255 and 0, and the output word 0 |
| Raster.Blank | src/tan2pow16/GrayscaleBlend.java:104 | a new result image has the requested size and every word zero |
| Raster.Blend | src/tan2pow16/GrayscaleBlend.java:104-128 | the result is exactly `width` x `height`, and every cell is the blend of the two working pixels at the same coordinate |
| Raster.BlendIsLocal | src/tan2pow16/GrayscaleBlend.java:113-126 | an output cell depends only on the two input pixels at its own coordinate |
| Raster.BlendColumns | src/tan2pow16/GrayscaleBlend.java:104-128 | the column-by-column loop produces the order-free blend and visits every in-range cell exactly once |
| Text.SplitOnce | src/tan2pow16/GrayscaleBlend.java:50 | `split("x", 2)` yields the whole text when there is no `x`, otherwise the parts before and after the first `x`, with empty parts kept |
| Text.ParseInt | src/tan2pow16/GrayscaleBlend.java:53-54 | a text is accepted exactly when it is digits, `+` and digits, or `-` and digits whose signed value fits in an `int`, and the result is that signed value |
| Text.ParseFormatRoundTrip | src/tan2pow16/GrayscaleBlend.java:53-54 | `parseInt` reads back every `int` written in decimal |
| Text.EqualsIgnoreCase | src/tan2pow16/GrayscaleBlend.java:153 | `equalsIgnoreCase` holds exactly when the lengths agree and the characters agree position by position after ASCII case folding |
| Text.StartsWith | src/tan2pow16/GrayscaleBlend.java:191 | `startsWith` holds exactly when the prefix is no longer than the text and agrees with it position by position |
| Text.Lower | src/tan2pow16/GrayscaleBlend.java:193 | `toLowerCase` keeps the length and lower-cases each character on its own (ASCII letters; see "## Left out") |
| Cli.IsHelp | src/tan2pow16/GrayscaleBlend.java:153 | help is asked for exactly when there is one argument of six characters that match `--help` one by one after ASCII case folding |
| Cli.ScanFrom | src/tan2pow16/GrayscaleBlend.java:179-199 | a successful scan from position i consumed an even number of tokens; a failure is a duplicate, blank or invalid parameter naming a token from position i on |
| Cli.Scan | src/tan2pow16/GrayscaleBlend.java:179-199 | a successful scan has an even number of arguments; a failure names one of the arguments |
| Cli.ScanOkIff | src/tan2pow16/GrayscaleBlend.java:179-199 | scanning succeeds exactly when the tokens pair up, every flag has the `--` prefix, and no flag equals an existing key or the lower-cased form of an earlier flag |
| Cli.ScanResult | src/tan2pow16/GrayscaleBlend.java:179-199 | on success the keys are the lower-cased flags; each is bound to the token after its last occurrence; untouched keys keep their values |
| Cli.ScanFirstFailure | src/tan2pow16/GrayscaleBlend.java:179-199 | a failing scan fails at the first flag position whose pair is not consumed, all earlier pairs being consumed; there the error is a duplicate if the token is an existing key or the lower-cased form of an earlier flag, otherwise blank if it is the last argument, otherwise invalid, and it names that token |
| Cli.ScanErrors | src/tan2pow16/GrayscaleBlend.java:179-199 | every scan failure names a flag-position token: a duplicate repeats an existing key or the lower-cased form of an earlier flag, a blank is the last token of an odd-length list, and an invalid token lacks `--` and has a token after it |
| Cli.MixedCaseFlagOverwrites | src/tan2pow16/GrayscaleBlend.java:181-193 | `--in1 a --IN1 b` succeeds with `--in1` bound to `b` |
| Cli.ExactRepeatIsDuplicated | src/tan2pow16/GrayscaleBlend.java:181-183 | `--in1 a --in1 b` fails as a duplicate of `--in1` |
| Cli.CheckOrderExamples | src/tan2pow16/GrayscaleBlend.java:181-198 | the duplicate test runs before the blank test, which runs before the prefix test; `--a 1 b` fails as blank on `b` and `a b --x` as invalid on `a`, the first failing position deciding |
| GrayscaleBlend.ParseResolution | src/tan2pow16/GrayscaleBlend.java:50-64 | an accepted resolution is two positive `int`s; a failure is invalid, non-positive or a missing second part; the index error happens exactly when there is no `x` and the whole text parses |
| GrayscaleBlend.ParseResolutionOk | src/tan2pow16/GrayscaleBlend.java:50-54 | an accepted width and height are the parses of the text before and after the first `x` |
| GrayscaleBlend.ParseResolutionAccepts | src/tan2pow16/GrayscaleBlend.java:50-64 | conversely, a specifier whose parts around the first `x` both parse as positive `int`s is accepted with those values, whatever their spelling |
| GrayscaleBlend.ParseResolutionErrors | src/tan2pow16/GrayscaleBlend.java:50-63 | the error is an invalid specifier exactly when a part that is read fails to parse, and non-positive exactly when both parts parse and one is at most 0 |
| GrayscaleBlend.ParseResolutionSignedExample | src/tan2pow16/GrayscaleBlend.java:50-64 | `+5x07` is accepted as 5 by 7 |
| GrayscaleBlend.ParseResolutionRoundTrip | src/tan2pow16/GrayscaleBlend.java:50-64 | `<w>x<h>` written in decimal parses back to (w, h) for all positive `int`s |
| GrayscaleBlend.ParseResolutionRejectsText | src/tan2pow16/GrayscaleBlend.java:56-58 | `abc` is an invalid resolution specifier |
| GrayscaleBlend.ParseResolutionRejectsZero | src/tan2pow16/GrayscaleBlend.java:61-63 | `0x10` is rejected as non-positive |
| GrayscaleBlend.ParseResolutionMissingSeparator | src/tan2pow16/GrayscaleBlend.java:50-54 | `100` fails with the index error on the missing second part |
| GrayscaleBlend.ParseResolutionEmptyHeight | src/tan2pow16/GrayscaleBlend.java:53-58 | `10x` is an invalid specifier because the empty height does not parse |
| GrayscaleBlend.NewResized | src/tan2pow16/GrayscaleBlend.java:32-66 | the constructor with a specifier succeeds exactly when all three paths are given and the specifier parses; its fields are the loaded images, the output path and the parsed size; with all paths given, a specifier error is its error |
| GrayscaleBlend.NewNative | src/tan2pow16/GrayscaleBlend.java:68-93 | the constructor without a specifier succeeds exactly when all three paths are given and the two images have the same width and height, which become the working size; with all paths given it otherwise fails with a resolution mismatch |
| GrayscaleBlend.Construct | src/tan2pow16/GrayscaleBlend.java:201-209 | a constructed instance has well-formed images and either a positive explicit resolution or matching native sizes as its working size |
| GrayscaleBlend.ConstructChecksPathsFirst | src/tan2pow16/GrayscaleBlend.java:34-45 | a missing white input, black input or output path is reported first, checked in that order |
| GrayscaleBlend.ConstructOkIff | src/tan2pow16/GrayscaleBlend.java:32-93 | construction succeeds exactly when all paths are present and the specifier parses or, without one, the sizes match; the fields are the loaded images, the output path and the working size |
| GrayscaleBlend.WorkingImagesAsWritten | src/tan2pow16/GrayscaleBlend.java:97-103 | the source's working images are two well-formed images of the working size |
| GrayscaleBlend.WorkingImages | src/tan2pow16/GrayscaleBlend.java:97-103 | the corrected working images are two well-formed images of the working size |
| GrayscaleBlend.ConvertAsWritten | src/tan2pow16/GrayscaleBlend.java:95-128 | the source's conversion yields a well-formed image of the working size |
| GrayscaleBlend.Convert | src/tan2pow16/GrayscaleBlend.java:95-128 | the corrected conversion yields a well-formed image of the working size |
| GrayscaleBlend.AsWrittenIsCorrectedOnResizedWhite | src/tan2pow16/GrayscaleBlend.java:97-103 | without `--res` both versions blend the original images; with it, the source behaves like the corrected conversion fed the resized white image in place of the black one |
| GrayscaleBlend.AsWrittenIgnoresBlackImage | src/tan2pow16/GrayscaleBlend.java:99-102 | with `--res` the source's output does not depend on the black-background image |
| GrayscaleBlend.ResizeToNativeSizeIsNeutral | src/tan2pow16/GrayscaleBlend.java:99-103 | corrected: with a resampler that keeps same-size images, `--res` at the native size gives the same output as no `--res` |
| GrayscaleBlend.ResizeDefectWitness | src/tan2pow16/GrayscaleBlend.java:102 | for two 1 x 1 images and `--res 1x1` the source's output differs from its output without `--res`, while the corrected outputs agree |
| GrayscaleBlend.Prepare | src/tan2pow16/GrayscaleBlend.java:149-209 | before converting, `main` takes the help path exactly when the only argument is `--help` in any case, and otherwise yields a valid instance or a failure |
| GrayscaleBlend.Run | src/tan2pow16/GrayscaleBlend.java:149-210 | `main` as written prints help exactly on `--help` alone; a failed scan or a failed construction is the run's failure; otherwise the source's conversion of the constructed instance is written to the `--out` value |
| GrayscaleBlend.RunCorrected | src/tan2pow16/GrayscaleBlend.java:149-210 | `main` with line 102 corrected: the same help test and failures, and the corrected conversion of the constructed instance is written |
| GrayscaleBlend.RunConverts | src/tan2pow16/GrayscaleBlend.java:201-210 | past the help test, a successful scan and construction make the run write the source's conversion of the constructed instance to its output path |
| GrayscaleBlend.RunsAgreeWithoutResolution | src/tan2pow16/GrayscaleBlend.java:149-210 | `main` with the source's `convert` and with the corrected one fail alike and write the same image whenever the scanned map has no `--res` |
| GrayscaleBlend.HelpExamples | src/tan2pow16/GrayscaleBlend.java:153 | `--HeLp` alone prints help; `--help x` is scanned as a flag and fails on the missing white input |
| GrayscaleBlend.RunWithResolution | src/tan2pow16/GrayscaleBlend.java:179-210 | a full command line with `--res WxH` writes the source's conversion of the two named images at W x H to the named output |
| GrayscaleBlend.RunWithResolutionIgnoresBlackImage | src/tan2pow16/GrayscaleBlend.java:97-102 | with `--res`, the image named by `--in2` has no effect on what `main` writes |
| GrayscaleBlend.RunNative | src/tan2pow16/GrayscaleBlend.java:201-210 | without `--res`, equal sizes write the blend of the two original images and different sizes fail with a resolution mismatch |

## Left out

- Image file I/O (`ImageIO.read`, `ImageIO.write`, `File`, PNG encoding) is I/O. Reading is the parameter `load`, which always succeeds. Read failures, and `ImageIO.read` returning `null` for an unsupported format, are not modelled. Writing is the `Written` outcome.
- The body of `resize` (AWT `getScaledInstance` with `SCALE_SMOOTH`, drawn through `Graphics2D`) is a foreign library call. It is the parameter `rs`, known only to return a well-formed grid of the requested size.
- Pixel.Luminance: the `double` luminance sum is an exact real here. The source's sum can land just below the exact value: for pure white it is 254.99999999999997, not 255. IEEE rounding is not modelled because every sample lemma would then depend on the rounding of three products and two sums.
- Pixel.BlackSample: the exact-real `pixel2` is one more than the source's wherever half the `double` sum plus 0.5 falls just below an integer. Over all 2^24 RGB colours this happens for 299 colours. Among them are 26 of the 256 gray levels (R = G = B): 7, 13, 41, 49, 59, 63, 95, 101, 107, 115, 119, 133, 157, 167, 173, 179, 193, 199, 205, 211, 217, 221, 227, 233, 249 and 255. The white-background sample (`Pixel.WhiteSample`) equals the source's on every colour. Consequences:
  - The source's `pixel2` never exceeds 127. So in the source alpha 0 implies `pixel2` 0 and gray 0. The (127, 128) case of `Pixel.AlphaZeroCases` and the gray-255 branch of `Pixel.Gray` occur only in the model.
  - An opaque white pixel (white over both backgrounds) gets alpha 128 in the model and 127 in the source.
  - A black pixel over white paired with a white pixel over black gives `0x00FFFFFF` in the model and `0xFF7F7F7F` in the source.
- Raster.Blank: allocation always succeeds here, at every size. The source's `new BufferedImage` at line 104 (four bytes per pixel) and inside `resize` at line 140 throws for a size whose pixel buffer does not fit Java's array limits, and can throw `OutOfMemoryError` well before that; `--res 50000x50000` aborts in the source, while the model writes an image. Memory is a property of the running machine, not of the program, so neither failure is modelled.
- Colour-model conversion inside `getRGB` and `setRGB` is not modelled. Images are taken to hold default ARGB words, and the result stores straight alpha.
- Text.ParseInt: accepts ASCII digits only. Java's `Integer.parseInt` also accepts other Unicode decimal digits.
- Text.Lower: folds ASCII letters only. Java's `toLowerCase` and `equalsIgnoreCase` fold all of Unicode, and `toLowerCase` is locale-sensitive.
- Help text, the banner and the discarded jar-name lookup are console output with no effect on the result. Help is the `Help` outcome.
- Exception message texts are not modelled; only the error kinds are.

## Findings

| source | as written | input that shows it | evidently intended | confidence | as-written member | corrected member |
|---|---|---|---|---|---|---|
| src/tan2pow16/GrayscaleBlend.java:102 | `cache2 = resize(cache1, this.width, this.height)` resizes the already resized white image, so with `--res` the black-background image is ignored | two 1 x 1 images, a black pixel over white and a pure green pixel over black, with `--res 1x1` and a resampler that keeps same-size images: the output alpha differs from the run without `--res` | `cache2 = resize(cache2, this.width, this.height)`, resizing the black-background image on its own | high; not executed | GrayscaleBlend.ResizeDefectWitness | GrayscaleBlend.ResizeToNativeSizeIsNeutral |

`GrayscaleBlend.ConvertAsWritten` models the source line, and
`GrayscaleBlend.Run`, the model of `main`, uses it, so
`GrayscaleBlend.RunWithResolutionIgnoresBlackImage` shows the defect end
to end. `GrayscaleBlend.Convert` is the corrected conversion, and
`GrayscaleBlend.RunCorrected` is `main` with it;
`GrayscaleBlend.RunsAgreeWithoutResolution` shows the two runs differ only
on command lines with `--res`.
