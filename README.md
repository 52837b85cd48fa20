# Input-shape handling of the XPU inference benchmark

`c++/xpu-new/test.cc` is a small command-line benchmark. It loads a
PaddlePaddle model, feeds it all-ones inputs, times a number of runs and
prints the outputs. Most of it calls the inference library. This project
models the part that computes something itself:

- the `--input_shapes` flag ("1,3,224,224:1,10") is cut into one text per
  model input by `split_string`;
- each of those texts is read into a shape by `get_shape`, with C `atoi`;
- `shape_print` renders a list of shapes for the log;
- `main` checks that a model can be located, builds the list of input
  shapes (a built-in default when the flag is empty), multiplies each
  shape's dimensions into an element count, and fills an all-ones buffer;
- `RunModel` counts each output's elements and prints at most
  `MAX_DISPLAY_OUTPUT_TENSOR_SIZE` (1000) of them.

The loops of the source are methods with loop invariants, each proved
equal to a pure specification function. The properties are lemmas about
those functions.

Files:

- `clib.dfy` (module `CLib`): the C and C++ library pieces the harness
  relies on. These are a 32-bit `int`, `isspace`/`isdigit`, `atoi`,
  `std::to_string(int)` and `std::string::find` for one character.
- `splitting.dfy` (module `Splitting`): the splitting rule both split
  loops follow, with joining and counting lemmas.
- `shapes.dfy` (module `Shapes`): `split_string`, `get_shape` and
  `shape_print`.
- `harness.dfy` (module `Harness`): the flags, the usage check, the
  assembly of the input shapes, element counts, the input buffer, the
  output display cap and the flag round trip.
- `samples.dfy` (module `Samples`): the documented default flag and two
  splitting examples, worked through the model.

`atoi` is modelled on the whole remaining text, exactly as `get_shape`
calls it (`atoi(tmp_str.data())`). It is then proved to read no further
than the next ','. Signed overflow (in `atoi` and in `*=`) is undefined in
C++. The methods that would overflow therefore require that every value
fits an `int`.

## Model

| member | source | states |
|---|---|---|
| CLib.NatToDigits | c++/xpu-new/test.cc:37 | the decimal digits of `n` are non-empty, all digits, carry no leading zero and have value `n` |
| CLib.IntToString | c++/xpu-new/test.cc:37 | `std::to_string` of an `int` is non-empty, starts with a digit or '-', and has only digits after that |
| CLib.IntToStringAvoids | c++/xpu-new/test.cc:37 | no character other than a digit or '-' (in particular no ',' or ':') occurs in `std::to_string` |
| CLib.Find | c++/xpu-new/test.cc:50 | a position `find` reports (':' here, ',' at line 67) is inside the text and holds the character looked for |
| CLib.FindFirst | c++/xpu-new/test.cc:67 | `find` (',' here, ':' at line 50) gives `npos` exactly when the character is absent, and otherwise its first position |
| CLib.Atoi | c++/xpu-new/test.cc:65 | C `atoi`: skips "C"-locale white space, takes an optional sign and the longest run of digits, 0 when there are none; the value is unbounded, so callers that need an `int` require `IsInt32` of it |
| CLib.AtoiSkipsSpace | c++/xpu-new/test.cc:65 | white space in front of a number does not change what `atoi` reads |
| CLib.LeadingDigitsLongest | c++/xpu-new/test.cc:65 | the digits `atoi` takes are a prefix of the text and stop only at its end or at a non-digit |
| CLib.AtoiStops | c++/xpu-new/test.cc:65 | `atoi` of a text equals `atoi` of its part before a character that ends a number (such as ','), so reading the whole remaining text reads one dimension |
| CLib.AtoiOfDigits | c++/xpu-new/test.cc:65 | `atoi` of a run of digits is its decimal value, and `atoi` of "" is 0 |
| CLib.AtoiOfIntToString | c++/xpu-new/test.cc:65 | `atoi` inverts `std::to_string` on every integer, also when a non-digit follows |
| Splitting.Split | c++/xpu-new/test.cc:49-57 | the split loops give no pieces exactly for the empty text |
| Splitting.SplitWithoutSeparator | c++/xpu-new/test.cc:49-57 | a non-empty text without the separator gives exactly one piece, itself |
| Splitting.SplitPiecesFree | c++/xpu-new/test.cc:49-57 | no piece contains the separator |
| Splitting.JoinSplit | c++/xpu-new/test.cc:49-57 | joining the pieces with the separator gives back the input, minus one trailing separator |
| Splitting.SplitCount | c++/xpu-new/test.cc:49-57 | the number of pieces is the number of separators, plus one unless the text is empty or ends with the separator |
| Splitting.SplitJoin | c++/xpu-new/test.cc:49-57 | splitting joined pieces gives them back when none holds the separator and the last is non-empty |
| Splitting.SplitTrailing | c++/xpu-new/test.cc:49-57 | one separator appended to text not ending in one adds no piece |
| Splitting.SplitAfter | c++/xpu-new/test.cc:51-56 | text free of the separator, then the separator, is one piece followed by the pieces of the rest |
| Shapes.SplitString | c++/xpu-new/test.cc:46-59 | the `split_string` loop returns exactly the ':'-pieces of its input |
| Shapes.GetShape | c++/xpu-new/test.cc:61-75 | the `get_shape` loop returns exactly the dimensions `ParseShape` reads, when each fits an `int` |
| Shapes.ParseShapePieces | c++/xpu-new/test.cc:61-75 | `get_shape` reads one dimension per ','-piece, in order, each `atoi` of its piece alone |
| Shapes.ParseShapeDigits | c++/xpu-new/test.cc:65 | a piece of digits reads as its decimal value, and an empty piece reads as 0 |
| Shapes.ParseShapeTrailingComma | c++/xpu-new/test.cc:61-75 | a ',' appended to text not ending in one adds no dimension ("1,3," reads as "1,3") |
| Shapes.DimStrings | c++/xpu-new/test.cc:37 | one `std::to_string` per dimension, in order |
| Shapes.ShapePrint | c++/xpu-new/test.cc:31-44 | the nested `shape_print` loops build exactly `ShapesText` of the list |
| Shapes.ShapesTextShort | c++/xpu-new/test.cc:39-41 | the empty list prints as "", and a single shape still ends with " : " |
| Shapes.ShapesTextMany | c++/xpu-new/test.cc:39-41 | two or more shapes are joined by " : " with nothing after the last |
| Shapes.DimsTextPieces | c++/xpu-new/test.cc:36-38 | a printed shape cut at ',' gives `std::to_string` of each dimension, in order |
| Shapes.DimsTextJoin | c++/xpu-new/test.cc:36-38 | a printed non-empty shape is its `std::to_string`s joined by ',' plus one ',' after the last: every dimension is followed by exactly one ',' |
| Shapes.ParseShapeOfIntStrings | c++/xpu-new/test.cc:61-75 | text whose ','-pieces are `std::to_string` of some dimensions reads back as those dimensions |
| Shapes.ParseShapeOfDimsText | c++/xpu-new/test.cc:36-38 | `get_shape` of a shape's printed text gives the shape back |
| Harness.UsageValid | c++/xpu-new/test.cc:192-193 | a model can be located: a model directory is given, or both a model file and a parameter file |
| Harness.ParseAll | c++/xpu-new/test.cc:218-221 | one shape per piece, in order, each `get_shape` of its piece |
| Harness.ParseInputShapes | c++/xpu-new/test.cc:210-222 | the default [[1,3,224,224]] for an empty flag, otherwise `get_shape` of every `split_string` piece in order |
| Harness.PrepareInputs | c++/xpu-new/test.cc:192-222 | exit status 1 exactly when neither a model directory nor both model and parameter files are given, otherwise the parsed input shapes |
| Harness.ShapeFlagTextShape | c++/xpu-new/test.cc:216 | a shape written as a flag value (`ShapeFlagText`, the text `InputShapesRoundTrip` feeds to `split_string`) holds no ':' and is non-empty when the shape is, so it stays one piece |
| Harness.ParseShapeFlagText | c++/xpu-new/test.cc:61-75 | `get_shape` reads "d1,d2,..." back as the shape written |
| Harness.InputShapesRoundTrip | c++/xpu-new/test.cc:210-222 | writing shapes as a flag value and parsing it gives them back, when the last shape has a dimension |
| Harness.ElementCount | c++/xpu-new/test.cc:237-239 | the `input_num *=` loop computes the product of the dimensions, 1 for the empty shape |
| Harness.FillInputData | c++/xpu-new/test.cc:240-244 | a fresh buffer of `input_num` values, all 1 |
| Harness.ProductAppend | c++/xpu-new/test.cc:170-171 | the count of two shapes laid end to end is the product of their counts |
| Harness.ProductZero | c++/xpu-new/test.cc:170-171 | the count is 0 exactly when some dimension is 0 |
| Harness.ProductBound | c++/xpu-new/test.cc:170-171 | with all dimensions at least 1 the count is at least 1 and at least every dimension |
| Harness.DisplayOutput | c++/xpu-new/test.cc:170-182 | the element count is the product of the output's dimensions; with printing on, exactly min(count, 1000) elements are shown, element k at position k, in order; with printing off, none |
| Samples.DefaultFlagGivesDefaultShape | c++/xpu-new/test.cc:211-216 | the default flag "1,3,224,224" and the empty flag both give the built-in default shape list |
| Samples.SplitTrailingSample | c++/xpu-new/test.cc:49-57 | "a:" splits into ["a"] |
| Samples.SplitEmptyPieceSample | c++/xpu-new/test.cc:49-57 | "a::b" splits into ["a", "", "b"] |

## Left out

- Predictor construction and use (`Config`, `CreatePredictor`, `Run`, the input and output handles, `Reshape`, `CopyFromCpu`/`CopyToCpu`): these are calls into the inference library. The output data and its shape are parameters of `DisplayOutput`.
- Timing (`time`, `time_diff`, the first/min/max/average statistics): these read the clock and use `double` arithmetic.
- Flag parsing, `LOG(INFO)`, `std::cout` and `std::cerr`: the flag values are the fields of `Flags`. The log text is not modelled, apart from the text `shape_print` produces.
- The precision test: it uses `float` arithmetic over two output sets that the program never fills.
- The loop over output names in `RunModel`: `DisplayOutput` models one iteration of it.
- The loop over input shapes in `main`: `ElementCount` and `FillInputData` model its body, one input at a time.
- The order of work in `main`: the predictor is built before the usage check. This only matters for library side effects.
- Compile errors in the source are not reproduced; the model follows the evident intent:
  - `out_data->data()` on a vector, with the buffer never sized;
  - `shape_print` applied to a single shape;
  - stray `;` in the usage message;
  - the undeclared `model_dir`, `warmup` and `repeats`.
- Shapes.GetShape: requires every dimension it reads to fit an `int`, because `atoi` of an out-of-range number is undefined.
- Harness.ParseInputShapes: requires every dimension of every piece to fit an `int`, for the same reason.
- Harness.PrepareInputs: requires the flag to be in range only when the usage check passes, for the same reason.
- Harness.ElementCount: requires every running product to fit an `int`, because signed overflow is undefined.
- Harness.DisplayOutput: requires the same of the output shape. It also requires an output buffer of exactly the element count, which the intended `CopyToCpu` provides.
- Harness.FillInputData: requires a non-negative count, because a negative `input_num` is not a valid vector size. `1.f` is modelled as the real number 1, which it equals exactly.
- `isspace` is modelled for the "C" locale only.
