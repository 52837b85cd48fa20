/** The parts of the benchmark's `main` and `RunModel` that compute something
    themselves rather than call the inference library: the usage check, the
    list of input shapes built from `--input_shapes`, the element count of a
    shape, and how many output elements are printed. */
module Harness {
  import opened CLib
  import opened Splitting
  import opened Shapes

  /** At most this many elements of each output are printed. */
  const MaxDisplayOutputTensorSize: int := 1000

  /** The shape used when `--input_shapes` is empty. */
  const DefaultShape: Shape := [1, 3, 224, 224]

  /** The command-line flags, with the defaults the harness declares. */
  datatype Flags = Flags(
    modelFile: string,
    paramFile: string,
    modelDir: string,
    inputShapes: string,
    warmup: int,
    repeats: int,
    printOutputs: bool,
    percisionTest: bool,
    profileTest: bool)

  const DefaultFlags: Flags := Flags("", "", "", "1,3,224,224", 5, 20, false, false, false)

  // ---------------------------------------------------------------------
  // Usage check and input shapes

  /** A model can be located: a model directory, or both a model file and a
      parameter file. */
  predicate UsageValid(f: Flags)
  {
    f.modelDir != [] || (f.modelFile != [] && f.paramFile != [])
  }

  /** `get_shape` applied to every piece, in order. */
  function ParseAll(pieces: seq<string>): (shapes: seq<seq<int>>)
    ensures |shapes| == |pieces|
    ensures forall i :: 0 <= i < |pieces| ==> shapes[i] == ParseShape(pieces[i])
  {
    if pieces == [] then []
    else ParseAll(pieces[..|pieces| - 1]) + [ParseShape(pieces[|pieces| - 1])]
  }

  /** The input shapes `main` settles on for a `--input_shapes` value. */
  function InputShapesOf(flag: string): seq<seq<int>>
  {
    if flag == [] then [DefaultShape] else ParseAll(Split(flag, ':'))
  }

  /** Every dimension the flag spells out fits an `int`. */
  predicate FlagInRange(flag: string)
  {
    forall p <- Split(flag, ':') :: AllInt32(ParseShape(p))
  }

  /** The shape-list assembly in `main`: the default shape unless the flag is
      non-empty, otherwise `get_shape` of every `split_string` piece. */
  method ParseInputShapes(rawInputShapes: string) returns (inputShapes: seq<Shape>)
    requires FlagInRange(rawInputShapes)
    ensures inputShapes == InputShapesOf(rawInputShapes)
  {
    inputShapes := [DefaultShape];
    if rawInputShapes != [] {
      var strInputShapes := SplitString(rawInputShapes);
      inputShapes := [];
      for i := 0 to |strInputShapes|
        invariant inputShapes == ParseAll(strInputShapes[..i])
      {
        assert strInputShapes[i] in Split(rawInputShapes, ':');
        var shape := GetShape(strInputShapes[i]);
        assert strInputShapes[..i + 1][..i] == strInputShapes[..i];
        inputShapes := inputShapes + [shape];
      }
      assert strInputShapes[..|strInputShapes|] == strInputShapes;
    }
  }

  /** The outcome of `main` up to the point where the inputs are ready. */
  datatype Startup = Inputs(shapes: seq<Shape>) | UsageError(exitCode: int)

  /** `main` from the usage check to the parsed input shapes: without a model
      location it exits with status 1, before any input is read. */
  method PrepareInputs(flags: Flags) returns (r: Startup)
    requires UsageValid(flags) ==> FlagInRange(flags.inputShapes)
    ensures r.UsageError? <==> flags.modelDir == [] && (flags.modelFile == [] || flags.paramFile == [])
    ensures r.UsageError? ==> r.exitCode == 1
    ensures r.Inputs? ==> r.shapes == InputShapesOf(flags.inputShapes)
  {
    if flags.modelDir == [] && (flags.modelFile == [] || flags.paramFile == []) {
      return UsageError(1);
    }
    var shapes := ParseInputShapes(flags.inputShapes);
    r := Inputs(shapes);
  }

  // ---------------------------------------------------------------------
  // Canonical flag text and the round trip

  /** A shape as one writes it on the command line: "1,3,224,224". */
  function ShapeFlagText(shape: seq<int>): string
  {
    Join(DimStrings(shape), ",")
  }

  function ShapeFlagTexts(shapes: seq<seq<int>>): (texts: seq<string>)
    ensures |texts| == |shapes|
    ensures forall i :: 0 <= i < |shapes| ==> texts[i] == ShapeFlagText(shapes[i])
  {
    if shapes == [] then [] else [ShapeFlagText(shapes[0])] + ShapeFlagTexts(shapes[1..])
  }

  /** A list of shapes as one writes it for `--input_shapes`: "1,3,224,224:1,10". */
  function FlagText(shapes: seq<seq<int>>): string
  {
    Join(ShapeFlagTexts(shapes), ":")
  }

  lemma {:induction false} JoinAvoids(pieces: seq<string>, sep: string, c: char)
    requires c !in sep
    requires forall p <- pieces :: c !in p
    ensures c !in Join(pieces, sep)
  {
    if |pieces| > 1 {
      assert pieces[0] in pieces;
      JoinAvoids(pieces[1..], sep, c);
    } else if |pieces| == 1 {
      assert pieces[0] in pieces;
    }
  }

  /** No dimension text holds a separator. */
  lemma DimStringsAvoid(shape: seq<int>, c: char)
    requires c == ',' || c == ':'
    ensures forall p <- DimStrings(shape) :: c !in p
  {
    var texts := DimStrings(shape);
    forall p | p in texts ensures c !in p {
      var i :| 0 <= i < |texts| && texts[i] == p;
      IntToStringAvoids(shape[i], c);
    }
  }

  lemma ShapeFlagTextShape(shape: seq<int>)
    ensures ':' !in ShapeFlagText(shape)
    ensures shape != [] ==> ShapeFlagText(shape) != []
  {
    DimStringsAvoid(shape, ':');
    JoinAvoids(DimStrings(shape), ",", ':');
  }

  /** `get_shape` reads a shape written the command-line way back as that
      shape. */
  lemma ParseShapeFlagText(shape: seq<int>)
    ensures ParseShape(ShapeFlagText(shape)) == shape
  {
    if shape != [] {
      var texts := DimStrings(shape);
      var s := ShapeFlagText(shape);
      assert Split(s, ',') == texts by {
        DimStringsAvoid(shape, ',');
        SplitJoin(texts, ',');
      }
      ParseShapeOfIntStrings(s, shape);
    }
  }

  /** Writing a list of shapes as a flag value and parsing it gives the list
      back, as long as the last shape has a dimension (an empty last shape
      would leave a trailing ':', which `split_string` drops). */
  lemma InputShapesRoundTrip(shapes: seq<seq<int>>)
    requires shapes != [] && shapes[|shapes| - 1] != []
    ensures InputShapesOf(FlagText(shapes)) == shapes
  {
    var texts := ShapeFlagTexts(shapes);
    forall p | p in texts ensures ':' !in p {
      var i :| 0 <= i < |texts| && texts[i] == p;
      ShapeFlagTextShape(shapes[i]);
    }
    ShapeFlagTextShape(shapes[|shapes| - 1]);
    SplitJoin(texts, ':');
    var parsed := InputShapesOf(FlagText(shapes));
    assert parsed == ParseAll(texts);
    forall i | 0 <= i < |shapes| ensures parsed[i] == shapes[i] {
      ParseShapeFlagText(shapes[i]);
    }
  }

  // ---------------------------------------------------------------------
  // Element counts and the output display cap

  /** The number of elements of a tensor: the dimensions multiplied from the
      left, starting from 1 (so the empty shape has one element). */
  function Product(dims: seq<int>): int
  {
    if dims == [] then 1 else Product(dims[..|dims| - 1]) * dims[|dims| - 1]
  }

  /** Every running product stays within an `int` (signed overflow is
      undefined in C++). */
  predicate ProductFits(dims: seq<int>)
  {
    forall k :: 0 <= k <= |dims| ==> IsInt32(Product(dims[..k]))
  }

  /** `input_num *= input_shapes[i][j]` over one shape, from 1; the same
      fold as `std::accumulate(..., 1, std::multiplies<int>())`. */
  method ElementCount(shape: Shape) returns (num: Int32)
    requires ProductFits(shape)
    ensures num == Product(shape)
  {
    num := 1;
    for j := 0 to |shape|
      invariant num == Product(shape[..j])
    {
      assert shape[..j + 1][..j] == shape[..j];
      assert IsInt32(Product(shape[..j + 1]));
      num := num * shape[j];
    }
    assert shape[..|shape|] == shape;
  }

  /** The input buffer `main` hands to each input tensor: `input_num`
      values, every one of them 1 (`1.f` is exactly 1). A negative count is
      not a valid vector size. */
  method FillInputData(inputNum: Int32) returns (inputData: array<real>)
    requires inputNum >= 0
    ensures fresh(inputData)
    ensures inputData.Length == inputNum
    ensures forall k :: 0 <= k < inputData.Length ==> inputData[k] == 1.0
  {
    inputData := new real[inputNum];
    for k := 0 to inputNum
      invariant forall i :: 0 <= i < k ==> inputData[i] == 1.0
    {
      inputData[k] := 1.0;
    }
  }

  /** The count of a shape split in two is the product of the two counts. */
  lemma {:induction false} ProductAppend(a: seq<int>, b: seq<int>)
    ensures Product(a + b) == Product(a) * Product(b)
    decreases |b|
  {
    if b == [] {
      assert a + b == a;
    } else {
      var b' := b[..|b| - 1];
      assert (a + b)[..|a + b| - 1] == a + b';
      ProductAppend(a, b');
      assert Product(a + b) == Product(a) * Product(b') * b[|b| - 1];
    }
  }

  /** A tensor has no elements exactly when one of its dimensions is 0. */
  lemma {:induction false} ProductZero(dims: seq<int>)
    ensures Product(dims) == 0 <==> 0 in dims
  {
    if dims != [] {
      var init := dims[..|dims| - 1];
      ProductZero(init);
      assert dims == init + [dims[|dims| - 1]];
    }
  }

  /** With every dimension at least 1, the count is at least every dimension. */
  lemma {:induction false} ProductBound(dims: seq<int>)
    requires forall i :: 0 <= i < |dims| ==> dims[i] >= 1
    ensures Product(dims) >= 1
    ensures forall i :: 0 <= i < |dims| ==> dims[i] <= Product(dims)
  {
    if dims != [] {
      var init := dims[..|dims| - 1];
      var d := dims[|dims| - 1];
      ProductBound(init);
      var p := Product(init);
      assert p * d >= p && p * d >= d by {
        assert p * d == p + p * (d - 1);
        assert p * d == d + (p - 1) * d;
      }
    }
  }

  /** One output in `RunModel`: its element count, and the (index, value)
      pairs printed when `--print_outputs` is set, never more than the cap. */
  method DisplayOutput<T>(printOutputs: bool, outputShape: Shape, outData: seq<T>)
    returns (numel: Int32, shown: seq<(int, T)>)
    requires ProductFits(outputShape)
    requires |outData| == Product(outputShape)
    ensures numel == Product(outputShape)
    ensures printOutputs ==> |shown| == if numel < MaxDisplayOutputTensorSize then numel else MaxDisplayOutputTensorSize
    ensures !printOutputs ==> shown == []
    ensures forall k :: 0 <= k < |shown| ==> shown[k] == (k, outData[k])
  {
    numel := ElementCount(outputShape);
    shown := [];
    if printOutputs {
      var k := 0;
      while k < numel && k < MaxDisplayOutputTensorSize
        invariant 0 <= k <= numel && k <= MaxDisplayOutputTensorSize
        invariant |shown| == k
        invariant forall i :: 0 <= i < k ==> shown[i] == (i, outData[i])
      {
        shown := shown + [(k, outData[k])];
        k := k + 1;
      }
    }
  }
}
