/** The shape-string helpers of the XPU benchmark harness: `split_string`
    cuts the `--input_shapes` value at ':' into one text per model input,
    `get_shape` cuts one such text at ',' and reads each dimension with
    `atoi`, and `shape_print` renders a list of shapes for the log. */
module Shapes {
  import opened CLib
  import opened Splitting

  /** `shape_t`: the dimensions of one tensor, each a C `int`. */
  type Shape = seq<Int32>

  predicate AllInt32(dims: seq<int>) { forall i :: 0 <= i < |dims| ==> IsInt32(dims[i]) }

  // ---------------------------------------------------------------------
  // split_string

  /** `split_string`: the loop keeps cutting the remaining text at its first
      ':' and pushes the part before it. */
  method SplitString(strIn: string) returns (strOut: seq<string>)
    ensures strOut == Split(strIn, ':')
  {
    strOut := [];
    var tmpStr := strIn;
    while tmpStr != []
      invariant Split(strIn, ':') == strOut + Split(tmpStr, ':')
      decreases |tmpStr|
    {
      var nextOffset := Find(tmpStr, ':');
      if nextOffset.None? {
        // substr(0, npos) is the whole remaining text
        strOut := strOut + [tmpStr];
        break;
      }
      var i := nextOffset.value;
      ghost var rest := Split(tmpStr[i + 1..], ':');
      SplitStep(tmpStr, ':', i);
      assert Split(strIn, ':') == (strOut + [tmpStr[..i]]) + rest;
      strOut := strOut + [tmpStr[..i]];
      tmpStr := tmpStr[i + 1..];
    }
  }

  // ---------------------------------------------------------------------
  // get_shape

  /** The dimensions `get_shape` reads from `s`: `atoi` of the whole remaining
      text, then on past the next ','. */
  function ParseShape(s: string): seq<int>
    decreases |s|
  {
    if s == [] then []
    else
      var next := Find(s, ',');
      if next.None? then [Atoi(s)] else [Atoi(s)] + ParseShape(s[next.value + 1..])
  }

  lemma ParseShapeCut(s: string, i: nat)
    requires Find(s, ',') == Some(i)
    ensures ParseShape(s) == [Atoi(s)] + ParseShape(s[i + 1..])
  {
  }

  /** What reading the whole remaining text amounts to: one dimension per
      ','-separated piece, each `atoi` of its piece alone. */
  lemma {:induction false} ParseShapePieces(s: string)
    ensures |ParseShape(s)| == |Split(s, ',')|
    ensures forall i :: 0 <= i < |ParseShape(s)| ==> ParseShape(s)[i] == Atoi(Split(s, ',')[i])
    decreases |s|
  {
    if s != [] {
      match Find(s, ',')
      case None =>
      case Some(i) =>
        var rest := s[i + 1..];
        ParseShapePieces(rest);
        assert Split(s, ',') == [s[..i]] + Split(rest, ',') by {
          SplitStep(s, ',', i);
        }
        ParseShapeCut(s, i);
        AtoiStops(s, i);
        AtoiConsPieces(s[..i], ParseShape(rest), Split(rest, ','));
    }
  }

  lemma AtoiConsPieces(x: string, dims: seq<int>, pieces: seq<string>)
    requires |dims| == |pieces|
    requires forall k :: 0 <= k < |dims| ==> dims[k] == Atoi(pieces[k])
    ensures forall k :: 0 <= k < |dims| + 1 ==> ([Atoi(x)] + dims)[k] == Atoi(([x] + pieces)[k])
  {
  }

  /** The dimensions read after the first one. */
  function ParseShapeTail(s: string): seq<int>
  {
    match Find(s, ',')
    case None => []
    case Some(i) => ParseShape(s[i + 1..])
  }

  lemma ParseShapeStep(s: string)
    requires s != []
    ensures ParseShape(s) == [Atoi(s)] + ParseShapeTail(s)
  {
  }

  /** `get_shape`, defined when every dimension it reads fits an `int`
      (`atoi` of an out-of-range number is undefined). */
  method GetShape(strShape: string) returns (shape: Shape)
    requires AllInt32(ParseShape(strShape))
    ensures shape == ParseShape(strShape)
  {
    shape := [];
    var tmpStr := strShape;
    while tmpStr != []
      invariant ParseShape(strShape) == shape + ParseShape(tmpStr)
      decreases |tmpStr|
    {
      ghost var tail := ParseShapeTail(tmpStr);
      ParseShapeStep(tmpStr);
      assert ParseShape(strShape) == (shape + [Atoi(tmpStr)]) + tail;
      assert ParseShape(strShape)[|shape|] == Atoi(tmpStr);
      var dim: Int32 := Atoi(tmpStr);
      shape := shape + [dim];
      var nextOffset := Find(tmpStr, ',');
      if nextOffset.None? {
        break;
      }
      tmpStr := tmpStr[nextOffset.value + 1..];
    }
  }

  /** A dimension text that is a plain run of digits reads as its decimal
      value, and an empty one as 0. */
  lemma ParseShapeDigits(s: string, i: nat)
    requires i < |Split(s, ',')|
    ensures i < |ParseShape(s)|
    ensures AllDigits(Split(s, ',')[i]) ==> ParseShape(s)[i] == DigitsValue(Split(s, ',')[i])
    ensures Split(s, ',')[i] == [] ==> ParseShape(s)[i] == 0
  {
    ParseShapePieces(s);
    if AllDigits(Split(s, ',')[i]) {
      AtoiOfDigits(Split(s, ',')[i]);
    }
  }

  /** A ',' at the end adds no dimension: "1,3," reads as "1,3". */
  lemma ParseShapeTrailingComma(s: string)
    requires s != [] && s[|s| - 1] != ','
    ensures ParseShape(s + [',']) == ParseShape(s)
  {
    SplitTrailing(s, ',');
    ParseShapePieces(s);
    ParseShapePieces(s + [',']);
  }

  // ---------------------------------------------------------------------
  // shape_print

  /** `std::to_string` of every dimension. */
  function DimStrings(shape: seq<int>): (texts: seq<string>)
    ensures |texts| == |shape|
    ensures forall i :: 0 <= i < |shape| ==> texts[i] == IntToString(shape[i])
  {
    if shape == [] then [] else [IntToString(shape[0])] + DimStrings(shape[1..])
  }

  lemma AppendAssoc(a: string, b: string, c: string)
    ensures a + (b + c) == (a + b) + c
  {
  }

  /** One shape as `shape_print` writes it: every dimension followed by ','. */
  function DimsText(shape: seq<int>): string
  {
    if shape == [] then "" else IntToString(shape[0]) + "," + DimsText(shape[1..])
  }

  /** What `shape_print` writes after shape `idx` of `n`: nothing after the
      last shape of two or more, " : " after every other one, the only shape
      of a single-shape list included. */
  function Separator(idx: nat, n: nat): string
  {
    if idx != 0 && idx == n - 1 then "" else " : "
  }

  /** The text of the first `k` shapes. */
  function PrintedPrefix(shapes: seq<Shape>, k: nat): string
    requires k <= |shapes|
  {
    if k == 0 then ""
    else PrintedPrefix(shapes, k - 1) + DimsText(shapes[k - 1]) + Separator(k - 1, |shapes|)
  }

  function ShapesText(shapes: seq<Shape>): string
  {
    PrintedPrefix(shapes, |shapes|)
  }

  /** `shape_print`: two nested loops appending to the result. */
  method ShapePrint(shapes: seq<Shape>) returns (shapesStr: string)
    ensures shapesStr == ShapesText(shapes)
  {
    shapesStr := "";
    for shapeIdx := 0 to |shapes|
      invariant shapesStr == PrintedPrefix(shapes, shapeIdx)
    {
      var shape := shapes[shapeIdx];
      var shapeStr := "";
      for k := 0 to |shape|
        invariant shapeStr + DimsText(shape[k..]) == DimsText(shape)
      {
        var piece := IntToString(shape[k]) + ",";
        assert shape[k..][1..] == shape[k + 1..];
        AppendAssoc(shapeStr, piece, DimsText(shape[k + 1..]));
        shapeStr := shapeStr + piece;
      }
      assert shapeStr + DimsText(shape[|shape|..]) == shapeStr;
      shapesStr := shapesStr + shapeStr;
      shapesStr := shapesStr + (if shapeIdx != 0 && shapeIdx == |shapes| - 1 then "" else " : ");
    }
  }

  /** The texts of the shapes, one per shape. */
  function DimsTexts(shapes: seq<Shape>): seq<string>
  {
    if shapes == [] then [] else DimsTexts(shapes[..|shapes| - 1]) + [DimsText(shapes[|shapes| - 1])]
  }

  /** The empty list prints as nothing, and a single shape keeps a trailing
      " : " after it. */
  lemma ShapesTextShort(shapes: seq<Shape>)
    requires |shapes| <= 1
    ensures shapes == [] ==> ShapesText(shapes) == ""
    ensures |shapes| == 1 ==> ShapesText(shapes) == DimsText(shapes[0]) + " : "
  {
    if |shapes| == 1 {
      assert ShapesText(shapes) == PrintedPrefix(shapes, 0) + DimsText(shapes[0]) + Separator(0, 1);
      assert "" + DimsText(shapes[0]) == DimsText(shapes[0]);
    }
  }

  lemma {:induction false} PrintedPrefixIsJoin(shapes: seq<Shape>, k: nat)
    requires 1 <= k < |shapes|
    ensures PrintedPrefix(shapes, k) == Join(DimsTexts(shapes[..k]), " : ") + " : "
  {
    assert shapes[..k][..k - 1] == shapes[..k - 1];
    if k > 1 {
      PrintedPrefixIsJoin(shapes, k - 1);
      JoinSnoc(DimsTexts(shapes[..k - 1]), DimsText(shapes[k - 1]), " : ");
    }
  }

  /** Two or more shapes are joined by " : " with nothing after the last. */
  lemma ShapesTextMany(shapes: seq<Shape>)
    requires |shapes| >= 2
    ensures ShapesText(shapes) == Join(DimsTexts(shapes), " : ")
  {
    var n := |shapes|;
    var init := DimsTexts(shapes[..n - 1]);
    var last := DimsText(shapes[n - 1]);
    assert DimsTexts(shapes) == init + [last];
    PrintedPrefixIsJoin(shapes, n - 1);
    JoinSnoc(init, last, " : ");
    assert ShapesText(shapes) == PrintedPrefix(shapes, n - 1) + last + "";
    assert PrintedPrefix(shapes, n - 1) + last + "" == PrintedPrefix(shapes, n - 1) + last;
  }

  /** Cutting a printed shape at ',' gives back `std::to_string` of each
      dimension (`Split` drops the ',' after the last one; `DimsTextJoin`
      says where every ',' is). */
  lemma {:induction false} DimsTextPieces(shape: seq<int>)
    ensures Split(DimsText(shape), ',') == DimStrings(shape)
  {
    if shape != [] {
      var head := IntToString(shape[0]);
      IntToStringAvoids(shape[0], ',');
      SplitAfter(head, ',', DimsText(shape[1..]));
      DimsTextPieces(shape[1..]);
    }
  }

  /** A printed shape is its dimensions joined by ',', with one more ','
      after the last: every dimension is followed by exactly one ','. */
  lemma {:induction false} DimsTextJoin(shape: seq<int>)
    requires shape != []
    ensures DimsText(shape) == Join(DimStrings(shape), ",") + ","
  {
    if |shape| > 1 {
      DimsTextJoin(shape[1..]);
      assert DimStrings(shape)[1..] == DimStrings(shape[1..]);
      AppendAssoc(IntToString(shape[0]) + ",", Join(DimStrings(shape[1..]), ","), ",");
    } else {
      assert shape[1..] == [];
    }
  }

  /** Text whose ','-pieces are `std::to_string` of some dimensions reads
      back as those dimensions. */
  lemma ParseShapeOfIntStrings(s: string, shape: seq<int>)
    requires Split(s, ',') == DimStrings(shape)
    ensures ParseShape(s) == shape
  {
    ParseShapePieces(s);
    forall i | 0 <= i < |shape| ensures ParseShape(s)[i] == shape[i] {
      AtoiOfIntToString(shape[i], []);
      assert IntToString(shape[i]) + [] == IntToString(shape[i]);
    }
  }

  /** `get_shape` reads a printed shape back as the shape printed. */
  lemma ParseShapeOfDimsText(shape: seq<int>)
    ensures ParseShape(DimsText(shape)) == shape
  {
    DimsTextPieces(shape);
    ParseShapeOfIntStrings(DimsText(shape), shape);
  }
}
