/** The flag values the harness documents, worked through the model. */
module Samples {
  import opened CLib
  import opened Splitting
  import opened Shapes
  import opened Harness

  lemma DefaultDimStrings()
    ensures DimStrings(DefaultShape) == ["1", "3", "224", "224"]
  {
    assert NatToDigits(22) == "22" by {
      assert NatToDigits(2) == "2";
    }
    assert IntToString(224) == "224";
  }

  /** The default `--input_shapes` value reads as the built-in default
      shape, so an empty flag and the default flag give the same inputs. */
  lemma DefaultFlagGivesDefaultShape()
    ensures InputShapesOf(DefaultFlags.inputShapes) == [DefaultShape]
    ensures InputShapesOf("") == [DefaultShape]
  {
    var s := DefaultFlags.inputShapes;
    assert s == ShapeFlagText(DefaultShape) by {
      DefaultDimStrings();
    }
    assert Split(s, ':') == [s] by {
      ShapeFlagTextShape(DefaultShape);
      SplitWithoutSeparator(s, ':');
    }
    ParseShapeFlagText(DefaultShape);
  }

  /** "a:" loses its trailing ':'. */
  lemma SplitTrailingSample()
    ensures Split("a:", ':') == ["a"]
  {
    assert "a:" == "a" + [':'] + "";
    SplitAfter("a", ':', "");
  }

  /** "a::b" keeps the empty piece between the two separators. */
  lemma SplitEmptyPieceSample()
    ensures Split("a::b", ':') == ["a", "", "b"]
  {
    assert Split(":b", ':') == ["", "b"] by {
      assert ":b" == "" + [':'] + "b";
      SplitAfter("", ':', "b");
      SplitWithoutSeparator("b", ':');
    }
    assert "a::b" == "a" + [':'] + ":b";
    SplitAfter("a", ':', ":b");
  }
}
