/** The splitting rule shared by `split_string` and `get_shape`: while text
    remains, cut it at the first separator, keep the part before it, and go on
    after it. A separator at the very end therefore leaves no empty last piece,
    while two separators in a row do. */
module Splitting {
  import opened CLib

  /** The pieces the harness's split loops produce from `s`. */
  function Split(s: string, sep: char): (pieces: seq<string>)
    ensures pieces == [] <==> s == []
    decreases |s|
  {
    if s == [] then []
    else match Find(s, sep)
      case None => [s]
      case Some(i) => [s[..i]] + Split(s[i + 1..], sep)
  }

  /** One step of the split loop: the text before the first separator, then
      the pieces of the rest. */
  lemma SplitStep(s: string, sep: char, i: nat)
    requires Find(s, sep) == Some(i)
    ensures Split(s, sep) == [s[..i]] + Split(s[i + 1..], sep)
  {
  }

  /** Text without the separator is a single piece. */
  lemma SplitWithoutSeparator(s: string, sep: char)
    requires s != [] && sep !in s
    ensures Split(s, sep) == [s]
  {
    FindFirst(s, sep);
  }

  /** No piece holds the separator. */
  lemma {:induction false} SplitPiecesFree(s: string, sep: char)
    ensures forall p <- Split(s, sep) :: sep !in p
    decreases |s|
  {
    if s != [] {
      FindFirst(s, sep);
      match Find(s, sep)
      case None =>
      case Some(i) =>
        SplitStep(s, sep, i);
        SplitPiecesFree(s[i + 1..], sep);
    }
  }

  /** The pieces written one after the other with `sep` between them. */
  function Join(pieces: seq<string>, sep: string): string
  {
    if |pieces| == 0 then []
    else if |pieces| == 1 then pieces[0]
    else pieces[0] + sep + Join(pieces[1..], sep)
  }

  lemma {:induction false} JoinSnoc(pieces: seq<string>, p: string, sep: string)
    requires pieces != []
    ensures Join(pieces + [p], sep) == Join(pieces, sep) + sep + p
  {
    if |pieces| > 1 {
      assert (pieces + [p])[1..] == pieces[1..] + [p];
      JoinSnoc(pieces[1..], p, sep);
    } else {
      assert (pieces + [p])[1..] == [p];
    }
  }

  /** `s` without one separator at its end, if it has one. */
  function DropTrailing(s: string, sep: char): (r: string)
  {
    if s != [] && s[|s| - 1] == sep then s[..|s| - 1] else s
  }

  lemma AroundIndex(s: string, i: nat)
    requires i < |s|
    ensures s == s[..i] + [s[i]] + s[i + 1..]
  {
  }

  lemma DropTrailingAfter(a: string, sep: char, rest: string)
    ensures DropTrailing(a + [sep] + rest, sep)
            == if rest == [] then a else a + [sep] + DropTrailing(rest, sep)
  {
    var s := a + [sep] + rest;
    if rest == [] {
      assert s[..|s| - 1] == a;
    } else {
      assert s[|s| - 1] == rest[|rest| - 1];
      if rest[|rest| - 1] == sep {
        assert s[..|s| - 1] == a + [sep] + rest[..|rest| - 1];
      }
    }
  }

  /** Joining the pieces again gives back the input, except for a single
      separator at its end: "a::b" gives "a", "", "b" and "a:" gives "a". */
  lemma {:induction false} JoinSplit(s: string, sep: char)
    ensures Join(Split(s, sep), [sep]) == DropTrailing(s, sep)
    decreases |s|
  {
    if s != [] {
      match Find(s, sep)
      case None =>
        FindFirst(s, sep);
        assert s[|s| - 1] in s;
      case Some(i) =>
        var a, rest := s[..i], s[i + 1..];
        SplitStep(s, sep, i);
        JoinSplit(rest, sep);
        AroundIndex(s, i);
        DropTrailingAfter(a, sep, rest);
        if rest != [] {
          assert ([a] + Split(rest, sep))[1..] == Split(rest, sep);
        }
    }
  }

  /** Each piece comes from one separator, plus one more piece unless the
      input is empty or ends with the separator. */
  lemma {:induction false} SplitCount(s: string, sep: char)
    ensures |Split(s, sep)| == multiset(s)[sep] + (if s != [] && s[|s| - 1] != sep then 1 else 0)
    decreases |s|
  {
    if s != [] {
      match Find(s, sep)
      case None =>
        FindFirst(s, sep);
        assert s[|s| - 1] in s;
        assert multiset(s)[sep] == 0;
      case Some(i) =>
        var a, rest := s[..i], s[i + 1..];
        SplitStep(s, sep, i);
        assert multiset(s)[sep] == multiset(rest)[sep] + 1 by {
          FindFirst(s, sep);
          assert multiset(a)[sep] == 0;
          AroundIndex(s, i);
          assert multiset(s) == multiset(a) + multiset([sep]) + multiset(rest);
        }
        SplitCount(rest, sep);
        if rest != [] {
          assert s[|s| - 1] == rest[|rest| - 1];
        }
    }
  }

  lemma FindAfter(p: string, sep: char, rest: string)
    requires sep !in p
    ensures Find(p + [sep] + rest, sep) == Some(|p|)
  {
    var s := p + [sep] + rest;
    FindFirst(s, sep);
    assert s[|p|] == sep;
    assert s[..|p|] == p;
  }

  /** Text free of the separator, then the separator, splits into that text
      followed by the pieces of what comes after. */
  lemma SplitAfter(p: string, sep: char, rest: string)
    requires sep !in p
    ensures Split(p + [sep] + rest, sep) == [p] + Split(rest, sep)
  {
    var s := p + [sep] + rest;
    FindAfter(p, sep, rest);
    SplitStep(s, sep, |p|);
    assert s[..|p|] == p;
    assert s[|p| + 1..] == rest;
  }

  /** Splitting undoes joining when no piece holds the separator and the last
      piece is not empty (an empty last piece would read as a trailing
      separator and be dropped). */
  lemma {:induction false} SplitJoin(pieces: seq<string>, sep: char)
    requires pieces != [] && pieces[|pieces| - 1] != []
    requires forall p <- pieces :: sep !in p
    ensures Split(Join(pieces, [sep]), sep) == pieces
  {
    if |pieces| == 1 {
      assert pieces[0] in pieces;
    } else {
      var p, tail := pieces[0], pieces[1..];
      assert p in pieces;
      assert forall q <- tail :: q in pieces;
      assert tail[|tail| - 1] == pieces[|pieces| - 1];
      var rest := Join(tail, [sep]);
      assert Join(pieces, [sep]) == p + [sep] + rest;
      SplitAfter(p, sep, rest);
      SplitJoin(tail, sep);
      assert pieces == [p] + tail;
    }
  }

  /** A separator added after text that does not already end with one adds
      no piece: "1,3," splits like "1,3". */
  lemma {:induction false} SplitTrailing(s: string, sep: char)
    requires s != [] && s[|s| - 1] != sep
    ensures Split(s + [sep], sep) == Split(s, sep)
    decreases |s|
  {
    FindFirst(s, sep);
    match Find(s, sep)
    case None =>
      SplitAfter(s, sep, []);
      assert s + [sep] + [] == s + [sep];
    case Some(i) =>
      var a, rest := s[..i], s[i + 1..];
      assert rest[|rest| - 1] == s[|s| - 1];
      calc {
        Split(s + [sep], sep);
      == { AroundIndex(s, i);
           assert s + [sep] == a + [sep] + (rest + [sep]);
           SplitAfter(a, sep, rest + [sep]); }
        [a] + Split(rest + [sep], sep);
      == { SplitTrailing(rest, sep); }
        [a] + Split(rest, sep);
      == { AroundIndex(s, i); SplitAfter(a, sep, rest); }
        Split(s, sep);
      }
  }
}
