/**
 * The two text extractors for a food-recognition answer
 * (`extract_detected_items`, `extract_nutritional_analysis`).
 */
module Analysis {
  import opened Text

  const FoodsMarker := "Foods detected:"
  const NoFoods := "No foods detected."
  const AnalysisMarker := "Nutritional Analysis:"
  const NoAnalysis := "No nutritional analysis available."

  /** `[item.strip() for item in parts]`. */
  function StripAll(parts: seq<string>): (r: seq<string>)
    ensures |r| == |parts| && forall i :: 0 <= i < |parts| ==> r[i] == Strip(parts[i])
    ensures forall i :: 0 <= i < |r| ==> Trimmed(r[i])
    ensures forall i :: 0 <= i < |r| ==> (Trimmed(parts[i]) ==> r[i] == parts[i])
  {
    StripKeepsTrimmed(parts);
    seq(|parts|, i requires 0 <= i < |parts| => Strip(parts[i]))
  }

  /** Stripping an item that is already stripped changes nothing. */
  lemma StripKeepsTrimmed(parts: seq<string>)
    ensures forall i :: 0 <= i < |parts| ==> (Trimmed(parts[i]) ==> Strip(parts[i]) == parts[i])
  {
    forall i | 0 <= i < |parts| && Trimmed(parts[i]) ensures Strip(parts[i]) == parts[i] {
      StripUnchanged(parts[i]);
    }
  }

  /** `extract_detected_items`: the comma-separated items on the rest of the line after the
      first "Foods detected:", each stripped. */
  function DetectedItems(text: string): (r: seq<string>)
    ensures |r| >= 1
    ensures !Contains(text, FoodsMarker) ==> r == [NoFoods]
  {
    if Contains(text, FoodsMarker) then
      StripAll(Split(Split(Split(text, FoodsMarker)[1], "\n")[0], ","))
    else
      [NoFoods]
  }

  /** `extract_nutritional_analysis`: the text between the first "Nutritional Analysis:" and
      the next one (or the end). */
  function NutritionalAnalysis(text: string): (r: string)
    ensures !Contains(text, AnalysisMarker) ==> r == NoAnalysis
    ensures Contains(text, AnalysisMarker) ==> !Contains(r, AnalysisMarker)
  {
    if Contains(text, AnalysisMarker) then Split(text, AnalysisMarker)[1] else NoAnalysis
  }

  /** Letters of the items marker that the round trip below relies on. */
  lemma FoodsMarkerLetters()
    ensures |FoodsMarker| == 15 && FoodsMarker[0] == 'F'
    ensures forall k :: 1 <= k < |FoodsMarker| ==> FoodsMarker[k] != 'F' && FoodsMarker[k] != '\n'
  {
  }

  /**
   * There is always at least one item. Without the marker the answer is
   * ["No foods detected."]; with it, every item is stripped and holds no
   * comma and no line break.
   */
  lemma DetectedItemsShape(text: string)
    ensures |DetectedItems(text)| >= 1
    ensures !Contains(text, FoodsMarker) ==> DetectedItems(text) == [NoFoods]
    ensures Contains(text, FoodsMarker) ==> forall i :: 0 <= i < |DetectedItems(text)| ==>
      var item := DetectedItems(text)[i];
      !Contains(item, ",") && !Contains(item, "\n") && Strip(item) == item
  {
    if Contains(text, FoodsMarker) {
      var line := Split(Split(text, FoodsMarker)[1], "\n")[0];
      var pieces := Split(line, ",");
      JoinPartNotContains(pieces, ",", "\n");
      forall i | 0 <= i < |pieces|
        ensures !Contains(Strip(pieces[i]), ",") && !Contains(Strip(pieces[i]), "\n")
        ensures Strip(Strip(pieces[i])) == Strip(pieces[i])
      {
        StripNotContains(pieces[i], ",");
        StripNotContains(pieces[i], "\n");
        StripUnchanged(Strip(pieces[i]));
      }
    }
  }

  /** The first marker in `before + FoodsMarker + x` is the one after `before`. */
  lemma MarkerAfterBefore(before: string, x: string)
    requires !Contains(before, FoodsMarker)
    ensures StartsAt(before + FoodsMarker + x, |before|, FoodsMarker)
    ensures forall j :: 0 <= j < |before| ==> !StartsAt(before + FoodsMarker + x, j, FoodsMarker)
  {
    var text := before + FoodsMarker + x;
    FoodsMarkerLetters();
    assert StartsAt(FoodsMarker, 0, FoodsMarker);
    StartsAtShift(before, FoodsMarker, 0, FoodsMarker);
    StartsAtAppend(before + FoodsMarker, x, |before|, FoodsMarker);
    ContainsIff(before, FoodsMarker);
    forall j | 0 <= j < |before| ensures !StartsAt(text, j, FoodsMarker) {
      if j + |FoodsMarker| <= |before| {
        StartsAtSlice(text, 0, |before|, j, FoodsMarker);
        assert text[0..|before|] == before;
      } else {
        assert text[|before|] == 'F';
        assert text[j..j + |FoodsMarker|][|before| - j] == text[|before|];
      }
    }
  }

  /** No marker starts within a marker-free line or at its line break. */
  lemma NoMarkerInLine(line: string, after: string)
    requires !Contains(line, FoodsMarker)
    ensures forall j :: 0 <= j < |line| + 1 ==> !StartsAt(line + "\n" + after, j, FoodsMarker)
  {
    var x := line + "\n" + after;
    FoodsMarkerLetters();
    ContainsIff(line, FoodsMarker);
    forall j | 0 <= j < |line| + 1 ensures !StartsAt(x, j, FoodsMarker) {
      if j + |FoodsMarker| <= |line| {
        StartsAtSlice(x, 0, |line|, j, FoodsMarker);
        assert x[0..|line|] == line;
      } else if j + |FoodsMarker| <= |x| {
        assert x[|line|] == '\n';
        assert x[j..j + |FoodsMarker|][|line| - j] == x[|line|];
      }
    }
  }

  /** A text that begins with a line free of line breaks has that line as its first piece. */
  lemma FirstLine(seg: string, line: string)
    requires |seg| >= |line| + 1 && seg[..|line| + 1] == line + "\n"
    requires Avoids(line, '\n')
    ensures Split(seg, "\n")[0] == line
  {
    LineBreakAfter(seg, line);
    FirstPiece(seg, "\n", |line|);
  }

  /** In such a text the first line break is the one right after the line. */
  lemma LineBreakAfter(seg: string, line: string)
    requires |seg| >= |line| + 1 && seg[..|line| + 1] == line + "\n"
    requires Avoids(line, '\n')
    ensures StartsAt(seg, |line|, "\n") && seg[..|line|] == line
    ensures forall j :: 0 <= j < |line| ==> !StartsAt(seg, j, "\n")
  {
    assert seg[|line|] == (line + "\n")[|line|];
    forall j | 0 <= j < |line| ensures !StartsAt(seg, j, "\n") {
      assert seg[j] == (line + "\n")[j] == line[j];
    }
    assert seg[..|line|] == seg[..|line| + 1][..|line|];
  }

  /** The line picked after the first marker is the one that follows it. */
  lemma ItemsLine(before: string, line: string, after: string)
    requires !Contains(before, FoodsMarker) && !Contains(line, FoodsMarker) && Avoids(line, '\n')
    ensures var text := before + FoodsMarker + (line + "\n" + after);
      Contains(text, FoodsMarker) && Split(Split(text, FoodsMarker)[1], "\n")[0] == line
  {
    var x := line + "\n" + after;
    var text := before + FoodsMarker + x;
    MarkerAfterBefore(before, x);
    FirstPiece(text, FoodsMarker, |before|);
    assert text[|before| + |FoodsMarker|..] == x;
    ContainsIff(text, FoodsMarker);
    NoMarkerInLine(line, after);
    FirstPieceKeeps(x, FoodsMarker, |line| + 1);
    assert x[..|line| + 1] == line + "\n";
    FirstLine(Split(x, FoodsMarker)[0], line);
  }

  /** A text free of the separator is a single piece. */
  lemma SplitWithout(s: string, sep: string)
    requires |sep| > 0 && !Contains(s, sep)
    ensures Split(s, sep) == [s]
  {
    assert Join(Split(s, sep), sep) == s;
  }

  /** A line free of line breaks is its own first line. */
  lemma WholeLine(line: string)
    requires Avoids(line, '\n')
    ensures Split(line, "\n")[0] == line
  {
    NotContainsWithoutFirstChar(line, "\n");
    SplitWithout(line, "\n");
  }

  /** When the text ends after the items line, that line is the one picked. */
  lemma ItemsLineAtEnd(before: string, line: string)
    requires !Contains(before, FoodsMarker) && !Contains(line, FoodsMarker) && Avoids(line, '\n')
    ensures var text := before + FoodsMarker + line;
      Contains(text, FoodsMarker) && Split(Split(text, FoodsMarker)[1], "\n")[0] == line
  {
    var text := before + FoodsMarker + line;
    MarkerAfterBefore(before, line);
    FirstPiece(text, FoodsMarker, |before|);
    assert text[|before| + |FoodsMarker|..] == line;
    ContainsIff(text, FoodsMarker);
    SplitWithout(line, FoodsMarker);
    WholeLine(line);
  }

  /** A second marker on the items line ends the items there. */
  lemma ItemsLineBeforeMarker(before: string, line: string, after: string)
    requires !Contains(before, FoodsMarker) && !Contains(line, FoodsMarker) && Avoids(line, '\n')
    ensures var text := before + FoodsMarker + (line + FoodsMarker + after);
      Contains(text, FoodsMarker) && Split(Split(text, FoodsMarker)[1], "\n")[0] == line
  {
    var x := line + FoodsMarker + after;
    var text := before + FoodsMarker + x;
    MarkerAfterBefore(before, x);
    FirstPiece(text, FoodsMarker, |before|);
    assert text[|before| + |FoodsMarker|..] == x;
    ContainsIff(text, FoodsMarker);
    MarkerAfterBefore(line, after);
    FirstPiece(x, FoodsMarker, |line|);
    assert x[..|line|] == line;
    WholeLine(line);
  }

  /** Splitting a comma-joined line and stripping the pieces gives back the items, when they are
      already stripped and hold no comma: with `DetectedItemsOfLine`, a line written as
      `Join(items, ",")` is read back as `items`. */
  lemma CommaItems(items: seq<string>)
    requires |items| >= 1
    requires forall i :: 0 <= i < |items| ==> Avoids(items[i], ',') && Trimmed(items[i])
    ensures StripAll(Split(Join(items, ","), ",")) == items
  {
    SplitJoin(items, ",");
  }

  /**
   * The items are the comma-separated pieces, stripped, of the text that
   * follows the first "Foods detected:" up to whichever comes first of a
   * line break, a second marker and the end of the answer, when nothing
   * earlier holds the marker.
   */
  lemma DetectedItemsOfLine(before: string, line: string, after: string)
    requires !Contains(before, FoodsMarker) && !Contains(line, FoodsMarker) && Avoids(line, '\n')
    ensures DetectedItems(before + FoodsMarker + (line + "\n" + after)) == StripAll(Split(line, ","))
    ensures DetectedItems(before + FoodsMarker + (line + FoodsMarker + after)) == StripAll(Split(line, ","))
    ensures DetectedItems(before + FoodsMarker + line) == StripAll(Split(line, ","))
  {
    ItemsLine(before, line, after);
    ItemsLineBeforeMarker(before, line, after);
    ItemsLineAtEnd(before, line);
  }

  /**
   * Without the marker the answer is the fixed message. With it, the result
   * is the text right after the first marker, up to the next marker or the
   * end, and holds no marker itself.
   */
  lemma NutritionalAnalysisShape(text: string)
    ensures !Contains(text, AnalysisMarker) ==> NutritionalAnalysis(text) == NoAnalysis
    ensures Contains(text, AnalysisMarker) ==>
      var r := NutritionalAnalysis(text);
      var t := text[Find(text, AnalysisMarker, 0).value + |AnalysisMarker|..];
      !Contains(r, AnalysisMarker) && |r| <= |t| && t[..|r|] == r && (|r| == |t| || StartsAt(t, |r|, AnalysisMarker))
  {
    if Contains(text, AnalysisMarker) {
      var i := Find(text, AnalysisMarker, 0).value;
      FirstPiece(text, AnalysisMarker, i);
      FirstPieceShape(text[i + |AnalysisMarker|..], AnalysisMarker);
    }
  }
}
