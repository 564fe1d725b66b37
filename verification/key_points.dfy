/**
 The key-points view of `main.py`: the reply is cleaned like a chat answer and
 cut into its non-blank lines; each line loses a leading `N.` number, and the
 text before its first colon, if any, becomes the point's title.
 */
module KeyPoints {
  import opened Options
  import opened Strings
  import opened OllamaChat
  import opened Answer

  /** Each line stripped, kept only when something is left of it. */
  function StrippedLines(lines: seq<string>): (xs: seq<Option<string>>)
    ensures |xs| == |lines|
    ensures forall i :: 0 <= i < |lines| ==> xs[i] == NonBlank(Strip(lines[i]))
  {
    seq(|lines|, i requires 0 <= i < |lines| => NonBlank(Strip(lines[i])))
  }

  /** `[point.strip() for point in output.splitlines() if point.strip()]`. */
  function PointLines(output: string): (points: seq<string>)
    ensures |points| <= |SplitLines(output)|
  {
    Somes(StrippedLines(SplitLines(output)))
  }

  /** A point is exactly a line of the output, stripped, with something left. */
  lemma PointLinesMembership(output: string, p: string)
    ensures p in PointLines(output) <==>
      p != [] && exists i :: 0 <= i < |SplitLines(output)| && Strip(SplitLines(output)[i]) == p
  {
    var lines := SplitLines(output);
    StrippedLinesMembership(lines, p);
    assert PointLines(output) == Somes(StrippedLines(lines));
    if p != [] && exists i :: 0 <= i < |SplitLines(output)| && Strip(SplitLines(output)[i]) == p {
      var i :| 0 <= i < |SplitLines(output)| && Strip(SplitLines(output)[i]) == p;
      assert Strip(lines[i]) == p;
    }
    if p in PointLines(output) {
      var i :| 0 <= i < |lines| && Strip(lines[i]) == p;
      assert Strip(SplitLines(output)[i]) == p;
    }
  }

  lemma StrippedLinesMembership(lines: seq<string>, p: string)
    ensures p in Somes(StrippedLines(lines)) <==> p != [] && exists i :: 0 <= i < |lines| && Strip(lines[i]) == p
  {
    var xs := StrippedLines(lines);
    SomesMembership(xs, p);
    if p != [] && exists i :: 0 <= i < |lines| && Strip(lines[i]) == p {
      var i :| 0 <= i < |lines| && Strip(lines[i]) == p;
      assert xs[i] == Some(p);
    }
  }

  /** Every point is a non-empty, stripped single line. */
  lemma PointLinesShape(output: string, k: nat)
    requires k < |PointLines(output)|
    ensures var p := PointLines(output)[k];
      p != [] && IsStripped(p) && !HasLineBreak(p)
  {
    var p := PointLines(output)[k];
    PointLinesMembership(output, p);
    var lines := SplitLines(output);
    var i :| 0 <= i < |lines| && Strip(lines[i]) == p;
    LinesHaveNoBreaks(output);
    StripLacksLineBreak(lines[i]);
  }

  /** Points written one per line, each a non-empty stripped single line, come back as written and in order. */
  lemma PointLinesOfJoin(points: seq<string>)
    requires forall i :: 0 <= i < |points| ==> points[i] != [] && IsStripped(points[i]) && !HasLineBreak(points[i])
    ensures PointLines(Join(points, "\n")) == points
  {
    SplitLinesOfJoin(points);
    var xs := StrippedLines(points);
    forall i | 0 <= i < |points| ensures xs[i] == Some(points[i]) {
      StripKeepsStripped(points[i]);
    }
    SomesOfAll(xs);
  }

  /** Text that is left after cleaning always yields at least one point. */
  lemma OutputHasPoint(output: string)
    requires output != [] && IsStripped(output)
    ensures |PointLines(output)| >= 1
  {
    var lines := SplitLines(output);
    var n := LineLength(output);
    assert !IsLineBreak(output[0]);
    assert lines[0] == output[..n];
    assert !AllSpace(lines[0]) by {
      assert lines[0][0] == output[0];
    }
    var xs := StrippedLines(lines);
    assert xs[0].Some?;
    assert Somes(xs) == [xs[0].value] + Somes(xs[1..]);
  }

  // ---------------------------------------------------------------------------
  // One point

  /** What `\d+` matches whole: one or more ASCII digits. */
  predicate IsNumber(s: string) {
    s != [] && forall j :: 0 <= j < |s| ==> IsDigit(s[j])
  }

  /**
   `re.sub(r"^\d+\.\s*", "", point)`: a leading number, its dot and the whitespace
   after them are removed. The result is a suffix of the line, the line itself
   when it does not start with a digit, and stays stripped.
   */
  function DropNumber(point: string): (p: string)
    ensures |p| <= |point| && p == point[|point| - |p|..]
    ensures (point == [] || !IsDigit(point[0])) ==> p == point
    ensures IsStripped(point) ==> IsStripped(p)
  {
    var n := DigitRun(point);
    if 0 < n < |point| && point[n] == '.' then
      var rest := point[n + 1..];
      var p := rest[LeadingSpaces(rest)..];
      assert p != [] ==> p[|p| - 1] == point[|point| - 1];
      p
    else point
  }

  /** `N. text`, for any number of digits and any whitespace after the dot, reads as `text`. */
  lemma DropNumberOf(digits: string, gap: string, text: string)
    requires IsNumber(digits)
    requires AllSpace(gap) && (text == [] || !IsSpace(text[0]))
    ensures DropNumber(digits + "." + gap + text) == text
  {
    var point := digits + "." + gap + text;
    assert forall i :: 0 <= i < |digits| ==> IsDigit(digits[i]);
    var tail := "." + gap + text;
    assert point == digits + tail;
    AllDigitsRun(digits);
    DigitRunAppend(digits, tail);
    assert DigitRun(point) == |digits|;
    assert point[|digits|] == '.';
    var rest := point[|digits| + 1..];
    assert rest == gap + text;
    if text == [] {
      assert rest == gap;
    } else {
      LeadingSpacesOfGap(gap, text);
    }
    assert rest[|gap|..] == text;
  }

  /** A point as shown: with a title before its first colon, or plain. */
  datatype KeyPoint = Titled(title: string, description: string) | Plain(text: string)

  /**
   The point for one line: the number dropped, then `point.split(':', 1)` with
   both halves stripped when there is a colon.
   */
  function PointOf(line: string): (k: KeyPoint)
    ensures k.Titled? <==> ':' in DropNumber(line)
    ensures k.Titled? ==> ':' !in k.title && IsStripped(k.title) && IsStripped(k.description)
    ensures k.Plain? ==> ':' !in k.text && k.text == DropNumber(line)
  {
    var p := DropNumber(line);
    if ':' in p then
      var i := IndexOfChar(p, ':');
      StripLacksChar(p[..i], ':');
      Titled(Strip(p[..i]), Strip(p[i + 1..]))
    else Plain(p)
  }

  /**
   Whatever the spacing, a point is cut at its first colon: the title is the
   stripped text before it, the description the stripped text after it.
   */
  lemma TitleAtFirstColon(line: string, pre: string, post: string)
    requires DropNumber(line) == pre + ":" + post && ':' !in pre
    ensures PointOf(line) == Titled(Strip(pre), Strip(post))
  {
    ColonSplit(pre, post);
  }

  /** The first colon of `pre + ":" + post`, when `pre` has none, is the one after `pre`. */
  lemma ColonSplit(pre: string, post: string)
    requires ':' !in pre
    ensures var p := pre + ":" + post;
      && ':' in p && IndexOfChar(p, ':') == |pre|
      && p[..|pre|] == pre && p[|pre| + 1..] == post
  {
    var p := pre + ":" + post;
    assert p == pre + (":" + post);
    IndexOfCharAfter(pre, ":" + post, ':');
    assert p[|pre|] == ':';
    assert p[..|pre|] == pre && p[|pre| + 1..] == post;
  }

  /** `N. title: description` gives the title and the description back. */
  lemma TitledPoint(digits: string, title: string, description: string)
    requires IsNumber(digits)
    requires title != [] && IsStripped(title) && ':' !in title && IsStripped(description)
    ensures PointOf(digits + ". " + title + ": " + description) == Titled(title, description)
  {
    var line := digits + ". " + title + ": " + description;
    var text := title + ": " + description;
    assert DropNumber(line) == text by {
      assert line == digits + "." + " " + text;
      assert AllSpace(" ");
      DropNumberOf(digits, " ", text);
    }
    TitledText(line, title, description);
  }

  /** A line that reads `title: description` once its number is dropped has that title and description. */
  lemma TitledText(line: string, title: string, description: string)
    requires title != [] && IsStripped(title) && ':' !in title && IsStripped(description)
    requires DropNumber(line) == title + ": " + description
    ensures PointOf(line) == Titled(title, description)
  {
    TitleSplit(title, description);
  }

  /** The first colon of `title: description` is the one after the title. */
  lemma TitleSplit(title: string, description: string)
    requires title != [] && IsStripped(title) && ':' !in title && IsStripped(description)
    ensures var p := title + ": " + description;
      && ':' in p && IndexOfChar(p, ':') == |title|
      && Strip(p[..|title|]) == title && Strip(p[|title| + 1..]) == description
  {
    var p := title + ": " + description;
    TitleParts(title, description);
    IndexOfCharAfter(title, ": " + description, ':');
    StripKeepsStripped(title);
    StripAfterColon(description);
  }

  lemma TitleParts(title: string, description: string)
    ensures var p := title + ": " + description;
      && p == title + (": " + description)
      && p[..|title|] == title && p[|title| + 1..] == " " + description
  {
    var p := title + ": " + description;
    assert p == title + (": " + description);
    assert p[|title| + 1..] == " " + description;
  }

  /** The space after the colon is stripped away. */
  lemma StripAfterColon(description: string)
    requires IsStripped(description)
    ensures Strip(" " + description) == description
  {
    if description == [] {
      assert AllSpace(" " + description);
    } else {
      StripPadded(" ", description, "");
      assert " " + description + "" == " " + description;
    }
  }

  /** `N. text` without a colon is shown as `text`. */
  lemma PlainPoint(digits: string, text: string)
    requires IsNumber(digits)
    requires text != [] && IsStripped(text) && ':' !in text
    ensures PointOf(digits + ". " + text) == Plain(text)
  {
    assert digits + ". " + text == digits + "." + " " + text;
    assert AllSpace(" ");
    DropNumberOf(digits, " ", text);
  }

  // ---------------------------------------------------------------------------
  // The view

  /** What the key-points button shows. */
  datatype KeyPointsView =
    | NeedText                     // the input is blank: a warning, no model call
    | NoPoints                     // nothing left of the reply after cleaning
    | Points(points: seq<KeyPoint>)

  /** One point per line, in order. */
  function PointsOf(lines: seq<string>): (ks: seq<KeyPoint>)
    ensures |ks| == |lines|
    ensures forall i :: 0 <= i < |lines| ==> ks[i] == PointOf(lines[i])
  {
    seq(|lines|, i requires 0 <= i < |lines| => PointOf(lines[i]))
  }

  /**
   The key-points flow for an input text and the model's reply to the prompt
   built from it (a parameter: the call is not made for a blank input). The
   reply is cleaned like a chat answer; a non-empty result always has points.
   */
  function KeyPointsOf(input: string, reply: Reply): (v: KeyPointsView)
    ensures v.NeedText? <==> AllSpace(input)
    ensures v.NoPoints? <==> !AllSpace(input) && AnswerText(ReplyText(reply)) == []
    ensures v.Points? ==> |v.points| >= 1
    ensures v.Points? ==> var ls := PointLines(AnswerText(ReplyText(reply)));
      |v.points| == |ls| && forall i :: 0 <= i < |ls| ==> v.points[i] == PointOf(ls[i])
  {
    if Strip(input) == [] then NeedText
    else
      var output := AnswerText(ReplyText(reply));
      if output == [] then NoPoints
      else
        OutputHasPoint(output);
        Points(PointsOf(PointLines(output)))
  }

  /** The lines of a numbered list of titled points, as `N. title: description`. */
  predicate NumberedPoints(lines: seq<string>, numbers: seq<string>, titles: seq<string>, descriptions: seq<string>) {
    && |lines| == |numbers| == |titles| == |descriptions|
    && forall i :: 0 <= i < |lines| ==>
      && IsNumber(numbers[i])
      && titles[i] != [] && IsStripped(titles[i]) && ':' !in titles[i] && !HasLineBreak(titles[i])
      && descriptions[i] != [] && IsStripped(descriptions[i]) && !HasLineBreak(descriptions[i])
      && lines[i] == numbers[i] + ". " + titles[i] + ": " + descriptions[i]
  }

  /**
   A reply whose cleaned text is numbered `title: description` lines gives those
   titles and descriptions back, one point per line, in order.
   */
  lemma KeyPointsOfNumberedLines(input: string, reply: Reply, lines: seq<string>, numbers: seq<string>, titles: seq<string>, descriptions: seq<string>)
    requires !AllSpace(input) && |lines| >= 1
    requires NumberedPoints(lines, numbers, titles, descriptions)
    requires AnswerText(ReplyText(reply)) == Join(lines, "\n")
    ensures KeyPointsOf(input, reply).Points?
    ensures |KeyPointsOf(input, reply).points| == |lines|
    ensures forall i :: 0 <= i < |lines| ==> KeyPointsOf(input, reply).points[i] == Titled(titles[i], descriptions[i])
  {
    forall i | 0 <= i < |lines| ensures lines[i] != [] && IsStripped(lines[i]) && !HasLineBreak(lines[i]) {
      NumberedLineShape(numbers[i], titles[i], descriptions[i]);
    }
    PointLinesOfJoin(lines);
    forall i | 0 <= i < |lines| ensures PointOf(lines[i]) == Titled(titles[i], descriptions[i]) {
      TitledPoint(numbers[i], titles[i], descriptions[i]);
    }
    assert Join(lines, "\n") != [] by {
      JoinStartsWithFirst(lines, "\n");
    }
  }

  lemma NumberedLineShape(number: string, title: string, description: string)
    requires IsNumber(number)
    requires !HasLineBreak(title) && description != [] && IsStripped(description) && !HasLineBreak(description)
    ensures var line := number + ". " + title + ": " + description;
      line != [] && IsStripped(line) && !HasLineBreak(line)
  {
    var line := number + ". " + title + ": " + description;
    assert line[0] == number[0];
    assert line[|line| - 1] == description[|description| - 1];
    forall j | 0 <= j < |line| ensures !IsLineBreak(line[j]) {
      if j < |number| {
        assert line[j] == number[j];
      } else if j < |number| + 2 {
      } else if j < |number| + 2 + |title| {
        assert line[j] == title[j - |number| - 2];
      } else if j < |number| + 4 + |title| {
      } else {
        assert line[j] == description[j - |number| - 4 - |title|];
      }
    }
  }
}
