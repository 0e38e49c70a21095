/**
 The slide outline of `notes_to_ppt` in app.py. The notes are cut into
 sections at blank lines; a section with at least one non-blank line becomes
 a title-and-content slide whose title is its first line and whose body
 gets one added paragraph per further line, at level 0 for a `•` bullet and
 level 1 otherwise. Two chart slides with fixed titles follow. Layouts, fonts, the
 hard-coded chart figures and saving the file are not modelled.
 */
module PptOutline {
  import opened PyStr

  /** Separator between sections of the notes. */
  const SectionBreak: string := "\n\n"

  /** Titles of the two chart slides appended after the outline. */
  const BarChartTitle: string := "Content Distribution"
  const PieChartTitle: string := "Focus Areas"

  /** One body paragraph of a slide. */
  datatype Paragraph = Paragraph(text: string, level: nat)

  datatype Slide =
    | ContentSlide(title: string, body: seq<Paragraph>)
    | ChartSlide(title: string)

  /** A body paragraph with both glyphs removed and a level of 0 or 1. */
  predicate IsCleanParagraph(p: Paragraph) {
    '•' !in p.text && '◦' !in p.text && p.level <= 1
  }

  /** A title-and-content slide with a stripped title and clean paragraphs. */
  predicate IsWellFormedContentSlide(s: Slide) {
    && s.ContentSlide?
    && IsStrippedLine(s.title)
    && forall j :: 0 <= j < |s.body| ==> IsCleanParagraph(s.body[j])
  }

  /** `[l.strip() for l in lines if l.strip()]`. */
  function NonBlankLines(lines: seq<string>): (r: seq<string>)
    ensures |r| <= |lines|
    ensures forall i :: 0 <= i < |r| ==> IsStrippedLine(r[i])
    ensures |r| == 0 <==> AllBlank(lines)
  {
    if |lines| == 0 then []
    else
      var rest := NonBlankLines(lines[1..]);
      AllBlankCons(lines);
      if AllSpace(lines[0]) then rest
      else
        var first := Strip(lines[0]);
        assert IsStrippedLine(first);
        [first] + rest
  }

  /** Filtering a concatenation filters each part: the kept lines keep the
      order of the input lines. */
  lemma {:induction false} NonBlankLinesAppend(a: seq<string>, b: seq<string>)
    ensures NonBlankLines(a + b) == NonBlankLines(a) + NonBlankLines(b)
    decreases |a|
  {
    if |a| == 0 {
      assert a + b == b;
    } else {
      assert (a + b)[0] == a[0] && (a + b)[1..] == a[1..] + b;
      NonBlankLinesAppend(a[1..], b);
    }
  }

  /** Every non-blank line is kept, stripped. */
  lemma {:induction false} NonBlankLinesKeepsEachLine(lines: seq<string>, l: string)
    requires l in lines && !AllSpace(l)
    ensures Strip(l) in NonBlankLines(lines)
    decreases |lines|
  {
    if l != lines[0] {
      assert l in lines[1..];
      NonBlankLinesKeepsEachLine(lines[1..], l);
    }
  }

  /** Nothing but stripped non-blank lines is kept. */
  lemma {:induction false} NonBlankLinesKeepsNothingElse(lines: seq<string>, x: string)
    requires x in NonBlankLines(lines)
    ensures exists l :: l in lines && !AllSpace(l) && x == Strip(l)
    decreases |lines|
  {
    if AllSpace(lines[0]) || x != Strip(lines[0]) {
      NonBlankLinesKeepsNothingElse(lines[1..], x);
      var l :| l in lines[1..] && !AllSpace(l) && x == Strip(l);
      assert l in lines;
    }
  }

  /** A list of lines is blank exactly when its first line and the rest are. */
  lemma AllBlankCons(lines: seq<string>)
    requires |lines| > 0
    ensures AllBlank(lines) <==> AllSpace(lines[0]) && AllBlank(lines[1..])
  {
    assert forall i :: 1 <= i < |lines| ==> lines[i] == lines[1..][i - 1];
  }

  /** Every line is empty or whitespace. */
  predicate AllBlank(lines: seq<string>) {
    forall i :: 0 <= i < |lines| ==> AllSpace(lines[i])
  }

  /** The line with every `•` and `◦` deleted and everything else kept, in
      order: the reference reading of the two glyph removals. */
  function WithoutGlyphs(s: string): string
  {
    MapTwoChars(s, '•', "", '◦', "")
  }

  /** A body line: both glyphs removed and the result stripped; the level
      only looks at whether the line starts with `•`. */
  function BodyParagraph(line: string): (p: Paragraph)
    ensures p.level == 0 <==> |line| > 0 && line[0] == '•'
    ensures p.level <= 1
    ensures '•' !in p.text && '◦' !in p.text
  {
    var once := Replace(line, "•", "");
    var twice := Replace(once, "◦", "");
    Paragraph(Strip(twice), if |line| > 0 && line[0] == '•' then 0 else 1)
  }

  /** A paragraph's text is the line with the glyphs deleted, stripped. */
  lemma BodyParagraphText(line: string)
    ensures BodyParagraph(line).text == Strip(WithoutGlyphs(line))
  {
    MapCharTwice(line, '•', "", '◦', "");
  }

  /** A kept line without glyphs becomes a level-1 paragraph holding that
      line unchanged: the second `strip()` has nothing left to remove. */
  lemma PlainLineParagraph(raw: string)
    requires !AllSpace(raw) && '•' !in Strip(raw) && '◦' !in Strip(raw)
    ensures BodyParagraph(Strip(raw)) == Paragraph(Strip(raw), 1)
  {
  }

  /** The slides of the sections, skipping those with no non-blank line. */
  function ContentSlides(sections: seq<string>): (slides: seq<Slide>)
    ensures |slides| <= |sections|
    ensures forall i :: 0 <= i < |slides| ==> IsWellFormedContentSlide(slides[i])
  {
    if |sections| == 0 then []
    else
      var lines := NonBlankLines(SplitOn(sections[0], "\n"));
      var rest := ContentSlides(sections[1..]);
      if |lines| == 0 then rest
      else
        var slide := SectionSlide(lines);
        WellFormedCons(slide, rest);
        [slide] + rest
  }

  /** A well-formed slide in front of well-formed slides. */
  lemma WellFormedCons(slide: Slide, rest: seq<Slide>)
    requires IsWellFormedContentSlide(slide)
    requires forall i :: 0 <= i < |rest| ==> IsWellFormedContentSlide(rest[i])
    ensures forall i :: 0 <= i < |[slide] + rest| ==> IsWellFormedContentSlide(([slide] + rest)[i])
  {
  }

  /** The slide of a section with non-blank lines: the first is the title,
      each further line one body paragraph. */
  function SectionSlide(lines: seq<string>): (s: Slide)
    requires |lines| > 0 && IsStrippedLine(lines[0])
    ensures IsWellFormedContentSlide(s)
    ensures s.title == lines[0]
    ensures |s.body| == |lines| - 1
    ensures forall k {:trigger s.body[k]} :: 0 <= k < |s.body| ==> s.body[k] == BodyParagraph(lines[k + 1])
  {
    ContentSlide(lines[0], seq(|lines| - 1, k requires 0 <= k < |lines| - 1 => BodyParagraph(lines[k + 1])))
  }

  /** The slides `notes_to_ppt` adds, in order. */
  function NotesToSlides(notes: string): (slides: seq<Slide>)
    ensures |slides| >= 2
    ensures slides[|slides| - 2..] == [ChartSlide(BarChartTitle), ChartSlide(PieChartTitle)]
    ensures forall i :: 0 <= i < |slides| - 2 ==> slides[i].ContentSlide?
  {
    ContentSlides(SplitOn(notes, SectionBreak)) + [ChartSlide(BarChartTitle), ChartSlide(PieChartTitle)]
  }

  /** A section whose lines are all blank yields no slide; any other
      section yields exactly one, titled by its first non-blank line, with
      one body paragraph per further non-blank line. */
  lemma {:induction false} SlideForEachSection(section: string, rest: seq<string>)
    ensures var lines := NonBlankLines(SplitOn(section, "\n"));
            var slides := ContentSlides([section] + rest);
            && (|lines| == 0 ==> slides == ContentSlides(rest))
            && (|lines| > 0 ==>
                  && |slides| == |ContentSlides(rest)| + 1
                  && slides[0].title == lines[0]
                  && |slides[0].body| == |lines| - 1)
  {
    assert ([section] + rest)[1..] == rest;
  }
}
