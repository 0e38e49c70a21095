/**
 The line classifier of `notes_to_pdf` in app.py. After a fixed title and a
 gap, every line of the notes becomes one element of the PDF story: a blank
 line a spacer, a line starting with a bullet glyph a bullet paragraph with
 the glyphs turned into HTML entities, any other line a heading. Rendering
 the story is the PDF library's business and is not modelled.
 */
module PdfNotes {
  import opened PyStr

  /** Title paragraph placed at the top of every document. */
  function DocumentTitle(): string { "NoteTube AI – Study Notes" }

  /** Height of the spacer after the title, and of the spacer for a blank line. */
  const TitleGap: nat := 16
  const BlankLineGap: nat := 8

  const Bullet: string := "•"
  const SubBullet: string := "◦"
  const BulletEntity: string := "&bull;"
  const SubBulletEntity: string := "&nbsp;&nbsp;&bull;"

  /** The story elements `notes_to_pdf` appends. */
  datatype Flowable =
    | TitleParagraph(text: string)
    | Spacer(height: nat)
    | HeadingParagraph(text: string)
    | BulletParagraph(text: string)

  /** `line.startswith(("•", "◦"))`; both prefixes are one character long. */
  predicate IsBulletLine(line: string) {
    |line| > 0 && (line[0] == '•' || line[0] == '◦')
  }

  /** What the bullet markup makes of a line, read character by character:
      `•` becomes `&bull;`, `◦` becomes `&nbsp;&nbsp;&bull;`, and every
      other character stays as it is. */
  function GlyphsToEntities(s: string): string
  {
    MapTwoChars(s, '•', BulletEntity, '◦', SubBulletEntity)
  }

  /** `line.replace("•", "&bull;").replace("◦", "&nbsp;&nbsp;&bull;")`. */
  function BulletMarkup(line: string): (m: string)
    ensures m == GlyphsToEntities(line)
    ensures '•' !in m && '◦' !in m
    ensures |line| > 0 && line[0] == '•' ==> StartsWith(m, BulletEntity)
    ensures |line| > 0 && line[0] == '◦' ==> StartsWith(m, SubBulletEntity)
  {
    MarkupIsOnePass(line);
    if |line| > 0 then MarkupKeepsEntityPrefix(line);
      Replace(Replace(line, Bullet, BulletEntity), SubBullet, SubBulletEntity)
    else
      Replace(Replace(line, Bullet, BulletEntity), SubBullet, SubBulletEntity)
  }

  /** The two replacements, one after the other, are the one-pass reading,
      and leave no glyph. */
  lemma MarkupIsOnePass(line: string)
    ensures Replace(Replace(line, Bullet, BulletEntity), SubBullet, SubBulletEntity)
         == GlyphsToEntities(line)
    ensures '•' !in GlyphsToEntities(line) && '◦' !in GlyphsToEntities(line)
  {
    var once := Replace(line, Bullet, BulletEntity);
    assert '•' !in BulletEntity && '•' !in SubBulletEntity && '◦' !in SubBulletEntity;
    assert '◦' !in BulletEntity;
    assert '•' !in once;
    MapCharTwice(line, '•', BulletEntity, '◦', SubBulletEntity);
  }

  /** A marked-up line starts with the entity its first character became,
      followed by the rest of the line marked up in turn. */
  lemma MarkupKeepsEntityPrefix(line: string)
    requires |line| > 0
    ensures line[0] == '•' ==> GlyphsToEntities(line) == BulletEntity + GlyphsToEntities(line[1..])
    ensures line[0] == '◦' ==> GlyphsToEntities(line) == SubBulletEntity + GlyphsToEntities(line[1..])
    ensures line[0] == '•' ==> StartsWith(GlyphsToEntities(line), BulletEntity)
    ensures line[0] == '◦' ==> StartsWith(GlyphsToEntities(line), SubBulletEntity)
  {
    var rest := GlyphsToEntities(line[1..]);
    assert (BulletEntity + rest)[..|BulletEntity|] == BulletEntity;
    assert (SubBulletEntity + rest)[..|SubBulletEntity|] == SubBulletEntity;
  }

  /** The element one line of the notes becomes. */
  function ClassifyLine(raw: string): (f: Flowable)
    ensures !f.TitleParagraph?
    ensures f.Spacer? <==> AllSpace(raw)
    ensures f.Spacer? ==> f.height == BlankLineGap
    ensures f.BulletParagraph? <==> !AllSpace(raw) && IsBulletLine(Strip(raw))
    ensures f.HeadingParagraph? <==> !AllSpace(raw) && !IsBulletLine(Strip(raw))
    ensures f.HeadingParagraph? ==> f.text == Strip(raw) && IsStrippedLine(f.text)
    ensures f.BulletParagraph? ==> f.text == GlyphsToEntities(Strip(raw))
    ensures f.BulletParagraph? ==> '•' !in f.text && '◦' !in f.text
    ensures f.BulletParagraph? && Strip(raw)[0] == '•' ==> StartsWith(f.text, BulletEntity)
    ensures f.BulletParagraph? && Strip(raw)[0] == '◦' ==> StartsWith(f.text, SubBulletEntity)
  {
    ClassifyStripped(Strip(raw))
  }

  /** The branches of the loop body, on the line `strip()` left. */
  function ClassifyStripped(line: string): (f: Flowable)
    ensures f.Spacer? <==> line == ""
    ensures f.HeadingParagraph? <==> line != "" && !IsBulletLine(line)
    ensures f.HeadingParagraph? ==> f.text == line
    ensures f.Spacer? ==> f.height == BlankLineGap
    ensures f.BulletParagraph? ==> f.text == GlyphsToEntities(line)
    ensures f.BulletParagraph? ==> '•' !in f.text && '◦' !in f.text
    ensures f.BulletParagraph? && line[0] == '•' ==> StartsWith(f.text, BulletEntity)
    ensures f.BulletParagraph? && line[0] == '◦' ==> StartsWith(f.text, SubBulletEntity)
  {
    if line == "" then Spacer(BlankLineGap)
    else if !IsBulletLine(line) then HeadingParagraph(line)
    else BulletParagraph(BulletMarkup(line))
  }

  /** The lines `notes.split("\n")` the loop walks through. */
  function NoteLines(notes: string): seq<string>
  {
    SplitOn(notes, "\n")
  }

  /** The story `notes_to_pdf` builds: title, gap, then one element per line
      of the notes, in order. */
  function NotesToStory(notes: string): (story: seq<Flowable>)
    ensures |story| == CountChar(notes, '\n') + 3
    ensures story[0] == TitleParagraph(DocumentTitle()) && story[1] == Spacer(TitleGap)
  {
    var lines := NoteLines(notes);
    SplitOnCharCount(notes, '\n');
    assert |lines| == CountChar(notes, '\n') + 1;
    [TitleParagraph(DocumentTitle()), Spacer(TitleGap)] + ClassifyAll(lines)
  }

  /** The loop over the lines: each line classified, in order. */
  function ClassifyAll(lines: seq<string>): (fs: seq<Flowable>)
    ensures |fs| == |lines|
  {
    if |lines| == 0 then [] else [ClassifyLine(lines[0])] + ClassifyAll(lines[1..])
  }

  /** Element `i` of the loop's output is line `i`, classified. */
  lemma {:induction false} ClassifyAllAt(lines: seq<string>, i: int)
    requires 0 <= i < |lines|
    ensures ClassifyAll(lines)[i] == ClassifyLine(lines[i])
    decreases i
  {
    if i > 0 {
      ClassifyAllAt(lines[1..], i - 1);
    }
  }

  /** After the title and the gap, the story is the lines of the notes
      classified one by one, in order; the lines rejoined with newlines are
      the notes, so every line is accounted for. */
  lemma StoryFollowsLines(notes: string)
    ensures NotesToStory(notes)[2..] == ClassifyAll(NoteLines(notes))
    ensures JoinWith("\n", NoteLines(notes)) == notes
  {
    var story := NotesToStory(notes);
    assert story == [TitleParagraph(DocumentTitle()), Spacer(TitleGap)] + ClassifyAll(NoteLines(notes));
  }
}
