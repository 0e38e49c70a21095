# QuizTube AI notes pipeline — a Dafny model

QuizTube AI turns a YouTube transcript into study notes, exports them as a
PDF and a slide deck, and builds a multiple-choice quiz from them. Its one
piece of real logic is the notes pipeline in `transcript_to_gemini_output`.
It splits the transcript into chunks of 3000 words and folds a trailing
chunk shorter than 500 words into the one before it. It then asks the
text-generation service (Gemini) for notes on each chunk in turn. Every
prompt after a non-empty response quotes that one response, so the service
does not repeat itself. Finally it joins the responses with a blank line.

This project models that pipeline, with the service as a function
parameter `gen: string -> string`. It also models the small pure pieces
around the pipeline:

- the line classifier that builds the PDF story;
- the section and line split that builds the slide outline;
- the `{...}` span picked out of the quiz reply;
- the quiz score.

Modules, one per concern:

- `PyErrors` (`py_errors.dfy`): `Result`, a value or the `ValueError` the
  Python raises.
- `PyStr` (`pystr.dfy`): the Python string operations used. These are
  `split()` on whitespace (with Python's full `isspace` set), `split(sep)`,
  `sep.join`, `strip()` and `replace`. The file also holds the round trip
  `" ".join(words).split() == words`.
- `Chunker` (`chunker.dfy`): `split_text_into_chunks`, plus its word-group
  reading and the chunk-size properties.
- `Summarizer` (`summarizer.dfy`): prompt building, the generation loop
  and the joined document. A prompt is assembled from `PromptParts`: the
  two halves of the continuation frame and the instructions. The pipeline
  uses `Parts`, the code's own frame texts and the template with
  `[Language]` replaced. The lemmas about prompt shape hold for any parts.
- `PdfNotes` (`pdf_notes.dfy`): the per-line story of `notes_to_pdf`.
- `PptOutline` (`ppt_outline.dfy`): the slide outline of `notes_to_ppt`.
- `Quiz` (`quiz.dfy`): the JSON span of `generate_quiz` and the score
  loop.

Edge cases of app.py that the model keeps as the code has them:

- **Empty transcript.** An empty or whitespace-only transcript yields no
  chunks and no calls, and the document is `""` (app.py:171-172, 205;
  `Summarizer.NoWordsNoCalls`).
- **`chunk_size` of zero or below.** `range(0, n, 0)` raises `ValueError`,
  and a negative step yields no chunks (app.py:172). The model keeps both
  outcomes instead of requiring a positive size. Words are conserved only
  for a positive size.
- **What a prompt quotes.** Prompt `i` is built from chunk `i` and
  response `i - 1` alone (app.py:185-195, 203). It can still contain the
  text of response `i - 2`, when that text occurs inside response `i - 1`,
  the instructions or the chunk. The model states the structural fact
  (`Summarizer.IsRunAfter`, `Summarizer.PromptCarriesOnlyPreviousResponse`,
  `Summarizer.PromptShape`).
- **No re-check after the merge.** The merged last chunk is not checked
  against any upper bound (app.py:173-175). With the defaults, 6400 words
  give chunks of 3000 and 3400 words.

## Model

| member | source | states |
|---|---|---|
| PyStr.Split | app.py:171 | `text.split()` yields no words exactly when the text is empty or whitespace only |
| PyStr.SplitJoinWords | app.py:172-173 | joining whitespace-free words with single spaces and splitting again gives the same words, so `len(chunk.split())` counts a chunk's words |
| PyStr.JoinWordsAppend | app.py:174 | `chunks[-2] + " " + chunks[-1]` is the single-space join of the two chunks' words, in order |
| PyStr.Strip | app.py:263 | `strip()` leaves the empty string exactly for an all-whitespace line, otherwise text with no whitespace at either end; the result is a slice of the line with only whitespace cut off before and after it |
| PyStr.StripPadded | app.py:263 | the converse: a stripped line with any whitespace added before and after it strips back to that line |
| PyStr.Replace | app.py:194 | `replace` introduces no character that is in neither the input nor the replacement; a string in which the pattern occurs nowhere is left unchanged; with a one-character pattern the result is every occurrence of that character swapped for the replacement, one by one, and nothing else changed |
| PyStr.ReplaceFirst | app.py:194 | for a pattern of any length, `replace` copies the text before the first occurrence, writes the replacement in place of that occurrence, and carries on after it, so occurrences never overlap |
| PyStr.MapCharTwice | app.py:272 | replacing one character and then a second one, when the first replacement does not contain the second character, is a single pass that swaps each of the two characters for its own text |
| PyStr.SplitOn | app.py:262 | `notes.split("\n")` has at least one piece, and the pieces joined with the separator give the notes back |
| PyStr.SplitOnCharCount | app.py:262 | splitting on a one-character separator gives one more piece than there are separators |
| PyStr.JoinWithSnoc | app.py:205 | joining one more response appends the separator and that response to the previous join |
| PyStr.JoinWithMergeLast | app.py:174 | gluing the last two parts together with the separator does not change their join |
| Chunker.Groups | app.py:172 | before the merge there are no groups exactly when there are no words, every group but the last has exactly `chunk_size` words, and the last has 1 to `chunk_size` |
| Chunker.GroupsCount | app.py:172 | `range(0, n, chunk_size)` gives k groups with `(k - 1) * chunk_size < n <= k * chunk_size`, which is ceil(n / `chunk_size`) written without division, and the last holds the n - (k - 1) * `chunk_size` words the full groups leave over |
| Chunker.FlattenGroups | app.py:172 | cutting the words into groups loses, adds and reorders nothing |
| Chunker.FlattenMergeShortTail | app.py:173-175 | folding the last group into the one before keeps the words and their order |
| Chunker.MergeShortChunk | app.py:173-175 | the merge drops one chunk exactly when there are at least two and the last has fewer than `min_chunk_size` words, and otherwise changes nothing; the chunks before the merged one are kept, and the space-joined text of all chunks is the same before and after |
| Chunker.SplitTextIntoChunks | app.py:170-176 | `range` with a zero step raises `ValueError`, and only then; a negative `chunk_size` yields no chunks |
| Chunker.MergeCommutesWithJoin | app.py:172-175 | merging the joined strings with `chunks[-2] += " " + chunks[-1]` gives the same chunks as merging the word groups first and joining them afterwards |
| Chunker.ChunksAreMergedGroups | app.py:170-176 | for a positive `chunk_size` the chunks are the word groups, short tail merged, each rejoined with single spaces |
| Chunker.WordsConserved | app.py:171-176 | splitting every chunk into words and concatenating gives exactly `text.split()` |
| Chunker.ChunksNonEmpty | app.py:172-175 | every chunk holds at least one word |
| Chunker.MergedGroupsNonEmpty | app.py:172-175 | no word group is empty, before or after the merge |
| Chunker.NoWordsNoChunks | app.py:171-172 | there are no chunks exactly when the text has no words |
| Chunker.WordCountsAreGroupSizes | app.py:172-175 | each chunk's `len(chunk.split())` is the size of its word group |
| Chunker.SizesOfMergedGroups | app.py:172-175 | group sizes after the merge: `[size, ..., size, tail]`, or `[size, ..., size + tail]` exactly when there are two or more groups and `tail < min_chunk_size` |
| Chunker.ChunkWordCounts | app.py:172-175 | chunk word counts from the word count n alone: the merge fires exactly when ceil(n / `chunk_size`) >= 2 and the last run is short; then there is one chunk fewer and the last is the old last two |
| Chunker.ShortTailAbsorbed | app.py:173-175 | after the merge, a last chunk among several has at least `min_chunk_size` words or more than `chunk_size` |
| Chunker.SevenThousandWords | app.py:165-175 | 7000 words with sizes 3000/500 give chunks of 3000, 3000 and 1000 words |
| Chunker.SixThousandFourHundredWords | app.py:165-175 | 6400 words with sizes 3000/500 give chunks of 3000 and 3400 words |
| Summarizer.Instructions | app.py:194 | a template without `[Language]` is used unchanged, and the instructions hold no character that is in neither the template nor the language |
| Summarizer.InstructionsFillLanguage | app.py:194 | in a template `a + "[Language]" + b` whose first placeholder is the one shown, and where `b` holds no further placeholder, the placeholder is swapped for the language and `a` and `b` are kept as they are |
| Summarizer.Context | app.py:185-192 | the context is empty exactly when the previous response is; otherwise it opens with the continuation note followed by that response and closes with the "do NOT repeat" line |
| Summarizer.PromptShape | app.py:185-195 | an unframed prompt is instructions, blank line, chunk; a framed one opens with the continuation note followed by the previous response; its length grows with that one previous response only, never with the number of chunks already done; every prompt ends with its chunk |
| Summarizer.Calls | app.py:183-203 | one call per chunk, in order; call `i`'s prompt is built from chunk `i` and response `i - 1` (none for the first); its response is the service's answer to that prompt |
| Summarizer.GenerateForChunks | app.py:183-203 | the loop makes exactly the calls described call by call, and `combined_response` is their responses in call order |
| Summarizer.TranscriptToGeminiOutputLoop | app.py:159-205 | the whole function raises exactly when `chunk_size` is zero; otherwise its calls fit the per-call description and it returns their responses joined with a blank line |
| Summarizer.TranscriptToGeminiOutput | app.py:178-205 | the pipeline fails exactly when the chunker does |
| Summarizer.RunExtend | app.py:183-203 | one loop iteration, whose call is built from the next chunk and the last response, extends a run over a prefix of the chunks to a run over one more chunk |
| Summarizer.RunIsUnique | app.py:183-203 | the per-call description has one solution: the calls are determined by the service, the instructions and the chunks |
| Summarizer.OutputIsJoinedResponses | app.py:202-205 | the document is the responses of the calls, in call order, joined by a blank line, with nothing added |
| Summarizer.LoopMatchesCalls | app.py:183-203 | calls that fit the description are the recursive ones, and there are as many as chunks |
| Summarizer.NoWordsNoCalls | app.py:171-172 | a transcript without words gives no chunks, no calls and the empty document |
| Summarizer.ShortTranscriptOneCall | app.py:172-205 | a transcript of 1 to `chunk_size` words is sent in one unframed call, and the document is that response verbatim |
| Summarizer.PromptCarriesOnlyPreviousResponse | app.py:185-201 | for any prompt parts, prompt `i > 0` is unframed after an empty response `i - 1`, and otherwise opens with the continuation note followed by response `i - 1`; it ends with chunk `i`, and its response is the service's answer to it |
| Summarizer.FirstPromptUnframed | app.py:181-195 | the first prompt carries no framing |
| Summarizer.OutputGrowsByOneResponse | app.py:202-205 | one more chunk adds a blank line and its response to the document, leaving the rest unchanged |
| PdfNotes.BulletMarkup | app.py:272 | the two replacements turn every `•` into `&bull;` and every `◦` into `&nbsp;&nbsp;&bull;`, character by character, and change nothing else; so no glyph remains, a line starting with `•` starts with `&bull;` and one starting with `◦` with `&nbsp;&nbsp;&bull;` |
| PdfNotes.MarkupIsOnePass | app.py:272 | the `•` replacement followed by the `◦` replacement equals the single left-to-right pass, since neither entity holds a glyph |
| PdfNotes.MarkupKeepsEntityPrefix | app.py:272 | a line starting with `•` marks up to `&bull;` followed by the rest of the line marked up; one starting with `◦` to `&nbsp;&nbsp;&bull;` followed by the marked-up rest |
| PdfNotes.ClassifyLine | app.py:262-273 | a line is a spacer of height 8 exactly when it is blank after `strip()`, a bullet exactly when the stripped line starts with `•` or `◦`, otherwise a heading whose text is the stripped line, non-empty and without whitespace at either end; a bullet's text is the stripped line marked up, glyph for entity, so it has no glyph and starts with the entity of the line's first glyph |
| PdfNotes.ClassifyStripped | app.py:265-273 | on an already stripped line: a spacer exactly for the empty line, a heading holding the line exactly when it does not start with `•` or `◦`, otherwise a bullet holding the line marked up |
| PdfNotes.NotesToStory | app.py:258-273 | the story opens with the fixed title and a gap of 16, and then has one element per line: the newline count plus one |
| PdfNotes.ClassifyAllAt | app.py:262-273 | the loop's element `i` is line `i` classified, so the elements keep the order of the lines |
| PdfNotes.StoryFollowsLines | app.py:262-273 | after the title and the gap the story is exactly the lines of `notes.split("\n")` classified one by one, and those lines rejoined with newlines are the notes, so no text is dropped |
| PptOutline.NonBlankLines | app.py:299-301 | the kept lines are stripped and non-empty, no more than the input lines, and none are kept exactly when every line is blank |
| PptOutline.NonBlankLinesKeepsEachLine | app.py:299 | every non-blank line of the section is kept, stripped |
| PptOutline.NonBlankLinesKeepsNothingElse | app.py:299 | every kept line is some non-blank line of the section, stripped |
| PptOutline.NonBlankLinesAppend | app.py:299 | filtering two runs of lines one after the other gives the kept lines of each in turn, so the kept lines keep the order of the section |
| PptOutline.BodyParagraph | app.py:310-313 | a body paragraph contains no bullet glyph; its level is 0 exactly when the line starts with `•`, else 1 |
| PptOutline.BodyParagraphText | app.py:312 | a paragraph's text is its line with every `•` and `◦` deleted and everything else kept in order, then stripped |
| PptOutline.PlainLineParagraph | app.py:310-313 | a kept line without glyphs becomes a level-1 paragraph holding the line unchanged |
| PptOutline.SectionSlide | app.py:303-313 | a section's slide is titled by its first kept line and has one paragraph per further line, paragraph `k` made from line `k + 1`, in order, each clean |
| PptOutline.ContentSlides | app.py:296-313 | at most one slide per section, each with a stripped non-empty title and paragraphs without glyphs at level 0 or 1 |
| PptOutline.SlideForEachSection | app.py:298-310 | a blank section adds no slide; any other adds one, titled by its first non-blank line, with one paragraph per further line |
| PptOutline.NotesToSlides | app.py:296-352 | the outline slides come first, then the two chart slides with their fixed titles |
| Quiz.JsonSpan | app.py:394-399 | the search fails, with the fixed message, exactly when no `{` comes before a `}`; otherwise the span starts with `{` and ends with `}` |
| Quiz.BracePairIffOrdered | app.py:394 | a `{` before a `}` exists exactly when the first `{` precedes the last `}` |
| Quiz.JsonSpanIsWidest | app.py:394-399 | the span lies in the text with no `{` before it and no `}` after it |
| Quiz.ExtractJsonSpan | app.py:391-399 | the span found in the stripped reply is the span of the reply itself; it raises the fixed `ValueError` exactly when the reply has no `{` before a `}`, in particular when it is blank |
| Quiz.JsonSpanOfTrimmed | app.py:391-394 | cutting whitespace off either end of a text changes neither whether a span is found nor the span |
| Quiz.Score | app.py:665-668 | the score is the number of questions whose recorded answer equals the key, at most the number of questions, and equal to it exactly when all are right |

## Left out

- The Streamlit page: UI, session state, CSS and reruns are presentation
  and framework plumbing. Only the score loop of the quiz page is modelled.
- The Gemini client and `generate_content`. The service is a total function
  parameter `gen`, and `api_key` and `model_name` have no counterpart. A
  failing call raises in Python and aborts the pipeline with no partial
  document. The model does not represent service failures.
- The notes and quiz prompt texts. They are prompt content, so the
  instruction template is a parameter.
- Fetching the YouTube transcript and extracting the video id. These are
  network I/O and thin wrappers over URL parsing.
- PDF and slide rendering: styles, layouts, fonts, the hard-coded chart
  figures, and saving and opening files. These are library calls and file
  I/O. Only the story elements and the slide outline are modelled.
- `json.loads` and the `ValueError` it causes on malformed JSON. JSON
  parsing is the library's job. Only the `{...}` span selection is
  modelled, and `Quiz.Question` stands for a parsed question.
- The score banner's fixed "/ 5" denominator. It is display text.
- The empty paragraph that `body.clear()` leaves at the top of a slide's
  text frame (app.py:308). This is python-pptx behaviour. The model's
  slide body holds only the paragraphs that `add_paragraph` appends.
- A `None` response text. The model's responses are always strings. In
  the code, `if previous_response:` treats `None` like `""`, so the next
  call goes out unframed. The join at app.py:205 then raises `TypeError`,
  but only after every remaining call has been made.
- `sep.join` and the prompt f-string have no contract of their own.
  `PyStr.JoinWith` is the reference definition of `sep.join`, and its
  rows above (`JoinWithSnoc`, `JoinWithMergeLast`, `SplitOn`) state what
  the model relies on. `Summarizer.FullPrompt` is described by
  `Summarizer.PromptShape`.
