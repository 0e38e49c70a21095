/**
 The generation loop of `transcript_to_gemini_output` in app.py: one call to
 the text-generation service per chunk, in chunk order, each prompt after a
 non-empty response carrying a framing block around that one response, and
 the responses joined with a blank line.

 The service is the parameter `gen`, a function from prompt to response
 text. `Calls` describes the calls recursively, `IsRunAfter` describes them
 call by call, and the method `TranscriptToGeminiOutputLoop` is the loop as
 app.py writes it; lemmas tie the three together. The facts about runs
 hold for any framing texts and instructions (`PromptParts`); the pipeline
 uses the fixed framing texts of app.py (`Parts`).
 */
module Summarizer {
  import opened PyStr
  import opened PyErrors
  import Chunker

  /** Opening of the framing block placed before a non-empty previous response. */
  const ContinuationIntro: string := "The following text is a continuation.\n\nPrevious response:\n"

  /** Closing of the framing block, placed after the previous response. */
  const ContinuationOutro: string := "\n\nNew text (do NOT repeat previous response):\n"

  /** Placeholder in the instruction template replaced by the output language. */
  const LanguagePlaceholder: string := "[Language]"

  /** Separator between the instructions and the chunk, and between responses. */
  const BlankLine: string := "\n\n"

  /** One request to the service and the text it answered. */
  datatype Call = Call(prompt: string, response: string)

  /** The fixed parts every prompt is assembled from: the two halves of the
      framing block and the instructions. */
  datatype PromptParts = PromptParts(intro: string, outro: string, instructions: string)

  /** `prompt.replace("[Language]", output_language)`. */
  function Instructions(template: string, language: string): (r: string)
    ensures NoOccurrence(template, LanguagePlaceholder) ==> r == template
    ensures forall c :: c in r ==> c in template || c in language
  {
    Replace(template, LanguagePlaceholder, language)
  }

  /** The first `[Language]` of a template is filled in with the language:
      the text before it is kept, and so is the text after it when that
      holds no further placeholder. */
  lemma InstructionsFillLanguage(a: string, b: string, language: string)
    requires forall j :: 0 <= j < |a| ==> !OccursAt(a + LanguagePlaceholder + b, LanguagePlaceholder, j)
    requires NoOccurrence(b, LanguagePlaceholder)
    ensures Instructions(a + LanguagePlaceholder + b, language) == a + language + b
  {
    var t := a + LanguagePlaceholder + b;
    var k := |a|;
    assert t[k..k + |LanguagePlaceholder|] == LanguagePlaceholder;
    ReplaceFirst(t, LanguagePlaceholder, language, k);
    assert t[..k] == a;
    assert t[k + |LanguagePlaceholder|..] == b;
  }

  /** The parts the pipeline uses: app.py's framing texts and the
      template with the language filled in. */
  function Parts(template: string, language: string): PromptParts
  {
    PromptParts(ContinuationIntro, ContinuationOutro, Instructions(template, language))
  }

  /** The `context` block: nothing when the previous response is empty,
      otherwise the framing around the previous response. */
  function Context(pp: PromptParts, previous: string): (c: string)
    ensures c == "" <==> previous == ""
    ensures previous != "" ==> StartsWith(c, pp.intro + previous) && EndsWith(c, pp.outro)
  {
    if previous == "" then ""
    else
      var c := pp.intro + previous + pp.outro;
      assert c[..|pp.intro + previous|] == pp.intro + previous;
      assert c[|c| - |pp.outro|..] == pp.outro;
      c
  }

  /** `f"{context}{formatted_prompt}\n\n{chunk}"`. */
  function FullPrompt(pp: PromptParts, previous: string, chunk: string): string
  {
    Context(pp, previous) + pp.instructions + BlankLine + chunk
  }

  /** `s.endswith(suffix)`. */
  predicate EndsWith(s: string, suffix: string) {
    |suffix| <= |s| && s[|s| - |suffix|..] == suffix
  }

  /** An unframed prompt is the instructions, a blank line and the chunk; a
      framed one opens with the framing note followed by the previous
      response. Its length shows that a prompt grows with one previous
      response only, never with the number of chunks already processed; it
      always ends with the chunk. */
  lemma PromptShape(pp: PromptParts, previous: string, chunk: string)
    ensures |FullPrompt(pp, previous, chunk)|
         == (if previous == "" then 0 else |pp.intro| + |previous| + |pp.outro|)
            + |pp.instructions| + |BlankLine| + |chunk|
    ensures previous == "" ==> FullPrompt(pp, previous, chunk) == pp.instructions + BlankLine + chunk
    ensures previous != "" ==> StartsWith(FullPrompt(pp, previous, chunk), pp.intro + previous)
    ensures EndsWith(FullPrompt(pp, previous, chunk), chunk)
  {
    var p := FullPrompt(pp, previous, chunk);
    var tail := pp.instructions + BlankLine + chunk;
    assert p == Context(pp, previous) + tail;
    assert p[|p| - |chunk|..] == chunk;
    if previous != "" {
      assert p == (pp.intro + previous) + (pp.outro + tail);
      assert p[..|pp.intro + previous|] == pp.intro + previous;
    }
  }

  /** The response the prompt of call `i` is built around: the start value
      for the first call, the response of call `i - 1` after it. */
  function PreviousResponse(start: string, calls: seq<Call>, i: int): string
    requires 0 <= i <= |calls|
  {
    if i == 0 then start else calls[i - 1].response
  }

  /** Call `c` is the one the loop makes for `chunk` when the response
      before it was `previous`: its prompt is built from exactly these two,
      and its response is the service's answer to that prompt. */
  predicate CallFits(gen: string -> string, pp: PromptParts, previous: string, chunk: string, c: Call)
  {
    c.prompt == FullPrompt(pp, previous, chunk) && c.response == gen(c.prompt)
  }

  /** `calls` is what the loop does for `chunks` when the response before the
      first chunk was `start`: one call per chunk, in order, each fitting
      its chunk and the response just before it. */
  predicate IsRunAfter(gen: string -> string, pp: PromptParts, chunks: seq<string>,
                       start: string, calls: seq<Call>)
  {
    && |calls| == |chunks|
    && forall i {:trigger calls[i], chunks[i]} :: 0 <= i < |calls| ==>
         CallFits(gen, pp, PreviousResponse(start, calls, i), chunks[i], calls[i])
  }

  /** The calls made for `chunks` after a previous response `start`. */
  function Calls(gen: string -> string, pp: PromptParts, chunks: seq<string>, start: string): (cs: seq<Call>)
    ensures IsRunAfter(gen, pp, chunks, start, cs)
    decreases |chunks|
  {
    if |chunks| == 0 then []
    else
      var prompt := FullPrompt(pp, start, chunks[0]);
      var response := gen(prompt);
      var rest := Calls(gen, pp, chunks[1..], response);
      RunCons(gen, pp, chunks, start, Call(prompt, response), rest);
      [Call(prompt, response)] + rest
  }

  /** A call fitting the first chunk, in front of a run over the other
      chunks that starts from its response, is a run over all of them. */
  lemma RunCons(gen: string -> string, pp: PromptParts, chunks: seq<string>, start: string,
                c: Call, rest: seq<Call>)
    requires |chunks| > 0 && CallFits(gen, pp, start, chunks[0], c)
    requires IsRunAfter(gen, pp, chunks[1..], c.response, rest)
    ensures IsRunAfter(gen, pp, chunks, start, [c] + rest)
  {
    var calls := [c] + rest;
    forall k | 0 <= k < |calls|
      ensures CallFits(gen, pp, PreviousResponse(start, calls, k), chunks[k], calls[k])
    {
      if k > 0 {
        RunConsAt(gen, pp, chunks, start, c, rest, k);
      } else {
        assert calls[0] == c;
      }
    }
  }

  /** Call `k > 0` of the run `RunCons` builds is call `k - 1` of the rest. */
  lemma RunConsAt(gen: string -> string, pp: PromptParts, chunks: seq<string>, start: string,
                  c: Call, rest: seq<Call>, k: int)
    requires |chunks| > 0 && IsRunAfter(gen, pp, chunks[1..], c.response, rest)
    requires 0 < k < |chunks|
    ensures CallFits(gen, pp, PreviousResponse(start, [c] + rest, k), chunks[k], ([c] + rest)[k])
  {
    var calls := [c] + rest;
    var prev := PreviousResponse(c.response, rest, k - 1);
    assert CallFits(gen, pp, prev, chunks[1..][k - 1], rest[k - 1]);
    assert calls[k] == rest[k - 1] && chunks[k] == chunks[1..][k - 1];
    assert PreviousResponse(start, calls, k) == prev;
  }

  /** The responses, in call order. */
  function Responses(calls: seq<Call>): seq<string>
  {
    seq(|calls|, i requires 0 <= i < |calls| => calls[i].response)
  }

  /** One more call adds its response at the end. */
  lemma ResponsesSnoc(calls: seq<Call>, c: Call)
    ensures Responses(calls + [c]) == Responses(calls) + [c.response]
  {
  }

  /** `transcript_to_gemini_output(transcript_text, ..., prompt,
      output_language, chunk_size)` with the service as `gen`. */
  function TranscriptToGeminiOutput(transcript: string, gen: string -> string, template: string,
                                    language: string, chunkSize: int): (r: Result<string>)
    ensures r.ValueError? <==> chunkSize == 0
  {
    match Chunker.SplitTextIntoChunks(transcript, chunkSize, Chunker.DefaultMinChunkSize)
    case ValueError(m) => ValueError(m)
    case Ok(chunks) =>
      Ok(JoinWith(BlankLine, Responses(Calls(gen, Parts(template, language), chunks, ""))))
  }

  /** The chunks the pipeline works through. */
  function PipelineChunks(transcript: string, chunkSize: int): seq<string>
    requires chunkSize != 0
  {
    Chunker.SplitTextIntoChunks(transcript, chunkSize, Chunker.DefaultMinChunkSize).value
  }

  // ---------------------------------------------------------------------
  // The loop as written

  /** `transcript_to_gemini_output` as written: chunk the transcript, run
      the generation loop, join the responses. The calls made are returned
      as a log. */
  method TranscriptToGeminiOutputLoop(transcript: string, gen: string -> string, template: string,
                                      language: string, chunkSize: int)
    returns (r: Result<string>, calls: seq<Call>)
    ensures r.ValueError? <==> chunkSize == 0
    ensures chunkSize == 0 ==> calls == []
    ensures chunkSize != 0 ==>
              && IsRunAfter(gen, Parts(template, language), PipelineChunks(transcript, chunkSize), "", calls)
              && r == Ok(JoinWith(BlankLine, Responses(calls)))
  {
    var split := Chunker.SplitTextIntoChunks(transcript, chunkSize, Chunker.DefaultMinChunkSize);
    if split.ValueError? {
      return ValueError(split.message), [];
    }
    var combined;
    combined, calls := GenerateForChunks(split.value, gen, Parts(template, language));
    r := Ok(JoinWith(BlankLine, combined));
  }

  /** The `for chunk in transcript_chunks` loop: returns `combined_response`
      and the log of the calls made. */
  method GenerateForChunks(chunks: seq<string>, gen: string -> string, pp: PromptParts)
    returns (combined: seq<string>, calls: seq<Call>)
    ensures IsRunAfter(gen, pp, chunks, "", calls)
    ensures combined == Responses(calls)
  {
    combined, calls := [], [];
    var previous := "";
    var i := 0;
    while i < |chunks|
      invariant 0 <= i <= |chunks|
      invariant IsRunAfter(gen, pp, chunks[..i], "", calls)
      invariant combined == Responses(calls)
      invariant previous == PreviousResponse("", calls, i)
    {
      var context := if previous != "" then pp.intro + previous + pp.outro else "";
      var full := context + pp.instructions + BlankLine + chunks[i];
      assert context == Context(pp, previous);
      assert full == FullPrompt(pp, previous, chunks[i]);
      var response := gen(full);
      RunExtend(gen, pp, chunks[..i], "", calls, chunks[i], Call(full, response));
      assert chunks[..i + 1] == chunks[..i] + [chunks[i]];
      ResponsesSnoc(calls, Call(full, response));
      combined := combined + [response];
      calls := calls + [Call(full, response)];
      previous := response;
      i := i + 1;
    }
    assert chunks[..i] == chunks;
  }

  /** A run extended by the call that fits the next chunk is a run over
      one more chunk. */
  lemma RunExtend(gen: string -> string, pp: PromptParts, chunks: seq<string>,
                  start: string, calls: seq<Call>, chunk: string, c: Call)
    requires IsRunAfter(gen, pp, chunks, start, calls)
    requires CallFits(gen, pp, PreviousResponse(start, calls, |calls|), chunk, c)
    ensures IsRunAfter(gen, pp, chunks + [chunk], start, calls + [c])
  {
    var calls', chunks' := calls + [c], chunks + [chunk];
    forall k | 0 <= k < |calls'|
      ensures CallFits(gen, pp, PreviousResponse(start, calls', k), chunks'[k], calls'[k])
    {
      if k < |calls| {
        assert calls'[k] == calls[k] && chunks'[k] == chunks[k];
        assert PreviousResponse(start, calls', k) == PreviousResponse(start, calls, k);
      }
    }
  }

  // ---------------------------------------------------------------------
  // Properties of the pipeline

  /** The per-call description has exactly one solution: the calls are
      determined by the service, the prompt parts and the chunks. */
  lemma {:induction false} RunIsUnique(gen: string -> string, pp: PromptParts, chunks: seq<string>,
                                       start: string, calls: seq<Call>)
    requires IsRunAfter(gen, pp, chunks, start, calls)
    ensures calls == Calls(gen, pp, chunks, start)
    decreases |chunks|
  {
    if |chunks| > 0 {
      var rest := calls[1..];
      assert IsRunAfter(gen, pp, chunks[1..], calls[0].response, rest) by {
        forall i | 0 <= i < |rest|
          ensures CallFits(gen, pp, PreviousResponse(calls[0].response, rest, i), chunks[1..][i], rest[i])
        {
          assert rest[i] == calls[i + 1];
        }
      }
      RunIsUnique(gen, pp, chunks[1..], calls[0].response, rest);
      assert calls == [calls[0]] + rest;
    }
  }

  /** The output is the responses of the calls, joined with a blank line, in
      call order, with nothing added: for any calls that fit the per-call
      description. */
  lemma OutputIsJoinedResponses(transcript: string, gen: string -> string, template: string,
                                language: string, chunkSize: int, calls: seq<Call>)
    requires chunkSize != 0
    requires IsRunAfter(gen, Parts(template, language), PipelineChunks(transcript, chunkSize), "", calls)
    ensures TranscriptToGeminiOutput(transcript, gen, template, language, chunkSize)
         == Ok(JoinWith(BlankLine, Responses(calls)))
  {
    RunIsUnique(gen, Parts(template, language), PipelineChunks(transcript, chunkSize), "", calls);
  }

  /** The loop and the recursive description agree. */
  lemma LoopMatchesCalls(transcript: string, gen: string -> string, template: string,
                         language: string, chunkSize: int, calls: seq<Call>)
    requires chunkSize != 0
    requires IsRunAfter(gen, Parts(template, language), PipelineChunks(transcript, chunkSize), "", calls)
    ensures calls == Calls(gen, Parts(template, language), PipelineChunks(transcript, chunkSize), "")
    ensures |calls| == |PipelineChunks(transcript, chunkSize)|
  {
    RunIsUnique(gen, Parts(template, language), PipelineChunks(transcript, chunkSize), "", calls);
  }

  /** A transcript without words yields no chunks, no calls and the empty
      document. */
  lemma NoWordsNoCalls(transcript: string, gen: string -> string, template: string,
                       language: string, chunkSize: int)
    requires chunkSize > 0
    requires AllSpace(transcript)
    ensures PipelineChunks(transcript, chunkSize) == []
    ensures Calls(gen, Parts(template, language), PipelineChunks(transcript, chunkSize), "") == []
    ensures TranscriptToGeminiOutput(transcript, gen, template, language, chunkSize) == Ok("")
  {
    Chunker.NoWordsNoChunks(transcript, chunkSize, Chunker.DefaultMinChunkSize);
  }

  /** A transcript of at most `chunk_size` words is sent in one call, with no
      framing, and the document is that call's response verbatim. */
  lemma ShortTranscriptOneCall(transcript: string, gen: string -> string, template: string,
                               language: string, chunkSize: int)
    requires chunkSize > 0
    requires 1 <= |Split(transcript)| <= chunkSize
    ensures var calls := Calls(gen, Parts(template, language), PipelineChunks(transcript, chunkSize), "");
            && |calls| == 1
            && calls[0].prompt == Instructions(template, language) + BlankLine + JoinWords(Split(transcript))
            && TranscriptToGeminiOutput(transcript, gen, template, language, chunkSize) == Ok(calls[0].response)
  {
    var words := Split(transcript);
    Chunker.ChunksAreMergedGroups(transcript, chunkSize, Chunker.DefaultMinChunkSize);
    assert Chunker.Groups(words, chunkSize) == [words];
    assert PipelineChunks(transcript, chunkSize) == [JoinWords(words)];
    PromptShape(Parts(template, language), "", JoinWords(words));
  }

  /** Every prompt after the first is built from the chunk and the response
      of the call just before it, and from nothing else: an empty previous
      response leaves the prompt unframed, a non-empty one appears in it
      verbatim right after the opening of the frame. */
  lemma PromptCarriesOnlyPreviousResponse(gen: string -> string, pp: PromptParts,
                                          chunks: seq<string>, calls: seq<Call>, i: int)
    requires IsRunAfter(gen, pp, chunks, "", calls)
    requires 0 < i < |calls|
    ensures calls[i - 1].response == "" ==> calls[i].prompt == pp.instructions + BlankLine + chunks[i]
    ensures calls[i - 1].response != "" ==> StartsWith(calls[i].prompt, pp.intro + calls[i - 1].response)
    ensures EndsWith(calls[i].prompt, chunks[i])
    ensures calls[i].response == gen(calls[i].prompt)
  {
    assert CallFits(gen, pp, PreviousResponse("", calls, i), chunks[i], calls[i]);
    PromptShape(pp, calls[i - 1].response, chunks[i]);
  }

  /** The first prompt carries no framing. */
  lemma FirstPromptUnframed(gen: string -> string, pp: PromptParts,
                            chunks: seq<string>, calls: seq<Call>)
    requires IsRunAfter(gen, pp, chunks, "", calls)
    requires |calls| > 0
    ensures calls[0].prompt == pp.instructions + BlankLine + chunks[0]
  {
    assert CallFits(gen, pp, PreviousResponse("", calls, 0), chunks[0], calls[0]);
    PromptShape(pp, "", chunks[0]);
  }

  /** One more chunk appends a blank line and its response to the document,
      leaving what came before unchanged. */
  lemma OutputGrowsByOneResponse(calls: seq<Call>, c: Call)
    requires |calls| >= 1
    ensures JoinWith(BlankLine, Responses(calls + [c]))
         == JoinWith(BlankLine, Responses(calls)) + BlankLine + c.response
  {
    assert Responses(calls + [c]) == Responses(calls) + [c.response];
    JoinWithSnoc(BlankLine, Responses(calls), c.response);
  }
}
