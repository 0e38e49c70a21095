/**
 The quiz side of app.py: picking the JSON object out of the service's reply
 in `generate_quiz`, and counting correct answers when the quiz is
 submitted. Parsing the JSON text itself is left to the JSON library and not
 modelled; a question here is the record that parsing yields.
 */
module Quiz {
  import opened PyStr
  import opened PyErrors

  /** Message of the `ValueError` raised when the reply holds no `{...}` span. */
  const NoJsonMessage: string := "Gemini did not return valid JSON."

  /** One parsed question: its text, its options by letter, and the letter
      of the right option. */
  datatype Question = Question(text: string, options: map<string, string>, answer: string)

  /** Index of the first `c` in `s`, or `|s|` when there is none. */
  function FirstIndex(s: string, c: char): (i: nat)
    ensures i <= |s|
    ensures i < |s| ==> s[i] == c
    ensures forall k :: 0 <= k < i ==> s[k] != c
  {
    if |s| == 0 || s[0] == c then 0 else 1 + FirstIndex(s[1..], c)
  }

  /** Index of the last `c` in `s`, or `-1` when there is none. */
  function LastIndex(s: string, c: char): (i: int)
    ensures -1 <= i < |s|
    ensures i >= 0 ==> s[i] == c
    ensures forall k :: i < k < |s| ==> s[k] != c
  {
    if |s| == 0 then -1
    else if s[|s| - 1] == c then |s| - 1
    else LastIndex(s[..|s| - 1], c)
  }

  /** Some `{` comes before some `}` in `t`. */
  predicate HasBracePair(t: string) {
    exists a, b :: 0 <= a < b < |t| && t[a] == '{' && t[b] == '}'
  }

  /** `re.search(r"\{[\s\S]*\}", text)` and the error raised when it finds
      nothing. The match starts at the leftmost `{` that some `}` follows
      (the first `{` whenever any does) and, the star being greedy, ends at
      the last `}`. */
  function JsonSpan(t: string): (r: Result<string>)
    ensures r.ValueError? <==> !HasBracePair(t)
    ensures r.ValueError? ==> r.message == NoJsonMessage
    ensures r.Ok? ==> |r.value| >= 2 && r.value[0] == '{' && r.value[|r.value| - 1] == '}'
  {
    var i := FirstIndex(t, '{');
    var j := LastIndex(t, '}');
    BracePairIffOrdered(t);
    if i < j then Ok(t[i..j + 1]) else ValueError(NoJsonMessage)
  }

  /** The span `generate_quiz` hands to the JSON parser: the search runs on
      the reply with surrounding whitespace stripped. */
  function ExtractJsonSpan(response: string): (r: Result<string>)
    ensures r == JsonSpan(response)
    ensures r.ValueError? <==> !HasBracePair(response)
    ensures AllSpace(response) ==> r == ValueError(NoJsonMessage)
  {
    JsonSpanOfTrimmed(Strip(response), response);
    JsonSpan(Strip(response))
  }

  /** A `{` comes before a `}` exactly when the first `{` comes before the
      last `}`. */
  lemma BracePairIffOrdered(t: string)
    ensures HasBracePair(t) <==> FirstIndex(t, '{') < LastIndex(t, '}')
  {
    var i := FirstIndex(t, '{');
    var j := LastIndex(t, '}');
    if i < j {
      assert 0 <= i < j < |t| && t[i] == '{' && t[j] == '}';
    }
  }

  /** The first `c` is at `i`, told apart by the two facts that define it. */
  lemma FirstIndexIs(s: string, c: char, i: int)
    requires 0 <= i <= |s| && (i < |s| ==> s[i] == c)
    requires forall k :: 0 <= k < i ==> s[k] != c
    ensures FirstIndex(s, c) == i
  {
  }

  /** The last `c` is at `i`, told apart by the two facts that define it. */
  lemma LastIndexIs(s: string, c: char, i: int)
    requires -1 <= i < |s| && (i >= 0 ==> s[i] == c)
    requires forall k :: i < k < |s| ==> s[k] != c
    ensures LastIndex(s, c) == i
  {
  }

  /** Every brace of `s` lies in `s[a..b]`. */
  predicate BracesWithin(s: string, a: int, b: int) {
    forall k :: 0 <= k < |s| && !(a <= k < b) ==> s[k] != '{' && s[k] != '}'
  }

  /** No brace lies in the whitespace cut off either end. */
  lemma NoBraceOutside(s: string, a: int, b: int)
    requires 0 <= a <= b <= |s| && AllSpace(s[..a]) && AllSpace(s[b..])
    ensures BracesWithin(s, a, b)
  {
    assert !IsSpace('{') && !IsSpace('}');
    forall k | 0 <= k < |s| && !(a <= k < b)
      ensures s[k] != '{' && s[k] != '}'
    {
      if k < a {
        assert s[..a][k] == s[k];
      } else {
        assert s[b..][k - b] == s[k];
      }
    }
  }

  /** Cutting whitespace off either end of the reply changes neither whether
      a span is found nor the span itself, since braces are not whitespace. */
  lemma JsonSpanOfTrimmed(t: string, s: string)
    requires IsTrimmedSlice(t, s)
    ensures JsonSpan(t) == JsonSpan(s)
  {
    var a, b :| 0 <= a <= b <= |s| && t == s[a..b] && AllSpace(s[..a]) && AllSpace(s[b..]);
    NoBraceOutside(s, a, b);
    JsonSpanOfInner(t, s, a, b);
  }

  /** The span of a slice that holds every brace of the text is the span of
      the text. */
  lemma JsonSpanOfInner(t: string, s: string, a: int, b: int)
    requires 0 <= a <= b <= |s| && t == s[a..b]
    requires BracesWithin(s, a, b)
    ensures JsonSpan(t) == JsonSpan(s)
  {
    BracePairOfInner(t, s, a, b);
    if HasBracePair(t) {
      SpanIndicesOfInner(t, s, a, b);
      BracePairIffOrdered(t);
      var i, j := FirstIndex(t, '{'), LastIndex(t, '}');
      SliceOfSlice(s, a, b, i, j + 1);
      SameSpan(t, s, a, i, j);
    }
  }

  /** Two texts whose first `{` and last `}` bound the same characters
      have the same span. */
  lemma SameSpan(t: string, s: string, a: int, i: int, j: int)
    requires FirstIndex(t, '{') == i && LastIndex(t, '}') == j && i < j
    requires FirstIndex(s, '{') == a + i && LastIndex(s, '}') == a + j
    requires 0 <= a + i && a + j < |s| && t[i..j + 1] == s[a + i..a + j + 1]
    ensures JsonSpan(t) == JsonSpan(s)
  {
    JsonSpanAt(t, i, j);
    JsonSpanAt(s, a + i, a + j);
  }

  /** The span between a known first `{` and last `}`. */
  lemma JsonSpanAt(s: string, i: int, j: int)
    requires FirstIndex(s, '{') == i && LastIndex(s, '}') == j && i < j
    ensures JsonSpan(s) == Ok(s[i..j + 1])
  {
  }

  lemma SliceOfSlice(s: string, a: int, b: int, i: int, j: int)
    requires 0 <= a <= b <= |s| && 0 <= i <= j <= b - a
    ensures s[a..b][i..j] == s[a + i..a + j]
  {
    var u, v := s[a..b][i..j], s[a + i..a + j];
    forall k | 0 <= k < |u|
      ensures u[k] == v[k]
    {
      assert u[k] == s[a + i + k];
    }
  }

  /** The slice holds a brace pair exactly when the text does. */
  lemma BracePairOfInner(t: string, s: string, a: int, b: int)
    requires 0 <= a <= b <= |s| && t == s[a..b]
    requires BracesWithin(s, a, b)
    ensures HasBracePair(t) <==> HasBracePair(s)
  {
    if HasBracePair(t) {
      var x, y :| 0 <= x < y < |t| && t[x] == '{' && t[y] == '}';
      assert s[a + x] == '{' && s[a + y] == '}';
    }
    if HasBracePair(s) {
      var x, y :| 0 <= x < y < |s| && s[x] == '{' && s[y] == '}';
      assert t[x - a] == '{' && t[y - a] == '}';
    }
  }

  /** When the slice holds a brace pair, the first `{` and last `}` of the
      text are those of the slice, shifted by where the slice starts. */
  lemma SpanIndicesOfInner(t: string, s: string, a: int, b: int)
    requires 0 <= a <= b <= |s| && t == s[a..b]
    requires BracesWithin(s, a, b)
    requires HasBracePair(t)
    ensures FirstIndex(s, '{') == a + FirstIndex(t, '{')
    ensures LastIndex(s, '}') == a + LastIndex(t, '}')
  {
    BracePairIffOrdered(t);
    assert forall k :: 0 <= k < |t| ==> t[k] == s[a + k];
    FirstBraceOfInner(t, s, a, b);
    LastBraceOfInner(t, s, a, b);
  }

  lemma FirstBraceOfInner(t: string, s: string, a: int, b: int)
    requires 0 <= a <= b <= |s| && |t| == b - a
    requires forall k :: 0 <= k < |t| ==> t[k] == s[a + k]
    requires BracesWithin(s, a, b)
    requires FirstIndex(t, '{') < |t|
    ensures FirstIndex(s, '{') == a + FirstIndex(t, '{')
  {
    var i := FirstIndex(t, '{');
    forall k | 0 <= k < a + i
      ensures s[k] != '{'
    {
      if k >= a {
        assert s[a + (k - a)] == t[k - a];
      }
    }
    FirstIndexIs(s, '{', a + i);
  }

  lemma LastBraceOfInner(t: string, s: string, a: int, b: int)
    requires 0 <= a <= b <= |s| && |t| == b - a
    requires forall k :: 0 <= k < |t| ==> t[k] == s[a + k]
    requires BracesWithin(s, a, b)
    requires LastIndex(t, '}') >= 0
    ensures LastIndex(s, '}') == a + LastIndex(t, '}')
  {
    var j := LastIndex(t, '}');
    forall k | a + j < k < |s|
      ensures s[k] != '}'
    {
      if k < b {
        assert s[a + (k - a)] == t[k - a];
      }
    }
    LastIndexIs(s, '}', a + j);
  }

  /** The span is the widest one possible: it sits in the text,
      and no `{` comes before it and no `}` after it. */
  lemma JsonSpanIsWidest(t: string)
    requires JsonSpan(t).Ok?
    ensures var v := JsonSpan(t).value;
            var start := FirstIndex(t, '{');
            && start + |v| <= |t|
            && t[start..start + |v|] == v
            && (forall k :: 0 <= k < start ==> t[k] != '{')
            && (forall k :: start + |v| <= k < |t| ==> t[k] != '}')
  {
  }

  /** Question `i` is answered and the answer is its key:
      `answers.get(i) == q["answer"]`. */
  predicate AnsweredCorrectly(questions: seq<Question>, answers: map<int, string>, i: int)
    requires 0 <= i < |questions|
  {
    i in answers && answers[i] == questions[i].answer
  }

  /** Indices below `n` of the questions answered correctly. */
  function CorrectBelow(questions: seq<Question>, answers: map<int, string>, n: int): set<int>
    requires n <= |questions|
  {
    set i | 0 <= i < n && AnsweredCorrectly(questions, answers, i)
  }

  /** Going one question further adds that question's index exactly when
      it was answered correctly. */
  lemma CorrectBelowStep(questions: seq<Question>, answers: map<int, string>, i: int)
    requires 0 <= i < |questions|
    ensures i !in CorrectBelow(questions, answers, i)
    ensures CorrectBelow(questions, answers, i + 1)
         == CorrectBelow(questions, answers, i)
            + (if AnsweredCorrectly(questions, answers, i) then {i} else {})
  {
  }

  /** The score loop run on submit. */
  method Score(questions: seq<Question>, answers: map<int, string>) returns (score: nat)
    ensures score == |CorrectBelow(questions, answers, |questions|)|
    ensures score <= |questions|
    ensures score == |questions| <==>
              forall i :: 0 <= i < |questions| ==> AnsweredCorrectly(questions, answers, i)
  {
    score := 0;
    var i := 0;
    while i < |questions|
      invariant 0 <= i <= |questions|
      invariant score == |CorrectBelow(questions, answers, i)|
      invariant score <= i
      invariant score == i <==> forall k :: 0 <= k < i ==> AnsweredCorrectly(questions, answers, k)
    {
      CorrectBelowStep(questions, answers, i);
      if i in answers && answers[i] == questions[i].answer {
        score := score + 1;
      }
      i := i + 1;
    }
  }
}
