/**
 The handful of Python `str` operations the notes pipeline is built from:
 `split()` on whitespace, `split(sep)`, `sep.join(parts)`, `strip()`,
 `startswith` and `replace`. Each is defined here once, with the facts the
 rest of the model relies on.
 */
module PyStr {

  /** The characters Python's `str.isspace()` accepts; `split()` and
      `strip()` without arguments cut on exactly these. Below U+0085 they
      are the ASCII space, tab to carriage return, and the four separators
      U+001C to U+001F; from U+0085 up they are listed in `WideSpaceRanges`. */
  predicate IsSpace(c: char) {
    var n := c as int;
    if n < 0x85 then n == 0x20 || 0x09 <= n <= 0x0D || 0x1C <= n <= 0x1F
    else InRanges(n, WideSpaceRanges)
  }

  /** Inclusive code point ranges of the whitespace characters from U+0085 up. */
  const WideSpaceRanges: seq<(int, int)> := [
    (0x85, 0x85), (0xA0, 0xA0), (0x1680, 0x1680), (0x2000, 0x200A),
    (0x2028, 0x2029), (0x202F, 0x202F), (0x205F, 0x205F), (0x3000, 0x3000)
  ]

  predicate InRanges(n: int, ranges: seq<(int, int)>)
  {
    |ranges| > 0 && (ranges[0].0 <= n <= ranges[0].1 || InRanges(n, ranges[1..]))
  }

  predicate AllSpace(s: string) {
    forall i :: 0 <= i < |s| ==> IsSpace(s[i])
  }

  /** A word as `str.split()` produces it: non-empty and free of whitespace. */
  predicate IsWord(w: string) {
    |w| > 0 && forall i :: 0 <= i < |w| ==> !IsSpace(w[i])
  }

  type Word = w: string | IsWord(w) witness "a"

  /** Length of the longest whitespace-free prefix of `s`. */
  function WordLength(s: string): (n: nat)
    ensures n <= |s|
    ensures forall i :: 0 <= i < n ==> !IsSpace(s[i])
    ensures n < |s| ==> IsSpace(s[n])
  {
    if |s| == 0 || IsSpace(s[0]) then 0 else 1 + WordLength(s[1..])
  }

  /** `s.split()`: the maximal whitespace-free runs of `s`, in order. */
  function Split(s: string): (ws: seq<Word>)
    ensures |ws| == 0 <==> AllSpace(s)
    decreases |s|
  {
    if |s| == 0 then []
    else if IsSpace(s[0]) then Split(s[1..])
    else
      var n := WordLength(s);
      [s[..n]] + Split(s[n..])
  }

  /** `sep.join(parts)`. */
  function JoinWith(sep: string, parts: seq<string>): string
  {
    if |parts| == 0 then ""
    else if |parts| == 1 then parts[0]
    else parts[0] + sep + JoinWith(sep, parts[1..])
  }

  /** `" ".join(words)`. */
  function JoinWords(ws: seq<Word>): string
  {
    JoinWith(" ", ws)
  }

  /** `s.startswith(prefix)`. */
  predicate StartsWith(s: string, prefix: string) {
    |prefix| <= |s| && s[..|prefix|] == prefix
  }

  /** A line as `strip()` leaves it when something is left: non-empty, no
      whitespace at either end. */
  predicate IsStrippedLine(s: string) {
    s != "" && !IsSpace(s[0]) && !IsSpace(s[|s| - 1])
  }

  /** `r` is a slice of `s` with nothing but whitespace cut off either end. */
  predicate IsTrimmedSlice(r: string, s: string) {
    exists a, b :: 0 <= a <= b <= |s| && r == s[a..b] && AllSpace(s[..a]) && AllSpace(s[b..])
  }

  /** `s.strip()` with no argument: leading and trailing whitespace removed. */
  function Strip(s: string): (r: string)
    ensures |r| <= |s|
    ensures r == "" <==> AllSpace(s)
    ensures r != "" ==> IsStrippedLine(r)
    ensures forall c :: c in r ==> c in s
    ensures IsTrimmedSlice(r, s)
  {
    StripIsTrimmedSlice(s);
    RStripIsPrefix(LStrip(s));
    RStrip(LStrip(s))
  }

  /** What `rstrip()` leaves of what `lstrip()` left is a slice of the
      input with only whitespace cut off either end. */
  lemma StripIsTrimmedSlice(s: string)
    ensures IsTrimmedSlice(RStrip(LStrip(s)), s)
  {
    var l := LStrip(s);
    LStripIsSuffix(s);
    RStripIsPrefix(l);
    TrimmedFromCuts(s, l, RStrip(l));
  }

  /** Cutting whitespace off the front of `s`, giving `l`, and then off the
      back of `l`, giving `r`, leaves a trimmed slice of `s`. */
  lemma TrimmedFromCuts(s: string, l: string, r: string)
    requires |l| <= |s| && l == s[|s| - |l|..]
    requires forall i :: 0 <= i < |s| - |l| ==> IsSpace(s[i])
    requires |r| <= |l| && r == l[..|r|]
    requires forall i :: |r| <= i < |l| ==> IsSpace(l[i])
    ensures IsTrimmedSlice(r, s)
  {
    var a := |s| - |l|;
    assert AllSpace(s[..a]) by {
      assert forall i :: 0 <= i < a ==> s[..a][i] == s[i];
    }
    assert r == s[a..a + |r|];
    var tail := s[a + |r|..];
    assert AllSpace(tail) by {
      assert forall i :: 0 <= i < |tail| ==> tail[i] == l[|r| + i];
    }
    assert 0 <= a <= a + |r| <= |s| && r == s[a..a + |r|];
  }

  /** `s.lstrip()`: the suffix left after dropping leading whitespace. */
  function LStrip(s: string): (r: string)
    ensures |r| <= |s|
    ensures forall i :: 0 <= i < |s| - |r| ==> IsSpace(s[i])
    ensures r == "" || !IsSpace(r[0])
    ensures forall c :: c in r ==> c in s
  {
    if |s| > 0 && IsSpace(s[0]) then LStrip(s[1..]) else s
  }

  /** `s.rstrip()`: the prefix left after dropping trailing whitespace. */
  function RStrip(s: string): (r: string)
    ensures |r| <= |s|
    ensures forall i :: |r| <= i < |s| ==> IsSpace(s[i])
    ensures r == "" || !IsSpace(r[|r| - 1])
    ensures forall c :: c in r ==> c in s
  {
    if |s| > 0 && IsSpace(s[|s| - 1]) then RStrip(s[..|s| - 1]) else s
  }

  /** What `lstrip()` leaves is a suffix of its input. */
  lemma {:induction false} LStripIsSuffix(s: string)
    ensures LStrip(s) == s[|s| - |LStrip(s)|..]
    decreases |s|
  {
    if |s| > 0 && IsSpace(s[0]) {
      LStripIsSuffix(s[1..]);
    }
  }

  /** What `rstrip()` leaves is a prefix of its input. */
  lemma {:induction false} RStripIsPrefix(s: string)
    ensures RStrip(s) == s[..|RStrip(s)|]
    decreases |s|
  {
    if |s| > 0 && IsSpace(s[|s| - 1]) {
      RStripIsPrefix(s[..|s| - 1]);
    }
  }

  /** `s.replace(pat, rep)` for a non-empty `pat`: occurrences are found left
      to right and never overlap. */
  function Replace(s: string, pat: string, rep: string): (r: string)
    requires |pat| > 0
    ensures forall c :: c in r ==> c in s || c in rep
    ensures |pat| == 1 && pat[0] !in rep ==> pat[0] !in r
    ensures |pat| == 1 && pat[0] !in s ==> r == s
    ensures |pat| == 1 ==> r == MapChar(s, pat[0], rep)
    ensures NoOccurrence(s, pat) ==> r == s
    decreases |s|
  {
    if |s| < |pat| then s
    else if s[..|pat|] == pat then
      assert OccursAt(s, pat, 0);
      rep + Replace(s[|pat|..], pat, rep)
    else
      assert |pat| == 1 ==> s[..|pat|] == [s[0]];
      assert NoOccurrence(s, pat) ==> NoOccurrence(s[1..], pat) by {
        if NoOccurrence(s, pat) {
          forall k | 0 <= k <= |s[1..]| - |pat|
            ensures !OccursAt(s[1..], pat, k)
          {
            assert !OccursAt(s, pat, k + 1);
            var here, there := s[1..][k..k + |pat|], s[k + 1..k + 1 + |pat|];
            assert forall j :: 0 <= j < |pat| ==> here[j] == there[j];
          }
        }
      }
      [s[0]] + Replace(s[1..], pat, rep)
  }

  /** `pat` occurs in `s` at index `k`. */
  predicate OccursAt(s: string, pat: string, k: int) {
    0 <= k && k + |pat| <= |s| && s[k..k + |pat|] == pat
  }

  /** `pat` occurs nowhere in `s`. */
  predicate NoOccurrence(s: string, pat: string) {
    forall k :: 0 <= k <= |s| - |pat| ==> !OccursAt(s, pat, k)
  }

  /** Every `c` in `s` replaced by `rep`, character by character: the
      reference reading of a one-character `replace`. */
  function MapChar(s: string, c: char, rep: string): string
  {
    if |s| == 0 then "" else (if s[0] == c then rep else [s[0]]) + MapChar(s[1..], c, rep)
  }

  /** Two characters replaced in a single pass, each by its own text. */
  function MapTwoChars(s: string, c1: char, r1: string, c2: char, r2: string): string
  {
    if |s| == 0 then ""
    else
      (if s[0] == c1 then r1 else if s[0] == c2 then r2 else [s[0]])
      + MapTwoChars(s[1..], c1, r1, c2, r2)
  }

  /** `s.split(sep)` for a non-empty `sep`: the pieces between the
      occurrences of `sep`, found left to right, empty pieces included. */
  function SplitOn(s: string, sep: string): (parts: seq<string>)
    requires |sep| > 0
    ensures |parts| >= 1
    ensures JoinWith(sep, parts) == s
    decreases |s|
  {
    if |s| < |sep| then [s]
    else if s[..|sep|] == sep then
      var rest := SplitOn(s[|sep|..], sep);
      JoinWithCons(sep, "", rest);
      [""] + rest
    else
      var rest := SplitOn(s[1..], sep);
      JoinWithPrepend(sep, s[0], rest);
      [[s[0]] + rest[0]] + rest[1..]
  }

  /** Number of occurrences of `c` in `s`. */
  function CountChar(s: string, c: char): nat
  {
    if |s| == 0 then 0 else (if s[0] == c then 1 else 0) + CountChar(s[1..], c)
  }

  // ---------------------------------------------------------------------
  // Facts about join

  lemma JoinWithCons(sep: string, a: string, parts: seq<string>)
    requires |parts| >= 1
    ensures JoinWith(sep, [a] + parts) == a + sep + JoinWith(sep, parts)
  {
    assert ([a] + parts)[1..] == parts;
  }

  /** Prepending a character to the first part prepends it to the join. */
  lemma JoinWithPrepend(sep: string, c: char, parts: seq<string>)
    requires |parts| >= 1
    ensures JoinWith(sep, [[c] + parts[0]] + parts[1..]) == [c] + JoinWith(sep, parts)
  {
    var ps := [[c] + parts[0]] + parts[1..];
    if |parts| == 1 {
      assert ps == [[c] + parts[0]];
    } else {
      assert ps[1..] == parts[1..];
    }
  }

  /** Joining `xs + [y]` appends the separator and `y` to the join of `xs`. */
  lemma {:induction false} JoinWithSnoc(sep: string, xs: seq<string>, y: string)
    requires |xs| >= 1
    ensures JoinWith(sep, xs + [y]) == JoinWith(sep, xs) + sep + y
    decreases |xs|
  {
    if |xs| == 1 {
      assert xs + [y] == [xs[0]] + [y];
      JoinWithCons(sep, xs[0], [y]);
    } else {
      assert xs + [y] == [xs[0]] + (xs[1..] + [y]);
      JoinWithCons(sep, xs[0], xs[1..] + [y]);
      JoinWithSnoc(sep, xs[1..], y);
      assert xs == [xs[0]] + xs[1..];
      JoinWithCons(sep, xs[0], xs[1..]);
    }
  }

  /** Gluing the last two parts together with the separator leaves the
      join unchanged. */
  lemma JoinWithMergeLast(sep: string, front: seq<string>, x: string, y: string)
    ensures JoinWith(sep, front + [x + sep + y]) == JoinWith(sep, front + [x] + [y])
  {
    if |front| == 0 {
      assert front + [x + sep + y] == [x + sep + y];
      assert front + [x] + [y] == [x] + [y];
      JoinWithCons(sep, x, [y]);
    } else {
      JoinWithSnoc(sep, front, x + sep + y);
      JoinWithSnoc(sep, front + [x], y);
      JoinWithSnoc(sep, front, x);
    }
  }

  /** Joining two non-empty runs of words with a space between them is the
      join of the concatenated run. */
  lemma {:induction false} JoinWordsAppend(a: seq<Word>, b: seq<Word>)
    requires |a| >= 1 && |b| >= 1
    ensures JoinWords(a) + " " + JoinWords(b) == JoinWords(a + b)
    decreases |a|
  {
    if |a| == 1 {
      assert a + b == [a[0]] + b;
      JoinWithCons(" ", a[0], b);
    } else {
      assert a + b == [a[0]] + (a[1..] + b);
      JoinWithCons(" ", a[0], a[1..] + b);
      JoinWordsAppend(a[1..], b);
      assert a == [a[0]] + a[1..];
      JoinWithCons(" ", a[0], a[1..]);
    }
  }

  // ---------------------------------------------------------------------
  // Facts about split

  /** A word followed by nothing or by whitespace is split off whole. */
  lemma SplitWordThen(w: Word, rest: string)
    requires rest == "" || IsSpace(rest[0])
    ensures Split(w + rest) == [w] + Split(rest)
  {
    var s := w + rest;
    assert forall i :: 0 <= i < |w| ==> s[i] == w[i];
    assert rest != "" ==> s[|w|] == rest[0];
    var n := WordLength(s);
    assert n == |w|;
    assert s[..n] == w && s[n..] == rest;
  }

  /** `" ".join(words).split() == words`: joining whitespace-free words with
      single spaces and splitting again gives the words back. */
  lemma {:induction false} SplitJoinWords(ws: seq<Word>)
    ensures Split(JoinWords(ws)) == ws
    decreases |ws|
  {
    if |ws| == 0 {
    } else if |ws| == 1 {
      SplitWordThen(ws[0], "");
      assert ws[0] + "" == ws[0];
    } else {
      var tail := JoinWords(ws[1..]);
      assert JoinWords(ws) == ws[0] + (" " + tail);
      SplitWordThen(ws[0], " " + tail);
      SplitAfterSpace(tail);
      SplitJoinWords(ws[1..]);
      assert ws == [ws[0]] + ws[1..];
    }
  }

  /** A leading space adds no word. */
  lemma SplitAfterSpace(t: string)
    ensures Split(" " + t) == Split(t)
  {
    assert (" " + t)[0] == ' ' && (" " + t)[1..] == t;
  }

  // ---------------------------------------------------------------------
  // Facts about strip, split(sep) and replace

  /** `s.split(c)` for a one-character separator has one more piece than
      there are occurrences of `c`. */
  lemma {:induction false} SplitOnCharCount(s: string, c: char)
    ensures |SplitOn(s, [c])| == CountChar(s, c) + 1
    decreases |s|
  {
    if |s| == 0 {
    } else {
      assert s[..1] == [s[0]];
      SplitOnCharCount(s[1..], c);
    }
  }

  /** `replace` copies everything before the first occurrence, writes the
      replacement for it, and goes on after it. */
  lemma ReplaceFirst(s: string, pat: string, rep: string, k: int)
    requires |pat| > 0 && OccursAt(s, pat, k)
    requires forall j :: 0 <= j < k ==> !OccursAt(s, pat, j)
    ensures Replace(s, pat, rep) == s[..k] + rep + Replace(s[k + |pat|..], pat, rep)
  {
    var a, b := s[..k], s[k..];
    SplitAtOccurrence(s, pat, k);
    ReplaceKeepsPrefix(a, b, pat, rep);
    assert Replace(s, pat, rep) == a + Replace(b, pat, rep);
    ReplaceHit(b, pat, rep);
    assert Replace(b[|pat|..], pat, rep) == Replace(s[k + |pat|..], pat, rep);
    AppendRegroup(Replace(s, pat, rep), a, Replace(b, pat, rep), rep, Replace(s[k + |pat|..], pat, rep));
  }

  /** `x == a + y` and `y == r + z` give `x == a + r + z`. */
  lemma AppendRegroup<T>(x: seq<T>, a: seq<T>, y: seq<T>, r: seq<T>, z: seq<T>)
    requires x == a + y && y == r + z
    ensures x == a + r + z
  {
  }

  /** Cutting `s` where the first occurrence starts. */
  lemma SplitAtOccurrence(s: string, pat: string, k: int)
    requires |pat| > 0 && OccursAt(s, pat, k)
    requires forall j :: 0 <= j < k ==> !OccursAt(s, pat, j)
    ensures s == s[..k] + s[k..]
    ensures forall j :: 0 <= j < |s[..k]| ==> !OccursAt(s[..k] + s[k..], pat, j)
    ensures OccursAt(s[k..], pat, 0)
    ensures s[k..][|pat|..] == s[k + |pat|..]
  {
    assert s == s[..k] + s[k..];
    var b := s[k..];
    assert forall i :: 0 <= i < |pat| ==> b[i] == s[k + i];
    assert b[0..|pat|] == s[k..k + |pat|];
  }

  /** A prefix in which no occurrence starts is copied unchanged. */
  lemma {:induction false} ReplaceKeepsPrefix(a: string, b: string, pat: string, rep: string)
    requires |pat| > 0
    requires forall j :: 0 <= j < |a| ==> !OccursAt(a + b, pat, j)
    ensures Replace(a + b, pat, rep) == a + Replace(b, pat, rep)
    decreases |a|
  {
    if |a| > 0 {
      NoOccurrenceBeforeShift(a, b, pat);
      ReplaceKeepsPrefix(a[1..], b, pat, rep);
      ReplaceCopiesFirst(a, b, pat, rep);
    } else {
      assert a + b == b;
    }
  }

  /** One step of `ReplaceKeepsPrefix`: the first character of `a` is
      copied, and the rest is replaced on. */
  lemma ReplaceCopiesFirst(a: string, b: string, pat: string, rep: string)
    requires |pat| > 0 && |a| > 0 && !OccursAt(a + b, pat, 0)
    requires Replace(a[1..] + b, pat, rep) == a[1..] + Replace(b, pat, rep)
    ensures Replace(a + b, pat, rep) == a + Replace(b, pat, rep)
  {
    ReplaceSkipJoined(a, b, pat, rep);
    assert a == [a[0]] + a[1..];
    ConsRegroup(Replace(a + b, pat, rep), a[0], Replace(a[1..] + b, pat, rep), a[1..], a,
                Replace(b, pat, rep));
  }

  /** `ReplaceSkip` on a concatenation whose first part is not empty. */
  lemma ReplaceSkipJoined(a: string, b: string, pat: string, rep: string)
    requires |pat| > 0 && |a| > 0 && !OccursAt(a + b, pat, 0)
    ensures Replace(a + b, pat, rep) == [a[0]] + Replace(a[1..] + b, pat, rep)
  {
    ReplaceSkip(a + b, pat, rep);
    assert (a + b)[1..] == a[1..] + b && (a + b)[0] == a[0];
  }

  /** `x == [c] + y` and `y == t + r` give `x == ([c] + t) + r`. */
  lemma ConsRegroup<T>(x: seq<T>, c: T, y: seq<T>, t: seq<T>, ct: seq<T>, r: seq<T>)
    requires x == [c] + y && y == t + r && ct == [c] + t
    ensures x == ct + r
  {
  }

  /** Dropping the first character of `a` keeps `a`'s remaining positions
      free of occurrences. */
  lemma NoOccurrenceBeforeShift(a: string, b: string, pat: string)
    requires |a| > 0
    requires forall j :: 0 <= j < |a| ==> !OccursAt(a + b, pat, j)
    ensures forall j :: 0 <= j < |a| - 1 ==> !OccursAt(a[1..] + b, pat, j)
    ensures !OccursAt(a + b, pat, 0)
  {
    var s := a + b;
    assert s[1..] == a[1..] + b;
    forall j | 0 <= j < |a| - 1
      ensures !OccursAt(a[1..] + b, pat, j)
    {
      assert !OccursAt(s, pat, j + 1);
      OccursAtShift(s, pat, j);
    }
  }

  /** Where no occurrence starts at the front, the first character is copied. */
  lemma ReplaceSkip(s: string, pat: string, rep: string)
    requires |pat| > 0 && |s| > 0 && !OccursAt(s, pat, 0)
    ensures Replace(s, pat, rep) == [s[0]] + Replace(s[1..], pat, rep)
  {
    if |s| >= |pat| {
      assert s[0..|pat|] == s[..|pat|];
    }
  }

  /** Where an occurrence starts at the front, it is replaced. */
  lemma ReplaceHit(s: string, pat: string, rep: string)
    requires |pat| > 0 && OccursAt(s, pat, 0)
    ensures Replace(s, pat, rep) == rep + Replace(s[|pat|..], pat, rep)
  {
    assert s[0..|pat|] == s[..|pat|];
  }

  /** An occurrence one place further into `s` is an occurrence in `s[1..]`. */
  lemma OccursAtShift(s: string, pat: string, j: int)
    requires |s| > 0 && 0 <= j
    ensures OccursAt(s[1..], pat, j) <==> OccursAt(s, pat, j + 1)
  {
    if j + 1 + |pat| <= |s| {
      var here, there := s[1..][j..j + |pat|], s[j + 1..j + 1 + |pat|];
      assert forall i :: 0 <= i < |pat| ==> here[i] == there[i];
      assert here == there;
    }
  }

  /** A one-character replacement distributes over concatenation. */
  lemma {:induction false} MapCharAppend(a: string, b: string, c: char, rep: string)
    ensures MapChar(a + b, c, rep) == MapChar(a, c, rep) + MapChar(b, c, rep)
    decreases |a|
  {
    if |a| == 0 {
      assert a + b == b;
    } else {
      assert (a + b)[0] == a[0] && (a + b)[1..] == a[1..] + b;
      MapCharAppend(a[1..], b, c, rep);
    }
  }

  /** A text without `c` is left as it is. */
  lemma {:induction false} MapCharAbsent(s: string, c: char, rep: string)
    requires c !in s
    ensures MapChar(s, c, rep) == s
    decreases |s|
  {
    if |s| > 0 {
      assert c !in s[1..];
      MapCharAbsent(s[1..], c, rep);
    }
  }

  /** Replacing `c1` and then `c2` is replacing both in one pass, provided
      the first replacement text brings in no `c2`. */
  lemma {:induction false} MapCharTwice(s: string, c1: char, r1: string, c2: char, r2: string)
    requires c1 != c2 && c2 !in r1
    ensures MapChar(MapChar(s, c1, r1), c2, r2) == MapTwoChars(s, c1, r1, c2, r2)
    decreases |s|
  {
    if |s| > 0 {
      var head := if s[0] == c1 then r1 else [s[0]];
      assert MapChar(s, c1, r1) == head + MapChar(s[1..], c1, r1);
      MapCharAppend(head, MapChar(s[1..], c1, r1), c2, r2);
      if s[0] == c1 {
        MapCharAbsent(r1, c2, r2);
      } else {
        assert MapChar(head, c2, r2) == (if s[0] == c2 then r2 else [s[0]]) + MapChar(head[1..], c2, r2);
        assert head[1..] == "";
      }
      MapCharTwice(s[1..], c1, r1, c2, r2);
    }
  }

  /** Leading whitespace is all `lstrip()` removes. */
  lemma {:induction false} LStripPadded(pre: string, t: string)
    requires AllSpace(pre) && (t == "" || !IsSpace(t[0]))
    ensures LStrip(pre + t) == t
    decreases |pre|
  {
    if |pre| == 0 {
      assert pre + t == t;
    } else {
      assert (pre + t)[0] == pre[0] && (pre + t)[1..] == pre[1..] + t;
      LStripPadded(pre[1..], t);
    }
  }

  /** Trailing whitespace is all `rstrip()` removes. */
  lemma {:induction false} RStripPadded(t: string, post: string)
    requires AllSpace(post) && (t == "" || !IsSpace(t[|t| - 1]))
    ensures RStrip(t + post) == t
    decreases |post|
  {
    if |post| == 0 {
      assert t + post == t;
    } else {
      var s := t + post;
      assert s[|s| - 1] == post[|post| - 1];
      assert s[..|s| - 1] == t + post[..|post| - 1];
      RStripPadded(t, post[..|post| - 1]);
    }
  }

  /** `strip()` takes back exactly the whitespace put around a stripped
      line: together with the slice clause of `Strip`, this pins the result
      down completely. */
  lemma StripPadded(pre: string, line: string, post: string)
    requires AllSpace(pre) && AllSpace(post)
    requires line == "" || IsStrippedLine(line)
    ensures Strip(pre + line + post) == line
  {
    if line == "" {
      assert pre + line + post == pre + post;
      assert AllSpace(pre + post) by {
        assert forall i :: 0 <= i < |pre| + |post| ==>
                 (pre + post)[i] == if i < |pre| then pre[i] else post[i - |pre|];
      }
    } else {
      assert pre + line + post == pre + (line + post);
      LStripPadded(pre, line + post);
      RStripPadded(line, post);
    }
  }
}
