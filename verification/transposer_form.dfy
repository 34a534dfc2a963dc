/**
  The transposer form's text handling: `preserveFormatting`, which writes the
  transposed tokens back into the user's text word by word while keeping
  every white-space run and line break, and the part of `performTranspose`
  that checks the input, splits it into tokens, transposes them and hands
  them to `preserveFormatting`.
 */
module TransposerForm {
  import opened Wrappers
  import opened JsStrings
  import opened Transposer

  /** What `preserveFormatting` returns when it is not given an array. */
  const FailureText: string := "Error: Transposition failed."

  function Min(a: int, b: int): (m: int)
    ensures m <= a && m <= b && (m == a || m == b)
  {
    if a < b then a else b
  }

  // ---------------------------------------------------------------------------
  // Word segments
  // ---------------------------------------------------------------------------

  /** The test a segment must pass to be replaced: it is non-empty after
      trimming and is not a white-space run. */
  predicate IsWord(seg: string) {
    Trim(seg) != [] && !(seg != [] && AllSpace(seg))
  }

  /** How `join('')` writes an array element: a string as itself, `undefined`
      as nothing. */
  function Render(v: JsValue): string
  {
    match v
    case Str(s) => s
    case Undefined => ""
  }

  /** The word segments among `segs`, in order. */
  function WordSegs(segs: seq<string>): (ws: seq<string>)
    ensures |ws| <= |segs|
  {
    if segs == [] then []
    else (if IsWord(segs[0]) then [segs[0]] else []) + WordSegs(segs[1..])
  }

  lemma {:induction false} WordSegsAppend(xs: seq<string>, ys: seq<string>)
    ensures WordSegs(xs + ys) == WordSegs(xs) + WordSegs(ys)
  {
    if xs == [] {
      assert xs + ys == ys;
    } else {
      assert (xs + ys)[1..] == xs[1..] + ys;
      WordSegsAppend(xs[1..], ys);
    }
  }

  lemma WordSegsStep(segs: seq<string>, k: nat)
    requires k < |segs|
    ensures WordSegs(segs[..k + 1]) == WordSegs(segs[..k]) + (if IsWord(segs[k]) then [segs[k]] else [])
  {
    assert segs[..k + 1] == segs[..k] + [segs[k]];
    WordSegsAppend(segs[..k], [segs[k]]);
    assert [segs[k]][1..] == [];
  }

  /** How many of the first `k` segments are words. */
  function WordCount(segs: seq<string>, k: nat): (n: nat)
    requires k <= |segs|
    ensures n <= k
  {
    if k == 0 then 0 else WordCount(segs, k - 1) + (if IsWord(segs[k - 1]) then 1 else 0)
  }

  lemma {:induction false} WordCountIsLength(segs: seq<string>, k: nat)
    requires k <= |segs|
    ensures WordCount(segs, k) == |WordSegs(segs[..k])|
  {
    if k > 0 {
      WordCountIsLength(segs, k - 1);
      WordSegsStep(segs, k - 1);
    }
  }

  /** On a piece of the split, the test picks out exactly the non-empty
      white-space-free pieces, and a piece's words are itself or nothing. */
  lemma UniformWord(p: string)
    requires Uniform(p)
    ensures IsWord(p) <==> p != [] && NoSpace(p)
    ensures !IsWord(p) ==> p == [] || AllSpace(p)
    ensures WordSegs([p]) == Words(p)
  {
    assert [p][1..] == [];
    TrimEmpty(p);
    if p != [] && NoSpace(p) {
      TrimNoSpace(p);
      assert !IsSpace(p[0]);
      WordsOfWord(p);
    } else if p == [] {
    } else {
      assert !NoSpace(p);
      assert AllSpace(p);
      WordsOfSpace(p);
    }
  }

  /** The word segments of a line's split are exactly the line's words. */
  lemma {:induction false} SegmentWords(s: string)
    ensures WordSegs(Segments(s)) == Words(s)
    decreases |s|
  {
    SegmentsUniform(s);
    var n := NonSpaceRun(s);
    if n == |s| {
      assert Segments(s) == [s];
      assert Uniform(Segments(s)[0]);
      UniformWord(s);
    } else {
      var m := GapEnd(s);
      var a, g, rest := s[..n], s[n..m], Segments(s[m..]);
      assert Segments(s) == [a, g] + rest;
      assert Uniform(Segments(s)[0]) && Uniform(Segments(s)[1]);
      SegmentWords(s[m..]);
      UniformWord(a);
      UniformWord(g);
      WordSegsAppend([a, g], rest);
      WordSegsAppend([a], [g]);
      assert [a, g] == [a] + [g];
      WordsAroundGap(s);
    }
  }

  /** Counting the word segments of a line's split counts the line's words. */
  lemma LineWordCount(s: string)
    ensures WordCount(Segments(s), |Segments(s)|) == |Words(s)|
  {
    var segs := Segments(s);
    WordCountIsLength(segs, |segs|);
    assert segs[..|segs|] == segs;
    SegmentWords(s);
  }

  // ---------------------------------------------------------------------------
  // Words across lines
  // ---------------------------------------------------------------------------

  /** The words of the lines `ls`, line after line. */
  function LineWords(ls: seq<string>): (ws: seq<string>)
  {
    if ls == [] then [] else LineWords(ls[..|ls| - 1]) + Words(ls[|ls| - 1])
  }

  lemma LineWordsStep(ls: seq<string>, i: nat)
    requires i < |ls|
    ensures LineWords(ls[..i + 1]) == LineWords(ls[..i]) + Words(ls[i])
  {
    assert ls[..i + 1][..i] == ls[..i];
  }

  /** The words of the first `i` lines come first among those of the first `j`. */
  lemma {:induction false} LineWordsPrefix(ls: seq<string>, i: nat, j: nat)
    requires i <= j <= |ls|
    ensures |LineWords(ls[..i])| <= |LineWords(ls[..j])|
    ensures LineWords(ls[..i]) == LineWords(ls[..j])[..|LineWords(ls[..i])|]
    decreases j
  {
    if i < j {
      LineWordsPrefix(ls, i, j - 1);
      LineWordsStep(ls, j - 1);
    }
  }

  /** Line feeds separate words: the words of the joined lines are those of
      each line in turn. */
  lemma {:induction false} WordsOfJoinedLines(ls: seq<string>)
    ensures Words(JoinLines(ls)) == LineWords(ls)
    decreases |ls|
  {
    if |ls| == 1 {
      assert ls[..0] == [];
    } else if |ls| > 1 {
      var init, last := ls[..|ls| - 1], ls[|ls| - 1];
      WordsOfJoinedLines(init);
      assert JoinLines(init) + "\n" + last == JoinLines(init) + ("\n" + last);
      CommonSpaces();
      WordsAcrossGap(JoinLines(init), "\n", last);
    }
  }

  // ---------------------------------------------------------------------------
  // The re-insertion, stated without the cursor
  // ---------------------------------------------------------------------------

  /** The number, counted over the whole text from 0, that segment `k` of line
      `i` would carry if it is a word: the words of the earlier lines plus the
      word segments before it on its line. */
  function WordNumber(ls: seq<string>, i: nat, k: nat): nat
    requires i < |ls| && k <= |Segments(ls[i])|
  {
    |LineWords(ls[..i])| + WordCount(Segments(ls[i]), k)
  }

  /** What a segment becomes: the token carrying its word number when it is a
      word and there is such a token, and itself otherwise. */
  function Replacement(seg: string, notes: seq<JsValue>, c: nat): string {
    if IsWord(seg) && c < |notes| then Render(notes[c]) else seg
  }

  /** The first `n` of the segments `segs` after replacement, when `base`
      words come before them. */
  function Replaced(segs: seq<string>, notes: seq<JsValue>, base: nat, n: nat): (ps: seq<string>)
    requires n <= |segs|
    ensures |ps| == n
  {
    if n == 0 then []
    else Replaced(segs, notes, base, n - 1) + [Replacement(segs[n - 1], notes, base + WordCount(segs, n - 1))]
  }

  /** Segment `k` is replaced by the token whose number is `base` plus the
      count of word segments before it. */
  lemma {:induction false} ReplacedAt(segs: seq<string>, notes: seq<JsValue>, base: nat, n: nat, k: nat)
    requires k < n <= |segs|
    ensures Replaced(segs, notes, base, n)[k] == Replacement(segs[k], notes, base + WordCount(segs, k))
  {
    if k < n - 1 {
      ReplacedAt(segs, notes, base, n - 1, k);
    }
  }

  /** The segments of line `i` after replacement: segment `k` is given word
      number `WordNumber(ls, i, k)`. */
  function Pieces(ls: seq<string>, notes: seq<JsValue>, i: nat): (ps: seq<string>)
    requires i < |ls|
    ensures |ps| == |Segments(ls[i])|
  {
    Replaced(Segments(ls[i]), notes, |LineWords(ls[..i])|, |Segments(ls[i])|)
  }

  /** Line `i` of the output. */
  function OutLine(ls: seq<string>, notes: seq<JsValue>, i: nat): string
    requires i < |ls|
  {
    Concat(Pieces(ls, notes, i))
  }

  /** The values of `f` at `0` up to `n - 1`, in order. */
  function Tabulate(f: nat -> string, n: nat): (xs: seq<string>)
    ensures |xs| == n
  {
    if n == 0 then [] else Tabulate(f, n - 1) + [f(n - 1)]
  }

  lemma {:induction false} TabulateAt(f: nat -> string, n: nat, i: nat)
    requires i < n
    ensures Tabulate(f, n)[i] == f(i)
  {
    if i < n - 1 {
      TabulateAt(f, n - 1, i);
    }
  }

  /** Output line `i`, for every `i` below the number of lines. */
  function OutLineOf(ls: seq<string>, notes: seq<JsValue>): nat -> string {
    (i: nat) => if i < |ls| then OutLine(ls, notes, i) else ""
  }

  /** The output lines for the lines `ls`. */
  function OutLines(ls: seq<string>, notes: seq<JsValue>): (out: seq<string>)
    ensures |out| == |ls|
  {
    Tabulate(OutLineOf(ls, notes), |ls|)
  }

  /** Output line `i` is line `i` of the input after replacement. */
  lemma OutLinesAt(ls: seq<string>, notes: seq<JsValue>, i: nat)
    requires i < |ls|
    ensures OutLines(ls, notes)[i] == OutLine(ls, notes, i)
  {
    TabulateAt(OutLineOf(ls, notes), |ls|, i);
  }

  /** The text `preserveFormatting` produces from `input` and an array of tokens. */
  function Reformat(input: string, notes: seq<JsValue>): string {
    JoinLines(OutLines(Lines(input), notes))
  }

  /** A segment of the split is a word exactly when it is non-empty and free
      of white space; every other segment is empty or a white-space run. */
  lemma SegmentKind(s: string, k: nat)
    requires k < |Segments(s)|
    ensures IsWord(Segments(s)[k]) <==> Segments(s)[k] != [] && NoSpace(Segments(s)[k])
    ensures !IsWord(Segments(s)[k]) ==> Segments(s)[k] == [] || AllSpace(Segments(s)[k])
  {
    SegmentsUniform(s);
    UniformWord(Segments(s)[k]);
  }

  /** A word segment of line `i` carries the number of its place among the
      words of the whole text: segment `k` is word number `WordNumber`. */
  lemma WordNumbering(ls: seq<string>, i: nat, k: nat)
    requires i < |ls| && k < |Segments(ls[i])| && IsWord(Segments(ls[i])[k])
    ensures WordNumber(ls, i, k) < |Words(JoinLines(ls))|
    ensures Words(JoinLines(ls))[WordNumber(ls, i, k)] == Segments(ls[i])[k]
  {
    var j := WordCount(Segments(ls[i]), k);
    WordInLine(ls[i], k);
    WordOfLine(ls, i, j);
  }

  /** Within one line, word segment `k` is the line's word number `WordCount(segs, k)`. */
  lemma WordInLine(s: string, k: nat)
    requires k < |Segments(s)| && IsWord(Segments(s)[k])
    ensures WordCount(Segments(s), k) < |Words(s)|
    ensures Words(s)[WordCount(Segments(s), k)] == Segments(s)[k]
  {
    var segs := Segments(s);
    var seg := segs[k];
    WordCountIsLength(segs, k);
    SegmentWords(s);
    assert segs == segs[..k] + segs[k..];
    WordSegsAppend(segs[..k], segs[k..]);
    assert segs[k..] == [seg] + segs[k + 1..];
    WordSegsAppend([seg], segs[k + 1..]);
    assert [seg][1..] == [];
    assert WordSegs(segs[k..]) == [seg] + WordSegs(segs[k + 1..]);
  }

  /** Word `j` of line `i` is word number `|LineWords(ls[..i])| + j` of the joined text. */
  lemma WordOfLine(ls: seq<string>, i: nat, j: nat)
    requires i < |ls| && j < |Words(ls[i])|
    ensures |LineWords(ls[..i])| + j < |Words(JoinLines(ls))|
    ensures Words(JoinLines(ls))[|LineWords(ls[..i])| + j] == Words(ls[i])[j]
  {
    WordsOfJoinedLines(ls);
    LineWordsPrefix(ls, i + 1, |ls|);
    assert ls[..|ls|] == ls;
    LineWordsStep(ls, i);
    IndexThroughPrefix(LineWords(ls), LineWords(ls[..i]), Words(ls[i]), j);
  }

  lemma IndexThroughPrefix(whole: seq<string>, before: seq<string>, part: seq<string>, j: nat)
    requires j < |part| && |before + part| <= |whole| && before + part == whole[..|before + part|]
    ensures |before| + j < |whole| && whole[|before| + j] == part[j]
  {
    assert (before + part)[|before| + j] == part[j];
  }

  /** When every token the replacement can reach is the word it replaces,
      the text comes back unchanged. */
  lemma ReformatFixedPoint(input: string, notes: seq<JsValue>)
    requires forall c :: 0 <= c < |notes| && c < |Words(input)| ==> notes[c] == Str(Words(input)[c])
    ensures Reformat(input, notes) == input
  {
    LinesJoin(input);
    OutLinesFixed(Lines(input), notes);
  }

  lemma OutLinesFixed(ls: seq<string>, notes: seq<JsValue>)
    requires forall c :: 0 <= c < |notes| && c < |Words(JoinLines(ls))| ==> notes[c] == Str(Words(JoinLines(ls))[c])
    ensures OutLines(ls, notes) == ls
  {
    forall i | 0 <= i < |ls| ensures OutLines(ls, notes)[i] == ls[i] {
      LineFixed(ls, notes, i);
      OutLinesAt(ls, notes, i);
    }
  }

  lemma LineFixed(ls: seq<string>, notes: seq<JsValue>, i: nat)
    requires i < |ls|
    requires forall c :: 0 <= c < |notes| && c < |Words(JoinLines(ls))| ==> notes[c] == Str(Words(JoinLines(ls))[c])
    ensures OutLine(ls, notes, i) == ls[i]
  {
    var segs := Segments(ls[i]);
    forall k | 0 <= k < |segs| ensures SelfReplaced(segs, notes, |LineWords(ls[..i])|, k) {
      SegmentFixed(ls, notes, i, k);
    }
    ReplacedFixed(segs, notes, |LineWords(ls[..i])|, |segs|);
    assert segs[..|segs|] == segs;
    SegmentsJoin(ls[i]);
  }

  /** Segment `k` of `segs` is its own replacement. */
  predicate SelfReplaced(segs: seq<string>, notes: seq<JsValue>, base: nat, k: nat)
    requires k < |segs|
  {
    Replacement(segs[k], notes, base + WordCount(segs, k)) == segs[k]
  }

  /** The first `n` segments come through unchanged when each is its own
      replacement. */
  lemma {:induction false} ReplacedFixed(segs: seq<string>, notes: seq<JsValue>, base: nat, n: nat)
    requires n <= |segs|
    requires forall k :: 0 <= k < n ==> SelfReplaced(segs, notes, base, k)
    ensures Replaced(segs, notes, base, n) == segs[..n]
  {
    if n > 0 {
      ReplacedFixed(segs, notes, base, n - 1);
      assert SelfReplaced(segs, notes, base, n - 1);
      assert segs[..n] == segs[..n - 1] + [segs[n - 1]];
    }
  }

  lemma SegmentFixed(ls: seq<string>, notes: seq<JsValue>, i: nat, k: nat)
    requires i < |ls| && k < |Segments(ls[i])|
    requires forall c :: 0 <= c < |notes| && c < |Words(JoinLines(ls))| ==> notes[c] == Str(Words(JoinLines(ls))[c])
    ensures Replacement(Segments(ls[i])[k], notes, WordNumber(ls, i, k)) == Segments(ls[i])[k]
  {
    if IsWord(Segments(ls[i])[k]) {
      WordNumbering(ls, i, k);
    }
  }

  /** With no tokens the text comes back unchanged. */
  lemma ReformatWithoutTokens(input: string)
    ensures Reformat(input, []) == input
  {
    ReformatFixedPoint(input, []);
  }

  /** The text's own words as tokens give the text back. */
  lemma ReformatWithOwnWords(input: string)
    ensures Reformat(input, seq(|Words(input)|, c requires 0 <= c < |Words(input)| => Str(Words(input)[c]))) == input
  {
    ReformatFixedPoint(input, seq(|Words(input)|, c requires 0 <= c < |Words(input)| => Str(Words(input)[c])));
  }

  /** Every segment of the input that is not a word, empty or a white-space
      run, stays in place in the output. */
  lemma {:induction false} ReformatKeepsSpace(input: string, notes: seq<JsValue>, i: nat, k: nat)
    requires i < |Lines(input)| && k < |Segments(Lines(input)[i])| && !IsWord(Segments(Lines(input)[i])[k])
    ensures Pieces(Lines(input), notes, i)[k] == Segments(Lines(input)[i])[k]
  {
    SpaceReplacedBySelf(Segments(Lines(input)[i]), notes, |LineWords(Lines(input)[..i])|, k);
  }

  /** A word segment of the input is word number `WordNumber` of the whole
      text; it becomes the token with that number when there is one and stays
      as it is otherwise. */
  lemma {:induction false} ReformatReplacesWord(input: string, notes: seq<JsValue>, i: nat, k: nat)
    requires i < |Lines(input)| && k < |Segments(Lines(input)[i])| && IsWord(Segments(Lines(input)[i])[k])
    ensures WordNumber(Lines(input), i, k) < |Words(input)|
    ensures Words(input)[WordNumber(Lines(input), i, k)] == Segments(Lines(input)[i])[k]
    ensures WordNumber(Lines(input), i, k) < |notes| ==>
      Pieces(Lines(input), notes, i)[k] == Render(notes[WordNumber(Lines(input), i, k)])
    ensures WordNumber(Lines(input), i, k) >= |notes| ==>
      Pieces(Lines(input), notes, i)[k] == Segments(Lines(input)[i])[k]
  {
    LinesJoin(input);
    WordNumbering(Lines(input), i, k);
    WordReplacedByNumber(Segments(Lines(input)[i]), notes, |LineWords(Lines(input)[..i])|, k,
      WordNumber(Lines(input), i, k), Pieces(Lines(input), notes, i));
  }

  /** A segment that is not a word is its own replacement. */
  lemma SpaceReplacedBySelf(segs: seq<string>, notes: seq<JsValue>, base: nat, k: nat)
    requires k < |segs| && !IsWord(segs[k])
    ensures Replaced(segs, notes, base, |segs|)[k] == segs[k]
  {
    ReplacedAt(segs, notes, base, |segs|, k);
  }

  /** A word segment becomes the token numbered `base` plus the words before
      it, or stays when there is no such token. */
  lemma WordReplacedByNumber(segs: seq<string>, notes: seq<JsValue>, base: nat, k: nat, c: nat, pieces: seq<string>)
    requires k < |segs| && IsWord(segs[k])
    requires c == base + WordCount(segs, k) && pieces == Replaced(segs, notes, base, |segs|)
    ensures c < |notes| ==> pieces[k] == Render(notes[c])
    ensures c >= |notes| ==> pieces[k] == segs[k]
  {
    ReplacedAt(segs, notes, base, |segs|, k);
  }

  // ---------------------------------------------------------------------------
  // Line structure is kept
  // ---------------------------------------------------------------------------

  lemma {:induction false} ConcatFree(xs: seq<string>)
    requires forall k :: 0 <= k < |xs| ==> '\n' !in xs[k]
    ensures '\n' !in Concat(xs)
  {
    if xs != [] {
      ConcatFree(xs[1..]);
    }
  }

  lemma {:induction false} FreeOfConcat(xs: seq<string>, k: nat)
    requires k < |xs| && '\n' !in Concat(xs)
    ensures '\n' !in xs[k]
  {
    if k > 0 {
      FreeOfConcat(xs[1..], k - 1);
    }
  }

  /** A text with line feeds only between its pieces splits back into them. */
  lemma {:induction false} LinesOfJoin(ls: seq<string>)
    requires |ls| >= 1
    requires forall k :: 0 <= k < |ls| ==> '\n' !in ls[k]
    ensures Lines(JoinLines(ls)) == ls
    decreases |ls|
  {
    if |ls| > 1 {
      var init, last := ls[..|ls| - 1], ls[|ls| - 1];
      LinesOfSnoc(JoinLines(init), last);
      LinesOfJoin(init);
      assert ls == init + [last];
    }
  }

  /** Appending a line feed and a line without one appends that line. */
  lemma LinesOfSnoc(front: string, last: string)
    requires '\n' !in last
    ensures Lines(front + "\n" + last) == Lines(front) + [last]
  {
    var s := front + "\n" + last;
    assert s[|front|] == '\n';
    assert s[..|front|] == front;
    assert s[|front| + 1..] == last;
    LastFeed(s, |front|);
  }

  /** The last line feed of `s` is the one with no line feed after it. */
  lemma LastFeed(s: string, j: nat)
    requires j < |s| && s[j] == '\n' && '\n' !in s[j + 1..]
    ensures '\n' in s && LastIndexOf(s, '\n') == j
  {
    var l := LastIndexOf(s, '\n');
  }

  /** When no token holds a line feed, the output has as many lines as the
      input, and its line `i` is the input's line `i` after replacement. */
  lemma ReformatKeepsLines(input: string, notes: seq<JsValue>)
    requires forall c :: 0 <= c < |notes| ==> '\n' !in Render(notes[c])
    ensures |Lines(Reformat(input, notes))| == |Lines(input)|
    ensures Lines(Reformat(input, notes)) == OutLines(Lines(input), notes)
  {
    var ls := Lines(input);
    LinesJoin(input);
    LinesHaveNoFeed(input);
    var out := OutLines(ls, notes);
    forall i | 0 <= i < |ls| ensures '\n' !in out[i] {
      OutLinesAt(ls, notes, i);
      var segs := Segments(ls[i]);
      SegmentsJoin(ls[i]);
      forall k | 0 <= k < |segs| ensures '\n' !in segs[k] {
        FreeOfConcat(segs, k);
      }
      ReplacedHasNoFeed(segs, notes, |LineWords(ls[..i])|, |segs|);
    }
    LinesOfJoin(out);
  }

  /** Replacing segments free of line feeds by tokens free of line feeds
      leaves no line feed. */
  lemma {:induction false} ReplacedHasNoFeed(segs: seq<string>, notes: seq<JsValue>, base: nat, n: nat)
    requires n <= |segs|
    requires forall k :: 0 <= k < |segs| ==> '\n' !in segs[k]
    requires forall c :: 0 <= c < |notes| ==> '\n' !in Render(notes[c])
    ensures '\n' !in Concat(Replaced(segs, notes, base, n))
  {
    if n > 0 {
      var init := Replaced(segs, notes, base, n - 1);
      var last := Replacement(segs[n - 1], notes, base + WordCount(segs, n - 1));
      ReplacedHasNoFeed(segs, notes, base, n - 1);
      ConcatAppend(init, [last]);
      assert Concat([last]) == last + Concat([]);
    }
  }

  // ---------------------------------------------------------------------------
  // preserveFormatting
  // ---------------------------------------------------------------------------

  /** The inner `map` of `preserveFormatting` over the segments of one line.
      The cursor enters at `start`, which is the number `base` of words on
      the earlier lines, capped at the number of tokens. */
  method ReplaceWords(segs: seq<string>, notes: seq<JsValue>, start: nat, ghost base: nat)
    returns (pieces: seq<string>, next: nat)
    requires start == Min(base, |notes|)
    ensures pieces == Replaced(segs, notes, base, |segs|)
    ensures next == Min(base + WordCount(segs, |segs|), |notes|)
  {
    var noteIndex := start;
    pieces := [];
    for si := 0 to |segs|
      invariant pieces == Replaced(segs, notes, base, si)
      invariant noteIndex == Min(base + WordCount(segs, si), |notes|)
    {
      var word := segs[si];
      var piece := word;
      if IsWord(word) && noteIndex < |notes| {
        piece := Render(notes[noteIndex]);
        noteIndex := noteIndex + 1;
      }
      pieces := pieces + [piece];
    }
    next := noteIndex;
  }

  /** `preserveFormatting`: `transposedNotes` is `None` when it is not an array.
      The cursor `noteIndex` runs over all lines; it only moves past a word
      segment that it replaces, and it stops at the end of the tokens. */
  method PreserveFormatting(input: string, transposedNotes: Option<seq<JsValue>>) returns (r: string)
    ensures transposedNotes.None? ==> r == FailureText
    ensures transposedNotes.Some? ==> r == Reformat(input, transposedNotes.value)
  {
    if transposedNotes.None? {
      return FailureText;
    }
    var notes := transposedNotes.value;
    var lines := Lines(input);
    var noteIndex := 0;
    var outLines: seq<string> := [];
    for li := 0 to |lines|
      invariant outLines == Tabulate(OutLineOf(lines, notes), li)
      invariant noteIndex == Min(|LineWords(lines[..li])|, |notes|)
    {
      var segs := Segments(lines[li]);
      var pieces;
      pieces, noteIndex := ReplaceWords(segs, notes, noteIndex, |LineWords(lines[..li])|);
      outLines := outLines + [Concat(pieces)];
      LineWordsStep(lines, li);
      LineWordCount(lines[li]);
    }
    r := JoinLines(outLines);
  }

  // ---------------------------------------------------------------------------
  // performTranspose
  // ---------------------------------------------------------------------------

  /** How the shift is asked for: typed semitones, whose `parseInt` value is
      `parsed` (`None` for `NaN`), or a pair of Western scale roots. */
  datatype Request = BySemitones(semitonesText: string, parsed: Option<int>) | ByScales(fromScale: string, toScale: string)

  /** Why `performTranspose` stops without a result: the three input checks,
      the invalid number, and an error thrown while converting scales. */
  datatype FormError = NotesMissing | SemitonesMissing | InvalidSemitones | ScalesMissing | ConversionFailed(cause: Error)

  /** The result record: the tokens handed to the transposer, what came back,
      the re-formatted text, the shift, and the scales when they were used. */
  datatype Transposition = Transposition(
    original: seq<string>, transposed: seq<JsValue>, formatted: string, semitones: int,
    scales: Option<(string, string)>)

  /** Splitting the trimmed input on white-space runs yields its words. */
  lemma SplitOfTrimmed(input: string)
    requires Trim(input) != []
    ensures Fields(Trim(input)) == Words(input)
  {
    TrimSpec(input);
    FieldsOfTrimmed(Trim(input));
    WordsOfTrim(input);
  }

  /** The transposer keeps every word it is given, in order. */
  lemma KeptWords(s: string)
    ensures Kept(Words(s)) == Words(s)
  {
    var ws := Words(s);
    WordsAreWords(s);
    KeptOfWords(ws, |ws|);
    assert ws[..|ws|] == ws;
  }

  /** A word transposes to something without white space: a name of the
      cycle, the word itself, or nothing. */
  lemma TokenHasNoSpace(note: string, semitones: int, useWestern: bool)
    requires NoSpace(note)
    ensures NoSpace(Render(TransposeToken(note, semitones, useWestern)))
  {
    var v := TransposeToken(note, semitones, useWestern);
    TransposeTokenSpec(note, semitones, useWestern);
    HindustaniWellFormed();
    WesternWellFormed();
    if !useWestern && GetSemitoneIndex(note).Ok? && v.Str? {
      NameIsTrimmed(Hindustani, (GetSemitoneIndex(note).value + semitones) % 12);
    } else if useWestern && GetWesternIndex(note).Ok? && v.Str? {
      NameIsTrimmed(Western, (GetWesternIndex(note).value + semitones) % 12);
    }
  }

  /** In Hindustani notation a shift by 0 or 12 gives every word back. */
  lemma WordBackAtOctave(note: string, semitones: int)
    requires NoSpace(note) && (semitones == 0 || semitones == 12)
    ensures TransposeToken(note, semitones, false) == Str(note)
  {
    GetSemitoneIndexSpec(note);
    if GetSemitoneIndex(note).Ok? {
      var i := GetSemitoneIndex(note).value;
      TrimNoSpace(note);
      TransposeByZeroOrOctave(i, semitones);
      assert TransposeNote(note, semitones) == TransposeNote(Hindustani[i], semitones);
    }
  }

  /** Re-formatting with the transposition of the input's words keeps the
      number of lines. */
  lemma FormattedKeepsLines(input: string, transposed: seq<JsValue>, semitones: int, useWestern: bool)
    requires |transposed| == |Words(input)|
    requires forall k :: 0 <= k < |transposed| ==>
      transposed[k] == TransposeToken(Words(input)[k], semitones, useWestern)
    ensures |Lines(Reformat(input, transposed))| == |Lines(input)|
  {
    WordsAreWords(input);
    CommonSpaces();
    forall c | 0 <= c < |transposed| ensures '\n' !in Render(transposed[c]) {
      TokenHasNoSpace(Words(input)[c], semitones, useWestern);
    }
    ReformatKeepsLines(input, transposed);
  }

  /** In Hindustani notation a shift by 0 or 12 re-formats to the input itself. */
  lemma OctaveKeepsText(input: string, transposed: seq<JsValue>, semitones: int)
    requires semitones == 0 || semitones == 12
    requires |transposed| == |Words(input)|
    requires forall k :: 0 <= k < |transposed| ==>
      transposed[k] == TransposeToken(Words(input)[k], semitones, false)
    ensures Reformat(input, transposed) == input
  {
    WordsAreWords(input);
    forall c | 0 <= c < |transposed| ensures transposed[c] == Str(Words(input)[c]) {
      WordBackAtOctave(Words(input)[c], semitones);
    }
    ReformatFixedPoint(input, transposed);
  }

  /** `performTranspose`, without the toasts and the history entry: check
      the input, work out the shift, transpose the whitespace-separated tokens
      of the trimmed input and re-format them into the input's layout. */
  method PerformTranspose(notesInput: string, request: Request, useWestern: bool)
    returns (r: Result<Transposition, FormError>)
    ensures Trim(notesInput) == [] ==> r == Err(NotesMissing)
    ensures Trim(notesInput) != [] && request.BySemitones? ==>
      (Trim(request.semitonesText) == [] ==> r == Err(SemitonesMissing))
      && (Trim(request.semitonesText) != [] && request.parsed.None? ==> r == Err(InvalidSemitones))
      && (Trim(request.semitonesText) != [] && request.parsed.Some? ==>
            r.Ok? && r.value.semitones == request.parsed.value && r.value.scales.None?)
    ensures Trim(notesInput) != [] && request.ByScales? ==>
      ((request.fromScale == [] || request.toScale == []) ==> r == Err(ScalesMissing))
      && (request.fromScale != [] && request.toScale != [] ==>
            var d := CalculateSemitoneDifferenceWestern(request.fromScale, request.toScale);
            (d.Err? ==> r == Err(ConversionFailed(d.error)))
            && (d.Ok? ==>
                  r.Ok? && r.value.semitones == d.value && r.value.scales == Some((request.fromScale, request.toScale))))
    ensures r.Ok? ==>
      r.value.original == Words(notesInput)
      && |r.value.transposed| == |Words(notesInput)|
      && (forall k :: 0 <= k < |Words(notesInput)| ==>
            r.value.transposed[k] == TransposeToken(Words(notesInput)[k], r.value.semitones, useWestern))
      && r.value.formatted == Reformat(notesInput, r.value.transposed)
      && |Lines(r.value.formatted)| == |Lines(notesInput)|
    ensures r.Ok? && !useWestern && (r.value.semitones == 0 || r.value.semitones == 12) ==>
      r.value.formatted == notesInput
  {
    if Trim(notesInput) == [] {
      return Err(NotesMissing);
    }
    var semitones: int;
    var scales: Option<(string, string)> := None;
    match request {
      case BySemitones(text, parsed) =>
        if Trim(text) == [] {
          return Err(SemitonesMissing);
        }
        if parsed.None? {
          return Err(InvalidSemitones);
        }
        semitones := parsed.value;
      case ByScales(fromScale, toScale) =>
        if fromScale == [] || toScale == [] {
          return Err(ScalesMissing);
        }
        var d := CalculateSemitoneDifferenceWestern(fromScale, toScale);
        if d.Err? {
          return Err(ConversionFailed(d.error));
        }
        semitones := d.value;
        scales := Some((fromScale, toScale));
    }
    var originalNotes := Fields(Trim(notesInput));
    SplitOfTrimmed(notesInput);
    var transposedNotes := TransposeSequence(Tokens(originalNotes), semitones, useWestern);
    KeptWords(notesInput);
    var transposedFormatted := PreserveFormatting(notesInput, Some(transposedNotes));
    FormattedKeepsLines(notesInput, transposedNotes, semitones, useWestern);
    if !useWestern && (semitones == 0 || semitones == 12) {
      OctaveKeepsText(notesInput, transposedNotes, semitones);
    }
    r := Ok(Transposition(originalNotes, transposedNotes, transposedFormatted, semitones, scales));
  }
}
