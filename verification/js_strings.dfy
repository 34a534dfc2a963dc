/**
  The JavaScript string built-ins the transposer relies on, stated over
  `seq<char>`: `trim()`, `split(/\s+/)`, `split(/(\s+)/)`, `split('\n')`,
  `join('')`, `join('\n')` and `replace(/,/g, ' ')`, together with the
  facts about them that the transposer and the form need.
 */
module JsStrings {

  // ---------------------------------------------------------------------------
  // Whitespace
  // ---------------------------------------------------------------------------

  /** The characters that both `String.prototype.trim` and the regular-expression
      class `\s` treat as white space: ECMAScript WhiteSpace and LineTerminator. */
  const SpaceChars: set<char> := {
    '\t', '\n', '\U{000B}', '\U{000C}', '\r', ' ', '\U{00A0}', '\U{1680}',
    '\U{2000}', '\U{2001}', '\U{2002}', '\U{2003}', '\U{2004}', '\U{2005}',
    '\U{2006}', '\U{2007}', '\U{2008}', '\U{2009}', '\U{200A}',
    '\U{2028}', '\U{2029}', '\U{202F}', '\U{205F}', '\U{3000}', '\U{FEFF}'
  }

  /** `c` is white space to `trim()` and to `\s`. */
  predicate IsSpace(c: char) {
    c in SpaceChars
  }

  /** The line feed, the space and the tab are white space. */
  lemma CommonSpaces()
    ensures IsSpace('\n') && IsSpace(' ') && IsSpace('\t')
  {
  }

  predicate AllSpace(s: string) {
    forall i :: 0 <= i < |s| ==> IsSpace(s[i])
  }

  predicate NoSpace(s: string) {
    forall i :: 0 <= i < |s| ==> !IsSpace(s[i])
  }

  /** Printable ASCII other than the space character. */
  predicate Printable(s: string) {
    forall i :: 0 <= i < |s| ==> '!' <= s[i] <= '~'
  }

  lemma SpaceIsNotPrintable(c: char)
    requires IsSpace(c)
    ensures c < '!' || c > '~'
  {
  }

  lemma PrintableNoSpace(s: string)
    requires Printable(s)
    ensures NoSpace(s)
  {
    forall i | 0 <= i < |s| ensures !IsSpace(s[i]) {
      if IsSpace(s[i]) {
        SpaceIsNotPrintable(s[i]);
      }
    }
  }

  /** Length of the white-space run of `s` that starts at position `k`. */
  function SpaceRunFrom(s: string, k: nat): (n: nat)
    requires k <= |s|
    ensures k + n <= |s|
    ensures k + n < |s| ==> !IsSpace(s[k + n])
    decreases |s| - k
  {
    if k == |s| || !IsSpace(s[k]) then 0 else 1 + SpaceRunFrom(s, k + 1)
  }

  /** The run is all white space. */
  lemma {:induction false} SpaceRunFromSpec(s: string, k: nat)
    requires k <= |s|
    ensures AllSpace(s[k..k + SpaceRunFrom(s, k)])
    decreases |s| - k
  {
    var r := SpaceRunFrom(s, k);
    if k < |s| && IsSpace(s[k]) {
      SpaceRunFromSpec(s, k + 1);
      assert s[k..k + r] == [s[k]] + s[k + 1..k + r];
    } else {
      assert s[k..k + r] == [];
    }
  }

  /** Length of the longest whitespace-free prefix of `s`. */
  function NonSpaceRun(s: string): (n: nat)
    ensures n <= |s|
    ensures n < |s| ==> IsSpace(s[n])
  {
    if s == [] || IsSpace(s[0]) then 0 else 1 + NonSpaceRun(s[1..])
  }

  /** The run holds no white space. */
  lemma {:induction false} NonSpaceRunSpec(s: string)
    ensures forall i :: 0 <= i < NonSpaceRun(s) ==> !IsSpace(s[i])
  {
    if s != [] && !IsSpace(s[0]) {
      NonSpaceRunSpec(s[1..]);
      forall i | 0 <= i < NonSpaceRun(s) ensures !IsSpace(s[i]) {
        if i > 0 {
          assert s[i] == s[1..][i - 1];
        }
      }
    }
  }

  // ---------------------------------------------------------------------------
  // trim()
  // ---------------------------------------------------------------------------

  /** `s` without its leading white space. */
  function TrimStart(s: string): (r: string)
    ensures |r| <= |s|
  {
    if s != [] && IsSpace(s[0]) then TrimStart(s[1..]) else s
  }

  /** `s` without its trailing white space. */
  function TrimEnd(s: string): (r: string)
    ensures |r| <= |s|
  {
    if s != [] && IsSpace(s[|s| - 1]) then TrimEnd(s[..|s| - 1]) else s
  }

  /** `s.trim()`: `s` without its leading and trailing white space; `TrimSpec`
      states what that means. */
  function Trim(s: string): (r: string)
    ensures |r| <= |s|
  {
    TrimEnd(TrimStart(s))
  }

  /** Where the trim of `s` starts: the length of its leading white space. */
  function TrimOffset(s: string): (a: nat)
    ensures a <= |s|
  {
    |s| - |TrimStart(s)|
  }

  lemma {:induction false} TrimStartSpec(s: string)
    ensures TrimStart(s) == s[TrimOffset(s)..]
    ensures AllSpace(s[..TrimOffset(s)])
    ensures TrimStart(s) != [] ==> !IsSpace(TrimStart(s)[0])
  {
    if s != [] && IsSpace(s[0]) {
      var t := s[1..];
      TrimStartSpec(t);
      var n := TrimOffset(s);
      assert n == TrimOffset(t) + 1;
      assert t[n - 1..] == s[n..];
      forall i | 0 <= i < n ensures IsSpace(s[..n][i]) {
        if i > 0 {
          assert s[..n][i] == t[..n - 1][i - 1];
        }
      }
    } else {
      assert s[..0] == [];
    }
  }

  lemma {:induction false} TrimEndSpec(s: string)
    ensures TrimEnd(s) == s[..|TrimEnd(s)|]
    ensures AllSpace(s[|TrimEnd(s)|..])
    ensures TrimEnd(s) != [] ==> !IsSpace(TrimEnd(s)[|TrimEnd(s)| - 1])
  {
    if s != [] && IsSpace(s[|s| - 1]) {
      var t := s[..|s| - 1];
      TrimEndSpec(t);
      var n := |TrimEnd(s)|;
      assert t[..n] == s[..n];
      forall j | 0 <= j < |s| - n ensures IsSpace(s[n..][j]) {
        if j < |s| - 1 - n {
          assert s[n..][j] == t[n..][j];
        }
      }
    } else {
      assert s[|s|..] == [];
    }
  }

  /** `Trim(s)` is what is left of `s` once a white-space prefix and a
      white-space suffix are cut off, and it neither starts nor ends with
      white space. */
  lemma TrimSpec(s: string)
    ensures TrimOffset(s) + |Trim(s)| <= |s|
    ensures Trim(s) == s[TrimOffset(s)..TrimOffset(s) + |Trim(s)|]
    ensures AllSpace(s[..TrimOffset(s)])
    ensures AllSpace(s[TrimOffset(s) + |Trim(s)|..])
    ensures Trim(s) != [] ==> !IsSpace(Trim(s)[0]) && !IsSpace(Trim(s)[|Trim(s)| - 1])
  {
    var a, u := TrimOffset(s), TrimStart(s);
    var r := Trim(s);
    TrimStartSpec(s);
    TrimEndSpec(u);
    assert r == u[..|r|];
    assert u[|r|..] == s[a + |r|..];
    assert r == s[a..a + |r|];
  }

  /** The trim is empty exactly when the text is all white space. */
  lemma TrimEmpty(s: string)
    ensures Trim(s) == [] <==> AllSpace(s)
  {
    TrimSpec(s);
    var a, r := TrimOffset(s), Trim(s);
    if r == [] {
      forall i | 0 <= i < |s| ensures IsSpace(s[i]) {
        if i < a {
          assert s[i] == s[..a][i];
        } else {
          assert s[i] == s[a..][i - a];
        }
      }
    }
  }

  /** A string without white space is its own trim. */
  lemma TrimNoSpace(s: string)
    requires NoSpace(s)
    ensures Trim(s) == s
  {
  }

  // ---------------------------------------------------------------------------
  // Words: the maximal whitespace-free runs of a text
  // ---------------------------------------------------------------------------

  /** The maximal non-empty whitespace-free runs of `s`, left to right. */
  function Words(s: string): (ws: seq<string>)
    ensures |ws| <= |s|
    decreases |s|
  {
    if s == [] then []
    else if IsSpace(s[0]) then Words(s[1..])
    else
      var n := NonSpaceRun(s);
      [s[..n]] + Words(s[n..])
  }

  /** Every word is a non-empty white-space-free run. */
  lemma {:induction false} WordsAreWords(s: string)
    ensures forall k :: 0 <= k < |Words(s)| ==> Words(s)[k] != [] && NoSpace(Words(s)[k])
    decreases |s|
  {
    if s == [] {
    } else if IsSpace(s[0]) {
      WordsAreWords(s[1..]);
    } else {
      var n := NonSpaceRun(s);
      WordsAreWords(s[n..]);
      FirstRunHasNoSpace(s);
    }
  }

  /** Appending text that starts without white space to text that ends without
      it cannot move the end of the first run. */
  lemma {:induction false} NonSpaceRunAppend(a: string, b: string)
    requires NonSpaceRun(a) < |a| || b == [] || IsSpace(b[0])
    ensures NonSpaceRun(a + b) == NonSpaceRun(a)
    decreases |a|
  {
    if a == [] {
    } else if IsSpace(a[0]) {
    } else {
      assert (a + b)[1..] == a[1..] + b;
      NonSpaceRunAppend(a[1..], b);
    }
  }

  lemma {:induction false} WordsOfSpace(w: string)
    requires AllSpace(w)
    ensures Words(w) == []
    decreases |w|
  {
    if w != [] {
      WordsOfSpace(w[1..]);
    }
  }

  lemma WordsOfWord(w: string)
    requires w != [] && NoSpace(w)
    ensures Words(w) == [w]
  {
    var n := NonSpaceRun(w);
    assert n == |w|;
    assert w[..n] == w && w[n..] == [];
  }

  /** Words distribute over concatenation at a whitespace boundary. */
  lemma {:induction false} WordsAppend(a: string, b: string)
    requires a == [] || b == [] || IsSpace(a[|a| - 1]) || IsSpace(b[0])
    ensures Words(a + b) == Words(a) + Words(b)
    decreases |a|, 1
  {
    if a == [] {
      assert a + b == b;
    } else if IsSpace(a[0]) {
      WordsAfterSpace(a, b);
      WordsAppend(a[1..], b);
    } else {
      WordsAppendRun(a, b);
    }
  }

  /** `WordsAppend` when `a` starts with a word. */
  lemma {:induction false} WordsAppendRun(a: string, b: string)
    requires a != [] && !IsSpace(a[0])
    requires b == [] || IsSpace(a[|a| - 1]) || IsSpace(b[0])
    ensures Words(a + b) == Words(a) + Words(b)
    decreases |a|, 0
  {
    var m := NonSpaceRun(a);
    if m == |a| {
      RunToEnd(a);
    }
    WordsAfterRun(a, b);
    if m < |a| {
      WordsAppend(a[m..], b);
    } else {
      assert a[m..] == [];
      EmptyAppend(a[m..], b);
      assert Words(a[m..]) == [];
    }
    Regroup(Words(a + b), Words(a), Words(b), a[..m], Words(a[m..]), Words(a[m..] + b));
  }

  lemma RunToEnd(a: string)
    requires a != [] && NonSpaceRun(a) == |a|
    ensures !IsSpace(a[|a| - 1])
  {
    NonSpaceRunSpec(a);
  }

  lemma EmptyAppend(x: string, y: string)
    requires x == []
    ensures x + y == y
  {
  }

  lemma Regroup(wab: seq<string>, wa: seq<string>, wb: seq<string>, w: string, ra: seq<string>, rab: seq<string>)
    requires wa == [w] + ra && wab == [w] + rab && rab == ra + wb
    ensures wab == wa + wb
  {
  }

  lemma WordsAfterSpace(a: string, b: string)
    requires a != [] && IsSpace(a[0])
    ensures Words(a) == Words(a[1..])
    ensures Words(a + b) == Words(a[1..] + b)
  {
    assert (a + b)[0] == a[0];
    assert (a + b)[1..] == a[1..] + b;
  }

  lemma WordsAfterRun(a: string, b: string)
    requires a != [] && !IsSpace(a[0])
    requires NonSpaceRun(a) < |a| || b == [] || IsSpace(b[0])
    ensures Words(a) == [a[..NonSpaceRun(a)]] + Words(a[NonSpaceRun(a)..])
    ensures Words(a + b) == [a[..NonSpaceRun(a)]] + Words(a[NonSpaceRun(a)..] + b)
  {
    var m := NonSpaceRun(a);
    NonSpaceRunAppend(a, b);
    assert (a + b)[0] == a[0];
    SlicesOfAppend(a, b, m);
  }

  lemma SlicesOfAppend(a: string, b: string, m: nat)
    requires m <= |a|
    ensures (a + b)[..m] == a[..m] && (a + b)[m..] == a[m..] + b
  {
  }

  /** Trimming a text does not change its words. */
  lemma WordsOfTrim(s: string)
    ensures Words(Trim(s)) == Words(s)
  {
    TrimSpec(s);
    var r, a := Trim(s), TrimOffset(s);
    var pre, post := s[..a], s[a + |r|..];
    assert s == pre + (r + post);
    WordsOfSpace(pre);
    WordsOfSpace(post);
    WordsAppend(pre, r + post);
    WordsAppend(r, post);
  }

  // ---------------------------------------------------------------------------
  // split(/\s+/)
  // ---------------------------------------------------------------------------

  /** End of the first whitespace run of `s`; the run starts where the first
      whitespace-free run stops. */
  function GapEnd(s: string): (m: nat)
    requires NonSpaceRun(s) < |s|
    ensures NonSpaceRun(s) < m <= |s|
    ensures m < |s| ==> !IsSpace(s[m])
  {
    var n := NonSpaceRun(s);
    n + SpaceRunFrom(s, n)
  }

  lemma SplitThree(s: string, n: nat, m: nat)
    requires n <= m <= |s|
    ensures s == s[..n] + (s[n..m] + s[m..])
  {
    assert s[n..] == s[n..m] + s[m..];
    assert s == s[..n] + s[n..];
  }

  /** `s` is its first whitespace-free run, then a whitespace run, then the rest. */
  lemma FirstGap(s: string)
    requires NonSpaceRun(s) < |s|
    ensures s == s[..NonSpaceRun(s)] + (s[NonSpaceRun(s)..GapEnd(s)] + s[GapEnd(s)..])
    ensures NoSpace(s[..NonSpaceRun(s)])
    ensures s[NonSpaceRun(s)..GapEnd(s)] != [] && AllSpace(s[NonSpaceRun(s)..GapEnd(s)])
  {
    SplitThree(s, NonSpaceRun(s), GapEnd(s));
    FirstRunHasNoSpace(s);
    GapIsSpace(s);
  }

  lemma FirstRunHasNoSpace(s: string)
    ensures NoSpace(s[..NonSpaceRun(s)])
  {
    var n := NonSpaceRun(s);
    NonSpaceRunSpec(s);
    assert forall i :: 0 <= i < n ==> s[..n][i] == s[i];
  }

  lemma GapIsSpace(s: string)
    requires NonSpaceRun(s) < |s|
    ensures s[NonSpaceRun(s)..GapEnd(s)] != [] && AllSpace(s[NonSpaceRun(s)..GapEnd(s)])
  {
    var n := NonSpaceRun(s);
    SpaceRunFromSpec(s, n);
    assert GapEnd(s) == n + SpaceRunFrom(s, n);
  }

  /** A whitespace gap separates the words before it from the words after it. */
  lemma WordsAcrossGap(run: string, gap: string, rest: string)
    requires gap != [] && AllSpace(gap)
    ensures Words(run + (gap + rest)) == Words(run) + Words(rest)
  {
    WordsOfSpace(gap);
    WordsAppend(gap, rest);
    assert (gap + rest)[0] == gap[0];
    WordsAppend(run, gap + rest);
  }

  /** The words of `s` are those of its first run followed by those after the first gap. */
  lemma WordsAroundGap(s: string)
    requires NonSpaceRun(s) < |s|
    ensures Words(s) == Words(s[..NonSpaceRun(s)]) + Words(s[GapEnd(s)..])
  {
    var n, m := NonSpaceRun(s), GapEnd(s);
    FirstGap(s);
    WordsAcrossGap(s[..n], s[n..m], s[m..]);
  }

  /** `s.split(/\s+/)`: the pieces between maximal whitespace runs, including an
      empty first (last) piece when `s` starts (ends) with white space. */
  function Fields(s: string): (fs: seq<string>)
    ensures |fs| >= 1
    decreases |s|
  {
    var n := NonSpaceRun(s);
    if n == |s| then [s]
    else [s[..n]] + Fields(s[GapEnd(s)..])
  }

  /** No piece of the split holds white space. */
  lemma {:induction false} FieldsHaveNoSpace(s: string)
    ensures forall k :: 0 <= k < |Fields(s)| ==> NoSpace(Fields(s)[k])
    decreases |s|
  {
    var n := NonSpaceRun(s);
    FirstRunHasNoSpace(s);
    if n == |s| {
      assert s[..n] == s;
    } else {
      FieldsHaveNoSpace(s[GapEnd(s)..]);
    }
  }

  /** A text that is non-empty and neither starts nor ends with white space
      splits into exactly its words. */
  lemma {:induction false} FieldsOfTrimmed(t: string)
    requires t != [] && !IsSpace(t[0]) && !IsSpace(t[|t| - 1])
    ensures Fields(t) == Words(t)
    decreases |t|
  {
    var n := NonSpaceRun(t);
    FirstRunHasNoSpace(t);
    if n == |t| {
      assert t[..n] == t;
      WordsOfWord(t);
    } else {
      var m := GapEnd(t);
      FirstGap(t);
      assert m < |t|;
      var rest := t[m..];
      assert rest[0] == t[m] && rest[|rest| - 1] == t[|t| - 1];
      FieldsOfTrimmed(rest);
      WordsOfWord(t[..n]);
      WordsAroundGap(t);
    }
  }

  /** `filter(x => x.trim())`: the elements whose trim is non-empty. */
  function DropBlank(xs: seq<string>): (ys: seq<string>)
    ensures |ys| <= |xs|
    ensures forall k :: 0 <= k < |ys| ==> Trim(ys[k]) != []
  {
    if xs == [] then []
    else if Trim(xs[0]) != [] then [xs[0]] + DropBlank(xs[1..])
    else DropBlank(xs[1..])
  }

  /** Dropping the blank pieces of `split(/\s+/)` leaves exactly the words. */
  lemma {:induction false} DropBlankFields(s: string)
    ensures DropBlank(Fields(s)) == Words(s)
    decreases |s|
  {
    var n := NonSpaceRun(s);
    if n == |s| {
      FirstRunHasNoSpace(s);
      assert s[..n] == s;
      TrimNoSpace(s);
      if s != [] {
        WordsOfWord(s);
      }
    } else {
      var m := GapEnd(s);
      var fs := Fields(s);
      assert fs == [s[..n]] + Fields(s[m..]);
      assert fs[1..] == Fields(s[m..]);
      DropBlankFields(s[m..]);
      FirstGap(s);
      TrimNoSpace(s[..n]);
      WordsAroundGap(s);
      if n > 0 {
        WordsOfWord(s[..n]);
      } else {
        assert s[..n] == [];
      }
    }
  }

  // ---------------------------------------------------------------------------
  // split(/(\s+)/) and join('')
  // ---------------------------------------------------------------------------

  /** `xs.join('')`. */
  function Concat(xs: seq<string>): string {
    if xs == [] then "" else xs[0] + Concat(xs[1..])
  }

  lemma ConcatCons(x: string, xs: seq<string>)
    ensures Concat([x] + xs) == x + Concat(xs)
  {
    assert ([x] + xs)[1..] == xs;
  }

  lemma {:induction false} ConcatAppend(xs: seq<string>, ys: seq<string>)
    ensures Concat(xs + ys) == Concat(xs) + Concat(ys)
  {
    if xs == [] {
      assert xs + ys == ys;
    } else {
      assert (xs + ys)[1..] == xs[1..] + ys;
      ConcatAppend(xs[1..], ys);
    }
  }

  /** `s.split(/(\s+)/)`: the split keeps its separators, so the pieces
      alternate between whitespace-free runs (possibly empty) and non-empty
      whitespace runs; `SegmentsUniform` and `SegmentsJoin` state this. */
  function Segments(s: string): (segs: seq<string>)
    ensures |segs| >= 1
    decreases |s|
  {
    var n := NonSpaceRun(s);
    if n == |s| then [s]
    else
      var m := GapEnd(s);
      [s[..n], s[n..m]] + Segments(s[m..])
  }

  /** A piece that is free of white space or is a non-empty white-space run. */
  predicate Uniform(p: string) {
    NoSpace(p) || (p != [] && AllSpace(p))
  }

  /** Every piece of the split is free of white space or a non-empty
      white-space run. */
  lemma {:induction false} SegmentsUniform(s: string)
    ensures forall k :: 0 <= k < |Segments(s)| ==> Uniform(Segments(s)[k])
    decreases |s|
  {
    var n := NonSpaceRun(s);
    if n == |s| {
      FirstRunHasNoSpace(s);
      assert s[..n] == s;
    } else {
      var m := GapEnd(s);
      SegmentsUniform(s[m..]);
      FirstGap(s);
      UniformPieces(s[..n], s[n..m], Segments(s[m..]));
    }
  }

  lemma UniformPieces(a: string, g: string, rest: seq<string>)
    requires Uniform(a) && Uniform(g)
    requires forall k :: 0 <= k < |rest| ==> Uniform(rest[k])
    ensures forall k :: 0 <= k < |[a, g] + rest| ==> Uniform(([a, g] + rest)[k])
  {
  }

  lemma {:induction false} SegmentsJoin(s: string)
    ensures Concat(Segments(s)) == s
    decreases |s|
  {
    var n := NonSpaceRun(s);
    if n == |s| {
      assert Concat([s]) == s + Concat([]);
    } else {
      var m := GapEnd(s);
      var a, g, r := s[..n], s[n..m], s[m..];
      var rest := Segments(r);
      assert Segments(s) == [a, g] + rest;
      SegmentsJoin(r);
      JoinThree(a, g, rest);
      SplitThree(s, n, m);
    }
  }

  lemma JoinThree(a: string, g: string, rest: seq<string>)
    ensures Concat([a, g] + rest) == a + (g + Concat(rest))
  {
    assert [a, g] + rest == [a] + ([g] + rest);
    ConcatCons(g, rest);
    ConcatCons(a, [g] + rest);
  }

  // ---------------------------------------------------------------------------
  // split('\n') and join('\n')
  // ---------------------------------------------------------------------------

  /** Index of the last occurrence of `c` in `s`. */
  function LastIndexOf(s: string, c: char): (j: nat)
    requires c in s
    ensures j < |s| && s[j] == c && c !in s[j + 1..]
  {
    if s[|s| - 1] == c then |s| - 1
    else
      assert c in s[..|s| - 1] by {
        var i :| 0 <= i < |s| && s[i] == c;
        assert s[..|s| - 1][i] == c;
      }
      var j := LastIndexOf(s[..|s| - 1], c);
      assert s[j + 1..] == s[..|s| - 1][j + 1..] + [s[|s| - 1]];
      j
  }

  /** `xs.join('\n')`. */
  function JoinLines(xs: seq<string>): string {
    if |xs| == 0 then ""
    else if |xs| == 1 then xs[0]
    else JoinLines(xs[..|xs| - 1]) + "\n" + xs[|xs| - 1]
  }

  /** `s.split('\n')`: the pieces between line feeds; `LinesCount`,
      `LinesHaveNoFeed` and `LinesJoin` state what they are. */
  function Lines(s: string): (ls: seq<string>)
    ensures |ls| >= 1
    decreases |s|
  {
    if '\n' !in s then [s]
    else
      var j := LastIndexOf(s, '\n');
      Lines(s[..j]) + [s[j + 1..]]
  }

  lemma SplitAround(s: string, j: nat)
    requires j < |s|
    ensures s == s[..j] + [s[j]] + s[j + 1..]
  {
    assert s[j..] == [s[j]] + s[j + 1..];
    assert s == s[..j] + s[j..];
  }

  /** Joining the lines with line feeds gives `s` back. */
  lemma {:induction false} LinesJoin(s: string)
    ensures JoinLines(Lines(s)) == s
    decreases |s|
  {
    if '\n' in s {
      var j := LastIndexOf(s, '\n');
      LinesJoin(s[..j]);
      JoinLinesSnoc(Lines(s[..j]), s[j + 1..]);
      SplitAround(s, j);
    }
  }

  /** No line holds a line feed. */
  lemma {:induction false} LinesHaveNoFeed(s: string)
    ensures forall k :: 0 <= k < |Lines(s)| ==> '\n' !in Lines(s)[k]
    decreases |s|
  {
    if '\n' in s {
      var j := LastIndexOf(s, '\n');
      LinesHaveNoFeed(s[..j]);
      NoFeedSnoc(Lines(s[..j]), s[j + 1..]);
    }
  }

  /** There is one line per line feed, plus one. */
  lemma {:induction false} LinesCount(s: string)
    ensures |Lines(s)| == multiset(s)['\n'] + 1
    decreases |s|
  {
    if '\n' !in s {
      assert multiset(s)['\n'] == 0;
    } else {
      var j := LastIndexOf(s, '\n');
      LinesCount(s[..j]);
      FeedCount(s, j);
    }
  }

  lemma FeedCount(s: string, j: nat)
    requires j < |s| && s[j] == '\n' && '\n' !in s[j + 1..]
    ensures multiset(s)['\n'] == multiset(s[..j])['\n'] + 1
  {
    SplitAround(s, j);
    var front := s[..j] + [s[j]];
    assert multiset(s) == multiset(front) + multiset(s[j + 1..]);
    assert multiset(front) == multiset(s[..j]) + multiset([s[j]]);
    assert multiset(s[j + 1..])['\n'] == 0;
  }

  lemma JoinLinesSnoc(ls: seq<string>, last: string)
    requires |ls| >= 1
    ensures JoinLines(ls + [last]) == JoinLines(ls) + "\n" + last
  {
    assert (ls + [last])[..|ls|] == ls;
  }

  lemma NoFeedSnoc(ls: seq<string>, last: string)
    requires forall k :: 0 <= k < |ls| ==> '\n' !in ls[k]
    requires '\n' !in last
    ensures forall k :: 0 <= k < |ls + [last]| ==> '\n' !in (ls + [last])[k]
  {
  }

  // ---------------------------------------------------------------------------
  // replace(/,/g, ' ')
  // ---------------------------------------------------------------------------

  /** `s.replace(/,/g, ' ')`: the text keeps its length, loses every comma,
      and has white space exactly where it had white space or a comma. */
  function CommasToSpaces(s: string): (r: string)
    ensures |r| == |s|
    ensures ',' !in r
    ensures forall i :: 0 <= i < |s| ==> (IsSpace(r[i]) <==> IsSpace(s[i]) || s[i] == ',')
  {
    seq(|s|, i requires 0 <= i < |s| => if s[i] == ',' then ' ' else s[i])
  }
}
