# Hindustani Notes Transposer — note engine and text re-formatting

This project models the core of the Hindustani Notes Transposer web app in
Dafny. The app takes a line-broken text of note names, shifts every note by
a number of semitones and gives the text back with the user's spacing and
line breaks. The shift is typed in directly or derived from two Western
scale roots.

The model has four modules:

- `Wrappers` holds `Option` and `Result`. A `Result` stands for a value the
  source either returns or throws out of.
- `JsStrings` models the JavaScript string built-ins the core relies on:
  - `trim()`;
  - `split(/\s+/)` (`Fields`) and the words it finds (`Words`);
  - `split(/(\s+)/)` (`Segments`), which keeps the white-space runs;
  - `split('\n')` (`Lines`) and `join('\n')` (`JoinLines`);
  - `join('')` (`Concat`);
  - `replace(/,/g, ' ')` (`CommasToSpaces`).

  White space is the concrete set of characters that ECMAScript's `\s` and
  `trim` treat as white space or line terminators.
- `Transposer` models the `HindustaniTransposer` class:
  - the two 12-note cycles (Sa to Ni, and C to B with sharps);
  - the flat-to-sharp alias table;
  - note resolution, which throws on an unknown note;
  - the semitone shift;
  - the scale-to-scale delta;
  - the batch `transposeSequence`, which keeps an unresolvable token as it is.

  The class has no mutable state, so its tables are module constants and its
  methods are functions. `transposeSequence` is a loop, so it is a method
  proved against a specification function.
- `TransposerForm` models `preserveFormatting` and the computational part of
  `performTranspose`:
  - `preserveFormatting` writes the transposed tokens back into the text,
    word segment by word segment, with one cursor running across all lines.
  - `performTranspose` checks the inputs, works out the shift, splits the
    trimmed text on white space, transposes the tokens and re-formats them.

  `PreserveFormatting` is a method with a loop over the lines that calls
  `ReplaceWords`, a method with a loop over one line's segments.
  `PerformTranspose` has no loop of its own; it calls `TransposeSequence`
  and `PreserveFormatting`. The re-formatting is proved against `Reformat`,
  a description of the output that does not use the cursor: the `k`-th word
  of the whole text is replaced by token `k`.

The shift is modelled as the code computes it: `(index + semitones + 12) % 12`
with JavaScript's truncating `%`, followed by a table read.

- When `index + semitones` is -12 or more, the result is the name
  `(index + semitones) mod 12`.
- Below that, the index is negative unless the sum is a multiple of 12. A
  negative index reads `undefined`, and `preserveFormatting` writes that out
  as an empty string. So C shifted down 13 semitones gives `undefined`, not B.

A double-modulo shift `((i + s) % 12 + 12) % 12` would wrap every shift. That
is not what the code does, and the model follows the code.

## Model

| member | source | states |
|---|---|---|
| Transposer.HindustaniWellFormed | src/utils/transposer.ts:4-7 | the Hindustani cycle has 12 distinct, non-empty, printable names |
| Transposer.WesternWellFormed | src/utils/transposer.ts:9-12 | the Western cycle has 12 distinct, non-empty, printable names |
| Transposer.AliasKeys | src/utils/transposer.ts:14-17 | the alias keys are exactly Db, Eb, Gb, Ab and Bb |
| Transposer.AliasesWellFormed | src/utils/transposer.ts:14-17 | there are five aliases; each is outside the Western cycle and maps to a member of it |
| Transposer.IndexOf | src/utils/transposer.ts:36 | `indexOf` gives -1 or a position that holds the value |
| Transposer.IndexOfSpec | src/utils/transposer.ts:36-37 | `indexOf` is -1 exactly when the value is absent; otherwise it is the first position of the value |
| Transposer.IndexOfEntry | src/utils/transposer.ts:36 | in a table of distinct names, `indexOf` of entry i is i |
| Transposer.NormalizeNote | src/utils/transposer.ts:19-21 | `normalizeNote` is `trim()`, so the result is never longer than the note |
| Transposer.NormalizeNoteSpec | src/utils/transposer.ts:19-21 | normalising empties exactly the blank notes, leaves no white space at either end and keeps the note's words |
| Transposer.NormalizeWesternNote | src/utils/transposer.ts:23-32 | the thrown error names the note as it was passed |
| Transposer.NormalizeWesternNoteSpec | src/utils/transposer.ts:23-32 | a note is accepted iff its trim is a Western name or an alias; a name maps to itself, an alias to its sharp spelling, and the result is always a Western name |
| Transposer.GetSemitoneIndex | src/utils/transposer.ts:34-41 | the index lies in 0..11; the error is the Hindustani error naming the note |
| Transposer.GetSemitoneIndexSpec | src/utils/transposer.ts:34-41 | resolves iff the trimmed note is a Hindustani name, matched exactly; it resolves to that name's position |
| Transposer.HindustaniEntry | src/utils/transposer.ts:34-41 | every Hindustani name resolves to its own position |
| Transposer.GetWesternIndex | src/utils/transposer.ts:43-46 | the index lies in 0..11; the error is the Western error naming the note |
| Transposer.GetWesternIndexSpec | src/utils/transposer.ts:43-46 | resolves iff the trimmed note has a canonical Western spelling; it resolves to that spelling's position |
| Transposer.WesternEntry | src/utils/transposer.ts:43-46 | every Western name resolves to its own position |
| Transposer.AliasAgreesWithSharp | src/utils/transposer.ts:43-46 | every alias resolves, and to the same position as its sharp spelling |
| Transposer.CalculateSemitoneDifferenceWestern | src/utils/transposer.ts:48-52 | succeeds iff both roots resolve; the value is the difference of their positions; the from-root's error wins when both fail |
| Transposer.DifferenceLandsOnTarget | src/utils/transposer.ts:48-52 | the delta lies in -11..11, and the from-root's position plus the delta is the to-root's pitch |
| Transposer.DifferenceAntisymmetric | src/utils/transposer.ts:48-52 | swapping the roots negates the delta, and both directions fail together |
| Transposer.DifferenceOfSamePitch | src/utils/transposer.ts:48-52 | two spellings of one pitch are 0 semitones apart |
| Transposer.DifferenceOfEntries | src/utils/transposer.ts:48-52 | two Western names are `j - i` semitones apart |
| Transposer.FifthExamples | src/utils/transposer.ts:48-52 | C to G is +7 and G to C is -7 |
| Transposer.JsRemainder12 | src/utils/transposer.ts:56 | JavaScript `n % 12`: lies strictly between -12 and 12, takes the sign of n and is congruent to n |
| Transposer.ShiftIndex | src/utils/transposer.ts:56 | the computed index is `(i + s) mod 12` when non-negative; it is negative iff `i + s < -12` and is not a multiple of 12 |
| Transposer.ShiftIn | src/utils/transposer.ts:56-57 | the shifted read is the right name mod 12, or `undefined` exactly in the negative-index case |
| Transposer.TransposeNote | src/utils/transposer.ts:54-58 | fails only with the Hindustani error naming the note |
| Transposer.TransposeNoteSpec | src/utils/transposer.ts:54-58 | succeeds iff the trimmed note is a Hindustani name; the result is that name shifted along the cycle |
| Transposer.TransposeWesternNote | src/utils/transposer.ts:60-64 | fails only with the Western error naming the note |
| Transposer.TransposeWesternNoteSpec | src/utils/transposer.ts:60-64 | succeeds iff the trimmed note has a canonical Western spelling; the result is that spelling shifted along the cycle |
| Transposer.ShiftInOctave | src/utils/transposer.ts:56-57 | a shift by 0 or 12 reads the starting entry |
| Transposer.ShiftInRoundTrip | src/utils/transposer.ts:56-57 | within an octave either way, the shift is defined and shifting back returns to the start |
| Transposer.TransposeByZeroOrOctave | src/utils/transposer.ts:54-58 | a Hindustani note transposed by 0 or 12 is itself |
| Transposer.TransposeWesternByZeroOrOctave | src/utils/transposer.ts:60-64 | a Western note transposed by 0 or 12 is itself |
| Transposer.TransposeRoundTrip | src/utils/transposer.ts:54-58 | a Hindustani note transposed by s and then by -s comes back, for shifts of at most 12 either way |
| Transposer.TransposeWesternRoundTrip | src/utils/transposer.ts:60-64 | a Western note transposed by s and then by -s comes back, for shifts of at most 12 either way |
| Transposer.SaExamples | src/utils/transposer.ts:54-58 | S up 12 is S; S down 1 is N |
| Transposer.WesternShiftExamples | src/utils/transposer.ts:60-64 | C up 1 is C#; C down 13 is `undefined` |
| Transposer.TransposeToken | src/utils/transposer.ts:79-86 | a token that does not resolve in the chosen cycle comes out as itself (the catch branch) |
| Transposer.TransposeTokenSpec | src/utils/transposer.ts:79-86 | a resolving token becomes its shift along the chosen cycle; a shift of -12 or more always gives a name |
| Transposer.Kept | src/utils/transposer.ts:76-78 | keeps at most as many tokens as it is given |
| Transposer.KeptAreTrimmed | src/utils/transposer.ts:76-78 | every kept token is non-empty, with no white space at either end |
| Transposer.KeptOfWords | src/utils/transposer.ts:76-78 | tokens that are already words are all kept, unchanged and in order |
| Transposer.NoteArray | src/utils/transposer.ts:69-73 | for free text, the array the loop walks is exactly the words of the text with commas turned into spaces; an array is walked as given |
| Transposer.TextTokens | src/utils/transposer.ts:69-70 | for free text, the loop walks exactly the words of the text, with commas read as spaces |
| Transposer.CommaSeparates | src/utils/transposer.ts:70 | a comma separates two tokens just as white space does |
| Transposer.TransposeSequence | src/utils/transposer.ts:66-91 | one output per token that is non-empty after trimming, in order; each output is that token transposed, or the trimmed token when it does not resolve |
| Transposer.GetAvailableNotes | src/utils/transposer.ts:93-95 | returns a fresh array holding the Hindustani cycle |
| Transposer.GetAvailableWesternNotes | src/utils/transposer.ts:97-99 | returns a fresh array holding the Western cycle |
| JsStrings.Trim | src/utils/transposer.ts:20 | `trim()` never lengthens the string; TrimSpec states what it removes |
| JsStrings.TrimSpec | src/utils/transposer.ts:20 | `trim()` is the middle slice of the string: what it drops is all white space, and the result neither starts nor ends with white space |
| JsStrings.TrimEmpty | src/utils/transposer.ts:77-78 | a trimmed string is empty iff the string is all white space (the truthiness test) |
| JsStrings.TrimNoSpace | src/utils/transposer.ts:20 | trimming a string without white space leaves it unchanged |
| JsStrings.Words | src/components/TransposerForm.tsx:91 | the maximal white-space-free runs of a text, in order; there are no more of them than characters |
| JsStrings.WordsAreWords | src/components/TransposerForm.tsx:91 | every word is non-empty and holds no white space |
| JsStrings.WordsAppend | src/components/TransposerForm.tsx:91 | the words of a concatenation cut at white space are the words of each part |
| JsStrings.WordsOfTrim | src/components/TransposerForm.tsx:91 | trimming does not change the words |
| JsStrings.Fields | src/components/TransposerForm.tsx:91 | `split(/\s+/)` always gives at least one piece, with an empty piece for leading or trailing white space |
| JsStrings.FieldsHaveNoSpace | src/components/TransposerForm.tsx:91 | no piece of `split(/\s+/)` holds white space |
| JsStrings.FieldsOfTrimmed | src/components/TransposerForm.tsx:91 | on a trimmed, non-empty string, `split(/\s+/)` yields exactly its words |
| JsStrings.DropBlank | src/utils/transposer.ts:70 | `filter(note => note.trim())` keeps, in order, only elements whose trim is non-empty |
| JsStrings.DropBlankFields | src/utils/transposer.ts:70 | `split(/\s+/)` followed by the blank filter yields exactly the words |
| JsStrings.CommasToSpaces | src/utils/transposer.ts:70 | `replace(/,/g, ' ')` keeps the length, leaves no comma, and puts white space exactly where the text had white space or a comma |
| JsStrings.Segments | src/components/TransposerForm.tsx:68 | `split(/(\s+)/)` always gives at least one piece; SegmentsUniform and SegmentsJoin state what the pieces are |
| JsStrings.SegmentsUniform | src/components/TransposerForm.tsx:68 | every piece of `split(/(\s+)/)` is empty, all white space, or free of white space |
| JsStrings.SegmentsJoin | src/components/TransposerForm.tsx:68-73 | joining the pieces of `split(/(\s+)/)` gives the line back |
| JsStrings.Concat | src/components/TransposerForm.tsx:73 | `join('')`: the pieces written one after another; ConcatAppend states that it distributes over concatenation |
| JsStrings.ConcatAppend | src/components/TransposerForm.tsx:73 | `join('')` distributes over concatenation |
| JsStrings.Lines | src/components/TransposerForm.tsx:65 | `split('\n')` always gives at least one line; LinesJoin, LinesHaveNoFeed and LinesCount state what the lines are |
| JsStrings.JoinLines | src/components/TransposerForm.tsx:74 | `join('\n')`: the lines with a line feed between each two; LinesJoin and LinesOfJoin make it the inverse of `split('\n')` |
| JsStrings.LinesJoin | src/components/TransposerForm.tsx:65 | joining the pieces of `split('\n')` with line feeds gives the text back |
| JsStrings.LinesHaveNoFeed | src/components/TransposerForm.tsx:65 | no line holds a line feed |
| JsStrings.LinesCount | src/components/TransposerForm.tsx:65 | there is one more line than there are line feeds |
| TransposerForm.IsWord | src/components/TransposerForm.tsx:69 | the replacement test: non-empty after trimming and not a white-space run; UniformWord and SegmentKind state which pieces pass it |
| TransposerForm.UniformWord | src/components/TransposerForm.tsx:69 | on a piece of the split, the test at line 69 holds iff the piece is non-empty and free of white space |
| TransposerForm.SegmentKind | src/components/TransposerForm.tsx:68-69 | a segment passes the word test iff it is non-empty and white-space free; every other segment is empty or a white-space run |
| TransposerForm.SegmentWords | src/components/TransposerForm.tsx:68-69 | the segments that pass the word test are exactly the line's words, in order |
| TransposerForm.LineWordCount | src/components/TransposerForm.tsx:68-69 | the number of segments that pass the word test is the line's word count |
| TransposerForm.WordsOfJoinedLines | src/components/TransposerForm.tsx:65 | the words of the text are the words of its lines, line after line |
| TransposerForm.WordNumbering | src/components/TransposerForm.tsx:66-71 | the word segment the cursor reaches at line i, segment k is that same word's place among the words of the whole text |
| TransposerForm.Replacement | src/components/TransposerForm.tsx:69-72 | a segment becomes the token with its word number when it passes the test and such a token exists, and stays otherwise; ReformatKeepsSpace and ReformatReplacesWord tie it to the output |
| TransposerForm.ReplacedAt | src/components/TransposerForm.tsx:68-72 | segment k is replaced by the token numbered `base` plus the count of earlier word segments |
| TransposerForm.Reformat | src/components/TransposerForm.tsx:63-75 | the cursor-free reading of `preserveFormatting`: the input's lines, each with its word segments replaced by number, joined with line feeds; PreserveFormatting is proved equal to it |
| TransposerForm.ReformatKeepsSpace | src/components/TransposerForm.tsx:69-72 | every segment that fails the word test, empty or a white-space run, is copied to the output unchanged |
| TransposerForm.ReformatReplacesWord | src/components/TransposerForm.tsx:66-72 | a word segment is the word with its number in the whole text; it becomes the token with that number when there is one, and stays as it is when the tokens have run out |
| TransposerForm.ReformatFixedPoint | src/components/TransposerForm.tsx:63-75 | if every token the cursor can reach is the word it replaces, the text comes back unchanged |
| TransposerForm.ReformatWithoutTokens | src/components/TransposerForm.tsx:63-75 | with an empty token array, the text comes back unchanged |
| TransposerForm.ReformatWithOwnWords | src/components/TransposerForm.tsx:63-75 | the text's own words as tokens give the text back |
| TransposerForm.LinesOfJoin | src/components/TransposerForm.tsx:74 | lines without line feeds, joined with line feeds, split back into the same lines |
| TransposerForm.ReformatKeepsLines | src/components/TransposerForm.tsx:65-74 | tokens without line feeds keep the line count, and output line i is input line i after replacement |
| TransposerForm.ReplaceWords | src/components/TransposerForm.tsx:68-73 | one line's pieces are its segments, each word replaced by the token at the cursor; the cursor comes out advanced by the line's words, capped at the token count |
| TransposerForm.PreserveFormatting | src/components/TransposerForm.tsx:63-75 | a non-array gives the failure text; otherwise the output is `Reformat`: the k-th word of the whole text becomes token k, and white space, line breaks and words beyond the tokens stay |
| TransposerForm.SplitOfTrimmed | src/components/TransposerForm.tsx:91 | splitting the trimmed input on white space yields its words |
| TransposerForm.KeptWords | src/components/TransposerForm.tsx:92 | the transposer keeps every word it is handed |
| TransposerForm.TokenHasNoSpace | src/components/TransposerForm.tsx:92-95 | a word transposes to something without white space |
| TransposerForm.WordBackAtOctave | src/components/TransposerForm.tsx:92 | in Hindustani notation, a shift by 0 or 12 gives every word back |
| TransposerForm.FormattedKeepsLines | src/components/TransposerForm.tsx:91-95 | re-formatting the transposed words keeps the number of lines |
| TransposerForm.OctaveKeepsText | src/components/TransposerForm.tsx:91-95 | in Hindustani notation, a shift by 0 or 12 re-formats to the input itself |
| TransposerForm.PerformTranspose | src/components/TransposerForm.tsx:77-99 | each input check fails with its own error; the shift is the parsed number or the scale delta, and a conversion error is reported; on success the record holds the input's words, their transpositions pointwise and the re-formatted text with the same line count, which equals the input for a Hindustani shift of 0 or 12 |

## Left out

- The React component around the core is not part of this model: its state hooks, rendering, toasts, the history panel and the history write, clipboard copying, authentication and the database.
- `console.warn` in the catch of `transposeSequence` is left out; only the fallback to the trimmed token is modelled.
- `parseInt` is not modelled: `PerformTranspose` receives its result as `parsed`, with `None` standing for `NaN`.
- JavaScript numbers are modelled as unbounded integers. Fractional and non-finite semitone values, and precision loss beyond 2^53, are not modelled.
- TransposerForm.PerformTranspose: the `semitonesNum === null` check after the scale conversion and the `!Array.isArray` check after `transposeSequence` can never fire, so they are not modelled. A thrown conversion error is returned as `ConversionFailed`, which the component shows in its catch.
- Transposer.NormalizeWesternNote: the alias table is a plain 5-key map. The source's `in` test on an object literal also accepts inherited keys such as `toString`; that quirk is not modelled.
- `preserveFormatting`'s argument that is "not an array" is `None`. The array elements are strings or `undefined`; other JavaScript values are not modelled.
- Transposer.TransposeSequence: the arrays are modelled as sequences. In the array branch the loop walks the caller's own array, but it only reads it and builds a new output array, so the model does not capture aliasing because no write can be observed through it.
- Transposer.GetAvailableNotes / Transposer.GetAvailableWesternNotes: the copies are fixed-length Dafny arrays; a JavaScript caller could also grow or shrink its copy, which the model does not capture. Either way the tables themselves stay unchanged.
- White space is the fixed set of characters JavaScript's `\s` and `trim` use. Unicode categories beyond that set, and code units versus code points, are not modelled.
