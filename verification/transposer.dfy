/**
  The note transposition engine of `HindustaniTransposer`: two fixed
  12-note chromatic cycles, the Western flat-to-sharp alias table, note
  resolution, semitone shifting, the scale-to-scale delta and the batch
  transposition of a token sequence.

  The shift is modelled as written: the index is `(i + semitones + 12) % 12`
  with JavaScript's truncating `%`, and the table read that follows yields
  `undefined` when that index is negative.
 */
module Transposer {
  import opened Wrappers
  import opened JsStrings

  /** A JavaScript value read from a note table: a string, or `undefined`
      when the index is outside the table. */
  datatype JsValue = Str(s: string) | Undefined

  /** The errors the resolver throws; each carries the note as it was passed. */
  datatype Error = InvalidHindustaniNote(note: string) | InvalidWesternNote(note: string)

  // ---------------------------------------------------------------------------
  // Notation tables
  // ---------------------------------------------------------------------------

  /** Sa, komal Re, Re, komal Ga, Ga, Ma, tivra Ma, Pa, komal Dha, Dha, komal Ni, Ni. */
  const Hindustani: seq<string> := ["S", "r", "R", "g", "G", "m", "M", "P", "d", "D", "n", "N"]

  const Western: seq<string> := ["C", "C#", "D", "D#", "E", "F", "F#", "G", "G#", "A", "A#", "B"]

  /** Flat spellings of the five black keys, mapped to their sharp spellings. */
  const WesternAliases: map<string, string> :=
    map["Db" := "C#", "Eb" := "D#", "Gb" := "F#", "Ab" := "G#", "Bb" := "A#"]

  predicate Distinct(table: seq<string>) {
    forall i, j :: 0 <= i < j < |table| ==> table[i] != table[j]
  }

  /** Every table entry is a non-empty name made of printable characters. */
  predicate Names(table: seq<string>) {
    forall i :: 0 <= i < |table| ==> table[i] != [] && Printable(table[i])
  }

  /** Entries of such a table hold no white space, so trimming leaves them as they are. */
  lemma NameIsTrimmed(table: seq<string>, i: nat)
    requires Names(table) && i < |table|
    ensures NoSpace(table[i]) && Trim(table[i]) == table[i]
  {
    PrintableNoSpace(table[i]);
    TrimNoSpace(table[i]);
  }

  /** The Hindustani cycle has twelve distinct names. */
  lemma HindustaniWellFormed()
    ensures |Hindustani| == 12 && Distinct(Hindustani) && Names(Hindustani)
  {
  }

  /** The Western cycle has twelve distinct names. */
  lemma WesternWellFormed()
    ensures |Western| == 12 && Distinct(Western) && Names(Western)
  {
  }

  /** The five flat spellings are the only aliases. */
  lemma AliasKeys()
    ensures WesternAliases.Keys == {"Db", "Eb", "Gb", "Ab", "Bb"}
  {
  }

  /** Every alias is a printable name outside the Western cycle and stands for a member of it. */
  lemma AliasesWellFormed()
    ensures |WesternAliases| == 5
    ensures forall k :: k in WesternAliases ==> Printable(k) && k !in Western && WesternAliases[k] in Western
  {
    AliasKeys();
    forall k | k in WesternAliases
      ensures Printable(k) && k !in Western && WesternAliases[k] in Western
    {
      AliasWellFormed(k);
    }
  }

  lemma AliasWellFormed(k: string)
    requires k in {"Db", "Eb", "Gb", "Ab", "Bb"}
    ensures k in WesternAliases && Printable(k) && k !in Western && WesternAliases[k] in Western
  {
    AliasKeys();
  }

  /** `table.indexOf(x)`: a position holding `x`, or -1; `IndexOfSpec` shows
      it is the first such position and that -1 means `x` is absent. */
  function IndexOf(table: seq<string>, x: string): (r: int)
    ensures -1 <= r < |table|
    ensures r >= 0 ==> table[r] == x
  {
    IndexBelow(table, x, |table|)
  }

  /** The first position of `x` among the first `n` entries, or -1. */
  function IndexBelow(table: seq<string>, x: string, n: nat): (r: int)
    requires n <= |table|
    ensures -1 <= r < n
    ensures r >= 0 ==> table[r] == x
  {
    if n == 0 then -1
    else
      var r := IndexBelow(table, x, n - 1);
      if r >= 0 then r
      else if table[n - 1] == x then n - 1
      else -1
  }

  lemma {:induction false} IndexBelowSpec(table: seq<string>, x: string, n: nat)
    requires n <= |table|
    ensures IndexBelow(table, x, n) == -1 <==> forall j :: 0 <= j < n ==> table[j] != x
    ensures forall j :: 0 <= j < IndexBelow(table, x, n) ==> table[j] != x
  {
    if n > 0 {
      IndexBelowSpec(table, x, n - 1);
    }
  }

  /** `indexOf` is -1 exactly when `x` is absent, and otherwise the first position of `x`. */
  lemma IndexOfSpec(table: seq<string>, x: string)
    ensures IndexOf(table, x) == -1 <==> x !in table
    ensures forall j :: 0 <= j < IndexOf(table, x) ==> table[j] != x
  {
    IndexBelowSpec(table, x, |table|);
  }

  /** In a table of distinct names, `indexOf` finds the position of any entry. */
  lemma IndexOfEntry(table: seq<string>, i: nat)
    requires Distinct(table) && i < |table|
    ensures IndexOf(table, table[i]) == i
  {
    IndexOfSpec(table, table[i]);
  }

  // ---------------------------------------------------------------------------
  // Note resolution
  // ---------------------------------------------------------------------------

  /** `normalizeNote`: the note with surrounding white space removed. */
  function NormalizeNote(note: string): (r: string)
    ensures |r| <= |note|
  {
    Trim(note)
  }

  /** Normalising empties exactly the blank notes, leaves no white space at
      either end and keeps the words of the note. */
  lemma NormalizeNoteSpec(note: string)
    ensures NormalizeNote(note) == [] <==> AllSpace(note)
    ensures NormalizeNote(note) != [] ==>
      !IsSpace(NormalizeNote(note)[0]) && !IsSpace(NormalizeNote(note)[|NormalizeNote(note)| - 1])
    ensures Words(NormalizeNote(note)) == Words(note)
  {
    TrimEmpty(note);
    TrimSpec(note);
    WordsOfTrim(note);
  }

  /** The Western spelling a trimmed note resolves to, if any: the note itself
      when it is canonical, its sharp spelling when it is an alias. */
  function CanonicalWestern(t: string): Option<string> {
    if t in Western then Some(t)
    else if t in WesternAliases then Some(WesternAliases[t])
    else None
  }

  /** `normalizeWesternNote`: a canonical name first, an alias second, else an error. */
  function NormalizeWesternNote(note: string): (r: Result<string, Error>)
    ensures r.Err? ==> r.error == InvalidWesternNote(note)
  {
    var normalized := Trim(note);
    if normalized in Western then Ok(normalized)
    else if normalized in WesternAliases then Ok(WesternAliases[normalized])
    else Err(InvalidWesternNote(note))
  }

  /** A trimmed note is accepted exactly when it is a Western name or an alias;
      a name stands for itself, an alias for its sharp spelling, and the
      result is always a Western name. */
  lemma NormalizeWesternNoteSpec(note: string)
    ensures NormalizeWesternNote(note).Ok? <==> (Trim(note) in Western || Trim(note) in WesternAliases)
    ensures NormalizeWesternNote(note).Ok? ==> NormalizeWesternNote(note).value in Western
    ensures Trim(note) in Western ==> NormalizeWesternNote(note) == Ok(Trim(note))
    ensures Trim(note) in WesternAliases ==> NormalizeWesternNote(note) == Ok(WesternAliases[Trim(note)])
  {
    AliasesWellFormed();
  }

  /** `getSemitoneIndex`: the position of the trimmed note in the Hindustani
      cycle, or the error naming the note. */
  function GetSemitoneIndex(note: string): (r: Result<int, Error>)
    ensures r.Ok? ==> 0 <= r.value < 12
    ensures r.Err? ==> r.error == InvalidHindustaniNote(note)
  {
    var normalized := NormalizeNote(note);
    var index := IndexOf(Hindustani, normalized);
    if index == -1 then Err(InvalidHindustaniNote(note)) else Ok(index)
  }

  /** A note resolves exactly when its trim is a Hindustani name, matched as
      is (no case folding, no aliases), and it resolves to that name's position. */
  lemma GetSemitoneIndexSpec(note: string)
    ensures GetSemitoneIndex(note).Ok? <==> Trim(note) in Hindustani
    ensures GetSemitoneIndex(note).Ok? ==> Hindustani[GetSemitoneIndex(note).value] == Trim(note)
  {
    IndexOfSpec(Hindustani, Trim(note));
  }

  /** `getWesternIndex`: the position of the note's canonical spelling. */
  function GetWesternIndex(note: string): (r: Result<int, Error>)
    ensures r.Ok? ==> 0 <= r.value < 12
    ensures r.Err? ==> r.error == InvalidWesternNote(note)
  {
    var normalized :- NormalizeWesternNote(note);
    NormalizeWesternNoteSpec(note);
    IndexOfSpec(Western, normalized);
    Ok(IndexOf(Western, normalized))
  }

  /** A note resolves exactly when its trim has a canonical Western spelling,
      and it resolves to that spelling's position. */
  lemma GetWesternIndexSpec(note: string)
    ensures GetWesternIndex(note).Ok? <==> CanonicalWestern(Trim(note)).Some?
    ensures GetWesternIndex(note).Ok? ==> Some(Western[GetWesternIndex(note).value]) == CanonicalWestern(Trim(note))
  {
    NormalizeWesternNoteSpec(note);
    var n := NormalizeWesternNote(note);
    if n.Ok? {
      IndexOfSpec(Western, n.value);
    }
  }

  /** Every alias resolves to the same position as its sharp spelling. */
  lemma AliasAgreesWithSharp(alias: string)
    requires alias in WesternAliases
    ensures GetWesternIndex(alias) == GetWesternIndex(WesternAliases[alias])
    ensures GetWesternIndex(alias).Ok?
  {
    AliasesWellFormed();
    WesternWellFormed();
    var sharp := WesternAliases[alias];
    PrintableNoSpace(alias);
    TrimNoSpace(alias);
    IndexOfSpec(Western, sharp);
    NameIsTrimmed(Western, IndexOf(Western, sharp));
  }

  /** `calculateSemitoneDifferenceWestern`: the signed, unwrapped difference
      of the two roots' positions; the first root is resolved first, so its
      error wins when both fail. */
  function CalculateSemitoneDifferenceWestern(fromNote: string, toNote: string): (r: Result<int, Error>)
    ensures r.Ok? <==> GetWesternIndex(fromNote).Ok? && GetWesternIndex(toNote).Ok?
    ensures r.Ok? ==> r.value == GetWesternIndex(toNote).value - GetWesternIndex(fromNote).value
    ensures GetWesternIndex(fromNote).Err? ==> r == Err(GetWesternIndex(fromNote).error)
    ensures GetWesternIndex(fromNote).Ok? && GetWesternIndex(toNote).Err? ==> r == Err(GetWesternIndex(toNote).error)
  {
    var fromIndex :- GetWesternIndex(fromNote);
    var toIndex :- GetWesternIndex(toNote);
    Ok(toIndex - fromIndex)
  }

  /** The delta is less than an octave either way, and shifting the first
      root's position by it lands on the second root's pitch. */
  lemma DifferenceLandsOnTarget(fromNote: string, toNote: string)
    requires CalculateSemitoneDifferenceWestern(fromNote, toNote).Ok?
    ensures -11 <= CalculateSemitoneDifferenceWestern(fromNote, toNote).value <= 11
    ensures 0 <= GetWesternIndex(fromNote).value + CalculateSemitoneDifferenceWestern(fromNote, toNote).value < 12
    ensures Some(Western[GetWesternIndex(fromNote).value + CalculateSemitoneDifferenceWestern(fromNote, toNote).value])
      == CanonicalWestern(Trim(toNote))
  {
    GetWesternIndexSpec(toNote);
  }

  /** The delta is antisymmetric. */
  lemma DifferenceAntisymmetric(a: string, b: string)
    ensures CalculateSemitoneDifferenceWestern(a, b).Ok? <==> CalculateSemitoneDifferenceWestern(b, a).Ok?
    ensures CalculateSemitoneDifferenceWestern(a, b).Ok? ==>
      CalculateSemitoneDifferenceWestern(a, b).value == -CalculateSemitoneDifferenceWestern(b, a).value
  {
  }

  /** Two roots that resolve to the same pitch are zero semitones apart. */
  lemma DifferenceOfSamePitch(a: string, b: string)
    requires CanonicalWestern(Trim(a)).Some? && CanonicalWestern(Trim(a)) == CanonicalWestern(Trim(b))
    ensures CalculateSemitoneDifferenceWestern(a, b) == Ok(0)
  {
    WesternWellFormed();
    GetWesternIndexSpec(a);
    GetWesternIndexSpec(b);
  }

  // ---------------------------------------------------------------------------
  // Transposition arithmetic
  // ---------------------------------------------------------------------------

  /** JavaScript's `n % 12`: the remainder of division truncated toward zero,
      which carries the sign of the dividend. */
  function JsRemainder12(n: int): (r: int)
    ensures -12 < r < 12
    ensures n >= 0 ==> r >= 0
    ensures n <= 0 ==> r <= 0
    ensures (n - r) % 12 == 0
  {
    if n >= 0 then n % 12
    else
      var q, m := (-n) / 12, (-n) % 12;
      assert n + m == 12 * -q;
      MultipleOf12(-q);
      -m
  }

  lemma MultipleOf12(k: int)
    ensures (12 * k) % 12 == 0
  {
  }

  /** The index `(currentIndex + semitones + 12) % 12` as the source computes it. */
  function ShiftIndex(index: int, semitones: int): (k: int)
    ensures -12 < k < 12
    ensures k >= 0 ==> k == (index + semitones) % 12
    ensures index + semitones >= -12 ==> k >= 0
    ensures k < 0 <==> index + semitones < -12 && (index + semitones) % 12 != 0
  {
    JsRemainder12(index + semitones + 12)
  }

  /** A JavaScript array read `table[i]`. */
  function Lookup(table: seq<string>, i: int): JsValue
  {
    if 0 <= i < |table| then Str(table[i]) else Undefined
  }

  /** `v` is what a shift of `semitones` from `currentIndex` over a 12-entry
      cycle yields: the entry `(currentIndex + semitones) mod 12` when it is a
      name, and `undefined` exactly when the shift goes below -12 without
      landing on a multiple of 12. */
  predicate Shifted(table: seq<string>, currentIndex: int, semitones: int, v: JsValue)
    requires |table| == 12
  {
    (v.Str? ==> v == Str(table[(currentIndex + semitones) % 12]))
    && (v.Undefined? <==> currentIndex + semitones < -12 && (currentIndex + semitones) % 12 != 0)
  }

  /** `table[(currentIndex + semitones + 12) % 12]` for a 12-entry cycle: when
      it is a name it is the right one modulo 12, and it is `undefined` exactly
      when the shift goes below -12 without landing on a multiple of 12. */
  function ShiftIn(table: seq<string>, currentIndex: int, semitones: int): (v: JsValue)
    requires |table| == 12
    ensures Shifted(table, currentIndex, semitones, v)
  {
    Lookup(table, ShiftIndex(currentIndex, semitones))
  }

  /** `transposeNote`: shift a Hindustani note, or fail as the resolver does. */
  function TransposeNote(note: string, semitones: int): (r: Result<JsValue, Error>)
    ensures r.Err? ==> r == Err(InvalidHindustaniNote(note))
  {
    var currentIndex :- GetSemitoneIndex(note);
    Ok(ShiftIn(Hindustani, currentIndex, semitones))
  }

  /** A note transposes exactly when its trim is a Hindustani name, and the
      result is that name shifted along the cycle. */
  lemma TransposeNoteSpec(note: string, semitones: int)
    ensures TransposeNote(note, semitones).Ok? <==> Trim(note) in Hindustani
    ensures TransposeNote(note, semitones).Ok? ==>
      Hindustani[GetSemitoneIndex(note).value] == Trim(note)
      && Shifted(Hindustani, GetSemitoneIndex(note).value, semitones, TransposeNote(note, semitones).value)
  {
    GetSemitoneIndexSpec(note);
  }

  /** `transposeWesternNote`: shift a Western note or alias over the Western cycle. */
  function TransposeWesternNote(note: string, semitones: int): (r: Result<JsValue, Error>)
    ensures r.Err? ==> r == Err(InvalidWesternNote(note))
  {
    var currentIndex :- GetWesternIndex(note);
    Ok(ShiftIn(Western, currentIndex, semitones))
  }

  /** A note transposes exactly when its trim has a canonical Western spelling,
      and the result is that spelling shifted along the cycle. */
  lemma TransposeWesternNoteSpec(note: string, semitones: int)
    ensures TransposeWesternNote(note, semitones).Ok? <==> CanonicalWestern(Trim(note)).Some?
    ensures TransposeWesternNote(note, semitones).Ok? ==>
      Some(Western[GetWesternIndex(note).value]) == CanonicalWestern(Trim(note))
      && Shifted(Western, GetWesternIndex(note).value, semitones, TransposeWesternNote(note, semitones).value)
  {
    GetWesternIndexSpec(note);
  }

  /** Every Hindustani name resolves to its own position. */
  lemma HindustaniEntry(i: nat)
    requires i < 12
    ensures GetSemitoneIndex(Hindustani[i]) == Ok(i)
  {
    HindustaniWellFormed();
    NameIsTrimmed(Hindustani, i);
    IndexOfEntry(Hindustani, i);
  }

  /** Every Western name resolves to its own position. */
  lemma WesternEntry(i: nat)
    requires i < 12
    ensures GetWesternIndex(Western[i]) == Ok(i)
  {
    WesternWellFormed();
    NameIsTrimmed(Western, i);
    IndexOfEntry(Western, i);
  }

  /** Over any 12-entry cycle, a shift by 0 or by a whole octave lands on the starting entry. */
  lemma ShiftInOctave(table: seq<string>, i: nat, semitones: int)
    requires |table| == 12 && i < 12 && (semitones == 0 || semitones == 12)
    ensures ShiftIn(table, i, semitones) == Str(table[i])
  {
  }

  /** Over any 12-entry cycle, a shift within an octave either way is defined
      and shifting back by the same amount returns to the start. */
  lemma ShiftInRoundTrip(table: seq<string>, i: nat, semitones: int)
    requires |table| == 12 && i < 12 && -12 <= semitones <= 12
    ensures 0 <= (i + semitones) % 12 < 12
    ensures ShiftIn(table, i, semitones) == Str(table[(i + semitones) % 12])
    ensures ShiftIn(table, (i + semitones) % 12, -semitones) == Str(table[i])
  {
    assert ((i + semitones) % 12 - semitones) % 12 == i;
  }

  /** Transposing a Hindustani note by 0 or by 12 gives the note back. */
  lemma TransposeByZeroOrOctave(i: nat, semitones: int)
    requires i < 12 && (semitones == 0 || semitones == 12)
    ensures TransposeNote(Hindustani[i], semitones) == Ok(Str(Hindustani[i]))
  {
    HindustaniEntry(i);
    ShiftInOctave(Hindustani, i, semitones);
  }

  /** Transposing a Western note by 0 or by 12 gives the note back. */
  lemma TransposeWesternByZeroOrOctave(i: nat, semitones: int)
    requires i < 12 && (semitones == 0 || semitones == 12)
    ensures TransposeWesternNote(Western[i], semitones) == Ok(Str(Western[i]))
  {
    WesternEntry(i);
    ShiftInOctave(Western, i, semitones);
  }

  /** Within an octave either way, transposing a Hindustani note down undoes transposing it up. */
  lemma TransposeRoundTrip(i: nat, semitones: int)
    requires i < 12 && -12 <= semitones <= 12
    ensures TransposeNote(Hindustani[i], semitones).Ok?
    ensures TransposeNote(Hindustani[i], semitones).value.Str?
    ensures TransposeNote(TransposeNote(Hindustani[i], semitones).value.s, -semitones) == Ok(Str(Hindustani[i]))
  {
    ShiftInRoundTrip(Hindustani, i, semitones);
    var j := (i + semitones) % 12;
    HindustaniEntry(i);
    HindustaniEntry(j);
  }

  /** The same round trip over the Western cycle. */
  lemma TransposeWesternRoundTrip(i: nat, semitones: int)
    requires i < 12 && -12 <= semitones <= 12
    ensures TransposeWesternNote(Western[i], semitones).Ok?
    ensures TransposeWesternNote(Western[i], semitones).value.Str?
    ensures TransposeWesternNote(TransposeWesternNote(Western[i], semitones).value.s, -semitones) == Ok(Str(Western[i]))
  {
    ShiftInRoundTrip(Western, i, semitones);
    var j := (i + semitones) % 12;
    WesternEntry(i);
    WesternEntry(j);
  }

  // ---------------------------------------------------------------------------
  // Batch transposition
  // ---------------------------------------------------------------------------

  /** What `transposeSequence` accepts: one free-text string or an array of tokens. */
  datatype NotesInput = Text(text: string) | Tokens(items: seq<string>)

  /** The array the loop walks. Free text has its commas turned into spaces,
      is split on white-space runs and loses its blank fragments, which leaves
      exactly its words; an array is walked as given. */
  function NoteArray(notes: NotesInput): (xs: seq<string>)
    ensures notes.Text? ==> xs == Words(CommasToSpaces(notes.text))
  {
    match notes
    case Text(text) => DropBlankFields(CommasToSpaces(text)); DropBlank(Fields(CommasToSpaces(text)))
    case Tokens(items) => items
  }

  /** One step of the loop on a trimmed token: the transposed note, or the
      token itself when it does not resolve in the chosen cycle. */
  function TransposeToken(note: string, semitones: int, useWestern: bool): (v: JsValue)
    ensures !useWestern && GetSemitoneIndex(note).Err? ==> v == Str(note)
    ensures useWestern && GetWesternIndex(note).Err? ==> v == Str(note)
  {
    var r := if useWestern then TransposeWesternNote(note, semitones) else TransposeNote(note, semitones);
    if r.Ok? then r.value else Str(note)
  }

  /** A token that resolves becomes its shift along the chosen cycle, and a
      shift of -12 or more always gives a name. */
  lemma TransposeTokenSpec(note: string, semitones: int, useWestern: bool)
    ensures !useWestern && GetSemitoneIndex(note).Ok? ==>
      Shifted(Hindustani, GetSemitoneIndex(note).value, semitones, TransposeToken(note, semitones, useWestern))
    ensures useWestern && GetWesternIndex(note).Ok? ==>
      Shifted(Western, GetWesternIndex(note).value, semitones, TransposeToken(note, semitones, useWestern))
    ensures semitones >= -12 ==> TransposeToken(note, semitones, useWestern).Str?
  {
  }

  /** The tokens that are non-empty after trimming, trimmed, in input order. */
  function Kept(xs: seq<string>): (ks: seq<string>)
    ensures |ks| <= |xs|
  {
    KeptBelow(xs, |xs|)
  }

  /** The kept tokens among the first `n`. */
  function KeptBelow(xs: seq<string>, n: nat): (ks: seq<string>)
    requires n <= |xs|
    ensures |ks| <= n
  {
    if n == 0 then []
    else
      var t := Trim(xs[n - 1]);
      KeptBelow(xs, n - 1) + (if t == [] then [] else [t])
  }

  /** Every kept token is non-empty and has no white space at either end. */
  lemma {:induction false} KeptAreTrimmed(xs: seq<string>, n: nat)
    requires n <= |xs|
    ensures forall k :: 0 <= k < |KeptBelow(xs, n)| ==>
      KeptBelow(xs, n)[k] != [] && !IsSpace(KeptBelow(xs, n)[k][0])
      && !IsSpace(KeptBelow(xs, n)[k][|KeptBelow(xs, n)[k]| - 1])
  {
    if n > 0 {
      KeptAreTrimmed(xs, n - 1);
      TrimSpec(xs[n - 1]);
    }
  }

  /** Words are kept as they are. */
  lemma {:induction false} KeptOfWords(ws: seq<string>, n: nat)
    requires n <= |ws|
    requires forall k :: 0 <= k < |ws| ==> ws[k] != [] && NoSpace(ws[k])
    ensures KeptBelow(ws, n) == ws[..n]
  {
    if n > 0 {
      KeptOfWords(ws, n - 1);
      TrimNoSpace(ws[n - 1]);
      assert ws[..n] == ws[..n - 1] + [ws[n - 1]];
    }
  }

  /** For free text, the loop transposes exactly the words of the text with
      its commas read as spaces. */
  lemma TextTokens(text: string)
    ensures NoteArray(Text(text)) == Words(CommasToSpaces(text))
    ensures Kept(NoteArray(Text(text))) == Words(CommasToSpaces(text))
  {
    DropBlankFields(CommasToSpaces(text));
    var ws := Words(CommasToSpaces(text));
    WordsAreWords(CommasToSpaces(text));
    KeptOfWords(ws, |ws|);
    assert ws[..|ws|] == ws;
  }

  /** A comma separates two tokens just as white space does. */
  lemma CommaSeparates(a: string, b: string)
    ensures Words(CommasToSpaces(a + "," + b)) == Words(CommasToSpaces(a)) + Words(CommasToSpaces(b))
  {
    var ca, cb := CommasToSpaces(a), CommasToSpaces(b);
    assert CommasToSpaces(a + "," + b) == ca + (" " + cb);
    WordsAppend(ca, " " + cb);
    WordsAppend(" ", cb);
    WordsOfSpace(" ");
  }

  /** `transposeSequence`: one output per token that is non-empty after
      trimming, in order, each the token's transposition or, when it does not
      resolve, the trimmed token itself. */
  method TransposeSequence(notes: NotesInput, semitones: int, useWestern: bool) returns (transposed: seq<JsValue>)
    ensures |transposed| == |Kept(NoteArray(notes))|
    ensures forall k :: 0 <= k < |transposed| ==>
      transposed[k] == TransposeToken(Kept(NoteArray(notes))[k], semitones, useWestern)
  {
    var noteArray := NoteArray(notes);
    ghost var kept: seq<string> := [];
    transposed := [];
    for i := 0 to |noteArray|
      invariant kept == KeptBelow(noteArray, i)
      invariant |transposed| == |kept|
      invariant forall k :: 0 <= k < |kept| ==> transposed[k] == TransposeToken(kept[k], semitones, useWestern)
    {
      var trimmedNote := Trim(noteArray[i]);
      if trimmedNote != [] {
        transposed := transposed + [TransposeToken(trimmedNote, semitones, useWestern)];
        kept := kept + [trimmedNote];
      }
    }
  }

  /** `getAvailableNotes`: a fresh copy of the Hindustani cycle. */
  method GetAvailableNotes() returns (notes: array<string>)
    ensures fresh(notes)
    ensures notes[..] == Hindustani
  {
    notes := new string[12](i requires 0 <= i < 12 => Hindustani[i]);
  }

  /** `getAvailableWesternNotes`: a fresh copy of the Western cycle. */
  method GetAvailableWesternNotes() returns (notes: array<string>)
    ensures fresh(notes)
    ensures notes[..] == Western
  {
    notes := new string[12](i requires 0 <= i < 12 => Western[i]);
  }

  // ---------------------------------------------------------------------------
  // Worked cases
  // ---------------------------------------------------------------------------

  /** Sa up an octave is Sa; Sa down a semitone is Ni. */
  lemma SaExamples()
    ensures TransposeNote("S", 12) == Ok(Str("S"))
    ensures TransposeNote("S", -1) == Ok(Str("N"))
  {
    HindustaniEntry(0);
  }

  /** Two Western names are as many semitones apart as their positions. */
  lemma DifferenceOfEntries(i: nat, j: nat)
    requires i < 12 && j < 12
    ensures CalculateSemitoneDifferenceWestern(Western[i], Western[j]) == Ok(j - i)
  {
    WesternEntry(i);
    WesternEntry(j);
  }

  /** C to G is seven semitones up and G to C seven down. */
  lemma FifthExamples()
    ensures CalculateSemitoneDifferenceWestern("C", "G") == Ok(7)
    ensures CalculateSemitoneDifferenceWestern("G", "C") == Ok(-7)
  {
    assert Western[0] == "C" && Western[7] == "G";
    DifferenceOfEntries(0, 7);
    DifferenceOfEntries(7, 0);
  }

  /** C up a semitone is C#; C down thirteen semitones reads past the start of
      the table and is `undefined` rather than B. */
  lemma WesternShiftExamples()
    ensures TransposeWesternNote("C", 1) == Ok(Str("C#"))
    ensures TransposeWesternNote("C", -13) == Ok(Undefined)
  {
    WesternEntry(0);
    assert Western[0] == "C" && Western[1] == "C#";
  }
}
