/**
 * The second half of the explanation generator: the battery of textual detectors run on a
 * pattern that no table entry recognised. Each detector contributes its sentences in a fixed
 * order; none of them removes or reorders anything.
 */
module Heuristics {
  import opened Text
  import opened Scanners

  // Long texts are written as pieces of at most 40 characters, so that the verifier can reason
  // about their characters; each text is the concatenation of its pieces.
  const UpperRangeSentence := "Elle contient des lettres majuscules (A " + "à Z)."
  const LowerRangeSentence := "Elle contient des lettres minuscules (a " + "à z)."
  const DigitRangeSentence := "Elle contient des chiffres (0 à 9)."
  const DigitEscapeSentence := @"Elle contient des chiffres (\d équivaut " + @"à [0-9])."
  const WordEscapeSentence := "Elle contient des caractères " + "alphanumériques (lettres, chiffres, " + "underscore)."
  const SpaceEscapeSentence := "Elle contient des espaces blancs " + "(espaces, tabulations, retours à la " + "ligne, etc.)."
  const StarSentence := "Elle contient un élément qui peut se " + "répéter zéro ou plusieurs fois (*)."
  const PlusSentence := "Elle contient un élément qui doit se " + "répéter une ou plusieurs fois (+)."
  const OptionalSentence := "Elle contient un élément optionnel (?)."
  /** The opening words of the escaped-characters note. */
  const NoteHead := "Elle contient des "
  const EscapedSpecialSentence := NoteHead + "caractères spéciaux échappés (comme " + "tiret ou apostrophe)."

  /** One sentence if the condition holds, none otherwise. */
  function When(condition: bool, sentence: string): seq<string> {
    if condition then [sentence] else []
  }

  /** Detector 1: the literal classes `[A-Z]`, `[a-z]`, `[0-9]`. */
  function LiteralClassSentences(pattern: string): seq<string> {
    When(Contains(pattern, "[A-Z]"), UpperRangeSentence)
    + When(Contains(pattern, "[a-z]"), LowerRangeSentence)
    + When(Contains(pattern, "[0-9]"), DigitRangeSentence)
  }

  /** Detector 2: the escapes `\d`, `\w`, `\s`. */
  function EscapeClassSentences(pattern: string): seq<string> {
    When(Contains(pattern, @"\d"), DigitEscapeSentence)
    + When(Contains(pattern, @"\w"), WordEscapeSentence)
    + When(Contains(pattern, @"\s"), SpaceEscapeSentence)
  }

  /** Detector 3: the repetition symbols `*`, `+`, `?`. */
  function RepetitionSentences(pattern: string): seq<string> {
    When('*' in pattern, StarSentence) + When('+' in pattern, PlusSentence) + When('?' in pattern, OptionalSentence)
  }

  /** Detector 4 fires on `\-`, or on two backslashes followed by an apostrophe. */
  predicate HasEscapedSpecial(pattern: string) {
    Contains(pattern, @"\-") || Contains(pattern, @"\\'")
  }

  function EscapedSpecialSentences(pattern: string): seq<string> {
    When(HasEscapedSpecial(pattern), EscapedSpecialSentence)
  }

  /** The ranges a class body names, in the order A-Z, a-z, 0-9. */
  function Ranges(body: string): seq<string> {
    When(Contains(body, "A-Z"), "lettres majuscules (A-Z)")
    + When(Contains(body, "a-z"), "lettres minuscules (a-z)")
    + When(Contains(body, "0-9"), "chiffres (0-9)")
  }

  function RangeSentence(ranges: seq<string>): string {
    "Elle contient une classe de caractères " + "incluant: " + Join(", ", ranges) + "."
  }

  /** At most one sentence about the ranges of a class body; only a body holding `-` is examined. */
  function RangeSentences(body: string): seq<string> {
    if '-' in body && Ranges(body) != [] then [RangeSentence(Ranges(body))] else []
  }

  /** The escapes looked for inside a class body, with their description, in dictionary order. */
  const SpecialEscapes: seq<(string, string)> := [(@"\s", "espaces"), (@"\d", "chiffres"), (@"\w", "caractères de mot")]

  function AcceptSentence(description: string): string {
    "Elle accepte des " + description + " dans une classe de caractères."
  }

  /** One sentence per escape of the table that occurs in the body, in table order. */
  function AcceptSentences(body: string, table: seq<(string, string)>): seq<string>
    decreases |table|
  {
    if table == [] then []
    else
      var (escape, description) := table[|table| - 1];
      AcceptSentences(body, table[..|table| - 1]) + When(Contains(body, escape), AcceptSentence(description))
  }

  function ClassBodySentences(body: string): seq<string> {
    RangeSentences(body) + AcceptSentences(body, SpecialEscapes)
  }

  /** The sentences of a list of class bodies, body after body. */
  function ClassSentences(bodies: seq<string>): seq<string>
    decreases |bodies|
  {
    if bodies == [] then [] else ClassSentences(bodies[..|bodies| - 1]) + ClassBodySentences(bodies[|bodies| - 1])
  }

  /** Detector 5: every non-greedy `[...]` body, when the pattern holds both `[` and `]`. */
  function BracketClassSentences(pattern: string): seq<string> {
    if '[' in pattern && ']' in pattern then ClassSentences(Scan(pattern, '[', ']')) else []
  }

  function CountSentence(n: nat): string {
    "Elle contient " + NatToString(n) + " groupe(s) de capture pour extraire des " + "parties spécifiques du texte."
  }

  /** Each piece wrapped in backticks. */
  function Quoted(pieces: seq<string>): (r: seq<string>)
    ensures |r| == |pieces| && forall i | 0 <= i < |r| :: r[i] == "`" + pieces[i] + "`"
  {
    seq(|pieces|, i requires 0 <= i < |pieces| => "`" + pieces[i] + "`")
  }

  /** Each listed item without its first and last character: the backticks taken off again. */
  function Unquoted(items: seq<string>): (r: seq<string>)
    requires forall i | 0 <= i < |items| :: |items[i]| >= 2
    ensures |r| == |items|
  {
    seq(|items|, i requires 0 <= i < |items| => items[i][1..|items[i]| - 1])
  }

  function AlternativeSentence(group: string): string {
    "Elle contient une alternative entre " + "plusieurs options: " + Join(", ", Quoted(Split(group, '|'))) + "."
  }

  /** One sentence per group body holding `|`, in order. */
  function AlternativeSentences(groups: seq<string>): seq<string>
    decreases |groups|
  {
    if groups == [] then []
    else
      var last := groups[|groups| - 1];
      AlternativeSentences(groups[..|groups| - 1]) + When('|' in last, AlternativeSentence(last))
  }

  /** Detector 6: the number of non-greedy `(...)` bodies, then their alternatives. */
  function GroupSentences(pattern: string): seq<string> {
    if '(' in pattern && ')' in pattern then
      var groups := Scan(pattern, '(', ')');
      if groups == [] then [] else [CountSentence(|groups|)] + AlternativeSentences(groups)
    else []
  }

  /** `{n,m}` gives a range; `{n}` and also `{n,}` (empty second capture) give an exact count. */
  function BraceSentence(q: Brace): string {
    if q.high != [] then "Elle impose entre " + q.low + " et " + q.high + " occurrences d'un élément."
    else "Elle impose exactement " + q.low + " occurrences d'un élément."
  }

  function BraceSentences(qs: seq<Brace>): seq<string>
    decreases |qs|
  {
    if qs == [] then [] else BraceSentences(qs[..|qs| - 1]) + [BraceSentence(qs[|qs| - 1])]
  }

  /** Detector 7: one sentence per brace quantifier. */
  function QuantifierSentences(pattern: string): seq<string> {
    BraceSentences(Braces(pattern))
  }

  /** Everything the generic analysis appends, detector after detector. */
  function GenericSentences(pattern: string): seq<string> {
    (LiteralClassSentences(pattern) + EscapeClassSentences(pattern) + RepetitionSentences(pattern))
    + EscapedSpecialSentences(pattern)
    + (BracketClassSentences(pattern) + GroupSentences(pattern) + QuantifierSentences(pattern))
  }

  /**
   * Whether one of the two function-local `import re` statements ran, so that the name `re`
   * is bound when the brace detector compiles its pattern.
   */
  predicate ImportsRe(pattern: string) {
    ('[' in pattern && ']' in pattern) || ('(' in pattern && ')' in pattern)
  }

  // ---------------------------------------------------------------------------------------
  // Properties of the detectors

  /** Every range named contains `-`, so the `-` test before the range tests never changes the outcome. */
  lemma RangeNeedsHyphen(body: string)
    ensures Ranges(body) != [] ==> '-' in body
    ensures RangeSentences(body) == if Ranges(body) != [] then [RangeSentence(Ranges(body))] else []
  {
    if Contains(body, "A-Z") { ContainsChar(body, "A-Z", '-'); }
    if Contains(body, "a-z") { ContainsChar(body, "a-z", '-'); }
    if Contains(body, "0-9") { ContainsChar(body, "0-9", '-'); }
  }

  /** A class body gives at most one range sentence and one sentence per escape looked for. */
  lemma {:induction false} AcceptSentencesBound(body: string, table: seq<(string, string)>)
    ensures |AcceptSentences(body, table)| <= |table|
    ensures forall s | s in AcceptSentences(body, table) :: exists i | 0 <= i < |table| :: s == AcceptSentence(table[i].1) && Contains(body, table[i].0)
    ensures forall i | 0 <= i < |table| && Contains(body, table[i].0) :: AcceptSentence(table[i].1) in AcceptSentences(body, table)
    decreases |table|
  {
    if table != [] {
      var init := table[..|table| - 1];
      AcceptSentencesBound(body, init);
      var last := table[|table| - 1];
      assert AcceptSentences(body, table) == AcceptSentences(body, init) + When(Contains(body, last.0), AcceptSentence(last.1));
      forall i | 0 <= i < |table| && Contains(body, table[i].0)
        ensures AcceptSentence(table[i].1) in AcceptSentences(body, table)
      {
        if i < |init| {
          assert table[i] == init[i];
        }
      }
      forall s | s in AcceptSentences(body, init)
        ensures exists i | 0 <= i < |table| :: s == AcceptSentence(table[i].1) && Contains(body, table[i].0)
      {
        var i :| 0 <= i < |init| && s == AcceptSentence(init[i].1) && Contains(body, init[i].0);
        assert table[i] == init[i];
      }
    }
  }

  /**
   * The alternatives sentence lists the pieces of the group body between `|`: each listed item
   * is a piece in backticks holding no `|`, and joining the pieces at `|` gives back the body.
   */
  lemma AlternativesRoundTrip(group: string)
    ensures var listed := Quoted(Split(group, '|'));
      (forall i | 0 <= i < |listed| :: |listed[i]| >= 2 && listed[i][0] == '`' && listed[i][|listed[i]| - 1] == '`'
        && '|' !in listed[i][1..|listed[i]| - 1])
      && Join("|", Unquoted(listed)) == group
  {
    var pieces := Split(group, '|');
    var listed := Quoted(pieces);
    forall i | 0 <= i < |listed|
      ensures |listed[i]| >= 2 && listed[i][1..|listed[i]| - 1] == pieces[i]
    {
      assert listed[i] == "`" + pieces[i] + "`";
    }
    assert forall i | 0 <= i < |pieces| :: pieces[i] in pieces;
    assert Unquoted(listed) == pieces;
    assert "|" == ['|'];
    JoinSplit(group, '|');
  }

  /** Inside a class body: one sentence for `\s`, then `\d`, then `\w`, each exactly when the body holds it. */
  lemma AcceptSentencesInOrder(body: string)
    ensures AcceptSentences(body, SpecialEscapes)
      == When(Contains(body, @"\s"), AcceptSentence("espaces"))
      + When(Contains(body, @"\d"), AcceptSentence("chiffres"))
      + When(Contains(body, @"\w"), AcceptSentence("caractères de mot"))
  {
    var t := SpecialEscapes;
    assert t[..3] == t && t[..3][..2] == t[..2] && t[..2][..1] == t[..1] && t[..1][..0] == [];
    assert AcceptSentences(body, t[..1]) == When(Contains(body, @"\s"), AcceptSentence("espaces"));
    assert AcceptSentences(body, t[..2]) == AcceptSentences(body, t[..1]) + When(Contains(body, @"\d"), AcceptSentence("chiffres"));
    assert AcceptSentences(body, t[..3]) == AcceptSentences(body, t[..2]) + When(Contains(body, @"\w"), AcceptSentence("caractères de mot"));
  }

  /** Each group body holding `|` is listed as two alternatives or more. */
  lemma AlternativesAtLeastTwo(group: string)
    requires '|' in group
    ensures |Split(group, '|')| >= 2
  {
  }

  /** The number written in the count sentence is the number of group bodies. */
  lemma CountSentenceStates(n: nat)
    ensures exists digits :: (AllDigits(digits) && ParseDecimal(digits) == n
      && CountSentence(n) == "Elle contient " + digits + " groupe(s) de capture pour extraire des " + "parties spécifiques du texte.")
  {
    ParseNatToString(n);
  }

  lemma {:induction false} BraceSentencesLength(qs: seq<Brace>)
    ensures |BraceSentences(qs)| == |qs|
    ensures forall i | 0 <= i < |qs| :: BraceSentences(qs)[i] == BraceSentence(qs[i])
    decreases |qs|
  {
    if qs != [] {
      var init := qs[..|qs| - 1];
      BraceSentencesLength(init);
      var r := BraceSentences(qs);
      var prev := BraceSentences(init);
      var last := BraceSentence(qs[|qs| - 1]);
      assert r == prev + [last];
      forall i | 0 <= i < |qs|
        ensures r[i] == BraceSentence(qs[i])
      {
        if i < |init| {
          assert init[i] == qs[i];
        } else {
          assert i == |qs| - 1;
          assert (prev + [last])[i] == last;
        }
      }
    }
  }

  /**
   * Every brace quantifier written in the pattern (`{n}`, `{n,}` or `{n,m}`) is described:
   * by an exact count when no upper bound is written, by a range otherwise.
   */
  lemma QuantifierDescribed(pattern: string, i: nat, low: string, comma: bool, high: string)
    requires low != [] && AllDigits(low) && AllDigits(high) && (comma || high == [])
    requires i <= |pattern| && StartsWith(pattern[i..], BraceText(low, comma, high))
    ensures BraceSentence(Brace(low, high)) in QuantifierSentences(pattern)
    ensures BraceSentence(Brace(low, high)) == if high == [] then "Elle impose exactement " + low + " occurrences d'un élément."
      else "Elle impose entre " + low + " et " + high + " occurrences d'un élément."
  {
    BracesFindAll(pattern, i, low, comma, high);
    var qs := Braces(pattern);
    BraceSentencesLength(qs);
    var k :| 0 <= k < |qs| && qs[k] == Brace(low, high);
    assert QuantifierSentences(pattern)[k] == BraceSentence(Brace(low, high));
  }

  /** Sentences that cannot be the escaped-characters note: they do not open with its words. */
  predicate NotEscapedNote(s: string) {
    !StartsWith(s, NoteHead)
  }

  lemma EscapedNoteIsNote()
    ensures !NotEscapedNote(EscapedSpecialSentence)
  {
  }

  /** A sentence whose fixed head already departs from the note's opening words. */
  lemma HeadDecides(head: string, tail: string, k: nat)
    requires k < |head| && k < |NoteHead| && head[k] != NoteHead[k]
    ensures NotEscapedNote(head + tail)
  {
    assert (head + tail)[k] == head[k];
  }

  lemma AcceptSentenceNotNote(description: string)
    ensures NotEscapedNote(AcceptSentence(description))
  {
    HeadDecides("Elle accepte des ", description + " dans une classe de caractères.", 5);
    assert AcceptSentence(description) == "Elle accepte des " + (description + " dans une classe de caractères.");
  }

  lemma RangeSentenceNotNote(ranges: seq<string>)
    ensures NotEscapedNote(RangeSentence(ranges))
  {
    var head := "Elle contient une classe de caractères " + "incluant: ";
    HeadDecides(head, Join(", ", ranges) + ".", 14);
    assert RangeSentence(ranges) == head + (Join(", ", ranges) + ".");
  }

  lemma AlternativeSentenceNotNote(group: string)
    ensures NotEscapedNote(AlternativeSentence(group))
  {
    var head := "Elle contient une alternative entre " + "plusieurs options: ";
    var tail := Join(", ", Quoted(Split(group, '|'))) + ".";
    HeadDecides(head, tail, 14);
    assert AlternativeSentence(group) == head + tail;
  }

  lemma BraceSentenceNotNote(q: Brace)
    ensures NotEscapedNote(BraceSentence(q))
  {
    var last := " occurrences d'un élément.";
    if q.high != [] {
      AppendAssoc5("Elle impose entre ", q.low, " et ", q.high, last);
      HeadDecides("Elle impose entre ", q.low + " et " + q.high + last, 5);
    } else {
      AppendAssoc("Elle impose exactement ", q.low, last);
      HeadDecides("Elle impose exactement ", q.low + last, 5);
    }
  }

  lemma CountSentenceNotNote(n: nat)
    ensures NotEscapedNote(CountSentence(n))
  {
    var head, digits := "Elle contient ", NatToString(n);
    var middle := " groupe(s) de capture pour extraire des ";
    var last := "parties spécifiques du texte.";
    AppendAssoc4(head, digits, middle, last);
    var rest := digits + middle + last;
    assert rest[0] == digits[0];
    assert |head| == 14 && (head + rest)[14] == rest[0];
    assert NoteHead[14] == 'd';
    DiffersAt(head + rest, 14);
  }

  /** A sentence that departs from the note's opening words at some position. */
  lemma DiffersAt(s: string, k: nat)
    requires k < |s| && k < |NoteHead| && s[k] != NoteHead[k]
    ensures NotEscapedNote(s)
  {
    assert |NoteHead| <= |s| ==> s[..|NoteHead|][k] == s[k];
  }


  lemma {:induction false} ClassSentencesNotNote(bodies: seq<string>)
    ensures forall s | s in ClassSentences(bodies) :: NotEscapedNote(s)
    decreases |bodies|
  {
    if bodies != [] {
      ClassSentencesNotNote(bodies[..|bodies| - 1]);
      var body := bodies[|bodies| - 1];
      AcceptSentencesBound(body, SpecialEscapes);
      forall s | s in AcceptSentences(body, SpecialEscapes)
        ensures NotEscapedNote(s)
      {
        var i :| 0 <= i < |SpecialEscapes| && s == AcceptSentence(SpecialEscapes[i].1) && Contains(body, SpecialEscapes[i].0);
        AcceptSentenceNotNote(SpecialEscapes[i].1);
      }
      RangeSentenceNotNote(Ranges(body));
    }
  }

  lemma {:induction false} AlternativeSentencesNotNote(groups: seq<string>)
    ensures forall s | s in AlternativeSentences(groups) :: NotEscapedNote(s)
    decreases |groups|
  {
    if groups != [] {
      AlternativeSentencesNotNote(groups[..|groups| - 1]);
      AlternativeSentenceNotNote(groups[|groups| - 1]);
    }
  }

  lemma {:induction false} BraceSentencesNotNote(qs: seq<Brace>)
    ensures forall s | s in BraceSentences(qs) :: NotEscapedNote(s)
    decreases |qs|
  {
    if qs != [] {
      BraceSentencesNotNote(qs[..|qs| - 1]);
      BraceSentenceNotNote(qs[|qs| - 1]);
    }
  }

  /** The detectors that run after the escaped-characters detector never produce its sentence. */
  lemma LaterDetectorsNotNote(pattern: string)
    ensures EscapedSpecialSentence !in BracketClassSentences(pattern) + GroupSentences(pattern) + QuantifierSentences(pattern)
  {
    EscapedNoteIsNote();
    if '[' in pattern && ']' in pattern {
      ClassSentencesNotNote(Scan(pattern, '[', ']'));
    }
    var groups := Scan(pattern, '(', ')');
    if '(' in pattern && ')' in pattern && groups != [] {
      AlternativeSentencesNotNote(groups);
      CountSentenceNotNote(|groups|);
    }
    BraceSentencesNotNote(Braces(pattern));
  }

  /** Neither do the detectors that run before it. */
  lemma EarlierDetectorsNotNote(pattern: string)
    ensures EscapedSpecialSentence !in LiteralClassSentences(pattern) + EscapeClassSentences(pattern) + RepetitionSentences(pattern)
  {
  }

  lemma CountOnlyMiddle<T>(a: seq<T>, b: seq<T>, c: seq<T>, x: T)
    requires x !in a && x !in c
    ensures multiset(a + b + c)[x] == multiset(b)[x]
  {
    assert multiset(a + b + c) == multiset(a) + multiset(b) + multiset(c);
  }

  /** The escaped-characters note is given at most once, and exactly when `\-` or `\\'` occurs. */
  lemma EscapedNoteOnce(pattern: string)
    ensures multiset(GenericSentences(pattern))[EscapedSpecialSentence] == if HasEscapedSpecial(pattern) then 1 else 0
  {
    var before := LiteralClassSentences(pattern) + EscapeClassSentences(pattern) + RepetitionSentences(pattern);
    var after := BracketClassSentences(pattern) + GroupSentences(pattern) + QuantifierSentences(pattern);
    EarlierDetectorsNotNote(pattern);
    LaterDetectorsNotNote(pattern);
    CountOnlyMiddle(before, EscapedSpecialSentences(pattern), after, EscapedSpecialSentence);
  }
}
