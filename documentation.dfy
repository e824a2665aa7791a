/**
 * The explanation generator as a whole: the anchor sentence, the table of recognised patterns,
 * the generic detectors for everything else, and the assembly of the final text. The function
 * `Explain` says what is said about a pattern; `Render` turns it into the text; the method
 * `GenerateDocumentation` builds that text step by step.
 */
module Documentation {
  import opened Text
  import opened Scanners
  import opened Classifier
  import opened Heuristics

  /**
   * Either a document, or the generic failure. The failure happens when the generic analysis
   * runs but neither bracket test nor parenthesis test imported `re`, so the brace detector
   * reads the unbound local name.
   */
  datatype Outcome = Explained(doc: Document) | Crashed

  /** What is said about a pattern. */
  function Explain(pattern: string): (o: Outcome)
    ensures o.Crashed? <==> Recognize(pattern).None? && !ImportsRe(pattern)
    ensures Recognize(pattern).Some? ==> o == Explained(EntryDocument(Recognize(pattern).value, AnchorSentence(pattern)))
    ensures Recognize(pattern).None? && ImportsRe(pattern) ==>
      o == Explained(Document([AnchorSentence(pattern)] + GenericSentences(pattern), [], []))
  {
    var d := Classify(pattern);
    if |d.sentences| > 2 then Explained(d)
    else if !ImportsRe(pattern) then Crashed
    else Explained(Document(d.sentences + GenericSentences(pattern), d.valid, d.invalid))
  }

  const ValidTitle := "Exemples valides :"
  const InvalidTitle := "Exemples invalides :"
  const NoteStart := "Note : Vous pouvez enrichir cette "
  const NoteMiddle := "documentation en ajoutant vos propres "
  const NoteEnd := "exemples valides et invalides."
  /** The closing remark of a document without examples. */
  const NoteLine := NoteStart + NoteMiddle + NoteEnd

  /** Each example as a list item. */
  function Bullets(examples: seq<string>): (r: seq<string>)
    ensures |r| == |examples| && forall i | 0 <= i < |r| :: r[i] == "- " + examples[i]
  {
    seq(|examples|, i requires 0 <= i < |examples| => "- " + examples[i])
  }

  /** The two lines opening an example block: a blank line, then the title. */
  function Heading(title: string): string {
    "\n\n" + title + "\n"
  }

  /**
   * The final text: the sentences one per line, then the valid examples, then the invalid
   * examples, each block only when it has examples, and the note only when both lists are empty.
   */
  function Format(d: Document): string {
    var text := Join("\n", d.sentences);
    var text := if d.valid != [] then text + Heading(ValidTitle) + Join("\n", Bullets(d.valid)) else text;
    var text := if d.invalid != [] then text + Heading(InvalidTitle) + Join("\n", Bullets(d.invalid)) else text;
    if d.valid == [] && d.invalid == [] then text + "\n\n" + NoteLine else text
  }

  const FallbackHead := "Impossible de générer la documentation " + "automatiquement : "
  const FallbackTail := "\n\nVeuillez décrire manuellement ce que " + "fait cette expression régulière."

  /** The text returned when the generator fails; the message is whatever the failure says. */
  function Fallback(message: string): string {
    FallbackHead + message + FallbackTail
  }

  function Render(o: Outcome, message: string): string {
    match o
    case Explained(d) => Format(d)
    case Crashed => Fallback(message)
  }

  // ---------------------------------------------------------------------------------------
  // The generator, step by step

  /** The anchor test on the first and last characters. */
  method DescribeAnchors(pattern: string) returns (sentence: string)
    ensures sentence == AnchorSentence(pattern)
  {
    if StartsWith(pattern, "^") && EndsWith(pattern, "$") {
      sentence := AnchorFull;
    } else if StartsWith(pattern, "^") {
      sentence := AnchorStart;
    } else if EndsWith(pattern, "$") {
      sentence := AnchorEnd;
    } else {
      sentence := AnchorAnywhere;
    }
  }

  /** The anchor sentence, then the table lookup: the document after the classification stage. */
  method ClassifyPattern(pattern: string) returns (doc: seq<string>, valid: seq<string>, invalid: seq<string>)
    ensures Document(doc, valid, invalid) == Classify(pattern)
  {
    var anchor := DescribeAnchors(pattern);
    doc := [anchor];
    valid := [];
    invalid := [];
    if pattern == UpperCaseNameRegex {
      doc, valid, invalid := UpperCaseNameSentences, UpperCaseNameValid, UpperCaseNameInvalid;
    } else if Contains(pattern, StudentIdRegex) {
      doc, valid, invalid := StudentIdSentences, StudentIdValid, StudentIdInvalid;
    } else if Contains(pattern, DayMonthYearRegex) {
      doc, valid, invalid := DayMonthYearSentences, DayMonthYearValid, DayMonthYearInvalid;
    } else if Contains(pattern, MonthYearRegex) {
      doc, valid, invalid := MonthYearSentences, MonthYearValid, MonthYearInvalid;
    } else if '@' in pattern && Contains(pattern, @"\.") {
      doc := doc + EmailSentences;
      valid, invalid := EmailValid, EmailInvalid;
    }
  }


  /** The range sentence of one class body, from the list of ranges it names. */
  method DescribeRanges(body: string, doc: seq<string>) returns (doc': seq<string>)
    ensures doc' == doc + RangeSentences(body)
  {
    doc' := doc;
    RangeNeedsHyphen(body);
    if '-' in body {
      var ranges: seq<string> := [];
      if Contains(body, "A-Z") {
        ranges := ranges + ["lettres majuscules (A-Z)"];
      }
      if Contains(body, "a-z") {
        ranges := ranges + ["lettres minuscules (a-z)"];
      }
      if Contains(body, "0-9") {
        ranges := ranges + ["chiffres (0-9)"];
      }
      assert ranges == Ranges(body);
      if ranges != [] {
        doc' := doc' + [RangeSentence(ranges)];
      }
    }
  }

  lemma AcceptSentencesStep(body: string, table: seq<(string, string)>, m: nat)
    requires m < |table|
    ensures AcceptSentences(body, table[..m + 1])
      == AcceptSentences(body, table[..m]) + When(Contains(body, table[m].0), AcceptSentence(table[m].1))
  {
    var prefix := table[..m + 1];
    assert prefix[..|prefix| - 1] == table[..m] && prefix[|prefix| - 1] == table[m];
  }

  /** The sentences of one class body: the range sentence, then one per escape found. */
  method DescribeClass(body: string, doc: seq<string>) returns (doc': seq<string>)
    ensures doc' == doc + ClassBodySentences(body)
  {
    doc' := DescribeRanges(body, doc);
    var before := doc';
    for m := 0 to |SpecialEscapes|
      invariant doc' == before + AcceptSentences(body, SpecialEscapes[..m])
    {
      var (escape, description) := SpecialEscapes[m];
      AcceptSentencesStep(body, SpecialEscapes, m);
      if Contains(body, escape) {
        doc' := doc' + [AcceptSentence(description)];
      }
    }
    assert SpecialEscapes[..|SpecialEscapes|] == SpecialEscapes;
    AppendAssoc(doc, RangeSentences(body), AcceptSentences(body, SpecialEscapes));
  }

  /** Detector 1. */
  method DescribeLiteralClasses(pattern: string, doc: seq<string>) returns (doc': seq<string>)
    ensures doc' == doc + LiteralClassSentences(pattern)
  {
    doc' := doc;
    if Contains(pattern, "[A-Z]") { doc' := doc' + [UpperRangeSentence]; }
    if Contains(pattern, "[a-z]") { doc' := doc' + [LowerRangeSentence]; }
    if Contains(pattern, "[0-9]") { doc' := doc' + [DigitRangeSentence]; }
  }

  /** Detector 2. */
  method DescribeEscapes(pattern: string, doc: seq<string>) returns (doc': seq<string>)
    ensures doc' == doc + EscapeClassSentences(pattern)
  {
    doc' := doc;
    if Contains(pattern, @"\d") { doc' := doc' + [DigitEscapeSentence]; }
    if Contains(pattern, @"\w") { doc' := doc' + [WordEscapeSentence]; }
    if Contains(pattern, @"\s") { doc' := doc' + [SpaceEscapeSentence]; }
  }

  /** Detector 3. */
  method DescribeRepetition(pattern: string, doc: seq<string>) returns (doc': seq<string>)
    ensures doc' == doc + RepetitionSentences(pattern)
  {
    doc' := doc;
    if '*' in pattern { doc' := doc' + [StarSentence]; }
    if '+' in pattern { doc' := doc' + [PlusSentence]; }
    if '?' in pattern { doc' := doc' + [OptionalSentence]; }
  }

  /** Detectors 1 to 4, whose tests are plain containment tests on the whole pattern. */
  method DescribeByContainment(pattern: string, doc: seq<string>) returns (doc': seq<string>)
    ensures doc' == doc + (LiteralClassSentences(pattern) + EscapeClassSentences(pattern) + RepetitionSentences(pattern))
      + EscapedSpecialSentences(pattern)
  {
    doc' := DescribeLiteralClasses(pattern, doc);
    doc' := DescribeEscapes(pattern, doc');
    doc' := DescribeRepetition(pattern, doc');
    AppendAssoc(doc, LiteralClassSentences(pattern), EscapeClassSentences(pattern));
    AppendAssoc(doc, LiteralClassSentences(pattern) + EscapeClassSentences(pattern), RepetitionSentences(pattern));
    if Contains(pattern, @"\-") || Contains(pattern, @"\\'") {
      doc' := doc' + [EscapedSpecialSentence];
    }
  }

  /** Detector 5: the sentences of every class body, body after body. */
  method DescribeBrackets(pattern: string, doc: seq<string>) returns (doc': seq<string>)
    requires '[' in pattern && ']' in pattern
    ensures doc' == doc + BracketClassSentences(pattern)
  {
    doc' := doc;
    var classes := Scan(pattern, '[', ']');
    for k := 0 to |classes|
      invariant doc' == doc + ClassSentences(classes[..k])
    {
      assert classes[..k + 1][..k] == classes[..k];
      doc' := DescribeClass(classes[k], doc');
      AppendAssoc(doc, ClassSentences(classes[..k]), ClassBodySentences(classes[k]));
    }
    assert classes[..|classes|] == classes;
  }

  /** Detector 6: the group count, then one sentence per group offering alternatives. */
  method DescribeGroups(pattern: string, doc: seq<string>) returns (doc': seq<string>)
    requires '(' in pattern && ')' in pattern
    ensures doc' == doc + GroupSentences(pattern)
  {
    doc' := doc;
    var groups := Scan(pattern, '(', ')');
    if groups != [] {
      doc' := doc' + [CountSentence(|groups|)];
      var afterCount := doc';
      for k := 0 to |groups|
        invariant doc' == afterCount + AlternativeSentences(groups[..k])
      {
        assert groups[..k + 1][..k] == groups[..k];
        if '|' in groups[k] {
          doc' := doc' + [AlternativeSentence(groups[k])];
        }
      }
      assert groups[..|groups|] == groups;
      AppendAssoc(doc, [CountSentence(|groups|)], AlternativeSentences(groups));
    }
  }

  /**
   * Detectors 5 and 6. `imported` tells whether one of their two function-local imports of
   * `re` ran.
   */
  method DescribeByScanning(pattern: string, doc: seq<string>) returns (doc': seq<string>, imported: bool)
    ensures imported == ImportsRe(pattern)
    ensures doc' == doc + (BracketClassSentences(pattern) + GroupSentences(pattern))
  {
    doc' := doc;
    imported := false;
    if '[' in pattern && ']' in pattern {
      imported := true;
      doc' := DescribeBrackets(pattern, doc');
    }
    var afterClasses := doc';
    if '(' in pattern && ')' in pattern {
      imported := true;
      doc' := DescribeGroups(pattern, doc');
    }
    AppendAssoc(doc, BracketClassSentences(pattern), GroupSentences(pattern));
  }

  /** The brace detector: one sentence per quantifier found. */
  method DescribeQuantifiers(pattern: string, doc: seq<string>) returns (doc': seq<string>)
    ensures doc' == doc + QuantifierSentences(pattern)
  {
    doc' := doc;
    var quantifiers := Braces(pattern);
    for k := 0 to |quantifiers|
      invariant doc' == doc + BraceSentences(quantifiers[..k])
    {
      assert quantifiers[..k + 1][..k] == quantifiers[..k];
      var q := quantifiers[k];
      if q.high != [] {
        doc' := doc' + ["Elle impose entre " + q.low + " et " + q.high + " occurrences d'un élément."];
      } else {
        doc' := doc' + ["Elle impose exactement " + q.low + " occurrences d'un élément."];
      }
    }
    assert quantifiers[..|quantifiers|] == quantifiers;
  }

  /** The final text, appended piece by piece. */
  method FormatDocument(doc: seq<string>, valid: seq<string>, invalid: seq<string>) returns (documentation: string)
    ensures documentation == Format(Document(doc, valid, invalid))
  {
    documentation := Join("\n", doc);
    if valid != [] {
      documentation := documentation + Heading(ValidTitle);
      documentation := documentation + Join("\n", Bullets(valid));
    }
    if invalid != [] {
      documentation := documentation + Heading(InvalidTitle);
      documentation := documentation + Join("\n", Bullets(invalid));
    }
    if valid == [] && invalid == [] {
      documentation := documentation + "\n\n" + NoteLine;
    }
  }

  lemma RegroupDetectors<T>(x: seq<T>, a: seq<T>, e: seq<T>, bg: seq<T>, q: seq<T>)
    ensures x + a + e + bg + q == x + (a + e + (bg + q))
  {
  }

  /** The whole generator: the text it returns for a pattern, given the failure message it would report. */
  method GenerateDocumentation(pattern: string, failureMessage: string) returns (documentation: string)
    ensures documentation == Render(Explain(pattern), failureMessage)
  {
    var doc, valid, invalid := ClassifyPattern(pattern);
    if |doc| <= 2 {
      assert Recognize(pattern).None? && valid == [] && invalid == [];
      var anchor := doc;
      var imported;
      doc := DescribeByContainment(pattern, doc);
      doc, imported := DescribeByScanning(pattern, doc);
      if !imported {
        assert Explain(pattern) == Crashed;
        documentation := Fallback(failureMessage);
        return;
      }
      doc := DescribeQuantifiers(pattern, doc);
      RegroupDetectors(anchor, LiteralClassSentences(pattern) + EscapeClassSentences(pattern) + RepetitionSentences(pattern),
        EscapedSpecialSentences(pattern), BracketClassSentences(pattern) + GroupSentences(pattern), QuantifierSentences(pattern));
      assert Explain(pattern) == Explained(Document(doc, valid, invalid));
    } else {
      assert Explain(pattern) == Explained(Document(doc, valid, invalid));
    }
    documentation := FormatDocument(doc, valid, invalid);
  }
}
