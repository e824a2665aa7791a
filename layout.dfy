/**
 * What the generated text looks like line by line: every sentence is exactly one line, the
 * example blocks follow the sentences, the closing note appears exactly when nothing was
 * recognised, and the failure text is never confused with an explanation.
 */
module Layout {
  import opened Text
  import opened Scanners
  import opened Classifier
  import opened Heuristics
  import opened Documentation

  predicate OneLine(s: string) {
    '\n' !in s
  }

  predicate AllOneLine(lines: seq<string>) {
    forall i | 0 <= i < |lines| :: OneLine(lines[i])
  }

  /** A document whose text can be read back line by line: something to say, and no embedded line breaks. */
  predicate WellFormed(d: Document) {
    d.sentences != [] && AllOneLine(d.sentences) && AllOneLine(d.valid) && AllOneLine(d.invalid)
  }

  /** The lines of the text of a document. */
  function Lines(d: Document): seq<string> {
    d.sentences
    + (if d.valid != [] then ["", ValidTitle] + Bullets(d.valid) else [])
    + (if d.invalid != [] then ["", InvalidTitle] + Bullets(d.invalid) else [])
    + (if d.valid == [] && d.invalid == [] then ["", NoteLine] else [])
  }

  // ---------------------------------------------------------------------------------------
  // Reading the text back

  lemma JoinLines(parts: seq<string>)
    requires parts != [] && AllOneLine(parts)
    ensures Split(Join("\n", parts), '\n') == parts
  {
    assert "\n" == ['\n'];
    SplitJoin(parts, '\n');
  }

  lemma BulletsOneLine(examples: seq<string>)
    requires AllOneLine(examples)
    ensures AllOneLine(Bullets(examples))
  {
    forall i | 0 <= i < |examples|
      ensures OneLine(Bullets(examples)[i])
    {
      assert Bullets(examples)[i] == "- " + examples[i];
    }
  }

  lemma Regroup<T>(text: seq<T>, c: T, title: seq<T>, body: seq<T>)
    ensures text + ([c, c] + title + [c]) + body == text + [c] + ([] + [c] + (title + [c] + body))
  {
  }

  /** Appending an example block adds a blank line, the title, and one line per example. */
  lemma BlockLines(text: string, title: string, examples: seq<string>)
    requires OneLine(title) && examples != [] && AllOneLine(examples)
    ensures Split(text + Heading(title) + Join("\n", Bullets(examples)), '\n')
      == Split(text, '\n') + ["", title] + Bullets(examples)
  {
    var body := Join("\n", Bullets(examples));
    BulletsOneLine(examples);
    JoinLines(Bullets(examples));
    var rest := title + ['\n'] + body;
    SplitAround(title, '\n', body);
    assert Split(title, '\n') == [title];
    assert Split(rest, '\n') == [title] + Bullets(examples);
    var tail := [] + ['\n'] + rest;
    SplitAround([], '\n', rest);
    assert Split(tail, '\n') == ["", title] + Bullets(examples);
    assert Heading(title) == ['\n', '\n'] + title + ['\n'];
    Regroup(text, '\n', title, body);
    SplitAround(text, '\n', tail);
    AppendAssoc(Split(text, '\n'), ["", title], Bullets(examples));
  }

  lemma NoteStartOneLine()
    ensures OneLine(NoteStart)
  {
  }

  lemma NoteMiddleOneLine()
    ensures OneLine(NoteMiddle)
  {
  }

  lemma NoteEndOneLine()
    ensures OneLine(NoteEnd)
  {
  }

  lemma NoteLineOneLine()
    ensures OneLine(NoteLine)
  {
    NoteStartOneLine();
    NoteMiddleOneLine();
    NoteEndOneLine();
  }

  lemma RegroupNote<T>(text: seq<T>, c: T, line: seq<T>)
    ensures text + [c, c] + line == text + [c] + ([] + [c] + line)
  {
  }

  /** Appending the note adds a blank line and the note line. */
  lemma NoteLines(text: string)
    ensures Split(text + "\n\n" + NoteLine, '\n') == Split(text, '\n') + ["", NoteLine]
  {
    NoteLineOneLine();
    var tail := [] + ['\n'] + NoteLine;
    SplitAround([], '\n', NoteLine);
    RegroupNote(text, '\n', NoteLine);
    SplitAround(text, '\n', tail);
  }

  /** The text of a well-formed document splits back into exactly its lines. */
  lemma FormatLines(d: Document)
    requires WellFormed(d)
    ensures Split(Format(d), '\n') == Lines(d)
  {
    var validLines := if d.valid != [] then ["", ValidTitle] + Bullets(d.valid) else [];
    var invalidLines := if d.invalid != [] then ["", InvalidTitle] + Bullets(d.invalid) else [];
    var noteLines: seq<string> := if d.valid == [] && d.invalid == [] then ["", NoteLine] else [];
    var t1 := Join("\n", d.sentences);
    JoinLines(d.sentences);
    var t2 := if d.valid != [] then t1 + Heading(ValidTitle) + Join("\n", Bullets(d.valid)) else t1;
    if d.valid != [] {
      BlockLines(t1, ValidTitle, d.valid);
      AppendAssoc(d.sentences, ["", ValidTitle], Bullets(d.valid));
    }
    assert Split(t2, '\n') == d.sentences + validLines;
    var t3 := if d.invalid != [] then t2 + Heading(InvalidTitle) + Join("\n", Bullets(d.invalid)) else t2;
    if d.invalid != [] {
      BlockLines(t2, InvalidTitle, d.invalid);
      AppendAssoc(d.sentences + validLines, ["", InvalidTitle], Bullets(d.invalid));
    }
    assert Split(t3, '\n') == d.sentences + validLines + invalidLines;
    var t4 := if d.valid == [] && d.invalid == [] then t3 + "\n\n" + NoteLine else t3;
    if d.valid == [] && d.invalid == [] {
      NoteLines(t3);
    }
    assert Split(t4, '\n') == d.sentences + validLines + invalidLines + noteLines;
    assert Format(d) == t4;
  }

  // ---------------------------------------------------------------------------------------
  // How the text ends

  /** A text that ends with t still does once something is put in front of it. */
  lemma EndsWithAfter(a: string, b: string, t: string)
    requires EndsWith(b, t)
    ensures EndsWith(a + b, t)
  {
    assert (a + b)[|a + b| - |t|..] == b[|b| - |t|..];
  }

  /** A join ends with its last part. */
  lemma {:induction false} JoinEndsWithLast(sep: string, parts: seq<string>)
    requires parts != []
    ensures EndsWith(Join(sep, parts), parts[|parts| - 1])
    decreases |parts|
  {
    if |parts| > 1 {
      JoinEndsWithLast(sep, parts[1..]);
      EndsWithAfter(parts[0] + sep, Join(sep, parts[1..]), parts[|parts| - 1]);
    }
  }

  /** A non-empty list of invalid examples ends the text with the bullet of its last example. */
  lemma EndsWithLastExample(d: Document)
    requires d.invalid != []
    ensures EndsWith(Format(d), "- " + d.invalid[|d.invalid| - 1])
  {
    var bullets := Bullets(d.invalid);
    var sentences := Join("\n", d.sentences);
    var text := if d.valid != [] then sentences + Heading(ValidTitle) + Join("\n", Bullets(d.valid)) else sentences;
    JoinEndsWithLast("\n", bullets);
    EndsWithAfter(text + Heading(InvalidTitle), Join("\n", bullets), bullets[|bullets| - 1]);
  }

  /** The last invalid example of every entry, and the character it ends with. */
  lemma LastInvalidExample(entry: Canonical, anchor: string)
    ensures var d := EntryDocument(entry, anchor); var last := d.invalid[|d.invalid| - 1];
      last != [] && last[|last| - 1] != '.'
  {
  }

  /**
   * The documents the generator produces: the entry's document for a recognised pattern, and
   * a document without examples otherwise.
   */
  predicate Produced(d: Document, entry: Option<Canonical>, anchor: string) {
    match entry
    case Some(e) => d == EntryDocument(e, anchor)
    case None => d.valid == [] && d.invalid == []
  }

  /** Every explanation is such a document. */
  lemma ExplainProduced(pattern: string)
    requires Explain(pattern).Explained?
    ensures Produced(Explain(pattern).doc, Recognize(pattern), AnchorSentence(pattern))
  {
  }

  /**
   * A recognised pattern's text ends with the bullet of its last invalid example, and so
   * never with a full stop.
   */
  lemma EntryEnding(entry: Canonical, anchor: string)
    ensures var d := EntryDocument(entry, anchor); EndsWith(Format(d), "- " + d.invalid[|d.invalid| - 1])
    ensures var text := Format(EntryDocument(entry, anchor)); text != [] && text[|text| - 1] != '.'
  {
    var d := EntryDocument(entry, anchor);
    var text, bullet := Format(d), "- " + d.invalid[|d.invalid| - 1];
    LastInvalidExample(entry, anchor);
    EndsWithLastExample(d);
    assert text[|text| - 1] == text[|text| - |bullet|..][|bullet| - 1] == bullet[|bullet| - 1];
  }

  /** Without examples, the text ends with the note. */
  lemma NoteEnding(d: Document)
    requires d.valid == [] && d.invalid == []
    ensures Format(d) == Join("\n", d.sentences) + "\n\n" + NoteLine
  {
  }

  /** The note ends a produced text exactly when no entry was recognised. */
  lemma NoteExactlyWithoutEntry(d: Document, entry: Option<Canonical>, anchor: string)
    requires Produced(d, entry, anchor)
    ensures EndsWith(Format(d), "\n\n" + NoteLine) <==> entry.None?
  {
    var suffix := "\n\n" + NoteLine;
    assert suffix[|suffix| - 1] == '.';
    if entry.Some? {
      EntryEnding(entry.value, anchor);
    } else {
      NoteEnding(d);
    }
  }

  /**
   * The closing note is the end of the text exactly when nothing was recognised: a recognised
   * pattern's text ends with an invalid example, and none of those ends like the note.
   */
  lemma NoteExactlyWhenUnrecognised(pattern: string)
    requires Explain(pattern).Explained?
    ensures EndsWith(Format(Explain(pattern).doc), "\n\n" + NoteLine) <==> Recognize(pattern).None?
  {
    ExplainProduced(pattern);
    NoteExactlyWithoutEntry(Explain(pattern).doc, Recognize(pattern), AnchorSentence(pattern));
  }

  /** No produced text is the failure text: they end differently. */
  lemma ProducedIsNotFallback(d: Document, entry: Option<Canonical>, anchor: string, failureMessage: string)
    requires Produced(d, entry, anchor)
    ensures Format(d) != Fallback(failureMessage)
  {
    var fallback := Fallback(failureMessage);
    assert fallback[|fallback| - 1] == '.' && fallback[|fallback| - 2] == 'e';
    if entry.Some? {
      EntryEnding(entry.value, anchor);
    } else {
      NoteEnding(d);
      var suffix := "\n\n" + NoteLine;
      assert suffix[|suffix| - 2] == 's';
    }
  }

  /**
   * The failure text is returned exactly when the generator crashes: no explanation ends the
   * way the failure text does.
   */
  lemma FallbackExactlyOnCrash(pattern: string, failureMessage: string)
    ensures Render(Explain(pattern), failureMessage) == Fallback(failureMessage) <==> Explain(pattern).Crashed?
  {
    if Explain(pattern).Explained? {
      ExplainProduced(pattern);
      ProducedIsNotFallback(Explain(pattern).doc, Recognize(pattern), AnchorSentence(pattern), failureMessage);
    }
  }
}
