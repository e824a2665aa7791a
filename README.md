# One trick RegEx — the explanation generator, the reply cleaner and the test table

This project models, in Dafny, the deterministic core of a small regex helper
application. The application has two variants, `one_trick_albert_regex.py` and
`one_trick_regex.py`, and both contain the same core:

- **`generer_documentation`** turns a regular expression into a French
  explanation. It works in four steps:
  - it chooses one of four anchor sentences (`^…$`, `^…`, `…$`, anywhere);
  - it tries a five-entry table of recognised patterns in a fixed order;
  - if no entry matched, it runs a fixed battery of textual detectors. These
    look for literal classes, escapes and repetition symbols, for escaped
    specials, for the bodies of `[...]` and `(...)` found by non-greedy
    `findall`, and for brace quantifiers `{n}` / `{n,}` / `{n,m}`;
  - it lays out the sentences, the example blocks and the closing note.

  Any exception gives the failure text instead.
- **The cleaning of a language-model reply** that should hold a regex. It keeps
  one of three things:
  - the text between the first pair of backticks;
  - otherwise, the first whitespace-separated word holding a regex
    metacharacter;
  - otherwise, the reply unchanged.
- **The test button.** Every non-blank test line gives one row: its 1-based
  number, the line, ✓ or ✗, the match, and the groups. A summary then counts
  the ticks. An error message replaces the table when the pattern does not
  compile.

The two variants carry the same `generer_documentation`. Its lines in
`one_trick_regex.py` are those of `one_trick_albert_regex.py` minus 46, so
`one_trick_albert_regex.py:52` is `one_trick_regex.py:6`. The model is written
once, and the table cites either file.

Modules:

| module | file | contents |
|---|---|---|
| `Text` | `text.dfy` | Python's string operations as the core uses them: `in` on strings, `startswith`, `endswith`, `join`, `split`, `str(n)`, whitespace |
| `Scanners` | `scanners.dfy` | the non-greedy `findall` of `[...]` / `(...)` bodies, and the brace-quantifier scanner |
| `Classifier` | `classifier.dfy` | the anchor sentence and the table of recognised patterns |
| `Heuristics` | `heuristics.dfy` | the generic detectors, as specification functions |
| `Documentation` | `documentation.dfy` | `Explain` (what is said), `Format` / `Render` (the text), and the step-by-step imperative generator proved equal to them |
| `Layout` | `layout.dfy` | how the text reads back line by line, and when the note and the failure text appear |
| `Generation` | `generation.dfy` | the cleaning of a generated reply |
| `Tester` | `tester.dfy` | the test loop, the results table and the summary |

The generator fails in one way. Both `import re` statements inside the
function make `re` a local name of the whole function. When the generic
analysis runs and neither the bracket test nor the parenthesis test executed
its import, the brace detector's `re.compile` reads an unbound local. The
handler catches that error, so the result is the failure text. The model has
this as the outcome `Crashed` of `Documentation.Explain`, and the exception's
message is a parameter. For example, `abc`, `a{3}` and `a{2,4}` give the
failure text, not a quantifier sentence. No pattern without both `[` and `]`
and without both `(` and `)` ever gets a quantifier sentence.

The upper-case-name entry is hit only by the exact text `^[A-Z][A-Z\s\-\']*$`,
which has a backslash before the apostrophe. The same regex written without
that backslash, as the examples offered in the user interface write it, falls
through to the generic analysis. The model follows the code here too.

## Model

| member | source | states |
|---|---|---|
| Classifier.AnchorSentence | one_trick_albert_regex.py:60-67 | exactly one of the four anchor sentences is chosen, each iff its `startswith('^')` / `endswith('$')` combination holds (the empty pattern gives "anywhere") |
| Documentation.DescribeAnchors | one_trick_albert_regex.py:59-67 | the imperative anchor test returns the sentence AnchorSentence specifies |
| Classifier.FirstHitWins | one_trick_albert_regex.py:70-105 | the table is tried in order and the first entry whose rule the pattern hits wins; nothing is recognised iff no rule is hit |
| Classifier.Hits | one_trick_albert_regex.py:70-101 | defines the rule of each entry: equality for the upper-case name, containment of the reference text for INE and both dates, `@` and `\.` both present for email; FirstHitWins and Classify state what follows from it |
| Classifier.Recognize | one_trick_albert_regex.py:70-105 | defines recognition as the first hit in the order upper-case name, INE, JJ-MM-AAAA, MM/AAAA, email; FirstHitWins proves it is the earliest entry hit |
| Classifier.EntryDocument | one_trick_albert_regex.py:70-105 | the upper-case name, JJ-MM-AAAA and MM/AAAA entries have 4 sentences, INE 3, and email 3 (the anchor sentence followed by its two); every entry sets non-empty valid and invalid lists |
| Classifier.EntryReplacesAnchor | one_trick_albert_regex.py:70-99 | the first four entries replace the anchor sentence: their document is the same whatever the anchor, and none of their sentences is an anchor sentence; the email entry keeps the anchor first |
| Classifier.Classify | one_trick_albert_regex.py:55-108 | after the table the document has at most two sentences iff no entry was recognised, so `len(doc) <= 2` is the "nothing recognised" test; unrecognised leaves the anchor sentence alone with no examples |
| Documentation.ClassifyPattern | one_trick_albert_regex.py:55-105 | the if/elif chain over the table builds the document Classify specifies |
| Heuristics.RangeNeedsHyphen | one_trick_albert_regex.py:143-153 | every range named holds `-`, so a class body gives one range sentence iff it names `A-Z`, `a-z` or `0-9` (in that order) |
| Heuristics.AcceptSentencesBound | one_trick_albert_regex.py:156-159 | a class body gives at most one sentence per escape looked for; a sentence is given iff the body contains its escape (both directions) |
| Heuristics.AcceptSentencesInOrder | one_trick_albert_regex.py:156-159 | inside a class body the escape sentences come in the order `\s`, `\d`, `\w`, each exactly when the body holds that escape |
| Heuristics.AlternativesAtLeastTwo | one_trick_albert_regex.py:170-171 | a group body holding a vertical bar is listed as at least two alternatives |
| Heuristics.AlternativesRoundTrip | one_trick_albert_regex.py:169-172 | the alternatives sentence lists the pieces of the group body: each listed item is a piece in backticks holding no vertical bar, and joining the pieces at the vertical bar gives back the body |
| Heuristics.CountSentenceStates | one_trick_albert_regex.py:166-167 | the count sentence writes, in decimal, exactly the number of group bodies found |
| Heuristics.BraceSentencesLength | one_trick_albert_regex.py:176-181 | one sentence per brace quantifier, the k-th describing the k-th quantifier |
| Heuristics.QuantifierDescribed | one_trick_albert_regex.py:175-181 | every `{n}`, `{n,}` or `{n,m}` written in the pattern gets its sentence: "exactement n" without an upper bound, "entre n et m" with one |
| Heuristics.EscapedNoteOnce | one_trick_regex.py:88-89 | the escaped-specials sentence appears at most once among the generic sentences, and exactly when `\-` or `\\'` occurs |
| Heuristics.LaterDetectorsNotNote | one_trick_regex.py:92-135 | no class, group or quantifier sentence is the escaped-specials sentence |
| Heuristics.EarlierDetectorsNotNote | one_trick_regex.py:64-86 | no literal-class, escape or repetition sentence is the escaped-specials sentence |
| Heuristics.LiteralClassSentences | one_trick_albert_regex.py:110-115 | defines detector 1: the `[A-Z]`, `[a-z]`, `[0-9]` sentences, each iff its text occurs, in that order; DescribeLiteralClasses is proved to append exactly these |
| Heuristics.EscapeClassSentences | one_trick_albert_regex.py:118-123 | defines detector 2: the `\d`, `\w`, `\s` sentences, each iff its text occurs, in that order |
| Heuristics.RepetitionSentences | one_trick_albert_regex.py:126-131 | defines detector 3: the `*`, `+`, `?` sentences, each iff the symbol occurs, in that order |
| Heuristics.EscapedSpecialSentences | one_trick_albert_regex.py:134-135 | defines detector 4: the escaped-specials sentence iff `\-` or `\\'` occurs; EscapedNoteOnce proves it is the only source of that sentence |
| Heuristics.ClassBodySentences | one_trick_albert_regex.py:143-159 | defines the sentences of one class body: the range sentence, then the escape sentences; RangeNeedsHyphen, AcceptSentencesBound and AcceptSentencesInOrder state their content |
| Heuristics.BracketClassSentences | one_trick_albert_regex.py:138-159 | defines detector 5: the sentences of every `[...]` body found, body after body, when the pattern holds both `[` and `]` |
| Heuristics.GroupSentences | one_trick_albert_regex.py:162-172 | defines detector 6: with at least one `(...)` body, the count sentence then one alternatives sentence per body holding a vertical bar |
| Heuristics.QuantifierSentences | one_trick_albert_regex.py:175-181 | defines detector 7: one sentence per brace quantifier found; BraceSentencesLength and QuantifierDescribed state their content |
| Heuristics.GenericSentences | one_trick_albert_regex.py:108-181 | defines what the generic analysis appends: detectors 1 to 7 in the order of the source |
| Heuristics.ImportsRe | one_trick_albert_regex.py:138-163 | defines when a function-local `import re` runs: the pattern holds both `[` and `]`, or both `(` and `)`; Explain crashes exactly when it does not |
| Documentation.Explain | one_trick_albert_regex.py:52-200 | a recognised pattern gets its entry's document; otherwise the anchor sentence stays first and the detectors only append, in their fixed order; the run crashes exactly when nothing is recognised and the pattern holds neither both `[` and `]` nor both `(` and `)` |
| Documentation.DescribeLiteralClasses | one_trick_albert_regex.py:110-115 | appends the `[A-Z]`, `[a-z]`, `[0-9]` sentences, each iff its text occurs |
| Documentation.DescribeEscapes | one_trick_albert_regex.py:118-123 | appends the `\d`, `\w`, `\s` sentences, each iff its text occurs |
| Documentation.DescribeRepetition | one_trick_albert_regex.py:126-131 | appends the `*`, `+`, `?` sentences, each iff the symbol occurs |
| Documentation.DescribeByContainment | one_trick_albert_regex.py:110-135 | the first four detectors append their sentences in order, the escaped-specials sentence last |
| Documentation.DescribeRanges | one_trick_albert_regex.py:143-153 | the range loop over one class body appends the range sentence RangeSentences specifies |
| Documentation.DescribeClass | one_trick_albert_regex.py:143-159 | for one class body: the range sentence, then one sentence per `\s`, `\d`, `\w` found, in that order |
| Documentation.DescribeBrackets | one_trick_albert_regex.py:138-159 | the loop over the `[...]` bodies appends their sentences body after body |
| Documentation.DescribeGroups | one_trick_albert_regex.py:162-172 | with at least one `(...)` body: one count sentence, then one alternatives sentence per body holding a vertical bar, in order |
| Documentation.DescribeByScanning | one_trick_albert_regex.py:138-172 | the bracket and group detectors append in that order, and `re` is imported exactly when one of them runs |
| Documentation.DescribeQuantifiers | one_trick_albert_regex.py:175-181 | the loop over the brace matches appends one sentence per quantifier, in order |
| Documentation.FormatDocument | one_trick_albert_regex.py:184-197 | the `+=` assembly builds the text Format specifies |
| Documentation.GenerateDocumentation | one_trick_albert_regex.py:52-200 | the whole imperative generator returns Render(Explain(pattern)): the formatted explanation, or the failure text exactly on the crash |
| Documentation.Format | one_trick_albert_regex.py:184-197 | defines the final text: sentences joined by line breaks, each non-empty example block, the note iff both lists are empty; FormatLines and the ending lemmas state its layout |
| Documentation.Fallback | one_trick_albert_regex.py:199-200 | defines the failure text around the exception message; ProducedIsNotFallback proves no explanation equals it |
| Documentation.Render | one_trick_albert_regex.py:184-200 | defines the returned text: the formatted document, or the failure text on a crash; FallbackExactlyOnCrash proves the failure text comes exactly from a crash |
| Layout.FormatLines | one_trick_albert_regex.py:184-195 | the text reads back, line by line, as the sentences; then a blank line, the title and one item per example for each non-empty list; then the note iff both lists are empty |
| Layout.BlockLines | one_trick_albert_regex.py:186-192 | appending an example block adds a blank line, the title and one line per example |
| Layout.NoteLines | one_trick_albert_regex.py:194-195 | appending the note adds a blank line and the note line |
| Layout.LastInvalidExample | one_trick_albert_regex.py:76-105 | every entry's last invalid example is non-empty and does not end with a full stop |
| Layout.EntryEnding | one_trick_albert_regex.py:190-192 | a recognised pattern's text ends with the bullet `- ` of its last invalid example, so never with a full stop |
| Layout.NoteExactlyWithoutEntry | one_trick_albert_regex.py:186-195 | a produced text ends with the note iff no entry was recognised |
| Layout.NoteExactlyWhenUnrecognised | one_trick_regex.py:24-59 | for every explained pattern, the note ends the text iff no table entry recognised the pattern |
| Layout.ProducedIsNotFallback | one_trick_albert_regex.py:199-200 | no explanation text equals the failure text, whatever the failure message |
| Layout.FallbackExactlyOnCrash | one_trick_albert_regex.py:197-200 | the generator returns the failure text iff the run crashes |
| Scanners.CloseIndex | one_trick_albert_regex.py:141 | a non-greedy `(.*?)` body stops at the first closing delimiter, and only if no line break comes before it |
| Scanners.Scan | one_trick_albert_regex.py:141 | defines `re.findall` of a non-greedy delimited body; ScanStep and ScanNonEmpty fix its every body, their number and order, while ScanBodies, ScanFirst and ScanSound state what each body is |
| Scanners.ScanBodies | one_trick_albert_regex.py:141 | no body found holds the closing delimiter or a line break |
| Scanners.ScanNeedsDelimiters | one_trick_albert_regex.py:138-141 | without both delimiters nothing is found |
| Scanners.ScanNonEmpty | one_trick_albert_regex.py:165-166 | something is found iff a match starts somewhere |
| Scanners.ScanFirst | one_trick_albert_regex.py:259-261 | the first body found is the body of the leftmost match, the one `re.search` reports |
| Scanners.ScanSound | one_trick_albert_regex.py:141 | every body found occurs in the text between its two delimiters |
| Scanners.ScanStep | one_trick_albert_regex.py:141 | the bodies found are the leftmost match's body followed by the bodies found after its closing delimiter: one body per non-overlapping match, left to right |
| Scanners.DigitRun | one_trick_albert_regex.py:175 | the greedy `\d+`: the longest run of digits at the start |
| Scanners.BraceAt | one_trick_albert_regex.py:175 | a brace match has a non-empty run of digits as its first capture, a run of digits (possibly empty) as its second, and a length within the text |
| Scanners.BraceAtText | one_trick_albert_regex.py:175 | a brace match consumes exactly `{low}` or `{low,high}` and holds no other `{` |
| Scanners.BraceAtOf | one_trick_albert_regex.py:175 | brace-quantifier text at the start of a string is matched there with exactly its captures |
| Scanners.Braces | one_trick_albert_regex.py:176 | every capture pair found is a non-empty digit run and a (possibly empty) digit run; BracesStep and BracesNone fix the whole list |
| Scanners.BracesFindAll | one_trick_albert_regex.py:175-176 | every brace quantifier written anywhere in the pattern is among those found |
| Scanners.BracesSound | one_trick_albert_regex.py:175-176 | every capture pair found comes from brace-quantifier text written in the pattern |
| Scanners.BracesStep | one_trick_albert_regex.py:175-181 | the pairs found are those of the first quantifier text written in the pattern followed by the pairs found after it: one pair per quantifier, in order of appearance |
| Scanners.BracesNone | one_trick_albert_regex.py:175-176 | a pattern where no quantifier text is written gives no pair |
| Text.Split | one_trick_albert_regex.py:171 | splitting at the vertical bar gives at least one piece, none holding the separator |
| Text.JoinSplit | one_trick_albert_regex.py:171-172 | joining the pieces of a split at the separator gives back the split text |
| Text.ParseNatToString | one_trick_albert_regex.py:167 | the decimal text written for a count reads back as that count |
| Generation.Words | one_trick_albert_regex.py:263 | `split()` gives non-empty words holding no whitespace |
| Generation.WordsAround | one_trick_albert_regex.py:263 | a whitespace character separates words: the words of `a c b` are the words of `a` followed by the words of `b` |
| Generation.WordsOfWord | one_trick_albert_regex.py:263 | a non-empty text without whitespace is exactly one word; with WordsAround this determines `split()` on every text |
| Generation.WordsOccur | one_trick_albert_regex.py:263 | every word occurs in the reply |
| Generation.MetaWordExists | one_trick_albert_regex.py:262-266 | a reply holding a metacharacter has a word holding one, so the word loop always finds one |
| Generation.FirstMetaWordIsFirst | one_trick_albert_regex.py:264-267 | the loop stops at the first word holding a metacharacter |
| Generation.ExtractGeneratedRegex | one_trick_albert_regex.py:258-267 | the search and the word loop with `break` give what Extract specifies |
| Generation.Extract | one_trick_albert_regex.py:258-267 | defines the kept text: the first backtick body, else the first word with a metacharacter, else the reply; BacktickCase, MetaWordCase and UnchangedCase state each case |
| Generation.BacktickCase | one_trick_albert_regex.py:259-261 | with a backtick pair on one line, the result is the text between the first such pair, which holds no backtick and no line break |
| Generation.MetaWordCase | one_trick_albert_regex.py:262-267 | otherwise, with a metacharacter, the result is the first word holding one: non-empty, whitespace-free, occurring in the reply, after only words without one |
| Generation.UnchangedCase | one_trick_albert_regex.py:259-267 | with neither, the reply is kept unchanged |
| Tester.RowOf | one_trick_albert_regex.py:331-342 | a row is ✓ iff the search matched and ✗ otherwise; the found text is absent iff there was no match and is otherwise the whole match; the groups (and the named groups) are absent iff there was no match or none of them, and are otherwise those of the match |
| Tester.BuildRows | one_trick_regex.py:222-240 | the loop that skips blank lines builds the rows Rows specifies |
| Tester.Rows | one_trick_albert_regex.py:327-342 | defines the rows: one per non-blank line, in order, numbered from 1; RowsFaithful, RowsComplete and RowsCount state their content |
| Tester.RowsFaithful | one_trick_regex.py:223-240 | every row holds a non-blank line under its own 1-based number, with what the search returned on it; line numbers strictly increase |
| Tester.RowsComplete | one_trick_albert_regex.py:327-342 | every non-blank line has its row |
| Tester.RowsCount | one_trick_albert_regex.py:327-329 | never more rows than lines, and as many when no line is blank |
| Tester.MatchCountBounds | one_trick_albert_regex.py:356 | the match count is at most the row count; it is 0 iff no row is ✓, and the row count iff every row is ✓ |
| Tester.MatchCount | one_trick_albert_regex.py:356 | defines the count of rows marked ✓; MatchCountBounds states its bounds |
| Tester.Summary | one_trick_albert_regex.py:356-362 | defines the summary message; SummaryStates states which kind it is and what numbers it writes |
| Tester.SummaryStates | one_trick_albert_regex.py:356-362 | the summary is a warning iff there is no row and a success iff some row is ✓; the success message writes the match count and the row count, the failure message writes 0 and the row count |
| Tester.RunTests | one_trick_albert_regex.py:325-365 | a pattern that does not compile gives the error message alone; no tested line gives the warning alone, with no table; otherwise the table of rows and its summary |

## Left out

- The Streamlit interface and its state are left out because they are presentation: buttons, expanders, `st.session_state`, the default explanation text, the example and guide pages, and `st.rerun`.
- The pandas table, its colouring and `highlight_match` are left out because they are presentation only.
- The language-model calls are left out because they are network I/O to a foreign service: `generer_explication_api`, the HTTP request, the API key, and the error branches of the HTTP status. The reply text is the input of `Generation.Extract`.
- The regex engine is not modelled. Compiling, `search`, `groups()`, `groupdict()` and the flags are the host library's. The test loop takes `search` as a function parameter, or None when compilation failed.
- Tester.RunTests: models only a failure to compile. An exception raised while searching a line is not modelled, and neither is the flag combination.
- Tester.RowOf: keeps the groups as values. It does not model `str()` of the tuple and of the dictionary.
- The test text is taken as its list of lines. `splitlines()` itself is not modelled.
- Exception messages are not modelled. The text of the `UnboundLocalError`, and of a compile error, is an opaque string parameter.
- Scanners.DigitRun: `\d` is restricted to ASCII digits. Python's `\d` also accepts other Unicode decimal digits.
- Text.IsSpace: is the whitespace set of Python's `str.isspace`, written out. Unicode normalisation is not modelled.
- Layout.FormatLines: requires a document whose sentences and examples hold no line break. It is not proved that the long literal sentences of the table and of the detectors hold none. The explanation-level statements (Layout.NoteExactlyWhenUnrecognised, Layout.FallbackExactlyOnCrash) are therefore stated on how the text ends, not line by line.
