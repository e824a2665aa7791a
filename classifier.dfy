/**
 * The first half of the explanation generator: the anchor sentence every explanation starts
 * with, and the fixed table of recognised patterns with their curated sentences and examples.
 * Recognition is textual (equality or substring), never regex equivalence.
 */
module Classifier {
  import opened Text

  /** What has been said about a pattern so far: sentences in order, and the two example lists. */
  datatype Document = Document(sentences: seq<string>, valid: seq<string>, invalid: seq<string>)

  // Long texts are written as pieces of at most 40 characters, so that the verifier can reason
  // about their characters; each text is the concatenation of its pieces.
  const AnchorFull := "Cette expression régulière valide une " + "chaîne complète (doit correspondre du " + "début à la fin)."
  const AnchorStart := "Cette expression régulière valide le " + "début d'une chaîne."
  const AnchorEnd := "Cette expression régulière valide la " + "fin d'une chaîne."
  const AnchorAnywhere := "Cette expression régulière recherche un " + "motif n'importe où dans la chaîne."

  /**
   * The opening sentence, chosen by whether the pattern starts with `^` and ends with `$`;
   * exactly one of the four applies, and the empty pattern searches anywhere.
   */
  function AnchorSentence(pattern: string): (sentence: string)
    ensures sentence == AnchorFull <==> StartsWith(pattern, "^") && EndsWith(pattern, "$")
    ensures sentence == AnchorStart <==> StartsWith(pattern, "^") && !EndsWith(pattern, "$")
    ensures sentence == AnchorEnd <==> !StartsWith(pattern, "^") && EndsWith(pattern, "$")
    ensures sentence == AnchorAnywhere <==> !StartsWith(pattern, "^") && !EndsWith(pattern, "$")
  {
    if StartsWith(pattern, "^") && EndsWith(pattern, "$") then AnchorFull
    else if StartsWith(pattern, "^") then AnchorStart
    else if EndsWith(pattern, "$") then AnchorEnd
    else AnchorAnywhere
  }

  /** The recognised patterns, in the order they are tried. */
  datatype Canonical = UpperCaseName | StudentId | DayMonthYear | MonthYear | Email

  const Priority: seq<Canonical> := [UpperCaseName, StudentId, DayMonthYear, MonthYear, Email]

  /** The reference texts; the first keeps the backslash before its apostrophe. */
  const UpperCaseNameRegex := @"^[A-Z][A-Z\s\-\']*$"
  const StudentIdRegex := @"^[0-9]{9}[A-Z]{2}$"
  const DayMonthYearRegex := @"^\d{2}-\d{2}-\d{4}$"
  const MonthYearRegex := @"^(0[1-9]|1[0-2])\/20[0-9]{2}$"

  /** The match rule of each entry: equality for the first, containment for the others. */
  predicate Hits(entry: Canonical, pattern: string) {
    match entry
    case UpperCaseName => pattern == UpperCaseNameRegex
    case StudentId => Contains(pattern, StudentIdRegex)
    case DayMonthYear => Contains(pattern, DayMonthYearRegex)
    case MonthYear => Contains(pattern, MonthYearRegex)
    case Email => '@' in pattern && Contains(pattern, @"\.")
  }

  /** The first entry of a table whose rule the pattern hits. */
  function FirstHit(table: seq<Canonical>, pattern: string): Option<Canonical>
    decreases |table|
  {
    if table == [] then None
    else if Hits(table[0], pattern) then Some(table[0])
    else FirstHit(table[1..], pattern)
  }

  /** The first hit wins: what FirstHit picks is the earliest entry hit, and nothing is picked iff nothing is hit. */
  lemma {:induction false} FirstHitWins(table: seq<Canonical>, pattern: string)
    ensures FirstHit(table, pattern).None? <==> forall i | 0 <= i < |table| :: !Hits(table[i], pattern)
    ensures forall i | 0 <= i < |table| ::
      Hits(table[i], pattern) && (forall j | 0 <= j < i :: !Hits(table[j], pattern)) ==> FirstHit(table, pattern) == Some(table[i])
    ensures FirstHit(table, pattern).Some? ==>
      exists i | 0 <= i < |table| :: table[i] == FirstHit(table, pattern).value && Hits(table[i], pattern)
        && forall j | 0 <= j < i :: !Hits(table[j], pattern)
    decreases |table|
  {
    if table != [] && !Hits(table[0], pattern) {
      FirstHitWins(table[1..], pattern);
      assert forall i | 1 <= i < |table| :: table[i] == table[1..][i - 1];
      if FirstHit(table, pattern).Some? {
        var i :| 0 <= i < |table[1..]| && table[1..][i] == FirstHit(table, pattern).value && Hits(table[1..][i], pattern)
          && forall j | 0 <= j < i :: !Hits(table[1..][j], pattern);
        assert table[i + 1] == table[1..][i];
        assert forall j | 1 <= j < i + 1 :: table[j] == table[1..][j - 1];
      }
    }
  }

  /** The entry a pattern is recognised as, if any. */
  function Recognize(pattern: string): Option<Canonical> {
    FirstHit(Priority, pattern)
  }

  const EmailSentences := [
    "Elle semble valider un format d'adresse " + "email.",
    "Elle recherche un caractère '@' suivi " + "d'un domaine contenant un point."
  ]

  const UpperCaseNameSentences := [
    "Cette expression régulière valide un " + "nom écrit entièrement en MAJUSCULES.",
    "La chaîne doit commencer par une lettre " + "majuscule ([A-Z]).",
    @"Elle peut ensuite contenir plusieurs " + @"(ou aucun) caractères parmi: lettres " + @"majuscules, espaces, tirets ou " + @"apostrophes ([A-Z\s\-']*).",
    "Aucun autre caractère n'est autorisé " + "(chiffres, minuscules, symboles, etc.)."
  ]
  const UpperCaseNameValid := ["DUPONT", "MARTIN-DURAND", "O'CONNOR", "DE LA FONTAINE"]
  const UpperCaseNameInvalid := ["Dupont", "MARTIN2", "dupont", "123NOM"]

  const StudentIdSentences := [
    "Cette expression régulière valide un " + "code INE (Identifiant National " + "Étudiant).",
    "La chaîne doit contenir exactement 9 " + "chiffres ([0-9]{9}) suivis de 2 lettres " + "majuscules ([A-Z]{2}).",
    "Aucun espace ou autre caractère n'est " + "autorisé."
  ]
  const StudentIdValid := ["123456789AB", "987654321XY"]
  const StudentIdInvalid := ["12345678AB", "123456789abc", "ABC123456", "123456789A"]

  const DayMonthYearSentences := [
    "Cette expression régulière valide une " + "date au format JJ-MM-AAAA.",
    "La chaîne doit contenir exactement 2 " + "chiffres (jour), suivis d'un tiret, de " + "2 chiffres (mois), d'un tiret, puis de " + "4 chiffres (année).",
    "Tous les chiffres doivent être sur 2 " + "positions pour les jours et mois, et " + "sur 4 positions pour l'année.",
    "Le séparateur doit être un tiret (-) et " + "non un autre caractère."
  ]
  const DayMonthYearValid := ["01-01-2023", "31-12-2022"]
  const DayMonthYearInvalid := ["1-1-2023", "01/01/2023"]

  const MonthYearSentences := [
    "Cette expression régulière valide une " + "date au format MM/AAAA pour le 21ème " + "siècle (2000-2099).",
    "Le mois doit être compris entre 01 et " + "12 (0[1-9] ou 1[0-2]).",
    "Le séparateur doit être un slash (/).",
    "L'année doit commencer par '20' suivi " + "de deux chiffres (entre 2000 et 2099)."
  ]
  const MonthYearValid := ["01/2023", "12/2099", "05/2010"]
  const MonthYearInvalid := ["1/2023", "13/2023", "05/123", "05-2023", "05/1999"]

  const EmailValid := ["exemple@domaine.com", "prenom.nom@entreprise.fr"]
  const EmailInvalid := ["exemple@", "exemple@domaine", "@domaine.com"]

  /**
   * The curated document of an entry. The first four replace the anchor sentence; the email
   * entry appends its sentences to it.
   */
  function EntryDocument(entry: Canonical, anchor: string): (d: Document)
    ensures |d.sentences| == if entry == StudentId || entry == Email then 3 else 4
    ensures d.valid != [] && d.invalid != []
    ensures entry == Email ==> d.sentences == [anchor] + EmailSentences
  {
    match entry
    case UpperCaseName => Document(UpperCaseNameSentences, UpperCaseNameValid, UpperCaseNameInvalid)
    case StudentId => Document(StudentIdSentences, StudentIdValid, StudentIdInvalid)
    case DayMonthYear => Document(DayMonthYearSentences, DayMonthYearValid, DayMonthYearInvalid)
    case MonthYear => Document(MonthYearSentences, MonthYearValid, MonthYearInvalid)
    case Email => Document([anchor] + EmailSentences, EmailValid, EmailInvalid)
  }

  /** The four opening sentences the anchor test can choose. */
  predicate IsAnchorSentence(s: string) {
    s == AnchorFull || s == AnchorStart || s == AnchorEnd || s == AnchorAnywhere
  }

  /**
   * Every entry but the email one replaces the anchor sentence: its document does not depend on
   * the anchor, and none of its sentences is an anchor sentence. The email entry keeps the
   * anchor sentence first.
   */
  lemma EntryReplacesAnchor(entry: Canonical, anchor: string, other: string)
    ensures entry != Email ==> EntryDocument(entry, anchor) == EntryDocument(entry, other)
    ensures entry != Email ==> forall s | s in EntryDocument(entry, anchor).sentences :: !IsAnchorSentence(s)
    ensures entry == Email ==> EntryDocument(entry, anchor).sentences[0] == anchor
  {
    assert |AnchorFull| == 92 && |AnchorStart| == 56 && |AnchorEnd| == 54 && |AnchorAnywhere| == 74;
  }

  /**
   * The document after the classification stage: the anchor sentence alone, or the recognised
   * entry's document. At most two sentences exactly when nothing was recognised (the anchor
   * alone is one sentence, every entry gives three or four), which is what makes the
   * `len(doc) <= 2` test the "nothing recognised" test.
   */
  function Classify(pattern: string): (d: Document)
    ensures |d.sentences| <= 2 <==> Recognize(pattern).None?
    ensures Recognize(pattern).None? ==> d == Document([AnchorSentence(pattern)], [], [])
    ensures Recognize(pattern).Some? ==> d.valid != [] && d.invalid != []
    ensures Recognize(pattern) == Some(Email) ==> d.sentences == [AnchorSentence(pattern)] + EmailSentences
    ensures Recognize(pattern).Some? ==> d == EntryDocument(Recognize(pattern).value, AnchorSentence(pattern))
  {
    match Recognize(pattern)
    case None => Document([AnchorSentence(pattern)], [], [])
    case Some(entry) => EntryDocument(entry, AnchorSentence(pattern))
  }
}
