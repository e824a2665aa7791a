/**
 * The test panel: each non-blank test line is searched with the compiled pattern and gives one
 * row of the results table; a summary then counts the rows that matched. The regex engine is
 * a parameter: `search` returns the match found in a line, if any.
 */
module Tester {
  import opened Text

  /** What a successful search reports: the whole match, the positional groups, the named groups. */
  datatype Match = Match(found: string, groups: seq<Option<string>>, named: seq<(string, Option<string>)>)

  const Tick := "✓"
  const Cross := "✗"

  /**
   * One row of the results table: the 1-based line number, the line, the mark, the matched
   * text, and the positional and named groups when there are any.
   */
  datatype Row = Row(
    line: nat,
    text: string,
    mark: string,
    found: Option<string>,
    groups: Option<seq<Option<string>>>,
    named: Option<seq<(string, Option<string>)>>)

  /** The row of line number `line` holding `text`, given what the search returned. */
  function RowOf(line: nat, text: string, m: Option<Match>): (r: Row)
    ensures r.line == line && r.text == text
    ensures r.mark == Tick <==> m.Some?
    ensures r.mark == Cross <==> m.None?
    ensures r.found.None? <==> m.None?
    ensures r.groups.None? <==> m.None? || m.value.groups == []
    ensures r.named.None? <==> m.None? || m.value.named == []
    ensures m.Some? ==> r.found == Some(m.value.found)
    ensures m.Some? && m.value.groups != [] ==> r.groups == Some(m.value.groups)
    ensures m.Some? && m.value.named != [] ==> r.named == Some(m.value.named)
  {
    match m
    case None => Row(line, text, Cross, None, None, None)
    case Some(mt) =>
      Row(line, text, Tick, Some(mt.found),
        if mt.groups != [] then Some(mt.groups) else None,
        if mt.named != [] then Some(mt.named) else None)
  }

  /** The rows of the first lines of the test text: one per non-blank line, in order. */
  function Rows(lines: seq<string>, search: string -> Option<Match>): seq<Row>
    decreases |lines|
  {
    if lines == [] then []
    else
      var n := |lines|;
      var last := lines[n - 1];
      Rows(lines[..n - 1], search) + if IsBlank(last) then [] else [RowOf(n, last, search(last))]
  }

  /** The loop over the test lines. */
  method BuildRows(lines: seq<string>, search: string -> Option<Match>) returns (results: seq<Row>)
    ensures results == Rows(lines, search)
  {
    results := [];
    for i := 0 to |lines|
      invariant results == Rows(lines[..i], search)
    {
      assert lines[..i + 1][..i] == lines[..i];
      var line := lines[i];
      if IsBlank(line) {
        continue;
      }
      var m := search(line);
      results := results + [RowOf(i + 1, line, m)];
    }
    assert lines[..|lines|] == lines;
  }

  /** The number of rows marked with a tick. */
  function MatchCount(results: seq<Row>): nat
    decreases |results|
  {
    if results == [] then 0
    else MatchCount(results[..|results| - 1]) + if results[|results| - 1].mark == Tick then 1 else 0
  }

  /** The message shown under the table, by the kind of notice it appears in. */
  datatype Notice = Success(message: string) | Failure(message: string) | Warning(message: string)

  function Summary(results: seq<Row>): Notice {
    if results == [] then Warning("Aucun texte à tester.")
    else if MatchCount(results) > 0 then
      Success(NatToString(MatchCount(results)) + " correspondance(s) trouvée(s) sur " + NatToString(|results|) + " ligne(s).")
    else Failure("0 correspondance trouvée sur " + NatToString(|results|) + " ligne(s).")
  }

  /**
   * What the panel shows: the table and its summary, or a message alone (the warning when no
   * line was tested, the error raised by the pattern).
   */
  datatype Panel = Table(rows: seq<Row>, summary: Notice) | Message(notice: Notice)

  /**
   * The whole test button. `search` is None when the pattern does not compile, and
   * `compileError` is then the message of the error.
   */
  method RunTests(lines: seq<string>, search: Option<string -> Option<Match>>, compileError: string) returns (panel: Panel)
    ensures search.None? ==> panel == Message(Failure("Erreur lors de l'exécution du regex: " + compileError))
    ensures search.Some? && Rows(lines, search.value) == [] ==> panel == Message(Warning("Aucun texte à tester."))
    ensures search.Some? && Rows(lines, search.value) != [] ==>
      panel == Table(Rows(lines, search.value), Summary(Rows(lines, search.value)))
  {
    if search.None? {
      return Message(Failure("Erreur lors de l'exécution du regex: " + compileError));
    }
    var results := BuildRows(lines, search.value);
    if results != [] {
      panel := Table(results, Summary(results));
    } else {
      panel := Message(Summary(results));
    }
  }

  // ---------------------------------------------------------------------------------------
  // Properties

  /** A row that holds a non-blank line of `lines`, under its own number, as the search saw it. */
  predicate FaithfulRow(lines: seq<string>, search: string -> Option<Match>, r: Row) {
    1 <= r.line <= |lines| && r.text == lines[r.line - 1] && !IsBlank(r.text)
    && r == RowOf(r.line, r.text, search(r.text))
  }

  predicate Increasing(rows: seq<Row>) {
    forall k, l | 0 <= k < l < |rows| :: rows[k].line < rows[l].line
  }

  /**
   * The rows are the non-blank lines, in order: line numbers strictly increase, each row holds
   * the line its number names, and its mark and matched text are those of the search on it.
   */
  lemma {:induction false} RowsFaithful(lines: seq<string>, search: string -> Option<Match>)
    ensures forall r | r in Rows(lines, search) :: FaithfulRow(lines, search, r)
    ensures Increasing(Rows(lines, search))
    decreases |lines|
  {
    if lines != [] {
      var n := |lines|;
      var init := lines[..n - 1];
      RowsFaithful(init, search);
      var prev := Rows(init, search);
      var rows := Rows(lines, search);
      assert rows == prev + if IsBlank(lines[n - 1]) then [] else [RowOf(n, lines[n - 1], search(lines[n - 1]))];
      forall r | r in rows
        ensures FaithfulRow(lines, search, r)
      {
        if r in prev {
          assert FaithfulRow(init, search, r);
          assert init[r.line - 1] == lines[r.line - 1];
        }
      }
      forall k, l | 0 <= k < l < |rows|
        ensures rows[k].line < rows[l].line
      {
        assert rows[k] == prev[k];
        assert prev[k] in prev && FaithfulRow(init, search, prev[k]);
        if l < |prev| {
          assert rows[l] == prev[l];
        } else {
          assert rows[l] == RowOf(n, lines[n - 1], search(lines[n - 1]));
        }
      }
    }
  }

  /** Every non-blank line has its row. */
  lemma {:induction false} RowsComplete(lines: seq<string>, search: string -> Option<Match>)
    ensures forall i | 0 <= i < |lines| && !IsBlank(lines[i]) ::
      exists r | r in Rows(lines, search) :: r.line == i + 1
    decreases |lines|
  {
    if lines != [] {
      var n := |lines|;
      var init := lines[..n - 1];
      RowsComplete(init, search);
      var prev := Rows(init, search);
      var rows := Rows(lines, search);
      assert rows == prev + if IsBlank(lines[n - 1]) then [] else [RowOf(n, lines[n - 1], search(lines[n - 1]))];
      forall i | 0 <= i < n && !IsBlank(lines[i])
        ensures exists r | r in rows :: r.line == i + 1
      {
        if i < n - 1 {
          assert init[i] == lines[i];
          var r :| r in prev && r.line == i + 1;
          assert r in rows;
        } else {
          assert rows[|rows| - 1] in rows;
        }
      }
    }
  }

  /** There are as many rows as non-blank lines, so never more rows than lines. */
  lemma {:induction false} RowsCount(lines: seq<string>, search: string -> Option<Match>)
    ensures |Rows(lines, search)| <= |lines|
    ensures (forall i | 0 <= i < |lines| :: !IsBlank(lines[i])) ==> |Rows(lines, search)| == |lines|
    decreases |lines|
  {
    if lines != [] {
      RowsCount(lines[..|lines| - 1], search);
    }
  }

  /** The count of matches is the number of rows marked with a tick, at most the number of rows. */
  lemma {:induction false} MatchCountBounds(results: seq<Row>)
    ensures MatchCount(results) <= |results|
    ensures MatchCount(results) == 0 <==> forall k | 0 <= k < |results| :: results[k].mark != Tick
    ensures MatchCount(results) == |results| <==> forall k | 0 <= k < |results| :: results[k].mark == Tick
    decreases |results|
  {
    if results != [] {
      var init := results[..|results| - 1];
      MatchCountBounds(init);
      assert forall k | 0 <= k < |init| :: init[k] == results[k];
    }
  }

  /**
   * The summary is a success exactly when some line matched, a warning exactly when there was
   * nothing to test, and its numbers are the match count and the row count (the failure
   * message writes the row count after its fixed 0).
   */
  lemma SummaryStates(results: seq<Row>)
    ensures Summary(results).Warning? <==> results == []
    ensures Summary(results).Success? <==> exists k | 0 <= k < |results| :: results[k].mark == Tick
    ensures Summary(results).Success? ==> exists a, b :: (AllDigits(a) && ParseDecimal(a) == MatchCount(results)
      && AllDigits(b) && ParseDecimal(b) == |results|
      && Summary(results).message == a + " correspondance(s) trouvée(s) sur " + b + " ligne(s).")
    ensures Summary(results).Failure? ==> exists b :: (AllDigits(b) && ParseDecimal(b) == |results|
      && Summary(results).message == "0 correspondance trouvée sur " + b + " ligne(s).")
  {
    MatchCountBounds(results);
    ParseNatToString(MatchCount(results));
    ParseNatToString(|results|);
  }
}
