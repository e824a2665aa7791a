/**
 * The two lexical scans the explanation generator runs over a pattern, written out as the
 * host regex engine performs them:
 *  - `re.findall(r'\[(.*?)\]', s)` and `re.findall(r'\((.*?)\)', s)` (and the first match of
 *    `` re.search(r'`(.*?)`', s) ``): a non-greedy body between one-character delimiters;
 *  - `re.findall(r'\{(\d+)(?:,(\d+)?)?\}', s)`: brace quantifiers `{n}`, `{n,}` and `{n,m}`.
 */
module Scanners {
  import opened Text

  /**
   * Where a non-greedy `(.*?)` followed by `close` stops when run over `t`: at the first
   * `close`, provided no newline comes first (`.` does not match a newline).
   */
  function CloseIndex(t: string, close: char): (r: Option<nat>)
    ensures r.Some? <==> exists k :: 0 <= k < |t| && t[k] == close && '\n' !in t[..k]
    ensures r.Some? ==> r.value < |t| && t[r.value] == close && close !in t[..r.value] && '\n' !in t[..r.value]
    decreases |t|
  {
    if t == [] then None
    else if t[0] == close then
      assert t[..0] == [];
      Some(0)
    else if t[0] == '\n' then
      assert forall k | 0 < k < |t| :: t[..k][0] == '\n';
      None
    else
      match CloseIndex(t[1..], close)
      case Some(k) =>
        assert t[..k + 1] == [t[0]] + t[1..][..k];
        Some(k + 1)
      case None =>
        assert forall k | 1 <= k < |t| :: t[..k] == [t[0]] + t[1..][..k - 1];
        None
  }

  /** A match of `open(.*?)close` starts at position j of s. */
  predicate MatchAt(s: string, j: int, open: char, close: char) {
    0 <= j < |s| && s[j] == open && CloseIndex(s[j + 1..], close).Some?
  }

  /**
   * `re.findall(open + "(.*?)" + close, s)`: the bodies of the successive non-overlapping
   * matches, left to right; a failed start moves on by one character, a match resumes after
   * its closing delimiter.
   */
  function Scan(s: string, open: char, close: char): seq<string>
    decreases |s|
  {
    if s == [] then []
    else if s[0] == open then
      match CloseIndex(s[1..], close)
      case Some(k) => [s[1..1 + k]] + Scan(s[k + 2..], open, close)
      case None => Scan(s[1..], open, close)
    else Scan(s[1..], open, close)
  }

  /** A body holds neither the closing delimiter nor a line break. */
  lemma {:induction false} ScanBodies(s: string, open: char, close: char)
    ensures forall b | b in Scan(s, open, close) :: close !in b && '\n' !in b
    decreases |s|
  {
    if s != [] {
      if s[0] == open && CloseIndex(s[1..], close).Some? {
        var k := CloseIndex(s[1..], close).value;
        ScanAtMatch(s, open, close);
        ScanBodies(s[k + 2..], open, close);
        assert s[1..1 + k] == s[1..][..k];
      } else {
        assert Scan(s, open, close) == Scan(s[1..], open, close);
        ScanBodies(s[1..], open, close);
      }
    }
  }

  /** Without both delimiters there is nothing to find. */
  lemma {:induction false} ScanNeedsDelimiters(s: string, open: char, close: char)
    requires open !in s || close !in s
    ensures Scan(s, open, close) == []
    decreases |s|
  {
    if s != [] {
      assert open !in s[1..] || close !in s[1..] by {
        assert forall i | 0 <= i < |s[1..]| :: s[1..][i] == s[i + 1];
      }
      if s[0] == open {
        assert close !in s;
        assert CloseIndex(s[1..], close).None?;
      }
      ScanNeedsDelimiters(s[1..], open, close);
    }
  }

  lemma MatchAtShift(s: string, j: int, open: char, close: char)
    requires s != [] && j >= 1
    ensures MatchAt(s, j, open, close) <==> MatchAt(s[1..], j - 1, open, close)
  {
    if 1 <= j < |s| {
      assert s[j + 1..] == s[1..][j..];
    }
  }

  /** The leftmost position where a match starts. */
  predicate FirstMatchAt(s: string, j: int, open: char, close: char) {
    MatchAt(s, j, open, close) && forall i | 0 <= i < j :: !MatchAt(s, i, open, close)
  }

  /** The body of the match that starts at j. */
  function MatchBody(s: string, j: int, open: char, close: char): string
    requires MatchAt(s, j, open, close)
  {
    s[j + 1..j + 1 + CloseIndex(s[j + 1..], close).value]
  }

  /** There is a body exactly when a match starts somewhere. */
  lemma {:induction false} ScanNonEmpty(s: string, open: char, close: char)
    ensures Scan(s, open, close) != [] <==> exists j :: MatchAt(s, j, open, close)
    decreases |s|
  {
    if s != [] && !MatchAt(s, 0, open, close) {
      assert Scan(s, open, close) == Scan(s[1..], open, close);
      ScanNonEmpty(s[1..], open, close);
      if Scan(s, open, close) != [] {
        var j' :| MatchAt(s[1..], j', open, close);
        MatchAtShift(s, j' + 1, open, close);
      }
      if exists j :: MatchAt(s, j, open, close) {
        var j :| MatchAt(s, j, open, close);
        MatchAtShift(s, j, open, close);
      }
    }
  }

  /**
   * The first body found is the one `re.search` reports: that of the leftmost position j
   * where a match starts.
   */
  lemma {:induction false} ScanFirst(s: string, open: char, close: char) returns (j: nat)
    requires Scan(s, open, close) != []
    ensures FirstMatchAt(s, j, open, close) && Scan(s, open, close)[0] == MatchBody(s, j, open, close)
    decreases |s|
  {
    if MatchAt(s, 0, open, close) {
      j := 0;
      ScanAtMatch(s, open, close);
    } else {
      ScanAtSkip(s, open, close);
      var j' := ScanFirst(s[1..], open, close);
      j := j' + 1;
      FirstMatchShift(s, j', open, close);
    }
  }

  /**
   * One step of the scan: the first body is that of the leftmost match, and scanning resumes
   * right after that match's closing delimiter. With ScanNonEmpty (no match, no body) this
   * fixes every body, their number and their order.
   */
  lemma {:induction false} ScanStep(s: string, j: nat, open: char, close: char)
    requires FirstMatchAt(s, j, open, close)
    ensures var k := CloseIndex(s[j + 1..], close).value;
      Scan(s, open, close) == [MatchBody(s, j, open, close)] + Scan(s[j + 2 + k..], open, close)
  {
    ScanSkipPrefix(s, j, open, close);
    ScanStepAt(s, j, open, close);
  }

  /** The scan from a match: its body, then the scan after its closing delimiter. */
  lemma ScanStepAt(s: string, j: nat, open: char, close: char)
    requires MatchAt(s, j, open, close)
    ensures var k := CloseIndex(s[j + 1..], close).value;
      Scan(s[j..], open, close) == [MatchBody(s, j, open, close)] + Scan(s[j + 2 + k..], open, close)
  {
    MatchFrom(s, j, open, close);
    ScanAtMatch(s[j..], open, close);
  }

  /** The match at j, seen from s[j..], where it starts at 0. */
  lemma MatchFrom(s: string, j: nat, open: char, close: char)
    requires MatchAt(s, j, open, close)
    ensures MatchAt(s[j..], 0, open, close)
    ensures var k := CloseIndex(s[j + 1..], close).value;
      CloseIndex(s[j..][1..], close) == Some(k)
      && s[j..][1..1 + k] == MatchBody(s, j, open, close) && s[j..][2 + k..] == s[j + 2 + k..]
  {
    var k := CloseIndex(s[j + 1..], close).value;
    DropDrop(s, j, 1);
    DropTake(s, j, 1, 1 + k);
    DropDrop(s, j, 2 + k);
  }

  lemma DropDrop(s: string, j: nat, a: nat)
    requires j + a <= |s|
    ensures s[j..][a..] == s[j + a..]
  {
  }

  lemma DropTake(s: string, j: nat, a: nat, b: nat)
    requires a <= b && j + b <= |s|
    ensures s[j..][a..b] == s[j + a..j + b]
  {
  }

  /** Positions of s[1..] before j - 1 are positions of s before j. */
  lemma NoMatchTail(s: string, j: nat, open: char, close: char)
    requires 1 <= j <= |s| && forall i | 0 <= i < j :: !MatchAt(s, i, open, close)
    ensures forall i | 0 <= i < j - 1 :: !MatchAt(s[1..], i, open, close)
  {
    forall i | 0 <= i < j - 1
      ensures !MatchAt(s[1..], i, open, close)
    {
      MatchAtShift(s, i + 1, open, close);
    }
  }

  /** Positions where no match starts are skipped one by one. */
  lemma {:induction false} ScanSkipPrefix(s: string, j: nat, open: char, close: char)
    requires j <= |s| && forall i | 0 <= i < j :: !MatchAt(s, i, open, close)
    ensures Scan(s, open, close) == Scan(s[j..], open, close)
    decreases j
  {
    if j == 0 {
      assert s[0..] == s;
    } else {
      ScanAtSkip(s, open, close);
      NoMatchTail(s, j, open, close);
      ScanSkipPrefix(s[1..], j - 1, open, close);
      assert s[1..][j - 1..] == s[j..];
    }
  }

  /** Scan on a string where no match starts at position 0. */
  lemma ScanAtSkip(s: string, open: char, close: char)
    requires s != [] && !MatchAt(s, 0, open, close)
    ensures Scan(s, open, close) == Scan(s[1..], open, close)
  {
  }

  /** The first match in the rest of a string that does not start with one is its first match. */
  lemma FirstMatchShift(s: string, j': nat, open: char, close: char)
    requires s != [] && !MatchAt(s, 0, open, close) && FirstMatchAt(s[1..], j', open, close)
    ensures FirstMatchAt(s, j' + 1, open, close)
    ensures MatchBody(s, j' + 1, open, close) == MatchBody(s[1..], j', open, close)
  {
    MatchAtShift(s, j' + 1, open, close);
    assert s[1..][j' + 1..] == s[j' + 2..];
    var k := CloseIndex(s[j' + 2..], close).value;
    assert s[1..][j' + 1..j' + 1 + k] == s[j' + 2..j' + 2 + k];
    forall i | 1 <= i < j' + 1
      ensures !MatchAt(s, i, open, close)
    {
      MatchAtShift(s, i, open, close);
    }
  }

  /** Every body found is enclosed in its delimiters somewhere in s. */
  lemma {:induction false} ScanSound(s: string, open: char, close: char)
    ensures AllEnclosed(s, open, close)
    decreases |s|
  {
    if s != [] {
      if s[0] == open && CloseIndex(s[1..], close).Some? {
        ScanSound(s[CloseIndex(s[1..], close).value + 2..], open, close);
        ScanSoundMatch(s, open, close);
      } else {
        ScanSound(s[1..], open, close);
        ScanSoundSkip(s, open, close);
      }
    }
  }

  /** Predicate of ScanSound: every body found in s is enclosed in its delimiters in s. */
  predicate AllEnclosed(s: string, open: char, close: char) {
    forall b | b in Scan(s, open, close) :: Contains(s, [open] + b + [close])
  }

  lemma ScanSoundMatch(s: string, open: char, close: char)
    requires s != [] && s[0] == open && CloseIndex(s[1..], close).Some?
    requires AllEnclosed(s[CloseIndex(s[1..], close).value + 2..], open, close)
    ensures AllEnclosed(s, open, close)
  {
    var k := CloseIndex(s[1..], close).value;
    var body, rest := s[1..1 + k], s[k + 2..];
    ScanAtMatch(s, open, close);
    FirstEnclosed(s, k, open, close);
    var tail := Scan(rest, open, close);
    LiftEnclosed(s, k + 2, tail, open, close);
    var bodies := [body] + tail;
    forall b | b in bodies
      ensures Contains(s, [open] + b + [close])
    {
      if b != body {
        assert b in tail;
      }
    }
    assert Scan(s, open, close) == bodies;
  }

  /** Scan on a string where a match starts at position 0. */
  lemma ScanAtMatch(s: string, open: char, close: char)
    requires s != [] && s[0] == open && CloseIndex(s[1..], close).Some?
    ensures var k := CloseIndex(s[1..], close).value;
      Scan(s, open, close) == [s[1..1 + k]] + Scan(s[k + 2..], open, close)
  {
  }

  lemma FirstEnclosed(s: string, k: nat, open: char, close: char)
    requires k + 1 < |s| && s[0] == open && s[k + 1] == close
    ensures Contains(s, [open] + s[1..1 + k] + [close])
  {
    assert s[..1] == [open] && s[k + 1..k + 2] == [close];
    assert s[..k + 2] == s[..1] + s[1..1 + k] + s[k + 1..k + 2];
    ContainsAt(s, 0, [open] + s[1..1 + k] + [close]);
  }

  lemma ScanSoundSkip(s: string, open: char, close: char)
    requires s != [] && !(s[0] == open && CloseIndex(s[1..], close).Some?)
    requires AllEnclosed(s[1..], open, close)
    ensures AllEnclosed(s, open, close)
  {
    assert Scan(s, open, close) == Scan(s[1..], open, close);
    LiftEnclosed(s, 1, Scan(s[1..], open, close), open, close);
  }

  /** Bodies enclosed somewhere in a suffix of s are enclosed somewhere in s. */
  lemma LiftEnclosed(s: string, k: nat, bodies: seq<string>, open: char, close: char)
    requires k <= |s| && forall b | b in bodies :: Contains(s[k..], [open] + b + [close])
    ensures forall b | b in bodies :: Contains(s, [open] + b + [close])
  {
    forall b | b in bodies
      ensures Contains(s, [open] + b + [close])
    {
      ContainsSuffix(s, k, [open] + b + [close]);
    }
  }

  lemma {:induction false} ContainsSuffix(s: string, k: nat, t: string)
    requires k <= |s| && Contains(s[k..], t)
    ensures Contains(s, t)
    decreases k
  {
    if k > 0 {
      assert s[1..][k - 1..] == s[k..];
      ContainsSuffix(s[1..], k - 1, t);
    }
  }

  /** The two captures of one brace quantifier; `high` is empty when no upper bound was written. */
  datatype Brace = Brace(low: string, high: string)

  /** The source text `{low}` (no comma) or `{low,high}` (comma, high possibly empty). */
  function BraceText(low: string, comma: bool, high: string): string {
    "{" + low + (if comma then "," + high else "") + "}"
  }

  /** Length of the longest run of ASCII digits at the start of s (the greedy `\d+`). */
  function DigitRun(s: string): (n: nat)
    ensures n <= |s| && AllDigits(s[..n]) && (n < |s| ==> !IsAsciiDigit(s[n]))
    decreases |s|
  {
    if s == [] || !IsAsciiDigit(s[0]) then 0
    else
      var n := DigitRun(s[1..]);
      assert s[..n + 1] == [s[0]] + s[1..][..n];
      n + 1
  }

  lemma DigitRunOf(s: string, d: string)
    requires StartsWith(s, d) && AllDigits(d) && (|d| < |s| ==> !IsAsciiDigit(s[|d|]))
    ensures DigitRun(s) == |d|
  {
    var n := DigitRun(s);
    assert forall k | 0 <= k < |d| :: s[k] == s[..|d|][k];
    assert forall k | 0 <= k < n :: s[k] == s[..n][k];
  }

  /**
   * `\{(\d+)(?:,(\d+)?)?\}` tried at the start of s, greedily: maximal digits, then an optional
   * comma with maximal digits, then `}`. Backtracking cannot help: fewer digits leave a digit
   * where only `,` or `}` may follow. On success, the captures and the length of the match.
   */
  function BraceAt(s: string): (r: Option<(Brace, nat)>)
    requires s != [] && s[0] == '{'
    ensures r.Some? ==> 2 <= r.value.1 <= |s| && r.value.0.low != [] && AllDigits(r.value.0.low) && AllDigits(r.value.0.high)
  {
    var n := DigitRun(s[1..]);
    var rest := s[1 + n..];
    if n == 0 then None
    else if rest != [] && rest[0] == '}' then
      assert s[1..1 + n] == s[1..][..n];
      Some((Brace(s[1..1 + n], ""), n + 2))
    else if rest != [] && rest[0] == ',' then
      var m := DigitRun(rest[1..]);
      if 1 + m < |rest| && rest[1 + m] == '}' then
        assert s[1..1 + n] == s[1..][..n];
        assert rest[1..1 + m] == rest[1..][..m];
        Some((Brace(s[1..1 + n], rest[1..1 + m]), n + m + 3))
      else None
    else None
  }

  /** Inside brace-quantifier text there is no further `{`. */
  lemma BraceTextInner(low: string, comma: bool, high: string)
    requires AllDigits(low) && AllDigits(high)
    ensures var t := BraceText(low, comma, high); forall k | 0 < k < |t| :: t[k] != '{'
  {
    var t := BraceText(low, comma, high);
    forall k | 0 < k < |t|
      ensures t[k] != '{'
    {
      if k <= |low| {
        assert t[k] == low[k - 1];
      } else if comma && k == |low| + 1 {
        assert t[k] == ',';
      } else if comma && k < |t| - 1 {
        assert t[k] == high[k - |low| - 2];
      }
    }
  }

  /** What a successful BraceAt consumed is brace-quantifier text holding exactly its captures. */
  lemma BraceAtText(s: string)
    requires s != [] && s[0] == '{' && BraceAt(s).Some?
    ensures var (q, len) := BraceAt(s).value;
      exists comma :: s[..len] == BraceText(q.low, comma, q.high) && (comma || q.high == [])
    ensures var len := BraceAt(s).value.1; forall k | 0 < k < len :: s[k] != '{'
  {
    var (q, len) := BraceAt(s).value;
    var n := DigitRun(s[1..]);
    var rest := s[1 + n..];
    assert q.low == s[1..1 + n];
    var comma := rest[0] == ',';
    if comma {
      var m := DigitRun(rest[1..]);
      assert rest[1..1 + m] == s[2 + n..2 + n + m];
      RangeText(s, n, m);
    } else {
      ExactText(s, n);
    }
    BraceTextInner(q.low, comma, q.high);
    assert forall k | 0 < k < len :: s[k] == s[..len][k];
  }

  lemma ExactText(s: string, n: nat)
    requires 1 + n < |s| && s[0] == '{' && s[1 + n] == '}'
    ensures s[..n + 2] == BraceText(s[1..1 + n], false, "")
  {
    assert s[..1] == "{" && s[1 + n..n + 2] == "}";
    assert s[..n + 2] == s[..1] + s[1..1 + n] + s[1 + n..n + 2];
  }

  lemma RangeText(s: string, n: nat, m: nat)
    requires 2 + n + m < |s| && s[0] == '{' && s[1 + n] == ',' && s[2 + n + m] == '}'
    ensures s[..n + m + 3] == BraceText(s[1..1 + n], true, s[2 + n..2 + n + m])
  {
    var low, high := s[1..1 + n], s[2 + n..2 + n + m];
    assert s[..1] == "{" && s[1 + n..2 + n] == "," && s[2 + n + m..n + m + 3] == "}";
    assert s[..n + m + 3] == s[..1] + low + s[1 + n..2 + n] + high + s[2 + n + m..n + m + 3];
    AppendAssoc("{" + low, ",", high);
  }



  /** `re.findall(r'\{(\d+)(?:,(\d+)?)?\}', s)`: the captures of every brace quantifier, left to right. */
  function Braces(s: string): (qs: seq<Brace>)
    ensures forall q | q in qs :: q.low != [] && AllDigits(q.low) && AllDigits(q.high)
    decreases |s|
  {
    if s == [] then []
    else if s[0] == '{' then
      match BraceAt(s)
      case Some((q, len)) => [q] + Braces(s[len..])
      case None => Braces(s[1..])
    else Braces(s[1..])
  }

  /** The parts of a brace quantifier as the pattern allows them: digits, and an upper bound only after a comma. */
  predicate Quantifier(low: string, comma: bool, high: string) {
    low != [] && AllDigits(low) && AllDigits(high) && (comma || high == [])
  }

  /** Brace-quantifier text starts at position p of s. */
  ghost predicate QuantifierAt(s: string, p: nat) {
    p <= |s| && exists low, comma, high :: Quantifier(low, comma, high) && StartsWith(s[p..], BraceText(low, comma, high))
  }

  /** A successful BraceAt at the start of s is quantifier text starting there. */
  lemma BraceAtQuantifier(s: string)
    requires s != []
    ensures s[0] == '{' && BraceAt(s).Some? ==> QuantifierAt(s, 0)
  {
    if s[0] == '{' && BraceAt(s).Some? {
      var (q, len) := BraceAt(s).value;
      BraceAtText(s);
      var comma :| s[..len] == BraceText(q.low, comma, q.high) && (comma || q.high == []);
      assert s[0..] == s;
      assert Quantifier(q.low, comma, q.high) && StartsWith(s[0..], BraceText(q.low, comma, q.high));
    }
  }

  /** Where no quantifier text starts, the scan moves on by one character. */
  lemma BracesSkip(s: string)
    requires s != [] && !QuantifierAt(s, 0)
    ensures Braces(s) == Braces(s[1..])
  {
    BraceAtQuantifier(s);
  }

  lemma QuantifierAtShift(s: string, p: nat)
    requires s != [] && 1 <= p <= |s|
    ensures QuantifierAt(s, p) <==> QuantifierAt(s[1..], p - 1)
  {
    assert s[1..][p - 1..] == s[p..];
  }

  /**
   * One step of the brace scan: the first quantifier text written in s gives the first pair,
   * and scanning resumes right after it. With BracesNone this fixes every pair, their number
   * and their order.
   */
  lemma BracesStep(s: string, i: nat, low: string, comma: bool, high: string)
    requires Quantifier(low, comma, high) && i <= |s| && StartsWith(s[i..], BraceText(low, comma, high))
    requires forall p | 0 <= p < i :: !QuantifierAt(s, p)
    ensures i + |BraceText(low, comma, high)| <= |s|
    ensures Braces(s) == [Brace(low, high)] + Braces(s[i + |BraceText(low, comma, high)|..])
  {
    BracesSkipPrefix(s, i);
    BracesStepAt(s, i, low, comma, high);
  }

  /** The brace scan from quantifier text: its pair, then the scan after it. */
  lemma BracesStepAt(s: string, i: nat, low: string, comma: bool, high: string)
    requires Quantifier(low, comma, high) && i <= |s| && StartsWith(s[i..], BraceText(low, comma, high))
    ensures i + |BraceText(low, comma, high)| <= |s|
    ensures Braces(s[i..]) == [Brace(low, high)] + Braces(s[i + |BraceText(low, comma, high)|..])
  {
    BraceAtOf(s[i..], low, comma, high);
    DropDrop(s, i, |BraceText(low, comma, high)|);
  }

  /** Where no quantifier text starts before i, the scan of s is the scan of s[i..]. */
  lemma {:induction false} BracesSkipPrefix(s: string, i: nat)
    requires i <= |s| && forall p | 0 <= p < i :: !QuantifierAt(s, p)
    ensures Braces(s) == Braces(s[i..])
    decreases i
  {
    if i == 0 {
      assert s[0..] == s;
    } else {
      BracesSkip(s);
      NoQuantifierTail(s, i);
      BracesSkipPrefix(s[1..], i - 1);
      DropDrop(s, 1, i - 1);
    }
  }

  /** Positions of s[1..] before i - 1 are positions of s before i. */
  lemma NoQuantifierTail(s: string, i: nat)
    requires 1 <= i <= |s| && forall p | 0 <= p < i :: !QuantifierAt(s, p)
    ensures forall p | 0 <= p < i - 1 :: !QuantifierAt(s[1..], p)
  {
    forall p | 0 <= p < i - 1
      ensures !QuantifierAt(s[1..], p)
    {
      QuantifierAtShift(s, p + 1);
    }
  }

  /** Where no quantifier text is written, nothing is found. */
  lemma BracesNone(s: string)
    requires forall p | 0 <= p < |s| :: !QuantifierAt(s, p)
    ensures Braces(s) == []
  {
    BracesSkipPrefix(s, |s|);
  }

  /** A well-formed brace quantifier at the very start of s is the one matched there. */
  lemma BraceAtOf(s: string, low: string, comma: bool, high: string)
    requires low != [] && AllDigits(low) && AllDigits(high) && (comma || high == [])
    requires StartsWith(s, BraceText(low, comma, high))
    ensures s != [] && s[0] == '{'
    ensures BraceAt(s) == Some((Brace(low, high), |BraceText(low, comma, high)|))
  {
    var mid := if comma then "," + high else "";
    var n := |low|;
    BracePrefix(s, low, mid);
    var rest := s[1 + n..];
    assert rest[0] == (if comma then ',' else '}') by {
      assert rest[..|mid| + 1][0] == rest[0];
    }
    assert s[1..][n] == rest[0];
    DigitRunOf(s[1..], low);
    assert s[1..1 + n] == low by {
      assert s[1..1 + n] == s[1..][..n];
    }
    if comma {
      BraceAtOfRange(s, low, high);
    } else {
      assert BraceAt(s) == Some((Brace(s[1..1 + n], ""), n + 2));
    }
  }

  /** The parts of `{low mid}` at the start of s. */
  lemma BracePrefix(s: string, low: string, mid: string)
    requires StartsWith(s, "{" + low + mid + "}")
    ensures |s| > |low| + |mid| + 1 && s[0] == '{'
    ensures StartsWith(s[1..], low) && StartsWith(s[1 + |low|..], mid + "}")
  {
    AppendAssoc("{" + low, mid, "}");
    AppendAssoc("{", low, mid + "}");
    StartsWithParts(s, "{", low + (mid + "}"));
    StartsWithParts(s[1..], low, mid + "}");
    assert s[..1][0] == s[0];
    assert s[1..][|low|..] == s[1 + |low|..];
  }

  /** BraceAt on `{low,high}` once `low` is known to be the first digit run. */
  lemma BraceAtOfRange(s: string, low: string, high: string)
    requires s != [] && s[0] == '{' && low != [] && DigitRun(s[1..]) == |low| && 1 + |low| <= |s|
    requires s[1..1 + |low|] == low && AllDigits(high)
    requires StartsWith(s[1 + |low|..], "," + high + "}")
    ensures BraceAt(s) == Some((Brace(low, high), |low| + |high| + 3))
  {
    var n, m := |low|, |high|;
    var rest := s[1 + n..];
    AppendAssoc(",", high, "}");
    StartsWithParts(rest, ",", high + "}");
    var after := rest[1..];
    StartsWithParts(after, high, "}");
    assert after[m..][..1][0] == after[m];
    DigitRunOf(after, high);
    assert rest[1..1 + m] == high by {
      assert rest[1..1 + m] == after[..m];
    }
    assert rest[..1][0] == rest[0];
    BraceAtRange(s, n, m);
  }

  /** BraceAt on `{n digits,m digits}`. */
  lemma BraceAtRange(s: string, n: nat, m: nat)
    requires s != [] && s[0] == '{' && n > 0 && DigitRun(s[1..]) == n
    requires 1 + n < |s| && s[1 + n] == ',' && DigitRun(s[1 + n..][1..]) == m
    requires 2 + n + m < |s| && s[2 + n + m] == '}'
    ensures BraceAt(s) == Some((Brace(s[1..1 + n], s[1 + n..][1..1 + m]), n + m + 3))
  {
    var rest := s[1 + n..];
    assert rest[0] == ',' && rest[1 + m] == '}';
  }

  /** A string starting with `a + b` starts with `a`, and goes on with `b`. */
  lemma StartsWithParts(s: string, a: string, b: string)
    requires StartsWith(s, a + b)
    ensures StartsWith(s, a) && StartsWith(s[|a|..], b)
  {
    assert s[..|a|] == (a + b)[..|a|];
    assert s[|a|..][..|b|] == (a + b)[|a|..];
  }

  /**
   * Every well-formed brace quantifier written in s is found: its captures are among the
   * results (an earlier match cannot swallow its `{`, which only ever opens a match).
   */
  lemma {:induction false} BracesFindAll(s: string, i: nat, low: string, comma: bool, high: string)
    requires low != [] && AllDigits(low) && AllDigits(high) && (comma || high == [])
    requires i <= |s| && StartsWith(s[i..], BraceText(low, comma, high))
    ensures Brace(low, high) in Braces(s)
    decreases |s|
  {
    var t := BraceText(low, comma, high);
    assert s[i] == '{' by { assert s[i..][0] == t[0]; }
    if i == 0 {
      assert s == s[0..];
      BraceAtOf(s, low, comma, high);
    } else if s[0] == '{' && BraceAt(s).Some? {
      var (q, len) := BraceAt(s).value;
      BraceAtText(s);
      assert len <= i;
      assert s[len..][i - len..] == s[i..];
      BracesFindAll(s[len..], i - len, low, comma, high);
    } else {
      assert s[1..][i - 1..] == s[i..];
      BracesFindAll(s[1..], i - 1, low, comma, high);
    }
  }

  /** Every capture pair found comes from brace-quantifier text written in s. */
  lemma {:induction false} BracesSound(s: string)
    ensures forall q | q in Braces(s) ::
      Contains(s, BraceText(q.low, false, q.high)) || Contains(s, BraceText(q.low, true, q.high))
    decreases |s|
  {
    if s != [] {
      if s[0] == '{' && BraceAt(s).Some? {
        var (q, len) := BraceAt(s).value;
        BracesSound(s[len..]);
        BraceAtText(s);
        ContainsAt(s, 0, s[..len]);
        forall q' | q' in Braces(s[len..])
          ensures Contains(s, BraceText(q'.low, false, q'.high)) || Contains(s, BraceText(q'.low, true, q'.high))
        {
          if Contains(s[len..], BraceText(q'.low, false, q'.high)) {
            ContainsSuffix(s, len, BraceText(q'.low, false, q'.high));
          } else {
            ContainsSuffix(s, len, BraceText(q'.low, true, q'.high));
          }
        }
      } else {
        BracesSound(s[1..]);
        forall q' | q' in Braces(s[1..])
          ensures Contains(s, BraceText(q'.low, false, q'.high)) || Contains(s, BraceText(q'.low, true, q'.high))
        {
          if Contains(s[1..], BraceText(q'.low, false, q'.high)) {
            ContainsSuffix(s, 1, BraceText(q'.low, false, q'.high));
          } else {
            ContainsSuffix(s, 1, BraceText(q'.low, true, q'.high));
          }
        }
      }
    }
  }
}
