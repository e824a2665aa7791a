/**
 * Cleaning up the reply of the language model that was asked for a regular expression: the
 * text between the first pair of backticks if there is one, otherwise the first
 * whitespace-separated word holding a regex metacharacter, otherwise the reply unchanged.
 */
module Generation {
  import opened Text
  import opened Scanners

  /** The regex metacharacters the cleaning step looks for: anchors, brackets, braces, parentheses, quantifiers, the dot and the backslash. */
  predicate IsRegexMeta(c: char) {
    c in @"^$[](){}.*+?\"
  }

  predicate HasMeta(s: string) {
    exists i | 0 <= i < |s| :: IsRegexMeta(s[i])
  }

  /** Length of the run of non-whitespace characters `s` starts with. */
  function WordLength(s: string): (n: nat)
    ensures n <= |s| && forall i | 0 <= i < n :: !IsSpace(s[i])
    ensures n < |s| ==> IsSpace(s[n])
    decreases |s|
  {
    if s == [] || IsSpace(s[0]) then 0 else 1 + WordLength(s[1..])
  }

  /** Python's `s.split()`: the maximal runs of non-whitespace characters, in order. */
  function Words(s: string): (words: seq<string>)
    ensures forall w | w in words :: w != [] && forall i | 0 <= i < |w| :: !IsSpace(w[i])
    decreases |s|
  {
    if s == [] then []
    else if IsSpace(s[0]) then Words(s[1..])
    else
      var n := WordLength(s);
      [s[..n]] + Words(s[n..])
  }

  /** The first word holding a metacharacter, if any. */
  function FirstMetaWord(words: seq<string>): Option<string>
    decreases |words|
  {
    if words == [] then None
    else if HasMeta(words[0]) then Some(words[0])
    else FirstMetaWord(words[1..])
  }

  /** What the generator keeps of a reply. */
  function Extract(reply: string): string {
    var quoted := Scan(reply, '`', '`');
    if quoted != [] then quoted[0]
    else if HasMeta(reply) then
      match FirstMetaWord(Words(reply))
      case Some(word) => word
      case None => reply
    else reply
  }

  /** The cleaning step as the handler runs it: a search, then a loop over the words that stops at the first hit. */
  method ExtractGeneratedRegex(reply: string) returns (regex: string)
    ensures regex == Extract(reply)
  {
    regex := reply;
    var quoted := Scan(reply, '`', '`');
    if quoted != [] {
      regex := quoted[0];
    } else if HasMeta(reply) {
      var words := Words(reply);
      for k := 0 to |words|
        invariant regex == reply
        invariant FirstMetaWord(words) == FirstMetaWord(words[k..])
      {
        assert words[k..][1..] == words[k + 1..];
        if HasMeta(words[k]) {
          regex := words[k];
          break;
        }
      }
    }
  }

  // ---------------------------------------------------------------------------------------
  // Properties

  /** Every word of a text occurs in it. */
  lemma {:induction false} WordsOccur(s: string)
    ensures forall w | w in Words(s) :: Contains(s, w)
    decreases |s|
  {
    if s != [] {
      if IsSpace(s[0]) {
        WordsOccur(s[1..]);
        forall w | w in Words(s)
          ensures Contains(s, w)
        {
          ContainsSuffix(s, 1, w);
        }
      } else {
        var n := WordLength(s);
        WordsOccur(s[n..]);
        assert s[0..n] == s[..n];
        ContainsAt(s, 0, s[..n]);
        forall w | w in Words(s[n..])
          ensures Contains(s, w)
        {
          ContainsSuffix(s, n, w);
        }
      }
    }
  }

  /** A whitespace character ends the first word, so the word before it is unchanged by what follows. */
  lemma {:induction false} WordLengthBefore(a: string, c: char, b: string)
    requires IsSpace(c)
    ensures WordLength(a + [c] + b) == WordLength(a)
    decreases |a|
  {
    var s := a + [c] + b;
    if a == [] {
      assert s[0] == c;
    } else if !IsSpace(a[0]) {
      assert s[0] == a[0] && s[1..] == a[1..] + [c] + b;
      WordLengthBefore(a[1..], c, b);
    } else {
      assert s[0] == a[0];
    }
  }

  /** Splitting at a whitespace character: the words before it, then the words after it. */
  lemma {:induction false} WordsAround(a: string, c: char, b: string)
    requires IsSpace(c)
    ensures Words(a + [c] + b) == Words(a) + Words(b)
    decreases |a|
  {
    var s := a + [c] + b;
    if a == [] {
      assert s[0] == c && s[1..] == b;
    } else if IsSpace(a[0]) {
      assert s[0] == a[0] && s[1..] == a[1..] + [c] + b;
      WordsAround(a[1..], c, b);
    } else {
      var n := WordLength(a);
      WordLengthBefore(a, c, b);
      assert s[0] == a[0];
      assert s[..n] == a[..n] && s[n..] == a[n..] + [c] + b;
      WordsAround(a[n..], c, b);
      assert Words(a) == [a[..n]] + Words(a[n..]);
      AppendAssoc([a[..n]], Words(a[n..]), Words(b));
    }
  }

  /** A non-empty text without whitespace is a single word. */
  lemma WordsOfWord(w: string)
    requires w != [] && forall i | 0 <= i < |w| :: !IsSpace(w[i])
    ensures Words(w) == [w]
  {
    var n := WordLength(w);
    assert n == |w|;
    assert w[..n] == w && w[n..] == [];
  }

  /** A metacharacter is never whitespace, so a text holding one has a word holding one. */
  lemma {:induction false} MetaWordExists(s: string)
    requires HasMeta(s)
    ensures FirstMetaWord(Words(s)).Some?
    decreases |s|
  {
    var i :| 0 <= i < |s| && IsRegexMeta(s[i]);
    MetaIsNotSpace(s[i]);
    if IsSpace(s[0]) {
      assert s[1..][i - 1] == s[i];
      MetaWordExists(s[1..]);
      assert Words(s) == Words(s[1..]);
    } else {
      var n := WordLength(s);
      if i < n {
        MetaInFirstWord(s, i);
      } else {
        assert s[n..][i - n] == s[i];
        MetaWordExists(s[n..]);
        MetaInLaterWord(s);
      }
    }
  }

  lemma MetaInFirstWord(s: string, i: nat)
    requires s != [] && !IsSpace(s[0]) && i < WordLength(s) && IsRegexMeta(s[i])
    ensures FirstMetaWord(Words(s)).Some?
  {
    var n := WordLength(s);
    assert Words(s) == [s[..n]] + Words(s[n..]);
    assert s[..n][i] == s[i];
  }

  lemma MetaInLaterWord(s: string)
    requires s != [] && !IsSpace(s[0]) && FirstMetaWord(Words(s[WordLength(s)..])).Some?
    ensures FirstMetaWord(Words(s)).Some?
  {
    var n := WordLength(s);
    assert Words(s) == [s[..n]] + Words(s[n..]);
    assert Words(s)[1..] == Words(s[n..]);
  }

  lemma MetaIsNotSpace(c: char)
    requires IsRegexMeta(c)
    ensures !IsSpace(c)
  {
  }

  /** The first word holding a metacharacter: a word of the list, holding one, after words holding none. */
  lemma {:induction false} FirstMetaWordIsFirst(words: seq<string>)
    requires FirstMetaWord(words).Some?
    ensures exists k | 0 <= k < |words| :: (words[k] == FirstMetaWord(words).value && HasMeta(words[k])
      && forall j | 0 <= j < k :: !HasMeta(words[j]))
    decreases |words|
  {
    if !HasMeta(words[0]) {
      FirstMetaWordIsFirst(words[1..]);
      var k :| 0 <= k < |words[1..]| && words[1..][k] == FirstMetaWord(words).value && HasMeta(words[1..][k])
        && forall j | 0 <= j < k :: !HasMeta(words[1..][j]);
      assert words[k + 1] == words[1..][k];
      assert forall j | 1 <= j < k + 1 :: words[j] == words[1..][j - 1];
    }
  }

  /**
   * A reply holding a backtick pair with no line break between them gives the text between
   * the first such pair: the leftmost backtick that has a closing one later on the same line.
   */
  lemma BacktickCase(reply: string)
    requires exists j :: MatchAt(reply, j, '`', '`')
    ensures exists j :: FirstMatchAt(reply, j, '`', '`') && Extract(reply) == MatchBody(reply, j, '`', '`')
    ensures '`' !in Extract(reply) && '\n' !in Extract(reply)
  {
    ScanNonEmpty(reply, '`', '`');
    ScanBodies(reply, '`', '`');
    var j := ScanFirst(reply, '`', '`');
    var quoted := Scan(reply, '`', '`');
    assert quoted[0] in quoted;
  }

  /**
   * With no backtick pair, a reply holding a metacharacter gives the first of its words that
   * holds one: a piece of the reply without whitespace, preceded only by words with no
   * metacharacter.
   */
  lemma MetaWordCase(reply: string)
    requires !exists j :: MatchAt(reply, j, '`', '`')
    requires HasMeta(reply)
    ensures var words := Words(reply); exists k | 0 <= k < |words| :: (words[k] == Extract(reply) && HasMeta(words[k])
      && forall j | 0 <= j < k :: !HasMeta(words[j]))
    ensures Extract(reply) != [] && Contains(reply, Extract(reply))
    ensures forall i | 0 <= i < |Extract(reply)| :: !IsSpace(Extract(reply)[i])
  {
    ScanNonEmpty(reply, '`', '`');
    MetaWordExists(reply);
    FirstMetaWordIsFirst(Words(reply));
    WordsOccur(reply);
    var words := Words(reply);
    var k :| 0 <= k < |words| && words[k] == Extract(reply) && HasMeta(words[k]) && forall j | 0 <= j < k :: !HasMeta(words[j]);
    assert words[k] in words;
  }

  /** A reply with neither a backtick pair nor a metacharacter is kept as it is. */
  lemma UnchangedCase(reply: string)
    requires !exists j :: MatchAt(reply, j, '`', '`')
    requires !HasMeta(reply)
    ensures Extract(reply) == reply
  {
    ScanNonEmpty(reply, '`', '`');
  }
}
