/** Python string helpers the pipeline relies on: str.strip() and " ".join(). */
module Text {

  /** The characters Python's str.isspace() accepts, which str.strip() removes. */
  predicate IsSpace(c: char) {
    || c == ' ' || c == '\t' || c == '\n' || c == '\r'
    || c == '\U{0B}' || c == '\U{0C}'
    || ('\U{1C}' <= c <= '\U{1F}')
    || c == '\U{85}' || c == '\U{A0}' || c == '\U{1680}'
    || ('\U{2000}' <= c <= '\U{200A}')
    || c == '\U{2028}' || c == '\U{2029}' || c == '\U{202F}' || c == '\U{205F}' || c == '\U{3000}'
  }

  /** Every character of s is whitespace; the empty string is blank. */
  predicate IsBlank(s: string) {
    forall i :: 0 <= i < |s| ==> IsSpace(s[i])
  }

  /** s is empty, or starts and ends with a non-whitespace character. */
  predicate IsTrimmed(s: string) {
    s == [] || (!IsSpace(s[0]) && !IsSpace(s[|s| - 1]))
  }

  /** Python's str.strip(): s without its leading and trailing whitespace. */
  function Strip(s: string): (r: string)
    ensures |r| <= |s|
  {
    if s == [] then []
    else if IsSpace(s[0]) then Strip(s[1..])
    else if IsSpace(s[|s| - 1]) then Strip(s[..|s| - 1])
    else s
  }

  /**
   * The result of Strip has no surrounding whitespace, is empty exactly when s is blank,
   * and is s itself when s has no surrounding whitespace.
   */
  lemma {:induction false} StripShape(s: string)
    ensures IsTrimmed(Strip(s))
    ensures Strip(s) == [] <==> IsBlank(s)
    ensures IsTrimmed(s) ==> Strip(s) == s
  {
    if s != [] && IsSpace(s[0]) {
      StripShape(s[1..]);
      assert forall i :: 0 < i < |s| ==> s[i] == s[1..][i - 1];
    } else if s != [] && IsSpace(s[|s| - 1]) {
      StripShape(s[..|s| - 1]);
      assert s[..|s| - 1][0] == s[0];
    }
  }

  lemma BlankConcat(a: string, b: string)
    requires IsBlank(a) && IsBlank(b)
    ensures IsBlank(a + b)
  {
    assert forall i :: |a| <= i < |a| + |b| ==> (a + b)[i] == b[i - |a|];
  }

  lemma ConsAssoc(c: char, a: string, b: string, d: string)
    ensures [c] + (a + b + d) == ([c] + a) + b + d
  {
  }

  lemma SnocAssoc(a: string, b: string, d: string, c: char)
    ensures (a + b + d) + [c] == a + b + (d + [c])
  {
  }

  /** What Strip removes is whitespace, and only at the ends: s is p + Strip(s) + q with p, q blank. */
  lemma {:induction false} StripRemovesOnlyEnds(s: string) returns (p: string, q: string)
    ensures s == p + Strip(s) + q
    ensures IsBlank(p) && IsBlank(q)
  {
    if s == [] {
      p, q := [], [];
      assert p + Strip(s) + q == [];
    } else if IsSpace(s[0]) {
      var p', q' := StripRemovesOnlyEnds(s[1..]);
      BlankConcat([s[0]], p');
      ConsAssoc(s[0], p', Strip(s), q');
      p, q := [s[0]] + p', q';
      assert s == [s[0]] + s[1..];
    } else if IsSpace(s[|s| - 1]) {
      var p', q' := StripRemovesOnlyEnds(s[..|s| - 1]);
      BlankConcat(q', [s[|s| - 1]]);
      SnocAssoc(p', Strip(s), q', s[|s| - 1]);
      p, q := p', q' + [s[|s| - 1]];
      assert s == s[..|s| - 1] + [s[|s| - 1]];
    } else {
      p, q := [], [];
      assert p + s + q == s;
    }
  }

  /** Python's " ".join(words). */
  function JoinWithSpaces(words: seq<string>): string {
    if |words| == 0 then ""
    else if |words| == 1 then words[0]
    else words[0] + " " + JoinWithSpaces(words[1..])
  }

  /** Joining non-empty trimmed words gives a trimmed string, empty only for no words. */
  lemma {:induction false} JoinTrimmed(words: seq<string>)
    requires forall i :: 0 <= i < |words| ==> words[i] != "" && IsTrimmed(words[i])
    ensures IsTrimmed(JoinWithSpaces(words))
    ensures JoinWithSpaces(words) == "" <==> words == []
  {
    if |words| > 1 {
      JoinTrimmed(words[1..]);
      var rest := JoinWithSpaces(words[1..]);
      var j := words[0] + " " + rest;
      assert j[0] == words[0][0];
      assert j[|j| - 1] == rest[|rest| - 1];
    }
  }
}
