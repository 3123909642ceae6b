/** Tokenising note contents for search: lowering the text, then splitting it
    into the maximal runs of word characters that the regular expression
    `\w+` finds, read over ASCII. */
module Tokens {

  /** The ASCII reading of `\w`: letters, digits and the underscore. */
  predicate IsWordChar(c: char) {
    ('a' <= c <= 'z') || ('A' <= c <= 'Z') || ('0' <= c <= '9') || c == '_'
  }

  predicate IsUpper(c: char) {
    'A' <= c <= 'Z'
  }

  /** ASCII lower-casing of one character. */
  function LowerChar(c: char): (r: char)
    ensures !IsUpper(r)
    ensures IsWordChar(r) == IsWordChar(c)
    ensures !IsUpper(c) ==> r == c
  {
    if IsUpper(c) then (c as int - 'A' as int + 'a' as int) as char else c
  }

  /** `str.lower`, character by character. */
  function Lower(s: string): (r: string)
    ensures |r| == |s|
    ensures forall i :: 0 <= i < |s| ==> r[i] == LowerChar(s[i])
  {
    if s == [] then [] else [LowerChar(s[0])] + Lower(s[1..])
  }

  /** The end of the run of word characters that starts at `i`. */
  function RunEnd(s: string, i: nat): (j: nat)
    requires i <= |s|
    ensures i <= j <= |s|
    ensures forall k :: i <= k < j ==> IsWordChar(s[k])
    ensures j == |s| || !IsWordChar(s[j])
    decreases |s| - i
  {
    if i == |s| || !IsWordChar(s[i]) then i else RunEnd(s, i + 1)
  }

  /** No run of word characters crosses position `i`. */
  predicate Boundary(s: string, i: nat)
    requires i <= |s|
  {
    i == 0 || i == |s| || !IsWordChar(s[i - 1]) || !IsWordChar(s[i])
  }

  /** `s[a..b]` is a maximal, non-empty run of word characters of `s`: a match
      of `\w+` as a scan from the left finds it. */
  ghost predicate IsRun(s: string, a: int, b: int) {
    && 0 <= a < b <= |s|
    && (forall k :: a <= k < b ==> IsWordChar(s[k]))
    && (a == 0 || !IsWordChar(s[a - 1]))
    && (b == |s| || !IsWordChar(s[b]))
  }

  /** The matches of `\w+` in `s[i..]`, left to right. */
  function TokensFrom(s: string, i: nat): seq<string>
    requires i <= |s|
    decreases |s| - i
  {
    if i == |s| then []
    else if !IsWordChar(s[i]) then TokensFrom(s, i + 1)
    else
      var j := RunEnd(s, i);
      [s[i..j]] + TokensFrom(s, j)
  }

  /** `RegexpTokenizer(r'\w+').tokenize(s)`. */
  function Tokenize(s: string): seq<string> {
    TokensFrom(s, 0)
  }

  /** The bag of words search looks in: the set of tokens of the lowered text. */
  function Bow(text: string): set<string> {
    set t | t in Tokenize(Lower(text))
  }

  /** From a boundary on, the tokens are exactly the maximal runs that start there. */
  lemma {:induction false} TokensFromRuns(s: string, i: nat, t: string)
    requires i <= |s| && Boundary(s, i)
    ensures t in TokensFrom(s, i) <==> exists a, b :: i <= a && IsRun(s, a, b) && s[a..b] == t
    decreases |s| - i
  {
    if i == |s| {
    } else if !IsWordChar(s[i]) {
      TokensFromRuns(s, i + 1, t);
      if exists a, b :: i <= a && IsRun(s, a, b) && s[a..b] == t {
        var a, b :| i <= a && IsRun(s, a, b) && s[a..b] == t;
        assert IsWordChar(s[a]);
        assert i + 1 <= a;
      }
    } else {
      var j := RunEnd(s, i);
      TokensFromRuns(s, j, t);
      assert IsRun(s, i, j);
      if exists a, b :: i <= a && IsRun(s, a, b) && s[a..b] == t {
        var a, b :| i <= a && IsRun(s, a, b) && s[a..b] == t;
        assert a == i ==> b == j;
        assert t == s[i..j] || j <= a;
      }
    }
  }

  /** A term is in the bag of words of a text exactly when it is a maximal run
      of word characters of the lowered text. */
  lemma BowIsRuns(text: string, term: string)
    ensures term in Bow(text) <==>
      exists a, b :: IsRun(Lower(text), a, b) && Lower(text)[a..b] == term
  {
    var s := Lower(text);
    TokensFromRuns(s, 0, term);
    if term in Bow(text) {
      var a, b :| 0 <= a && IsRun(s, a, b) && s[a..b] == term;
      assert exists a', b' :: IsRun(Lower(text), a', b') && Lower(text)[a'..b'] == term;
    }
  }

  /** Every token is non-empty and made of lower-case word characters. */
  lemma BowTokensAreLowerWords(text: string, term: string)
    requires term in Bow(text)
    ensures |term| > 0
    ensures forall k :: 0 <= k < |term| ==> IsWordChar(term[k]) && !IsUpper(term[k])
  {
    BowIsRuns(text, term);
    var s := Lower(text);
    var a, b :| IsRun(s, a, b) && s[a..b] == term;
    assert forall k :: 0 <= k < |term| ==> term[k] == s[a + k];
  }

  /** Content is lowered and the term is not: a term with an upper-case letter
      is in no bag of words. */
  lemma UpperTermNeverInBow(text: string, term: string, k: nat)
    requires k < |term| && IsUpper(term[k])
    ensures term !in Bow(text)
  {
    if term in Bow(text) {
      BowTokensAreLowerWords(text, term);
    }
  }

  /** A maximal run of word characters of the lowered text is in its bag of words. */
  lemma RunInBow(text: string, a: int, b: int)
    requires IsRun(Lower(text), a, b)
    ensures Lower(text)[a..b] in Bow(text)
  {
    BowIsRuns(text, Lower(text)[a..b]);
  }

  /** A term of word characters that some stretch of the text lowers to, with
      no word character on either side, is in the text's bag of words. */
  lemma WordInBow(text: string, a: nat, term: string)
    requires |term| > 0 && a + |term| <= |text|
    requires forall k :: 0 <= k < |term| ==> LowerChar(text[a + k]) == term[k] && IsWordChar(term[k])
    requires a == 0 || !IsWordChar(text[a - 1])
    requires a + |term| == |text| || !IsWordChar(text[a + |term|])
    ensures term in Bow(text)
  {
    var s := Lower(text);
    var b := a + |term|;
    assert s[a..b] == term;
    assert IsRun(s, a, b);
    RunInBow(text, a, b);
  }

  /** A term one of whose characters no character of the text lowers to is
      not in the text's bag of words. */
  lemma AbsentCharNotInBow(text: string, term: string, k: nat)
    requires k < |term|
    requires forall c :: c in text ==> LowerChar(c) != term[k]
    ensures term !in Bow(text)
  {
    BowIsRuns(text, term);
  }
  /** A term with a letter that occurs in the text in neither case is not in
      the text's bag of words; `upper` is the other character that lowers to
      that letter. */
  lemma AbsentLetterNotInBow(text: string, term: string, k: nat, upper: char)
    requires k < |term|
    requires forall c :: LowerChar(c) == term[k] ==> c == term[k] || c == upper
    requires term[k] !in text && upper !in text
    ensures term !in Bow(text)
  {
    AbsentCharNotInBow(text, term, k);
  }

}
