/** The content censor: a text is censored when, both sides lower-cased, it contains one of
    a fixed list of words. */
module Censor {

  /** The words whose presence censors a text. */
  const BadContent: seq<string> := ["qwerty", "йцуке", "123"]

  /** Lower-casing of one character, as Go's `unicode.ToLower` does it for the Latin and
      Cyrillic capitals: A-Z, А-Я (U+0410..U+042F) and Ѐ-Џ (U+0400..U+040F). Every other
      character is left as it is. */
  function LowerRune(c: char): char {
    if 'A' <= c <= 'Z' then (c as int + 32) as char
    else if '\U{0410}' <= c <= '\U{042F}' then (c as int + 32) as char
    else if '\U{0400}' <= c <= '\U{040F}' then (c as int + 80) as char
    else c
  }

  /** The capitals `LowerRune` maps: A-Z, А-Я and Ѐ-Џ. */
  predicate IsCapital(c: char) {
    'A' <= c <= 'Z' || '\U{0400}' <= c <= '\U{042F}'
  }

  /** `strings.ToLower`: lower-cases character by character. No capital is left, and every
      other character is kept where it was. */
  function Lower(s: string): (r: string)
    ensures |r| == |s|
    ensures forall i :: 0 <= i < |r| ==> !IsCapital(r[i])
    ensures forall i :: 0 <= i < |s| && !IsCapital(s[i]) ==> r[i] == s[i]
  {
    seq(|s|, i requires 0 <= i < |s| => LowerRune(s[i]))
  }

  /** `strings.HasPrefix`. */
  predicate StartsWith(s: string, prefix: string) {
    |prefix| <= |s| && s[..|prefix|] == prefix
  }

  /** `sub` occurs in `s` starting at position `k`. */
  ghost predicate OccursAt(s: string, sub: string, k: int) {
    0 <= k && k + |sub| <= |s| && s[k..k + |sub|] == sub
  }

  /** `strings.Contains`: tries every start position from the left. */
  function Contains(s: string, sub: string): (r: bool)
    ensures r <==> exists k :: OccursAt(s, sub, k)
    decreases |s|
  {
    if StartsWith(s, sub) then
      assert OccursAt(s, sub, 0);
      true
    else if s == [] then
      assert forall k :: !OccursAt(s, sub, k);
      false
    else
      var r := Contains(s[1..], sub);
      OccursInTail(s, sub);
      r
  }

  /** When `sub` does not start `s`, it occurs in `s` exactly when it occurs in `s[1..]`. */
  lemma OccursInTail(s: string, sub: string)
    requires s != [] && !StartsWith(s, sub)
    ensures (exists k :: OccursAt(s, sub, k)) <==> (exists k :: OccursAt(s[1..], sub, k))
  {
    if k :| OccursAt(s, sub, k) {
      assert k != 0;
      assert s[1..][k - 1..k - 1 + |sub|] == s[k..k + |sub|];
      assert OccursAt(s[1..], sub, k - 1);
    }
    if k :| OccursAt(s[1..], sub, k) {
      assert s[k + 1..k + 1 + |sub|] == s[1..][k..k + |sub|];
      assert OccursAt(s, sub, k + 1);
    }
  }

  /** A text is censored by a word list when its lower-cased form contains the lower-cased
      form of some listed word. */
  ghost predicate CensoredBy(text: string, words: seq<string>) {
    exists i :: 0 <= i < |words| && Contains(Lower(text), Lower(words[i]))
  }

  /** `IsCensored`: the check against the fixed word list. */
  method IsCensored(text: string) returns (censored: bool)
    ensures censored <==> CensoredBy(text, BadContent)
  {
    censored := IsCensoredBy(text, BadContent);
  }

  /** The loop of `IsCensored` over any word list: checks the words in order and stops at
      the first one found. */
  method IsCensoredBy(text: string, words: seq<string>) returns (censored: bool)
    ensures censored <==> CensoredBy(text, words)
  {
    censored := false;
    var i := 0;
    while i < |words|
      invariant 0 <= i <= |words|
      invariant !censored
      invariant forall j :: 0 <= j < i ==> !Contains(Lower(text), Lower(words[j]))
    {
      censored := Contains(Lower(text), Lower(words[i]));
      if censored {
        return censored;
      }
      i := i + 1;
    }
    return censored;
  }

  /** The early-exit loop gives the same answer on any reordering of the word list. */
  method ReorderedAgrees(text: string, words: seq<string>, reordered: seq<string>)
    returns (first: bool, second: bool)
    requires multiset(words) == multiset(reordered)
    ensures first == second
    ensures first <==> CensoredBy(text, words)
  {
    first := IsCensoredBy(text, words);
    second := IsCensoredBy(text, reordered);
    OrderIndependent(text, words, reordered);
  }

  // ---------------------------------------------------------------------------------------
  // Lower-casing.

  /** Lower-casing distributes over concatenation. */
  lemma LowerAppend(a: string, b: string)
    ensures Lower(a + b) == Lower(a) + Lower(b)
  {
    assert forall i :: 0 <= i < |a + b| ==> Lower(a + b)[i] == (Lower(a) + Lower(b))[i];
  }

  /** Lower-casing commutes with taking a slice. */
  lemma LowerSlice(s: string, i: int, j: int)
    requires 0 <= i <= j <= |s|
    ensures Lower(s)[i..j] == Lower(s[i..j])
  {
    assert forall k :: 0 <= k < j - i ==> Lower(s)[i..j][k] == Lower(s[i..j])[k];
  }

  /** Lower-casing twice is lower-casing once. */
  lemma LowerIdempotent(s: string)
    ensures Lower(Lower(s)) == Lower(s)
  {
    assert forall i :: 0 <= i < |s| ==> Lower(Lower(s))[i] == Lower(s)[i];
  }

  /** If `sub` occurs in `s`, its lower-cased form occurs in the lower-cased `s`. */
  lemma ContainsLower(s: string, sub: string)
    requires Contains(s, sub)
    ensures Contains(Lower(s), Lower(sub))
  {
    var k :| OccursAt(s, sub, k);
    LowerSlice(s, k, k + |sub|);
    assert OccursAt(Lower(s), Lower(sub), k);
  }

  /** Containment survives text added on either side. */
  lemma ContainsExtended(p: string, s: string, q: string, sub: string)
    requires Contains(s, sub)
    ensures Contains(p + s + q, sub)
  {
    var k :| OccursAt(s, sub, k);
    assert (p + s + q)[|p| + k..|p| + k + |sub|] == s[k..k + |sub|];
    assert OccursAt(p + s + q, sub, |p| + k);
  }

  // ---------------------------------------------------------------------------------------
  // Properties of the censor.

  /** Matching ignores case: a text containing any spelling of a listed word whose
      lower-cased form is that word's lower-cased form is censored. */
  lemma AnyCaseIsCensored(text: string, spelling: string, i: int)
    requires 0 <= i < |BadContent|
    requires Lower(spelling) == Lower(BadContent[i])
    requires Contains(text, spelling)
    ensures CensoredBy(text, BadContent)
  {
    ContainsLower(text, spelling);
  }

  /** "QWERTY" and "Qwerty" censor a text just as "qwerty" does. */
  lemma QwertyInAnyCase(text: string)
    requires Contains(text, "QWERTY") || Contains(text, "Qwerty")
    ensures CensoredBy(text, BadContent)
  {
    assert Lower("QWERTY") == "qwerty" == Lower(BadContent[0]);
    assert Lower("Qwerty") == "qwerty";
    if Contains(text, "QWERTY") {
      AnyCaseIsCensored(text, "QWERTY", 0);
    } else {
      AnyCaseIsCensored(text, "Qwerty", 0);
    }
  }

  /** Lower-casing does not change digits, so any text containing "123" is censored. */
  lemma DigitsAreCensored(text: string)
    requires Contains(text, "123")
    ensures CensoredBy(text, BadContent)
  {
    assert Lower("123") == "123" == BadContent[2];
    AnyCaseIsCensored(text, "123", 2);
  }

  /** The empty text is not censored: every listed word is non-empty. */
  lemma EmptyIsNotCensored()
    ensures !CensoredBy("", BadContent)
  {
    forall i | 0 <= i < |BadContent|
      ensures !Contains(Lower(""), Lower(BadContent[i]))
    {
      assert |Lower(BadContent[i])| > 0;
      assert forall k :: !OccursAt(Lower(""), Lower(BadContent[i]), k);
    }
  }

  /** Whether a text is censored depends only on its lower-cased form. */
  lemma CaseInsensitive(text: string)
    ensures CensoredBy(Lower(text), BadContent) <==> CensoredBy(text, BadContent)
  {
    LowerIdempotent(text);
  }

  /** The verdict does not depend on the order of the word list. */
  lemma OrderIndependent(text: string, words: seq<string>, reordered: seq<string>)
    requires multiset(words) == multiset(reordered)
    ensures CensoredBy(text, words) <==> CensoredBy(text, reordered)
  {
    if CensoredBy(text, words) {
      var i :| 0 <= i < |words| && Contains(Lower(text), Lower(words[i]));
      assert words[i] in multiset(reordered);
      var j :| 0 <= j < |reordered| && reordered[j] == words[i];
    }
    if CensoredBy(text, reordered) {
      var j :| 0 <= j < |reordered| && Contains(Lower(text), Lower(reordered[j]));
      assert reordered[j] in multiset(words);
      var i :| 0 <= i < |words| && words[i] == reordered[j];
    }
  }

  /** Text added before or after a censored text keeps it censored. */
  lemma ExtendedStaysCensored(p: string, text: string, q: string)
    requires CensoredBy(text, BadContent)
    ensures CensoredBy(p + text + q, BadContent)
  {
    var i :| 0 <= i < |BadContent| && Contains(Lower(text), Lower(BadContent[i]));
    LowerAppend(p, text);
    LowerAppend(p + text, q);
    ContainsExtended(Lower(p), Lower(text), Lower(q), Lower(BadContent[i]));
  }
}
