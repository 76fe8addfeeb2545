/**
 * Joining strings with single spaces (the job renders an alias list with
 * `" ".join(...)`), and the matching split that acts as its inverse.
 */
module Text {

  /** The strings of `words` separated by single spaces; `""` for no words. */
  function Join(words: seq<string>): (s: string)
    ensures |words| == 0 ==> s == ""
    ensures |words| >= 1 ==> |s| >= |words[0]| && s[..|words[0]|] == words[0]
    ensures |words| >= 2 ==> |s| > |words[0]| && s[|words[0]|] == ' '
  {
    if |words| == 0 then ""
    else if |words| == 1 then words[0]
    else words[0] + " " + Join(words[1..])
  }

  /** Index of the first space of `s`. */
  function FirstSpace(s: string): (i: nat)
    requires ' ' in s
    ensures i < |s| && s[i] == ' '
    ensures ' ' !in s[..i]
  {
    if s[0] == ' ' then 0
    else
      assert s == [s[0]] + s[1..];
      var j := FirstSpace(s[1..]);
      assert s[..j + 1] == [s[0]] + s[1..][..j];
      j + 1
  }

  /** The fields of `s` between single spaces, as `s.split(" ")` gives them: never empty. */
  function Split(s: string): (fields: seq<string>)
    ensures |fields| >= 1
    ensures forall k :: 0 <= k < |fields| ==> ' ' !in fields[k]
    decreases |s|
  {
    if ' ' !in s then [s]
    else
      var i := FirstSpace(s);
      [s[..i]] + Split(s[i + 1..])
  }

  /** The first space of a space-free word followed by a space is the one after the word. */
  lemma SplitAfterWord(w: string, rest: string)
    requires ' ' !in w
    ensures ' ' in w + " " + rest
    ensures Split(w + " " + rest) == [w] + Split(rest)
  {
    var s := w + " " + rest;
    assert s[|w|] == ' ';
    var i := FirstSpace(s);
    assert i == |w|;
    assert s[..i] == w;
    assert s[i + 1..] == rest;
  }

  /** Joining at least one space-free string and splitting the result gives the strings back. */
  lemma {:induction false} SplitJoin(words: seq<string>)
    requires |words| >= 1
    requires forall k :: 0 <= k < |words| ==> ' ' !in words[k]
    ensures Split(Join(words)) == words
  {
    if |words| > 1 {
      SplitAfterWord(words[0], Join(words[1..]));
      SplitJoin(words[1..]);
      assert words == [words[0]] + words[1..];
    }
  }

  /** A join is empty exactly when there are no words or the only word is empty. */
  lemma JoinEmpty(words: seq<string>)
    ensures Join(words) == "" <==> (|words| == 0 || words == [""])
  {
  }
}
