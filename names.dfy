/**
  The "Message Filter" name formatter (`transformName`) and the name shown
  for a winner in the output lines.
 */
module Names {
  import opened Text

  predicate IsLatinLetter(c: char) {
    ('a' <= c <= 'z') || ('A' <= c <= 'Z')
  }

  /** `s.replace(/[^a-zA-Z]/g, "")`: the ASCII letters of `s`, in order. */
  function LettersOnly(s: string): (r: string)
    ensures |r| <= |s|
    ensures forall i :: 0 <= i < |r| ==> IsLatinLetter(r[i])
  {
    if s == [] then []
    else if IsLatinLetter(s[0]) then [s[0]] + LettersOnly(s[1..])
    else LettersOnly(s[1..])
  }

  /** The position of the first ASCII letter of `s`, or `|s|`. */
  function FirstLetter(s: string): (i: nat)
    ensures i <= |s|
    ensures i < |s| ==> IsLatinLetter(s[i])
    ensures forall j :: 0 <= j < i ==> !IsLatinLetter(s[j])
  {
    if s == [] then 0
    else if IsLatinLetter(s[0]) then 0
    else 1 + FirstLetter(s[1..])
  }

  /** Dropping the non-letters leaves something exactly when `s` has a
      letter, and then it starts with the first letter of `s`. */
  lemma {:induction false} LettersOnlyFirst(s: string)
    ensures LettersOnly(s) == [] <==> FirstLetter(s) == |s|
    ensures LettersOnly(s) != [] ==> LettersOnly(s)[0] == s[FirstLetter(s)]
  {
    if s != [] && !IsLatinLetter(s[0]) {
      LettersOnlyFirst(s[1..]);
    }
  }

  /** Dropping the non-letters keeps every letter and adds nothing. */
  lemma {:induction false} LettersOnlyKeepsLetters(s: string, c: char)
    ensures c in LettersOnly(s) <==> c in s && IsLatinLetter(c)
  {
    if s != [] {
      LettersOnlyKeepsLetters(s[1..], c);
      assert c in s <==> c == s[0] || c in s[1..];
    }
  }

  /** `transformName(originalName)`: the first whitespace-separated word of
      the trimmed name, followed by a space and the first ASCII letter of
      the second word when there is one. */
  function TransformName(originalName: string): string {
    var words := SplitSpaces(Trim(originalName));
    if |words| == 0 then originalName
    else
      var firstWord := words[0];
      var secondWord := if |words| > 1 then words[1] else "";
      var alphaOnly := LettersOnly(secondWord);
      if alphaOnly != [] then firstWord + " " + [alphaOnly[0]] else firstWord
  }

  /** The first word of `split(/\s+/)` is the text up to the first
      whitespace character. */
  lemma FirstWordIsPrefix(s: string)
    ensures SplitSpaces(s)[0] == s[..FirstSpace(s)]
  {
  }

  /** The shape of a formatted name: the trimmed name up to its first
      whitespace character, then, exactly when the second word holds an
      ASCII letter, a space and that word's first letter. */
  lemma TransformNameShape(name: string, t: string, n: nat, r: string)
    requires t == Trim(name) && n == FirstSpace(t) && r == TransformName(name)
    ensures n <= |r| && r[..n] == t[..n]
    ensures |r| == n || (|r| == n + 2 && r[n] == ' ' && IsLatinLetter(r[n + 1]))
    ensures |r| == n + 2 <==> |SplitSpaces(t)| > 1 && FirstLetter(SplitSpaces(t)[1]) < |SplitSpaces(t)[1]|
    ensures |r| == n + 2 ==> r[n + 1] == SplitSpaces(t)[1][FirstLetter(SplitSpaces(t)[1])]
  {
    var words := SplitSpaces(t);
    FirstWordIsPrefix(t);
    TransformNameCases(name, words);
    ShapeOfWords(t, n, r, words);
  }

  /** `TransformNameShape` for any list of words whose first word is the
      first `n` characters of `t`. */
  lemma ShapeOfWords(t: string, n: nat, r: string, words: seq<string>)
    requires |words| >= 1 && n <= |t| && |words[0]| == n && words[0] == t[..n]
    requires |words| > 1 && LettersOnly(words[1]) != [] ==> r == words[0] + " " + [LettersOnly(words[1])[0]]
    requires !(|words| > 1 && LettersOnly(words[1]) != []) ==> r == words[0]
    ensures n <= |r| && r[..n] == t[..n]
    ensures |r| == n || (|r| == n + 2 && r[n] == ' ' && IsLatinLetter(r[n + 1]))
    ensures |r| == n + 2 <==> |words| > 1 && FirstLetter(words[1]) < |words[1]|
    ensures |r| == n + 2 ==> r[n + 1] == words[1][FirstLetter(words[1])]
  {
    if |words| > 1 {
      LettersOnlyFirst(words[1]);
    }
    if |words| > 1 && LettersOnly(words[1]) != [] {
      InitialShape(t, n, r, words[0], words[1]);
    }
  }

  /** The two outcomes of `transformName`: the first word alone, or the
      first word, a space and the first letter of the second word. */
  lemma TransformNameCases(name: string, words: seq<string>)
    requires words == SplitSpaces(Trim(name))
    ensures |words| > 1 && LettersOnly(words[1]) != [] ==>
      TransformName(name) == words[0] + " " + [LettersOnly(words[1])[0]]
    ensures !(|words| > 1 && LettersOnly(words[1]) != []) ==> TransformName(name) == words[0]
  {
  }

  lemma InitialShape(t: string, n: nat, r: string, w: string, v: string)
    requires n <= |t| && |w| == n && w == t[..n] && FirstLetter(v) < |v| && r == w + " " + [v[FirstLetter(v)]]
    ensures |r| == n + 2 && r[..n] == t[..n] && r[n] == ' ' && r[n + 1] == v[FirstLetter(v)]
  {
  }

  /** A word without whitespace splits into itself. */
  lemma SplitSpacesOfWord(w: string)
    requires NoSpace(w)
    ensures SplitSpaces(w) == [w]
  {
    assert FirstSpace(w) == |w|;
  }

  /** A word followed by whitespace splits off as the first word. */
  lemma SplitSpacesOfWordThen(w: string, s: string)
    requires NoSpace(w) && s != [] && IsSpace(s[0])
    ensures SplitSpaces(w + s) == [w] + SplitSpaces(TrimStart(s))
  {
    var x := w + s;
    assert FirstSpace(x) == |w| by {
      assert forall j :: 0 <= j < |w| ==> x[j] == w[j];
      assert x[|w|] == s[0];
    }
    assert x[..|w|] == w;
    assert x[|w|..] == s;
  }

  lemma LetterIsNotSpace(c: char)
    requires IsLatinLetter(c)
    ensures !IsSpace(c)
  {
  }

  /** A space in front of a string that does not start with whitespace is
      all `trimStart` removes. */
  lemma TrimStartOfSpaceThen(t: string)
    requires t != [] && !IsSpace(t[0])
    ensures TrimStart(" " + t) == t
  {
    assert (" " + t)[1..] == t;
  }

  /** Two words with one space between them split into the two words. */
  lemma SplitSpacesOfTwoWords(w: string, v: string)
    requires NoSpace(w) && NoSpace(v) && v != []
    ensures SplitSpaces(w + " " + v) == [w, v]
  {
    var gap := " " + v;
    assert w + " " + v == w + gap;
    SplitSpacesOfWordThen(w, gap);
    TrimStartOfSpaceThen(v);
    SplitSpacesOfWord(v);
    PairOfWords(w, v);
  }

  lemma PairOfWords(w: string, v: string)
    ensures [w] + [v] == [w, v]
  {
  }

  /** A single word is formatted to itself. */
  lemma TransformNameOfWord(w: string)
    requires NoSpace(w)
    ensures TransformName(w) == w
  {
    if w != [] {
      assert w[0] == w[0] && !IsSpace(w[|w| - 1]);
    }
    TrimOfUnpadded(w);
    SplitSpacesOfWord(w);
  }

  /** A word, a space and a letter are formatted to themselves. */
  lemma TransformNameOfInitial(w: string, c: char)
    requires w != [] && NoSpace(w) && IsLatinLetter(c)
    ensures TransformName(w + " " + [c]) == w + " " + [c]
  {
    LetterIsNotSpace(c);
    assert NoSpace([c]);
    TransformNameOfTwoWords(w, [c]);
    assert LettersOnly([c]) == [c];
  }

  /** Formatting a formatted name changes nothing. */
  lemma TransformNameIdempotent(name: string)
    ensures TransformName(TransformName(name)) == TransformName(name)
  {
    var words := SplitSpaces(Trim(name));
    TransformNameCases(name, words);
    if |words| > 1 && LettersOnly(words[1]) != [] {
      FirstOfSeveralWords(Trim(name));
      TransformNameOfInitial(words[0], LettersOnly(words[1])[0]);
    } else {
      TransformNameOfWord(words[0]);
    }
  }

  /** A trimmed text of several words starts with a non-empty word. */
  lemma FirstOfSeveralWords(t: string)
    requires |SplitSpaces(t)| > 1 && (t != [] ==> !IsSpace(t[0]))
    ensures SplitSpaces(t)[0] != []
  {
    FirstWordIsPrefix(t);
  }

  /** For a name of two words, the first word is kept and the second
      contributes its first ASCII letter, if it has one. */
  lemma TransformNameOfTwoWords(w: string, v: string)
    requires w != [] && v != [] && NoSpace(w) && NoSpace(v)
    ensures LettersOnly(v) != [] ==> TransformName(w + " " + v) == w + " " + [LettersOnly(v)[0]]
    ensures LettersOnly(v) == [] ==> TransformName(w + " " + v) == w
  {
    WordsOfTwo(w, v);
  }

  /** The words of a trimmed name of two words. */
  lemma WordsOfTwo(w: string, v: string)
    requires w != [] && v != [] && NoSpace(w) && NoSpace(v)
    ensures SplitSpaces(Trim(w + " " + v)) == [w, v]
  {
    var pair := w + " " + v;
    assert pair[0] == w[0] && pair[|pair| - 1] == v[|v| - 1];
    TrimOfUnpadded(pair);
    SplitSpacesOfTwoWords(w, v);
  }

  /** The first two words of a name of two words followed by any further
      text that starts with a non-whitespace character. */
  lemma WordsOfTwoThen(w: string, v: string, rest: string)
    requires w != [] && v != [] && NoSpace(w) && NoSpace(v)
    requires rest != [] && !IsSpace(rest[0])
    ensures |SplitSpaces(Trim(w + " " + v + " " + rest))| > 1
    ensures SplitSpaces(Trim(w + " " + v + " " + rest))[0] == w
    ensures SplitSpaces(Trim(w + " " + v + " " + rest))[1] == v
  {
    var r := TrimEnd(rest);
    assert r != [] && r[0] == rest[0];
    TrimOfTwoThen(w, v, rest);
    WordsOfTwoBefore(w, v, r);
  }

  /** Trimming a name of two words followed by further text trims only
      the end of that text. */
  lemma TrimOfTwoThen(w: string, v: string, rest: string)
    requires w != [] && NoSpace(w) && TrimEnd(rest) != []
    ensures Trim(w + " " + v + " " + rest) == w + (" " + (v + (" " + TrimEnd(rest))))
  {
    var head := w + " " + v + " ";
    var s := w + " " + v + " " + rest;
    assert s == head + rest;
    assert s[0] == w[0];
    assert TrimStart(s) == s;
    TrimEndAppend(head, rest);
    Regroup(w, v, TrimEnd(rest));
  }

  /** The first two words of two words followed by text that starts with a
      non-whitespace character. */
  lemma WordsOfTwoBefore(w: string, v: string, r: string)
    requires w != [] && v != [] && NoSpace(w) && NoSpace(v)
    requires r != [] && !IsSpace(r[0])
    ensures |SplitSpaces(w + (" " + (v + (" " + r))))| > 1
    ensures SplitSpaces(w + (" " + (v + (" " + r))))[0] == w
    ensures SplitSpaces(w + (" " + (v + (" " + r))))[1] == v
  {
    var tail := v + (" " + r);
    SplitSpacesOfWordThen(w, " " + tail);
    assert tail[0] == v[0];
    TrimStartOfSpaceThen(tail);
    var words := SplitSpaces(tail);
    assert SplitSpaces(w + (" " + tail)) == [w] + words;
    FirstWordThen(v, r);
    assert words[0] == v;
  }

  lemma Regroup(w: string, v: string, r: string)
    ensures w + " " + v + " " + r == w + (" " + (v + (" " + r)))
  {
  }

  /** The first word of a word, a space and text that starts with a
      non-whitespace character. */
  lemma FirstWordThen(v: string, r: string)
    requires v != [] && NoSpace(v) && r != [] && !IsSpace(r[0])
    ensures SplitSpaces(v + (" " + r))[0] == v
  {
    SplitSpacesOfWordThen(v, " " + r);
  }

  /** Whatever follows the second word does not change the result. */
  lemma TransformNameIgnoresLaterWords(w: string, v: string, rest: string)
    requires w != [] && v != [] && NoSpace(w) && NoSpace(v)
    requires rest != [] && !IsSpace(rest[0])
    ensures TransformName(w + " " + v + " " + rest) == TransformName(w + " " + v)
  {
    WordsOfTwoThen(w, v, rest);
    WordsOfTwo(w, v);
  }

  /** The two words of `"Ben Bcool98"`. */
  lemma WordsOfInitialExample(name: string)
    requires name == "Ben Bcool98"
    ensures name == name[..3] + " " + name[4..]
    ensures NoSpace(name[..3]) && NoSpace(name[4..]) && IsLatinLetter(name[4])
    ensures name[..3] + " " + [name[4]] == "Ben B"
  {
  }

  /** A second word contributes its first letter only. */
  lemma TransformNameKeepsInitial(name: string)
    requires name == "Ben Bcool98"
    ensures TransformName(name) == "Ben B"
  {
    WordsOfInitialExample(name);
    var w, v := name[..3], name[4..];
    assert v[0] == name[4];
    assert LettersOnly(v) == [v[0]] + LettersOnly(v[1..]);
    TransformNameOfTwoWords(w, v);
  }

  /** The two words of `"Ben 98"`. */
  lemma WordsOfDigitsExample(name: string)
    requires name == "Ben 98"
    ensures name == name[..3] + " " + name[4..]
    ensures NoSpace(name[..3]) && NoSpace(name[4..]) && name[..3] == "Ben"
    ensures LettersOnly(name[4..]) == []
  {
    var v := name[4..];
    assert !IsLatinLetter(v[0]) && !IsLatinLetter(v[1]);
    assert LettersOnly(v) == LettersOnly(v[1..]);
    assert LettersOnly(v[1..]) == LettersOnly(v[2..]);
    assert v[2..] == [];
  }

  /** A second word without letters contributes nothing. */
  lemma TransformNameDropsDigits(name: string)
    requires name == "Ben 98"
    ensures TransformName(name) == "Ben"
  {
    WordsOfDigitsExample(name);
    TransformNameOfTwoWords(name[..3], name[4..]);
  }

  /** An empty name stays empty. */
  lemma TransformNameOfEmpty()
    ensures TransformName("") == ""
  {
    assert Trim("") == "";
    assert SplitSpaces("") == [""];
  }

  /** The name shown for a winner:
      `filterNames ? transformName(w.name) : (w.name || "No Name")`. */
  function DisplayName(filterNames: bool, name: string): (r: string)
    ensures !filterNames ==> r != []
    ensures !filterNames && name != [] ==> r == name
  {
    if filterNames then TransformName(name)
    else if name == [] then "No Name"
    else name
  }

  /** An empty name shows as `""` with the filter on and as `"No Name"`
      with it off. */
  lemma DisplayNameOfEmpty()
    ensures DisplayName(true, "") == ""
    ensures DisplayName(false, "") == "No Name"
  {
    TransformNameOfEmpty();
  }
}
