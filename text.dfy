/**
  The JavaScript string built-ins the selection engine relies on, over
  `string` (= `seq<char>`): `trim`, `split` on one character, `join`,
  `indexOf`, `replace` of the first occurrence of a literal pattern, and
  `split(/\s+/)`.
 */
module Text {

  /** The characters JavaScript's `trim` removes and `\s` matches:
      the WhiteSpace and LineTerminator code points of ECMAScript. */
  predicate IsSpace(c: char) {
    || c == ' ' || c == '\t' || c == '\n' || c == '\r' || c == '\U{000B}' || c == '\U{000C}'
    || c == '\U{00A0}' || c == '\U{1680}' || ('\U{2000}' <= c <= '\U{200A}')
    || c == '\U{2028}' || c == '\U{2029}' || c == '\U{202F}' || c == '\U{205F}'
    || c == '\U{3000}' || c == '\U{FEFF}'
  }

  predicate NoSpace(s: string) {
    forall i :: 0 <= i < |s| ==> !IsSpace(s[i])
  }

  predicate AllSpace(s: string) {
    forall i :: 0 <= i < |s| ==> IsSpace(s[i])
  }

  /** `s.trimStart()`: the suffix left after dropping leading whitespace. */
  function TrimStart(s: string): (r: string)
    ensures |r| <= |s| && r == s[|s| - |r|..]
    ensures forall i :: 0 <= i < |s| - |r| ==> IsSpace(s[i])
    ensures r != [] ==> !IsSpace(r[0])
  {
    if s != [] && IsSpace(s[0]) then TrimStart(s[1..]) else s
  }

  /** `s.trimEnd()`: the prefix left after dropping trailing whitespace. */
  function TrimEnd(s: string): (r: string)
    ensures |r| <= |s| && r == s[..|r|]
    ensures forall i :: |r| <= i < |s| ==> IsSpace(s[i])
    ensures r != [] ==> !IsSpace(r[|r| - 1])
  {
    if s != [] && IsSpace(s[|s| - 1]) then TrimEnd(s[..|s| - 1]) else s
  }

  /** Trailing whitespace is dropped from the last part only, when that
      part keeps a non-whitespace character. */
  lemma {:induction false} TrimEndAppend(a: string, b: string)
    requires TrimEnd(b) != []
    ensures TrimEnd(a + b) == a + TrimEnd(b)
    decreases |b|
  {
    var s := a + b;
    assert s[|s| - 1] == b[|b| - 1];
    if IsSpace(b[|b| - 1]) {
      assert s[..|s| - 1] == a + b[..|b| - 1];
      TrimEndAppend(a, b[..|b| - 1]);
    }
  }

  /** The number of leading whitespace characters of `s`. */
  function LeadingSpace(s: string): (n: nat)
    ensures n <= |s|
    ensures forall i :: 0 <= i < n ==> IsSpace(s[i])
    ensures n < |s| ==> !IsSpace(s[n])
  {
    |s| - |TrimStart(s)|
  }

  /** `s.trim()`: the substring of `s` between its leading and its trailing
      whitespace; what is cut off on either side is whitespace only. */
  function Trim(s: string): (r: string)
    ensures LeadingSpace(s) + |r| <= |s|
    ensures r == s[LeadingSpace(s)..LeadingSpace(s) + |r|]
    ensures forall i :: LeadingSpace(s) + |r| <= i < |s| ==> IsSpace(s[i])
    ensures r != [] ==> !IsSpace(r[0]) && !IsSpace(r[|r| - 1])
  {
    TrimEnd(TrimStart(s))
  }

  /** A string JavaScript treats as blank: `!s.trim()`. */
  predicate IsBlank(s: string) {
    Trim(s) == []
  }

  /** A string is blank exactly when every character of it is whitespace. */
  lemma BlankIffAllSpace(s: string)
    ensures IsBlank(s) <==> AllSpace(s)
  {
    var k := LeadingSpace(s);
    if Trim(s) != [] {
      assert Trim(s)[0] == s[k];
    }
  }

  /** A string without whitespace at either end is its own trim. */
  lemma TrimOfUnpadded(s: string)
    requires s != [] ==> !IsSpace(s[0]) && !IsSpace(s[|s| - 1])
    ensures Trim(s) == s
  {
    assert TrimStart(s) == s;
  }

  /** Trimming a trimmed string changes nothing. */
  lemma TrimIdempotent(s: string)
    ensures Trim(Trim(s)) == Trim(s)
  {
    var t := Trim(s);
    if t != [] {
      assert LeadingSpace(t) == 0;
      assert TrimEnd(t) == t;
    }
  }

  /** A non-whitespace character of `s` lies inside the part `trim` keeps. */
  lemma NonSpaceInsideTrim(s: string, i: nat)
    requires i < |s| && !IsSpace(s[i])
    ensures LeadingSpace(s) <= i < LeadingSpace(s) + |Trim(s)|
    ensures Trim(s)[i - LeadingSpace(s)] == s[i]
  {
  }

  /** Trimming keeps every non-whitespace character and adds none. */
  lemma TrimKeepsNonSpace(s: string, c: char)
    requires !IsSpace(c)
    ensures c in Trim(s) <==> c in s
  {
    var k, t := LeadingSpace(s), Trim(s);
    if c in s {
      var i :| 0 <= i < |s| && s[i] == c;
      NonSpaceInsideTrim(s, i);
    }
    TrimAddsNothing(s, c);
  }

  /** The `j`-th character of the trimmed string is the one past the
      leading whitespace. */
  lemma TrimCharAt(s: string, j: nat)
    requires j < |Trim(s)|
    ensures Trim(s)[j] == s[LeadingSpace(s) + j]
  {
    var k, t := LeadingSpace(s), Trim(s);
    var kept := s[k..k + |t|];
    assert kept[j] == s[k + j];
  }

  /** Trimming adds no character. */
  lemma TrimAddsNothing(s: string, c: char)
    ensures c in Trim(s) ==> c in s
  {
    if c in Trim(s) {
      var j :| 0 <= j < |Trim(s)| && Trim(s)[j] == c;
      TrimCharAt(s, j);
    }
  }

  /** The index of the first `d` in `s`, or `|s|` when there is none. */
  function IndexOfChar(s: string, d: char): (i: nat)
    ensures i <= |s|
    ensures i < |s| ==> s[i] == d
    ensures forall j :: 0 <= j < i ==> s[j] != d
  {
    if s == [] then 0
    else if s[0] == d then 0
    else 1 + IndexOfChar(s[1..], d)
  }

  /** The three facts `IndexOfChar` promises pin its result down. */
  lemma IndexOfCharIs(s: string, d: char, i: nat)
    requires i <= |s| && (i < |s| ==> s[i] == d)
    requires forall j :: 0 <= j < i ==> s[j] != d
    ensures IndexOfChar(s, d) == i
  {
  }

  /** `s.split(d)` for a one-character separator: the pieces between the
      occurrences of `d`, always at least one (`"".split(d)` is `[""]`). */
  function Split(s: string, d: char): (r: seq<string>)
    ensures |r| >= 1
    ensures forall k :: 0 <= k < |r| ==> d !in r[k]
    decreases |s|
  {
    var i := IndexOfChar(s, d);
    if i == |s| then [s] else [s[..i]] + Split(s[i + 1..], d)
  }

  /** `parts.join(d)`: the pieces with one `d` between neighbours. */
  function Join(parts: seq<string>, d: char): (r: string)
    ensures |parts| == 1 ==> r == parts[0]
    decreases |parts|
  {
    if |parts| == 0 then []
    else if |parts| == 1 then parts[0]
    else parts[0] + [d] + Join(parts[1..], d)
  }

  /** Joining the pieces of a split gives back the string. */
  lemma {:induction false} JoinSplit(s: string, d: char)
    ensures Join(Split(s, d), d) == s
    decreases |s|
  {
    var i := IndexOfChar(s, d);
    if i < |s| {
      JoinSplit(s[i + 1..], d);
      JoinSplitStep(s, d, i);
    }
  }

  /** The step of `JoinSplit` at the first separator. */
  lemma JoinSplitStep(s: string, d: char, i: nat)
    requires i == IndexOfChar(s, d) && i < |s|
    requires Join(Split(s[i + 1..], d), d) == s[i + 1..]
    ensures Join(Split(s, d), d) == s
  {
    SplitAt(s, d, i);
    JoinCons(s[..i], Split(s[i + 1..], d), d);
    assert s == s[..i] + [d] + s[i + 1..];
  }

  /** One step of `Join` in front of at least one further piece. */
  lemma JoinCons(a: string, parts: seq<string>, d: char)
    requires |parts| >= 1
    ensures Join([a] + parts, d) == a + [d] + Join(parts, d)
  {
    assert ([a] + parts)[1..] == parts;
  }

  /** One step of `Split` at the first separator. */
  lemma SplitAt(s: string, d: char, i: nat)
    requires i == IndexOfChar(s, d) && i < |s|
    ensures Split(s, d) == [s[..i]] + Split(s[i + 1..], d)
  {
  }

  /** Splitting a join gives back the pieces, when no piece holds the
      separator and there is at least one piece. */
  lemma {:induction false} SplitJoin(parts: seq<string>, d: char)
    requires |parts| >= 1
    requires forall k :: 0 <= k < |parts| ==> d !in parts[k]
    ensures Split(Join(parts, d), d) == parts
    decreases |parts|
  {
    var s := Join(parts, d);
    var p := parts[0];
    if |parts| == 1 {
      assert IndexOfChar(s, d) == |s|;
    } else {
      var rest := Join(parts[1..], d);
      assert s == p + [d] + rest;
      assert s[|p|] == d;
      assert forall j :: 0 <= j < |p| ==> s[j] == p[j];
      assert IndexOfChar(s, d) == |p|;
      assert s[..|p|] == p;
      assert s[|p| + 1..] == rest;
      SplitJoin(parts[1..], d);
    }
  }

  /** `pat` occurs in `s` at position `j`. */
  predicate OccursAt(s: string, pat: string, j: int) {
    0 <= j && j + |pat| <= |s| && s[j..j + |pat|] == pat
  }

  /** `s.indexOf(pat, from)`: the first position at or after `from` where
      `pat` occurs, or -1. */
  function IndexOfFrom(s: string, pat: string, from: nat): (r: int)
    requires from <= |s|
    ensures r == -1 || (from <= r && OccursAt(s, pat, r))
    ensures forall j :: from <= j && (r == -1 || j < r) ==> !OccursAt(s, pat, j)
    decreases |s| - from
  {
    if from + |pat| > |s| then -1
    else if s[from..from + |pat|] == pat then from
    else if from == |s| then -1
    else IndexOfFrom(s, pat, from + 1)
  }

  /** `s.indexOf(pat)`. */
  function IndexOf(s: string, pat: string): (r: int)
    ensures r == -1 || OccursAt(s, pat, r)
    ensures forall j :: 0 <= j && (r == -1 || j < r) ==> !OccursAt(s, pat, j)
  {
    IndexOfFrom(s, pat, 0)
  }

  /** `s.replace(pat, rep)` with a string pattern: only the first
      occurrence of `pat` is replaced; with none, `s` is unchanged. */
  function ReplaceFirst(s: string, pat: string, rep: string): (r: string)
    ensures IndexOf(s, pat) == -1 ==> r == s
    ensures IndexOf(s, pat) >= 0 ==>
      var i := IndexOf(s, pat); r == s[..i] + rep + s[i + |pat|..]
  {
    var i := IndexOf(s, pat);
    if i < 0 then s else s[..i] + rep + s[i + |pat|..]
  }

  /** The index of the first whitespace character of `s`, or `|s|`. */
  function FirstSpace(s: string): (i: nat)
    ensures i <= |s|
    ensures forall j :: 0 <= j < i ==> !IsSpace(s[j])
    ensures i < |s| ==> IsSpace(s[i])
  {
    if s == [] then 0
    else if IsSpace(s[0]) then 0
    else 1 + FirstSpace(s[1..])
  }

  /** `s.split(/\s+/)`: the pieces between maximal runs of whitespace. */
  function SplitSpaces(s: string): (r: seq<string>)
    ensures |r| >= 1
    ensures forall k :: 0 <= k < |r| ==> NoSpace(r[k])
    decreases |s|
  {
    var i := FirstSpace(s);
    if i == |s| then [s]
    else
      var rest := TrimStart(s[i..]);
      assert |rest| < |s[i..]|;
      [s[..i]] + SplitSpaces(rest)
  }

  /** The non-whitespace characters of `s`, in order. */
  function NonSpaceChars(s: string): string
  {
    if s == [] then []
    else if IsSpace(s[0]) then NonSpaceChars(s[1..])
    else [s[0]] + NonSpaceChars(s[1..])
  }

  function Concat(parts: seq<string>): string {
    if parts == [] then [] else parts[0] + Concat(parts[1..])
  }

  lemma ConcatCons(w: string, ws: seq<string>)
    ensures Concat([w] + ws) == w + Concat(ws)
  {
    assert ([w] + ws)[1..] == ws;
  }

  lemma {:induction false} NonSpaceCharsAppend(a: string, b: string)
    ensures NonSpaceChars(a + b) == NonSpaceChars(a) + NonSpaceChars(b)
    decreases |a|
  {
    if a == [] {
      assert a + b == b;
    } else {
      assert (a + b)[0] == a[0];
      assert (a + b)[1..] == a[1..] + b;
      NonSpaceCharsAppend(a[1..], b);
    }
  }

  lemma {:induction false} NonSpaceCharsOfNoSpace(s: string)
    requires NoSpace(s)
    ensures NonSpaceChars(s) == s
    decreases |s|
  {
    if s != [] {
      NonSpaceCharsOfNoSpace(s[1..]);
    }
  }

  lemma {:induction false} NonSpaceCharsOfAllSpace(s: string)
    requires AllSpace(s)
    ensures NonSpaceChars(s) == []
    decreases |s|
  {
    if s != [] {
      NonSpaceCharsOfAllSpace(s[1..]);
    }
  }

  /** A word, then whitespace, then the rest: the non-whitespace characters
      are the word followed by those of the rest. */
  lemma NonSpaceCharsSplit(s: string, i: nat, k: nat)
    requires i <= k <= |s| && NoSpace(s[..i]) && AllSpace(s[i..k])
    ensures NonSpaceChars(s) == s[..i] + NonSpaceChars(s[k..])
  {
    var head, gap, rest := s[..i], s[i..k], s[k..];
    calc {
      NonSpaceChars(s);
      { assert gap + rest == s[i..]; assert s == head + s[i..]; }
      NonSpaceChars(head + (gap + rest));
      { NonSpaceCharsAppend(head, gap + rest); }
      NonSpaceChars(head) + NonSpaceChars(gap + rest);
      { NonSpaceCharsOfNoSpace(head); NonSpaceCharsAppend(gap, rest); NonSpaceCharsOfAllSpace(gap); }
      head + ([] + NonSpaceChars(rest));
      { assert [] + NonSpaceChars(rest) == NonSpaceChars(rest); }
      head + NonSpaceChars(rest);
    }
  }

  /** Past the first word, the non-whitespace characters are the word's
      followed by those after the run of whitespace that ends it. */
  lemma NonSpaceCharsStep(s: string, i: nat)
    requires i < |s| && NoSpace(s[..i])
    ensures NonSpaceChars(s) == s[..i] + NonSpaceChars(TrimStart(s[i..]))
  {
    var tail := s[i..];
    var k := i + |tail| - |TrimStart(tail)|;
    assert TrimStart(tail) == s[k..];
    assert AllSpace(s[i..k]) by {
      forall j | 0 <= j < k - i ensures IsSpace(s[i..k][j]) {
        assert s[i..k][j] == tail[j];
      }
    }
    NonSpaceCharsSplit(s, i, k);
  }

  /** The words of `split(/\s+/)` hold exactly the non-whitespace
      characters of the string, in order: nothing is lost or invented. */
  lemma {:induction false} SplitSpacesConcat(s: string)
    ensures Concat(SplitSpaces(s)) == NonSpaceChars(s)
    decreases |s|
  {
    var i := FirstSpace(s);
    if i == |s| {
      assert NoSpace(s);
      NonSpaceCharsOfNoSpace(s);
      assert SplitSpaces(s) == [s];
      assert Concat([s]) == s + Concat([]);
    } else {
      var rest := TrimStart(s[i..]);
      assert NoSpace(s[..i]);
      NonSpaceCharsStep(s, i);
      SplitSpacesConcat(rest);
      assert SplitSpaces(s) == [s[..i]] + SplitSpaces(rest);
      ConcatCons(s[..i], SplitSpaces(rest));
    }
  }

  /** Splitting a trimmed, non-empty string on whitespace runs yields only
      non-empty words. */
  lemma {:induction false} SplitSpacesOfTrimmed(s: string)
    requires s != [] && !IsSpace(s[0]) && !IsSpace(s[|s| - 1])
    ensures forall k :: 0 <= k < |SplitSpaces(s)| ==> SplitSpaces(s)[k] != []
    decreases |s|
  {
    var i := FirstSpace(s);
    if i < |s| {
      var rest := TrimStart(s[i..]);
      assert !IsSpace(s[i..][|s| - 1 - i]);
      assert rest[|rest| - 1] == s[|s| - 1];
      assert i > 0;
      SplitSpacesOfTrimmed(rest);
      assert SplitSpaces(s)[1..] == SplitSpaces(rest);
    }
  }
}
