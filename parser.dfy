/**
  The line parser (`parseRawData`): raw text is split into lines, each line
  is trimmed and numbered, blank lines are dropped, and every remaining
  line that holds a match of the number pattern `[-+]?[0-9]*[.,]?[0-9]+`
  becomes an entry; the others are dropped silently.
 */
module Parser {
  import opened Optional
  import opened Text
  import opened Numbers
  import opened Lists

  /** One parsed line: the name left after removing the number, the
      number's value, the trimmed line, and the line's position in the raw
      text (counting blank lines too). */
  datatype Entry = Entry(name: string, number: real, original: string, index: nat)

  predicate IsSign(c: char) {
    c == '-' || c == '+'
  }

  predicate IsSeparator(c: char) {
    c == '.' || c == ','
  }

  predicate HasDigit(s: string) {
    exists i :: 0 <= i < |s| && IsDigit(s[i])
  }

  // The language of the pattern, stated on its own as a reference.

  /** `[0-9]*[.,]?[0-9]+`: digits, or digits then a separator then at
      least one digit. */
  predicate IsUnsignedNumber(u: string) {
    || (u != [] && AllDigits(u))
    || (exists k :: 0 <= k < |u| - 1 && AllDigits(u[..k]) && IsSeparator(u[k]) && AllDigits(u[k + 1..]))
  }

  /** `[-+]?[0-9]*[.,]?[0-9]+` */
  predicate IsNumberToken(t: string) {
    || IsUnsignedNumber(t)
    || (t != [] && IsSign(t[0]) && IsUnsignedNumber(t[1..]))
  }

  /** The `m` characters of `s` from position `p` on form a number token. */
  predicate TokenAt(s: string, p: nat, m: nat) {
    p + m <= |s| && IsNumberToken(s[p..p + m])
  }

  // How the regular expression engine matches at one position.

  /** The length of `[0-9]*[.,]?[0-9]+` at `q`: the run of digits, then a
      separator and a second run of digits when a digit follows the
      separator; 0 when neither run is there. This is what the greedy
      quantifiers settle on after backtracking. */
  function UnsignedLength(s: string, q: nat): (n: nat)
    requires q <= |s|
    ensures q + n <= |s|
  {
    var d := DigitRun(s, q);
    var e := q + d;
    if e + 1 < |s| && IsSeparator(s[e]) && IsDigit(s[e + 1]) then d + 1 + DigitRun(s, e + 1) else d
  }

  /** The length of the match that starts exactly at `p` (a sign, when
      present, is taken first), or 0 when no match starts there. */
  function MatchLength(s: string, p: nat): (n: nat)
    requires p < |s|
    ensures p + n <= |s|
  {
    var q := if IsSign(s[p]) then p + 1 else p;
    var len := UnsignedLength(s, q);
    if len == 0 then 0 else (q - p) + len
  }

  /** `s.match(...)`: the first position from `p` on where a match starts,
      with its length. */
  function FindMatchFrom(s: string, p: nat): (r: Option<(nat, nat)>)
    requires p <= |s|
    ensures r.Some? ==> p <= r.value.0 < |s| && r.value.1 == MatchLength(s, r.value.0) > 0
    ensures forall j :: p <= j < |s| && (r.None? || j < r.value.0) ==> MatchLength(s, j) == 0
    decreases |s| - p
  {
    if p == |s| then None
    else if MatchLength(s, p) > 0 then Some((p, MatchLength(s, p)))
    else FindMatchFrom(s, p + 1)
  }

  function FindMatch(s: string): (r: Option<(nat, nat)>)
    ensures r.Some? ==> r.value.0 + r.value.1 <= |s|
  {
    FindMatchFrom(s, 0)
  }

  lemma UnsignedLengthIsToken(s: string, q: nat)
    requires q <= |s| && UnsignedLength(s, q) > 0
    ensures IsUnsignedNumber(s[q..q + UnsignedLength(s, q)])
  {
    var d := DigitRun(s, q);
    var e := q + d;
    var n := UnsignedLength(s, q);
    var u := s[q..q + n];
    if n > d {
      assert u[..d] == s[q..e];
      assert u[d] == s[e];
      assert u[d + 1..] == s[e + 1..q + n];
      assert 0 <= d < |u| - 1 && AllDigits(u[..d]) && IsSeparator(u[d]) && AllDigits(u[d + 1..]);
    }
  }

  /** Digits of `s[q..q + m]`, read in the slice, are digits of `s`. */
  lemma DigitsOfSlice(s: string, q: nat, m: nat)
    requires q + m <= |s| && AllDigits(s[q..q + m])
    ensures forall i :: q <= i < q + m ==> IsDigit(s[i])
  {
    var u := s[q..q + m];
    forall i | q <= i < q + m ensures IsDigit(s[i]) {
      assert u[i - q] == s[i];
    }
  }

  /** The digits-separator-digits form at `q` is measured in full. */
  lemma SeparatedIsMeasured(s: string, q: nat, k: nat, m: nat)
    requires k + 1 < m && q + m <= |s|
    requires AllDigits(s[q..q + k]) && IsSeparator(s[q + k]) && AllDigits(s[q + k + 1..q + m])
    ensures m <= UnsignedLength(s, q)
  {
    DigitsOfSlice(s, q, k);
    DigitRunIsMaximal(s, q, k);
    assert DigitRun(s, q) == k;
    DigitsOfSlice(s, q + k + 1, m - k - 1);
    assert IsDigit(s[q + k + 1]);
    DigitRunIsMaximal(s, q + k + 1, m - k - 1);
  }

  /** No unsigned number at `q` is longer than the one measured there. */
  lemma UnsignedLengthIsLongest(s: string, q: nat, m: nat)
    requires q + m <= |s| && IsUnsignedNumber(s[q..q + m])
    ensures m <= UnsignedLength(s, q)
  {
    var u := s[q..q + m];
    if u != [] && AllDigits(u) {
      DigitsOfSlice(s, q, m);
      DigitRunIsMaximal(s, q, m);
    } else {
      var k :| 0 <= k < |u| - 1 && AllDigits(u[..k]) && IsSeparator(u[k]) && AllDigits(u[k + 1..]);
      assert u[..k] == s[q..q + k];
      assert u[k + 1..] == s[q + k + 1..q + m];
      SeparatedIsMeasured(s, q, k, m);
    }
  }

  /** A text that starts with a sign is not an unsigned number. */
  lemma SignedIsNotUnsigned(t: string)
    requires t != [] && IsSign(t[0])
    ensures !IsUnsignedNumber(t)
  {
    forall k | 0 < k <= |t| ensures AllDigits(t[..k]) ==> IsDigit(t[0]) {
      assert t[..k][0] == t[0];
    }
  }

  /** A number token at `p` is no longer than the match there. */
  lemma TokenNotLongerThanMatch(s: string, p: nat, m: nat)
    requires p < |s| && TokenAt(s, p, m)
    ensures m <= MatchLength(s, p)
  {
    var t := s[p..p + m];
    assert t[0] == s[p];
    if IsSign(s[p]) {
      SignedIsNotUnsigned(t);
      assert t[1..] == s[p + 1..p + 1 + (m - 1)];
      UnsignedLengthIsLongest(s, p + 1, m - 1);
    } else {
      UnsignedLengthIsLongest(s, p, m);
    }
  }

  /** The match at `p` is a number token, and no number token starting at
      `p` is longer: greedy matching yields the longest token there. When
      the length is 0, no token starts at `p` at all. */
  lemma MatchLengthIsLongestToken(s: string, p: nat)
    requires p < |s|
    ensures MatchLength(s, p) > 0 ==> TokenAt(s, p, MatchLength(s, p))
    ensures forall m :: MatchLength(s, p) < m ==> !TokenAt(s, p, m)
  {
    var n := MatchLength(s, p);
    var q := if IsSign(s[p]) then p + 1 else p;
    if n > 0 {
      UnsignedLengthIsToken(s, q);
      if q == p + 1 {
        assert s[p..p + n][1..] == s[q..q + UnsignedLength(s, q)];
      }
    }
    forall m | TokenAt(s, p, m) ensures m <= n {
      TokenNotLongerThanMatch(s, p, m);
    }
  }

  /** A match exists exactly when the line holds an ASCII digit. */
  lemma FindMatchIffDigit(s: string)
    ensures FindMatch(s).Some? <==> HasDigit(s)
  {
    if HasDigit(s) {
      var i :| 0 <= i < |s| && IsDigit(s[i]);
      assert DigitRun(s, i) > 0;
      assert MatchLength(s, i) > 0;
    }
    if FindMatch(s).Some? {
      var p := FindMatch(s).value.0;
      var q := if IsSign(s[p]) then p + 1 else p;
      var d := DigitRun(s, q);
      if d > 0 {
        assert IsDigit(s[q]);
      } else {
        assert IsDigit(s[q + 1]);
      }
    }
  }

  /** The match found is the leftmost number token of the line and the
      longest one at its position. */
  lemma FindMatchIsLeftmostLongest(s: string, p: nat, n: nat)
    requires FindMatch(s) == Some((p, n))
    ensures TokenAt(s, p, n)
    ensures forall m :: n < m ==> !TokenAt(s, p, m)
    ensures forall j, m :: 0 <= j < p ==> !TokenAt(s, j, m)
  {
    forall j, m | 0 <= j < p ensures !TokenAt(s, j, m) {
      MatchLengthIsLongestToken(s, j);
    }
    MatchLengthIsLongestToken(s, p);
  }

  /** With no match, the line holds no number token at all. */
  lemma NoMatchNoToken(s: string)
    requires FindMatch(s).None?
    ensures forall j, m :: 0 <= j < |s| ==> !TokenAt(s, j, m)
  {
    forall j, m | 0 <= j < |s| ensures !TokenAt(s, j, m) {
      MatchLengthIsLongestToken(s, j);
    }
  }

  /** The matched text occurs nowhere earlier in the line, so replacing its
      first occurrence removes exactly the match. */
  lemma MatchIsFirstOccurrence(s: string, p: nat, n: nat)
    requires FindMatch(s) == Some((p, n))
    ensures p + n <= |s| && IndexOf(s, s[p..p + n]) == p
  {
    var tok := s[p..p + n];
    FindMatchIsLeftmostLongest(s, p, n);
    assert OccursAt(s, tok, p);
    var r := IndexOf(s, tok);
    assert r != -1 && r <= p;
    assert TokenAt(s, r, n);
  }

  // Replacing the first `,` of a token by `.`.

  lemma OccursAtComma(s: string, j: int)
    ensures OccursAt(s, ",", j) <==> 0 <= j < |s| && s[j] == ','
  {
    if 0 <= j < |s| && s[j] == ',' {
      assert s[j..j + 1] == ",";
    }
  }

  /** `s` with its first `,` turned into `.`. */
  function CommaToDot(s: string): (v: string)
    ensures |v| == |s|
  {
    var i := IndexOfChar(s, ',');
    if i == |s| then s else s[i := '.']
  }

  /** Cutting out the character at `i` and putting `.` in its place is
      updating position `i` to `.`. */
  lemma SpliceIsUpdate(s: string, i: nat)
    requires i < |s|
    ensures s[..i] + "." + s[i + 1..] == s[i := '.']
  {
    var head, tail := s[..i], s[i + 1..];
    forall j | 0 <= j < |s| ensures (head + "." + tail)[j] == s[i := '.'][j] {
      SpliceAt(head, ".", tail, j);
    }
  }

  /** The characters of `head + mid + tail` for a one-character `mid`, by
      position. */
  lemma SpliceAt(head: string, mid: string, tail: string, j: nat)
    requires |mid| == 1 && j < |head| + 1 + |tail|
    ensures (head + mid + tail)[j] == if j < |head| then head[j] else if j == |head| then mid[0] else tail[j - |head| - 1]
  {
  }

  /** `s.replace(",", ".")` replaces the first `,` only. */
  lemma ReplaceComma(s: string)
    ensures ReplaceFirst(s, ",", ".") == CommaToDot(s)
  {
    var i := IndexOfChar(s, ',');
    var r := IndexOf(s, ",");
    OccursAtComma(s, r);
    OccursAtComma(s, i);
    if i < |s| {
      assert r != -1 && r <= i;
      assert r == i;
    } else {
      assert r == -1;
    }
    assert |","| == 1;
    assert ReplaceFirst(s, ",", ".") == if r < 0 then s else s[..r] + "." + s[r + 1..];
    if i < |s| {
      SpliceIsUpdate(s, i);
    }
  }

  /** Digits only: there is no `,` to replace, and the digits read whole. */
  lemma NormalizeDigits(u: string)
    requires u != [] && AllDigits(u)
    ensures CommaToDot(u) == u && IsDecimalText(u) && Unsigned(u) == u
  {
    IndexOfCharIs(u, ',', |u|);
    IndexOfCharIs(u, '.', |u|);
    assert u[..|u|] == u;
  }

  /** Digits, a separator at `k`, digits: the separator becomes `.`. */
  lemma NormalizeSeparated(u: string, k: nat)
    requires k < |u| - 1 && IsSeparator(u[k])
    requires forall i :: 0 <= i < |u| && i != k ==> IsDigit(u[i])
    ensures CommaToDot(u) == u[k := '.']
    ensures IsDecimalText(CommaToDot(u)) && Unsigned(CommaToDot(u)) == CommaToDot(u)
  {
    var v := u[k := '.'];
    if u[k] == ',' {
      IndexOfCharIs(u, ',', k);
    } else {
      IndexOfCharIs(u, ',', |u|);
      assert u == v;
    }
    IndexOfCharIs(v, '.', k);
    assert v[0] == '.' || IsDigit(v[0]);
    assert Unsigned(v) == v;
    assert AllDigits(v[..k]);
    assert AllDigits(v[k + 1..]);
  }

  /** `[0-9]*[.,]?[0-9]+` with its separator, if any, replaced by `.` is a
      decimal text `parseFloat` reads in full. */
  lemma NormalizedUnsignedIsDecimal(u: string)
    requires IsUnsignedNumber(u)
    ensures var v := CommaToDot(u);
      && (v[0] == u[0] || (u[0] == ',' && v[0] == '.'))
      && IsDecimalText(v) && Unsigned(v) == v
  {
    if u != [] && AllDigits(u) {
      NormalizeDigits(u);
    } else {
      var k :| 0 <= k < |u| - 1 && AllDigits(u[..k]) && IsSeparator(u[k]) && AllDigits(u[k + 1..]);
      forall i | 0 <= i < |u| && i != k ensures IsDigit(u[i]) {
        if i < k {
          assert u[..k][i] == u[i];
        } else {
          assert u[k + 1..][i - k - 1] == u[i];
        }
      }
      NormalizeSeparated(u, k);
    }
  }

  /** `CommaToDot` changes the character at the first `,` and no other. */
  lemma CommaToDotAt(s: string, j: nat)
    requires j < |s|
    ensures CommaToDot(s)[j] == if j == IndexOfChar(s, ',') then '.' else s[j]
  {
  }

  /** A leading sign is kept; the `,` is looked for after it. */
  lemma NormalizeSigned(t: string)
    requires t != [] && IsSign(t[0])
    ensures CommaToDot(t) == [t[0]] + CommaToDot(t[1..])
  {
    var u := t[1..];
    var a, b := CommaToDot(t), [t[0]] + CommaToDot(u);
    assert IndexOfChar(t, ',') == 1 + IndexOfChar(u, ',');
    forall j | 0 <= j < |a| ensures a[j] == b[j] {
      CommaToDotAt(t, j);
      if j > 0 {
        CommaToDotAt(u, j - 1);
        assert b[j] == CommaToDot(u)[j - 1];
        assert t[j] == u[j - 1];
      }
    }
  }

  /** Every number token becomes, with its `,` read as `.`, a decimal text. */
  lemma NormalizedTokenIsDecimal(t: string)
    requires IsNumberToken(t)
    ensures IsDecimalText(CommaToDot(t))
  {
    if IsUnsignedNumber(t) {
      NormalizedUnsignedIsDecimal(t);
    } else {
      var u := t[1..];
      NormalizedUnsignedIsDecimal(u);
      NormalizeSigned(t);
      var w := CommaToDot(u);
      assert Unsigned([t[0]] + w) == w;
    }
  }

  /** The value `parseFloat` gives to a matched token once its `,` is
      rewritten to `.`, read as an exact decimal. */
  function TokenValue(t: string): real
    requires IsNumberToken(t)
  {
    ReplaceComma(t);
    NormalizedTokenIsDecimal(t);
    DecimalValue(ReplaceFirst(t, ",", "."))
  }

  // One line, and the whole text.

  /** The entry made from the number token `line[p..p + n]`: the name is
      the line with the token's first occurrence removed, then trimmed; the
      original is the line itself. */
  function MatchEntry(line: string, index: nat, p: nat, n: nat): Entry
    requires TokenAt(line, p, n)
  {
    var token := line[p..p + n];
    Entry(Trim(ReplaceFirst(line, token, "")), TokenValue(token), line, index)
  }

  /** The entry of one trimmed, non-blank line, or `None` when it holds no
      number. */
  function LineEntry(line: string, index: nat): (r: Option<Entry>)
    ensures r.Some? <==> HasDigit(line)
    ensures r.Some? ==> r.value.original == line && r.value.index == index
  {
    FindMatchIffDigit(line);
    match FindMatch(line)
    case None => None
    case Some((p, n)) =>
      MatchLengthIsLongestToken(line, p);
      Some(MatchEntry(line, index, p, n))
  }

  /** With the match at `p` of length `n`, the entry is the line with that
      match cut out and trimmed, the match's value, the line and its index. */
  lemma LineEntryFields(line: string, index: nat, p: nat, n: nat)
    requires FindMatch(line) == Some((p, n))
    ensures TokenAt(line, p, n)
    ensures LineEntry(line, index)
      == Some(Entry(Trim(line[..p] + line[p + n..]), TokenValue(line[p..p + n]), line, index))
  {
    MatchLengthIsLongestToken(line, p);
    assert LineEntry(line, index) == Some(MatchEntry(line, index, p, n));
    MatchIsFirstOccurrence(line, p, n);
    CutFirstOccurrence(line, p, n);
    assert MatchEntry(line, index, p, n) == Entry(Trim(line[..p] + line[p + n..]), TokenValue(line[p..p + n]), line, index);
  }

  /** Removing the first occurrence of `line[p..p + n]`, when it is the one
      at `p`, cuts out exactly those characters. */
  lemma CutFirstOccurrence(line: string, p: nat, n: nat)
    requires p + n <= |line| && IndexOf(line, line[p..p + n]) == p
    ensures ReplaceFirst(line, line[p..p + n], "") == line[..p] + line[p + n..]
  {
    calc {
      ReplaceFirst(line, line[p..p + n], "");
      line[..p] + "" + line[p + n..];
      { assert line[..p] + "" == line[..p]; }
      line[..p] + line[p + n..];
    }
  }

  /** `.map((line, index) => ({ line: line.trim(), index }))` */
  function Numbered(lines: seq<string>): (items: seq<(string, nat)>)
    ensures |items| == |lines|
    ensures forall i :: 0 <= i < |items| ==> items[i] == (Trim(lines[i]), i)
  {
    seq(|lines|, i requires 0 <= i < |lines| => (Trim(lines[i]), i))
  }

  predicate Filled(item: (string, nat)) {
    item.0 != []
  }

  function ItemEntry(item: (string, nat)): Option<Entry> {
    LineEntry(item.0, item.1)
  }

  /** `parseRawData(data)`: split on `\n`, number and trim the lines, drop
      the blank ones, parse the rest and drop those without a number. */
  function ParseRawData(data: string): seq<Entry> {
    FilterMap(Filter(Numbered(Split(data, '\n')), Filled), ItemEntry)
  }

  /** A line holds a digit once trimmed exactly when it does before. */
  lemma HasDigitTrim(s: string)
    ensures HasDigit(Trim(s)) <==> HasDigit(s)
  {
    if HasDigit(s) {
      var i :| 0 <= i < |s| && IsDigit(s[i]);
      NonSpaceInsideTrim(s, i);
      assert IsDigit(Trim(s)[i - LeadingSpace(s)]);
    }
    if HasDigit(Trim(s)) {
      var j :| 0 <= j < |Trim(s)| && IsDigit(Trim(s)[j]);
      assert IsDigit(s[LeadingSpace(s) + j]);
    }
  }

  lemma EntryOfLine(line: string, i: nat, e: Entry)
    requires ItemEntry((Trim(line), i)) == Some(e)
    ensures HasDigit(line) && LineEntry(Trim(line), i) == Some(e)
  {
    HasDigitTrim(line);
  }

  /** The positions `parseRawData` keeps are the indices of its entries. */
  lemma ParsedIndices(data: string) returns (ks: seq<nat>)
    ensures |ks| == |ParseRawData(data)| && Positions(ks, |Split(data, '\n')|)
    ensures forall k :: 0 <= k < |ks| ==>
      ParseRawData(data)[k].index == ks[k] && ItemEntry((Trim(Split(data, '\n')[ks[k]]), ks[k])) == Some(ParseRawData(data)[k])
    ensures forall i :: 0 <= i < |Split(data, '\n')| && HasDigit(Trim(Split(data, '\n')[i])) ==> i in ks
  {
    var lines, r := Split(data, '\n'), ParseRawData(data);
    var items := Numbered(lines);
    ks := FilterThenFilterMap(items, Filled, ItemEntry);
    forall k | 0 <= k < |r| ensures items[ks[k]] == (Trim(lines[ks[k]]), ks[k]) { }
    forall i | 0 <= i < |lines| && HasDigit(Trim(lines[i])) ensures i in ks {
      assert items[i] == (Trim(lines[i]), i);
      assert Filled(items[i]) && ItemEntry(items[i]).Some?;
    }
  }

  /** Each entry of `parseRawData` is the entry of the trimmed line at its
      index, and that line holds a digit. */
  lemma ParseRawDataSound(data: string, k: nat)
    requires k < |ParseRawData(data)|
    ensures ParseRawData(data)[k].index < |Split(data, '\n')|
    ensures HasDigit(Split(data, '\n')[ParseRawData(data)[k].index])
    ensures LineEntry(Trim(Split(data, '\n')[ParseRawData(data)[k].index]), ParseRawData(data)[k].index)
      == Some(ParseRawData(data)[k])
  {
    var lines, r := Split(data, '\n'), ParseRawData(data);
    var ks := ParsedIndices(data);
    EntryOfLine(lines[ks[k]], ks[k], r[k]);
  }

  /** The original line of each entry holds no line break. */
  lemma ParsedOriginalIsOneLine(data: string, k: nat)
    requires k < |ParseRawData(data)|
    ensures '\n' !in ParseRawData(data)[k].original
  {
    ParseRawDataSound(data, k);
    var line := Split(data, '\n')[ParseRawData(data)[k].index];
    TrimAddsNothing(line, '\n');
  }

  /** Entries in strictly increasing line order. */
  predicate InLineOrder(r: seq<Entry>) {
    forall j, k :: 0 <= j < k < |r| ==> r[j].index < r[k].index
  }

  /** The entries of `parseRawData` are in line order. */
  lemma ParseRawDataOrdered(data: string)
    ensures InLineOrder(ParseRawData(data))
  {
    var r := ParseRawData(data);
    var ks := ParsedIndices(data);
    forall j, k | 0 <= j < k < |r| ensures r[j].index < r[k].index {
      assert ks[j] < ks[k];
    }
  }

  /** Data none of whose lines holds a digit yields no entry. */
  lemma ParseRawDataNoDigits(data: string)
    requires forall i :: 0 <= i < |Split(data, '\n')| ==> !HasDigit(Split(data, '\n')[i])
    ensures ParseRawData(data) == []
  {
    if ParseRawData(data) != [] {
      ParseRawDataSound(data, 0);
      assert false;
    }
  }

  /** Every line holding a digit has an entry in `parseRawData`. */
  lemma ParseRawDataComplete(data: string, i: nat)
    requires var lines := Split(data, '\n'); i < |lines| && HasDigit(lines[i])
    ensures var r := ParseRawData(data); exists k :: 0 <= k < |r| && r[k].index == i
  {
    var lines, r := Split(data, '\n'), ParseRawData(data);
    HasDigitTrim(lines[i]);
    var ks := ParsedIndices(data);
    var k :| 0 <= k < |ks| && ks[k] == i;
    assert r[k].index == i;
  }

  // Two lines worked through.

  /** In `"a-5"` the sign belongs to the number: the match is `-5`, at
      position 1. */
  lemma SignedMatchExample(line: string)
    requires line == "a-5"
    ensures FindMatch(line) == Some((1, 2))
  {
    assert MatchLength(line, 0) == 0;
    assert DigitRun(line, 2) == 1;
    assert MatchLength(line, 1) == 2;
  }

  /** A token without a comma keeps its text when its value is read. */
  lemma TokenValueNoComma(t: string)
    requires IsNumberToken(t) && IndexOfChar(t, ',') == |t|
    ensures IsDecimalText(t) && TokenValue(t) == DecimalValue(t)
  {
    assert CommaToDot(t) == t;
    ReplaceComma(t);
    NormalizedTokenIsDecimal(t);
    assert TokenValue(t) == DecimalValue(ReplaceFirst(t, ",", "."));
  }

  /** `"-5"`: the value -5. */
  lemma NegativeTokenValue(t: string)
    requires t == "-5"
    ensures IsNumberToken(t) && TokenValue(t) == -5.0
  {
    assert t[1..] == "5" && AllDigits("5") && IsUnsignedNumber(t[1..]);
    assert IndexOfChar(t, ',') == |t|;
    TokenValueNoComma(t);
    DecimalValueOfDigits("5");
    DecimalValueSign("5");
    assert "-" + "5" == t;
  }

  /** The name and the value the match at 1 of length 2 leaves in `"a-5"`. */
  lemma SignedLineParts(line: string)
    requires line == "a-5"
    ensures Trim(line[..1] + line[3..]) == "a"
    ensures IsNumberToken(line[1..3]) && TokenValue(line[1..3]) == -5.0
  {
    var rest, token := line[..1] + line[3..], line[1..3];
    assert rest == "a";
    TrimOfUnpadded(rest);
    assert token == "-5";
    NegativeTokenValue(token);
  }

  /** `"a-5"` is the entry named `a` with the number -5. */
  lemma SignedEntryExample(line: string, index: nat)
    requires line == "a-5"
    ensures LineEntry(line, index) == Some(Entry("a", -5.0, line, index))
  {
    SignedMatchExample(line);
    LineEntryFields(line, index, 1, 2);
    SignedLineParts(line);
  }

  /** In `"1.2.3"` the match takes one separator only: `1.2`, at
      position 0. */
  lemma SeparatedMatchExample(line: string)
    requires line == "1.2.3"
    ensures FindMatch(line) == Some((0, 3))
  {
    assert DigitRun(line, 0) == 1;
    assert DigitRun(line, 2) == 1;
    assert MatchLength(line, 0) == 3;
  }

  /** `"1.2"`: the value 1.2. */
  lemma FractionTokenValue(t: string)
    requires t == "1.2"
    ensures IsNumberToken(t) && TokenValue(t) == 1.2
  {
    assert AllDigits(t[..1]) && IsSeparator(t[1]) && AllDigits(t[2..]);
    assert IsUnsignedNumber(t);
    assert IndexOfChar(t, ',') == |t|;
    TokenValueNoComma(t);
    DecimalValueOfFraction(t, 1);
    assert DigitsValue(t[..1]) == 1 && DigitsValue(t[2..]) == 2;
  }

  /** The name and the value the match at 0 of length 3 leaves in `"1.2.3"`. */
  lemma SeparatedLineParts(line: string)
    requires line == "1.2.3"
    ensures Trim(line[..0] + line[3..]) == ".3"
    ensures IsNumberToken(line[0..3]) && TokenValue(line[0..3]) == 1.2
  {
    var rest, token := line[..0] + line[3..], line[0..3];
    assert rest == ".3";
    TrimOfUnpadded(rest);
    assert token == "1.2";
    FractionTokenValue(token);
  }

  /** `"1.2.3"` is the entry named `.3` with the number 1.2. */
  lemma SeparatedEntryExample(line: string, index: nat)
    requires line == "1.2.3"
    ensures LineEntry(line, index) == Some(Entry(".3", 1.2, line, index))
  {
    SeparatedMatchExample(line);
    LineEntryFields(line, index, 0, 3);
    SeparatedLineParts(line);
  }
}
