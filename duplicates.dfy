/**
  The whitelist and the duplicate filter of the submit handler. Entries
  whose name is whitelisted pass straight through; among the others, one
  entry per name is kept in the `seen` object: the first one met, or under
  mode "last" the last one. The kept entries follow the whitelisted ones,
  in the order their names were first met (the key order of `seen`).
 */
module Duplicates {
  import opened Text
  import opened Lists
  import opened Parser

  /** The duplicate policy chosen in the form. */
  datatype DuplicateMode = First | Last

  // The whitelist.

  function TrimAll(parts: seq<string>): (r: seq<string>)
    ensures |r| == |parts|
    ensures forall k :: 0 <= k < |r| ==> r[k] == Trim(parts[k])
  {
    seq(|parts|, k requires 0 <= k < |parts| => Trim(parts[k]))
  }

  predicate NonEmpty(name: string) {
    name != []
  }

  /** `whitelist.split(",").map(name => name.trim()).filter(name => name !== "")` */
  function WhitelistArray(whitelist: string): seq<string> {
    Filter(TrimAll(Split(whitelist, ',')), NonEmpty)
  }

  /** `n` is a non-empty name that one of `parts` trims to. */
  predicate IsTrimmedPiece(parts: seq<string>, n: string) {
    n != [] && exists k :: 0 <= k < |parts| && Trim(parts[k]) == n
  }

  /** The non-empty trimmed pieces are exactly the names some piece trims to. */
  lemma TrimmedPiecesMembers(parts: seq<string>, n: string)
    ensures n in Filter(TrimAll(parts), NonEmpty) <==> IsTrimmedPiece(parts, n)
  {
    if n in Filter(TrimAll(parts), NonEmpty) {
      TrimmedPieceFound(parts, n);
    }
    if IsTrimmedPiece(parts, n) {
      TrimmedPieceKept(parts, n);
    }
  }

  lemma TrimmedPieceFound(parts: seq<string>, n: string)
    requires n in Filter(TrimAll(parts), NonEmpty)
    ensures IsTrimmedPiece(parts, n)
  {
    var trimmed := TrimAll(parts);
    var names := Filter(trimmed, NonEmpty);
    FilterPositions(trimmed, NonEmpty);
    var ks := FilterKept(trimmed, NonEmpty);
    var j :| 0 <= j < |ks| && names[j] == n;
    assert trimmed[ks[j]] == n;
  }

  lemma TrimmedPieceKept(parts: seq<string>, n: string)
    requires IsTrimmedPiece(parts, n)
    ensures n in Filter(TrimAll(parts), NonEmpty)
  {
    var trimmed := TrimAll(parts);
    FilterPositions(trimmed, NonEmpty);
    var ks := FilterKept(trimmed, NonEmpty);
    var k :| 0 <= k < |parts| && Trim(parts[k]) == n;
    assert NonEmpty(trimmed[k]);
    var j :| 0 <= j < |ks| && ks[j] == k;
    assert Filter(trimmed, NonEmpty)[j] == trimmed[ks[j]];
    assert trimmed[k] == n;
  }

  /** A name is whitelisted exactly when it is a non-empty trimmed
      comma-separated piece of the whitelist text. */
  lemma WhitelistArrayMembers(whitelist: string, n: string)
    ensures n in WhitelistArray(whitelist) <==> IsTrimmedPiece(Split(whitelist, ','), n)
  {
    TrimmedPiecesMembers(Split(whitelist, ','), n);
  }

  /** A name with no whitespace at either end and no comma. */
  predicate CleanName(n: string) {
    n != [] && Trim(n) == n && ',' !in n
  }

  lemma TrimmedPieceIsClean(part: string)
    requires ',' !in part && Trim(part) != []
    ensures CleanName(Trim(part))
  {
    TrimIdempotent(part);
    TrimKeepsNonSpace(part, ',');
  }

  /** Every whitelisted name is non-empty, has no whitespace at either end
      and holds no comma. */
  lemma WhitelistArrayTrimmed(whitelist: string)
    ensures forall k :: 0 <= k < |WhitelistArray(whitelist)| ==> CleanName(WhitelistArray(whitelist)[k])
  {
    var parts := Split(whitelist, ',');
    var trimmed := TrimAll(parts);
    FilterPositions(trimmed, NonEmpty);
    var ks := FilterKept(trimmed, NonEmpty);
    forall j | 0 <= j < |ks| ensures CleanName(trimmed[ks[j]]) {
      TrimmedPieceIsClean(parts[ks[j]]);
    }
  }

  // The state the loop builds: whitelisted entries, and the `seen` object
  // as its values and its keys in insertion order.

  /** The test `whitelistArray.includes(entry.name)`. */
  function InList(whitelistArray: seq<string>): Entry -> bool {
    (e: Entry) => e.name in whitelistArray
  }

  /** The entries that pass straight through, in order. */
  function Passed(es: seq<Entry>, whitelistArray: seq<string>): seq<Entry> {
    Filter(es, InList(whitelistArray))
  }

  /** The values of `seen` after the loop has visited `es`. */
  function Seen(es: seq<Entry>, whitelistArray: seq<string>, mode: DuplicateMode): map<string, Entry> {
    if es == [] then map[]
    else
      var m := Seen(es[..|es| - 1], whitelistArray, mode);
      var e := es[|es| - 1];
      if e.name in whitelistArray then m
      else if e.name !in m then m[e.name := e]
      else if mode == Last then m[e.name := e]
      else m
  }

  /** The keys of `seen` after the loop has visited `es`, in the order they
      were added. */
  function Keys(es: seq<Entry>, whitelistArray: seq<string>): seq<string> {
    if es == [] then []
    else
      var ks := Keys(es[..|es| - 1], whitelistArray);
      var e := es[|es| - 1];
      if e.name in whitelistArray || e.name in ks then ks else ks + [e.name]
  }

  /** The keys listed are exactly the keys of the map. */
  lemma {:induction false} KeysAreSeen(es: seq<Entry>, whitelistArray: seq<string>, mode: DuplicateMode)
    ensures forall n :: n in Keys(es, whitelistArray) <==> n in Seen(es, whitelistArray, mode)
  {
    if es != [] {
      KeysAreSeen(es[..|es| - 1], whitelistArray, mode);
    }
  }

  predicate Distinct(ks: seq<string>) {
    forall j, k :: 0 <= j < k < |ks| ==> ks[j] != ks[k]
  }

  /** No key is listed twice. */
  lemma {:induction false} KeysDistinct(es: seq<Entry>, whitelistArray: seq<string>)
    ensures Distinct(Keys(es, whitelistArray))
  {
    if es != [] {
      var ks, e := Keys(es[..|es| - 1], whitelistArray), es[|es| - 1];
      KeysDistinct(es[..|es| - 1], whitelistArray);
      if !(e.name in whitelistArray || e.name in ks) {
        var longer := ks + [e.name];
        forall j, k | 0 <= j < k < |longer| ensures longer[j] != longer[k] {
          assert longer[j] == ks[j];
          if k == |ks| {
            assert ks[j] in ks;
          } else {
            assert longer[k] == ks[k];
          }
        }
      }
    }
  }

  /** `for (const name in seen) filteredEntries.push(seen[name])` */
  function Values(m: map<string, Entry>, ks: seq<string>): (r: seq<Entry>)
    requires forall i :: 0 <= i < |ks| ==> ks[i] in m
    ensures |r| == |ks|
    ensures forall i :: 0 <= i < |ks| ==> r[i] == m[ks[i]]
  {
    if ks == [] then [] else Values(m, ks[..|ks| - 1]) + [m[ks[|ks| - 1]]]
  }

  /** What the duplicate filter produces. */
  function Dedup(es: seq<Entry>, whitelistArray: seq<string>, mode: DuplicateMode): seq<Entry> {
    KeysAreSeen(es, whitelistArray, mode);
    Passed(es, whitelistArray) + Values(Seen(es, whitelistArray, mode), Keys(es, whitelistArray))
  }

  /** The two loops of the duplicate filter. */
  method FilterDuplicates(entries: seq<Entry>, whitelistArray: seq<string>, mode: DuplicateMode)
    returns (filteredEntries: seq<Entry>)
    ensures filteredEntries == Dedup(entries, whitelistArray, mode)
  {
    var passed: seq<Entry> := [];
    var seen: map<string, Entry> := map[];
    var order: seq<string> := [];
    for i := 0 to |entries|
      invariant passed == Passed(entries[..i], whitelistArray)
      invariant seen == Seen(entries[..i], whitelistArray, mode)
      invariant order == Keys(entries[..i], whitelistArray)
    {
      var entry := entries[i];
      VisitStep(entries, whitelistArray, mode, i);
      KeysAreSeen(entries[..i], whitelistArray, mode);
      if entry.name in whitelistArray {
        passed := passed + [entry];
      } else if entry.name !in seen {
        seen := seen[entry.name := entry];
        order := order + [entry.name];
      } else if mode == Last {
        seen := seen[entry.name := entry];
      }
    }
    assert entries[..|entries|] == entries;
    KeysListedInSeen(entries, whitelistArray, mode);
    filteredEntries := PushSeen(passed, seen, order);
  }

  /** `for (const name in seen) filteredEntries.push(seen[name])`, with the
      keys of `seen` in insertion order. */
  method PushSeen(filtered: seq<Entry>, seen: map<string, Entry>, order: seq<string>) returns (r: seq<Entry>)
    requires forall i :: 0 <= i < |order| ==> order[i] in seen
    ensures r == filtered + Values(seen, order)
  {
    r := filtered;
    for k := 0 to |order|
      invariant r == filtered + Values(seen, order[..k])
    {
      ValuesStep(seen, order, k);
      r := r + [seen[order[k]]];
    }
    assert order[..|order|] == order;
  }

  /** Every listed key is a key of the map. */
  lemma KeysListedInSeen(es: seq<Entry>, whitelistArray: seq<string>, mode: DuplicateMode)
    ensures forall i :: 0 <= i < |Keys(es, whitelistArray)| ==> Keys(es, whitelistArray)[i] in Seen(es, whitelistArray, mode)
  {
    KeysAreSeen(es, whitelistArray, mode);
  }

  /** Listing one more key appends its value. */
  lemma ValuesStep(m: map<string, Entry>, ks: seq<string>, k: nat)
    requires forall i :: 0 <= i < |ks| ==> ks[i] in m
    requires k < |ks|
    ensures Values(m, ks[..k + 1]) == Values(m, ks[..k]) + [m[ks[k]]]
  {
    var longer := ks[..k + 1];
    assert longer[..k] == ks[..k];
  }

  /** What visiting `es[i]` does to the passed list, `seen` and its keys. */
  lemma VisitStep(es: seq<Entry>, whitelistArray: seq<string>, mode: DuplicateMode, i: nat)
    requires i < |es|
    ensures Passed(es[..i + 1], whitelistArray) ==
      if es[i].name in whitelistArray then Passed(es[..i], whitelistArray) + [es[i]] else Passed(es[..i], whitelistArray)
    ensures Keys(es[..i + 1], whitelistArray) ==
      if es[i].name in whitelistArray || es[i].name in Keys(es[..i], whitelistArray) then Keys(es[..i], whitelistArray)
      else Keys(es[..i], whitelistArray) + [es[i].name]
    ensures Seen(es[..i + 1], whitelistArray, mode) ==
      var m := Seen(es[..i], whitelistArray, mode);
      if es[i].name in whitelistArray || (es[i].name in m && mode == First) then m else m[es[i].name := es[i]]
  {
    var pre := es[..i + 1];
    assert pre[..i] == es[..i] && pre[i] == es[i];
    assert InList(whitelistArray)(es[i]) == (es[i].name in whitelistArray);
  }

  /** No entries, no output. */
  lemma DedupEmpty(whitelistArray: seq<string>, mode: DuplicateMode)
    ensures Dedup([], whitelistArray, mode) == []
  {
    assert Values(map[], []) == [];
  }

  // What the policy keeps, stated with the positions of the names.

  predicate HasName(es: seq<Entry>, n: string) {
    exists i :: 0 <= i < |es| && es[i].name == n
  }

  /** The position of the first entry named `n`, or `|es|` if none is. */
  function FirstWith(es: seq<Entry>, n: string): (i: nat)
    ensures i <= |es|
  {
    if es == [] then 0
    else
      var f := FirstWith(es[..|es| - 1], n);
      if f < |es| - 1 then f
      else if es[|es| - 1].name == n then |es| - 1
      else |es|
  }

  /** The position of the last entry named `n`, or `-1` if none is. */
  function LastWith(es: seq<Entry>, n: string): (i: int)
    ensures -1 <= i < |es|
  {
    if es == [] then -1
    else if es[|es| - 1].name == n then |es| - 1
    else LastWith(es[..|es| - 1], n)
  }

  /** `FirstWith` finds the first entry named `n`, and finds one exactly
      when there is one. */
  lemma {:induction false} FirstWithSpec(es: seq<Entry>, n: string)
    ensures FirstWith(es, n) < |es| ==> es[FirstWith(es, n)].name == n
    ensures forall j :: 0 <= j < FirstWith(es, n) ==> es[j].name != n
    ensures HasName(es, n) <==> FirstWith(es, n) < |es|
  {
    if es != [] {
      var init := es[..|es| - 1];
      FirstWithSpec(init, n);
      forall j | 0 <= j < |init| ensures es[j] == init[j] { }
    }
  }

  /** `LastWith` finds the last entry named `n`, and finds one exactly when
      there is one. */
  lemma {:induction false} LastWithSpec(es: seq<Entry>, n: string)
    ensures LastWith(es, n) >= 0 ==> es[LastWith(es, n)].name == n
    ensures forall j :: LastWith(es, n) < j < |es| ==> es[j].name != n
    ensures HasName(es, n) <==> LastWith(es, n) >= 0
  {
    if es != [] {
      var init := es[..|es| - 1];
      LastWithSpec(init, n);
      forall j | 0 <= j < |init| ensures es[j] == init[j] { }
    }
  }

  /** The position the policy keeps for name `n`. */
  function Kept(es: seq<Entry>, n: string, mode: DuplicateMode): int {
    if mode == First then FirstWith(es, n) else LastWith(es, n)
  }

  /** `seen` has a key exactly for each name that occurs and is not
      whitelisted, and holds for it the first entry of that name, or under
      mode "last" the last one. */
  lemma {:induction false} SeenSpec(es: seq<Entry>, whitelistArray: seq<string>, mode: DuplicateMode, n: string)
    ensures n in Seen(es, whitelistArray, mode) <==> n !in whitelistArray && FirstWith(es, n) < |es|
    ensures n in Seen(es, whitelistArray, mode) ==>
      0 <= Kept(es, n, mode) < |es| && Seen(es, whitelistArray, mode)[n] == es[Kept(es, n, mode)]
  {
    if es != [] {
      var init := es[..|es| - 1];
      SeenSpec(init, whitelistArray, mode, n);
      if n in Seen(init, whitelistArray, mode) {
        assert es[Kept(init, n, mode)] == init[Kept(init, n, mode)];
      }
    }
  }

  /** Each value of `seen` is an entry of the name it is filed under. */
  lemma {:induction false} SeenNamed(es: seq<Entry>, whitelistArray: seq<string>, mode: DuplicateMode)
    ensures forall n :: n in Seen(es, whitelistArray, mode) ==> Seen(es, whitelistArray, mode)[n].name == n
  {
    if es != [] {
      SeenNamed(es[..|es| - 1], whitelistArray, mode);
    }
  }

  /** The names `ks` occur in `es`, in the order of their first occurrences. */
  predicate InFirstOrder(es: seq<Entry>, ks: seq<string>) {
    forall j, k :: 0 <= j < k < |ks| ==> FirstWith(es, ks[j]) < FirstWith(es, ks[k]) < |es|
  }

  /** The keys of `seen` appear in the order their names first occur. */
  lemma {:induction false} KeysInFirstOrder(es: seq<Entry>, whitelistArray: seq<string>)
    ensures InFirstOrder(es, Keys(es, whitelistArray))
  {
    if es != [] {
      var init, e := es[..|es| - 1], es[|es| - 1];
      var ks := Keys(init, whitelistArray);
      KeysInFirstOrder(init, whitelistArray);
      KeysAreSeen(init, whitelistArray, First);
      forall k | 0 <= k < |ks| ensures FirstWith(init, ks[k]) < |init| {
        SeenSpec(init, whitelistArray, First, ks[k]);
      }
      if e.name !in whitelistArray && e.name !in ks {
        SeenSpec(init, whitelistArray, First, e.name);
        var longer := ks + [e.name];
        forall j, k | 0 <= j < k < |longer| ensures FirstWith(es, longer[j]) < FirstWith(es, longer[k]) < |es| {
          assert longer[j] == ks[j];
          if k < |ks| {
            assert longer[k] == ks[k];
          }
        }
      }
    }
  }

  // The properties of the duplicate filter's output.

  /** The entries passed straight through are exactly the whitelisted ones,
      in their input order; `ks` lists their positions. */
  lemma PassedSpec(es: seq<Entry>, whitelistArray: seq<string>) returns (ks: seq<nat>)
    ensures |ks| == |Passed(es, whitelistArray)| && Positions(ks, |es|)
    ensures forall k :: 0 <= k < |ks| ==>
      Passed(es, whitelistArray)[k] == es[ks[k]] && Passed(es, whitelistArray)[k].name in whitelistArray
    ensures forall i :: 0 <= i < |es| && es[i].name in whitelistArray ==> i in ks
  {
    FilterPositions(es, InList(whitelistArray));
    ks := FilterKept(es, InList(whitelistArray));
    forall i | 0 <= i < |es| && es[i].name in whitelistArray ensures i in ks {
      assert InList(whitelistArray)(es[i]);
    }
  }

  /** The output starts with the entries passed straight through; no later
      entry carries a whitelisted name. */
  lemma DedupKeepsWhitelisted(es: seq<Entry>, whitelistArray: seq<string>, mode: DuplicateMode)
    ensures |Passed(es, whitelistArray)| <= |Dedup(es, whitelistArray, mode)|
    ensures Dedup(es, whitelistArray, mode)[..|Passed(es, whitelistArray)|] == Passed(es, whitelistArray)
    ensures forall k :: 0 <= k < |Dedup(es, whitelistArray, mode)| ==>
      (Dedup(es, whitelistArray, mode)[k].name in whitelistArray <==> k < |Passed(es, whitelistArray)|)
  {
    var out, p := Dedup(es, whitelistArray, mode), Passed(es, whitelistArray);
    var m, ks := Seen(es, whitelistArray, mode), Keys(es, whitelistArray);
    KeysAreSeen(es, whitelistArray, mode);
    SeenNamed(es, whitelistArray, mode);
    var v := Values(m, ks);
    assert out == p + v;
    assert out[..|p|] == p;
    var pos := PassedSpec(es, whitelistArray);
    forall k | 0 <= k < |out| ensures out[k].name in whitelistArray <==> k < |p| {
      if k >= |p| {
        assert out[k] == v[k - |p|];
        SeenSpec(es, whitelistArray, mode, ks[k - |p|]);
      }
    }
  }

  /** A name that occurs and is not whitelisted appears exactly once in the
      output, on the entry the policy keeps: its first occurrence, or under
      mode "last" its last. */
  lemma DedupOncePerName(es: seq<Entry>, whitelistArray: seq<string>, mode: DuplicateMode, n: string)
    requires n !in whitelistArray && HasName(es, n)
    ensures 0 <= Kept(es, n, mode) < |es|
    ensures exists k :: 0 <= k < |Dedup(es, whitelistArray, mode)| && Dedup(es, whitelistArray, mode)[k] == es[Kept(es, n, mode)]
    ensures forall j, k ::
      (0 <= j < |Dedup(es, whitelistArray, mode)| && 0 <= k < |Dedup(es, whitelistArray, mode)| &&
       Dedup(es, whitelistArray, mode)[j].name == n && Dedup(es, whitelistArray, mode)[k].name == n) ==> j == k
  {
    DedupHasKept(es, whitelistArray, mode, n);
    DedupNameAtMostOnce(es, whitelistArray, mode, n);
  }

  lemma DedupHasKept(es: seq<Entry>, whitelistArray: seq<string>, mode: DuplicateMode, n: string)
    requires n !in whitelistArray && HasName(es, n)
    ensures 0 <= Kept(es, n, mode) < |es|
    ensures exists k :: 0 <= k < |Dedup(es, whitelistArray, mode)| && Dedup(es, whitelistArray, mode)[k] == es[Kept(es, n, mode)]
  {
    var out, p := Dedup(es, whitelistArray, mode), Passed(es, whitelistArray);
    var m, ks := Seen(es, whitelistArray, mode), Keys(es, whitelistArray);
    KeysAreSeen(es, whitelistArray, mode);
    FirstWithSpec(es, n);
    SeenSpec(es, whitelistArray, mode, n);
    var v := Values(m, ks);
    assert out == p + v;
    var a :| 0 <= a < |ks| && ks[a] == n;
    assert out[|p| + a] == v[a];
    assert v[a] == m[ks[a]];
  }

  /** A name that is not whitelisted is carried by at most one output entry. */
  lemma DedupNameAtMostOnce(es: seq<Entry>, whitelistArray: seq<string>, mode: DuplicateMode, n: string)
    requires n !in whitelistArray
    ensures forall j, k ::
      (0 <= j < |Dedup(es, whitelistArray, mode)| && 0 <= k < |Dedup(es, whitelistArray, mode)| &&
       Dedup(es, whitelistArray, mode)[j].name == n && Dedup(es, whitelistArray, mode)[k].name == n) ==> j == k
  {
    var out, p := Dedup(es, whitelistArray, mode), Passed(es, whitelistArray);
    var m, ks := Seen(es, whitelistArray, mode), Keys(es, whitelistArray);
    KeysAreSeen(es, whitelistArray, mode);
    var v := Values(m, ks);
    assert out == p + v;
    KeysDistinct(es, whitelistArray);
    SeenNamed(es, whitelistArray, mode);
    OnceInValues(m, ks, n);
    DedupKeepsWhitelisted(es, whitelistArray, mode);
    forall j, k | 0 <= j < |out| && 0 <= k < |out| && out[j].name == n && out[k].name == n ensures j == k {
      assert j >= |p| && k >= |p|;
      assert out[j] == v[j - |p|] && out[k] == v[k - |p|];
    }
  }

  /** Over distinct keys of a map filing each entry under its own name, at
      most one listed value has a given name. */
  lemma OnceInValues(m: map<string, Entry>, ks: seq<string>, n: string)
    requires forall i :: 0 <= i < |ks| ==> ks[i] in m
    requires Distinct(ks)
    requires forall key :: key in m ==> m[key].name == key
    ensures forall j, k :: 0 <= j < |ks| && 0 <= k < |ks| && Values(m, ks)[j].name == n && Values(m, ks)[k].name == n ==> j == k
  {
  }

  /** Updating a key outside `ks` leaves the values listed for `ks` alone. */
  lemma ValuesUpdateOutside(m: map<string, Entry>, ks: seq<string>, n: string, e: Entry)
    requires forall i :: 0 <= i < |ks| ==> ks[i] in m
    requires n !in ks
    ensures Values(m[n := e], ks) == Values(m, ks)
  {
  }

  /** Updating the key at position `j` of distinct keys changes the value
      listed at `j` only. */
  lemma ValuesUpdateInside(m: map<string, Entry>, ks: seq<string>, j: nat, e: Entry)
    requires forall i :: 0 <= i < |ks| ==> ks[i] in m
    requires j < |ks| && Distinct(ks)
    ensures Values(m[ks[j] := e], ks) == Values(m, ks)[j := e]
  {
  }

  /** The entries the loop has gathered so far. */
  function Gathered(es: seq<Entry>, whitelistArray: seq<string>, mode: DuplicateMode): multiset<Entry> {
    KeysAreSeen(es, whitelistArray, mode);
    multiset(Passed(es, whitelistArray)) + multiset(Values(Seen(es, whitelistArray, mode), Keys(es, whitelistArray)))
  }

  /** The output is a sub-multiset of the input: no entry is altered,
      invented or repeated. */
  lemma DedupSubMultiset(es: seq<Entry>, whitelistArray: seq<string>, mode: DuplicateMode)
    ensures multiset(Dedup(es, whitelistArray, mode)) <= multiset(es)
  {
    GatheredBound(es, whitelistArray, mode);
  }

  lemma {:induction false} GatheredBound(es: seq<Entry>, whitelistArray: seq<string>, mode: DuplicateMode)
    ensures Gathered(es, whitelistArray, mode) <= multiset(es)
  {
    if es != [] {
      var init, e := es[..|es| - 1], es[|es| - 1];
      assert es == init + [e];
      GatheredBound(init, whitelistArray, mode);
      KeysAreSeen(init, whitelistArray, mode);
      if e.name in whitelistArray {
        GatheredWhitelisted(es, whitelistArray, mode);
      } else if e.name !in Keys(init, whitelistArray) {
        GatheredNewName(es, whitelistArray, mode);
      } else if mode == Last {
        GatheredReplaced(es, whitelistArray);
      }
    }
  }

  /** A whitelisted entry is gathered once. */
  lemma GatheredWhitelisted(es: seq<Entry>, whitelistArray: seq<string>, mode: DuplicateMode)
    requires es != [] && es[|es| - 1].name in whitelistArray
    ensures Gathered(es, whitelistArray, mode) ==
      Gathered(es[..|es| - 1], whitelistArray, mode) + multiset{es[|es| - 1]}
  {
    var init, e := es[..|es| - 1], es[|es| - 1];
    assert InList(whitelistArray)(e);
    assert Passed(es, whitelistArray) == Passed(init, whitelistArray) + [e];
  }

  /** The first entry of a new name is gathered once. */
  lemma GatheredNewName(es: seq<Entry>, whitelistArray: seq<string>, mode: DuplicateMode)
    requires es != [] && es[|es| - 1].name !in whitelistArray
    requires es[|es| - 1].name !in Keys(es[..|es| - 1], whitelistArray)
    ensures Gathered(es, whitelistArray, mode) ==
      Gathered(es[..|es| - 1], whitelistArray, mode) + multiset{es[|es| - 1]}
  {
    var init, e := es[..|es| - 1], es[|es| - 1];
    KeysAreSeen(init, whitelistArray, mode);
    var m, ks := Seen(init, whitelistArray, mode), Keys(init, whitelistArray);
    NewNameStep(es, whitelistArray, mode);
    ValuesAppendNew(m, ks, e.name, e);
    var v := Values(m, ks);
    assert multiset(v + [e]) == multiset(v) + multiset{e};
  }

  /** Visiting the first entry of a new name adds its key at the end and
      files the entry under it; nothing is passed straight through. */
  lemma NewNameStep(es: seq<Entry>, whitelistArray: seq<string>, mode: DuplicateMode)
    requires es != [] && es[|es| - 1].name !in whitelistArray
    requires es[|es| - 1].name !in Keys(es[..|es| - 1], whitelistArray)
    ensures Passed(es, whitelistArray) == Passed(es[..|es| - 1], whitelistArray)
    ensures Keys(es, whitelistArray) == Keys(es[..|es| - 1], whitelistArray) + [es[|es| - 1].name]
    ensures Seen(es, whitelistArray, mode) == Seen(es[..|es| - 1], whitelistArray, mode)[es[|es| - 1].name := es[|es| - 1]]
  {
    var init, e := es[..|es| - 1], es[|es| - 1];
    KeysAreSeen(init, whitelistArray, mode);
    assert !InList(whitelistArray)(e);
  }

  /** Filing a value under a new key listed last adds it at the end. */
  lemma ValuesAppendNew(m: map<string, Entry>, ks: seq<string>, n: string, e: Entry)
    requires forall i :: 0 <= i < |ks| ==> ks[i] in m
    requires n !in ks
    ensures Values(m[n := e], ks + [n]) == Values(m, ks) + [e]
  {
    var longer := ks + [n];
    assert longer[..|ks|] == ks;
    ValuesUpdateOutside(m, ks, n, e);
  }

  /** Under mode "last", a later entry of a known name replaces the one
      gathered for it. */
  lemma GatheredReplaced(es: seq<Entry>, whitelistArray: seq<string>)
    requires es != [] && es[|es| - 1].name !in whitelistArray
    requires es[|es| - 1].name in Keys(es[..|es| - 1], whitelistArray)
    ensures Gathered(es, whitelistArray, Last) <=
      Gathered(es[..|es| - 1], whitelistArray, Last) + multiset{es[|es| - 1]}
  {
    var init, e := es[..|es| - 1], es[|es| - 1];
    KeysAreSeen(init, whitelistArray, Last);
    KeysDistinct(init, whitelistArray);
    var m, ks := Seen(init, whitelistArray, Last), Keys(init, whitelistArray);
    ReplacedStep(es, whitelistArray);
    var j :| 0 <= j < |ks| && ks[j] == e.name;
    ValuesUpdateInside(m, ks, j, e);
    var v, p := Values(m, ks), multiset(Passed(init, whitelistArray));
    assert Gathered(es, whitelistArray, Last) == p + multiset(v[j := e]);
    MultisetUpdate(v, j, e);
    ReplaceBound(p, multiset(v), v[j], e);
  }

  /** Under mode "last", visiting a later entry of a known name files it
      under that name and leaves the keys and the passed list alone. */
  lemma ReplacedStep(es: seq<Entry>, whitelistArray: seq<string>)
    requires es != [] && es[|es| - 1].name !in whitelistArray
    requires es[|es| - 1].name in Keys(es[..|es| - 1], whitelistArray)
    ensures Passed(es, whitelistArray) == Passed(es[..|es| - 1], whitelistArray)
    ensures Keys(es, whitelistArray) == Keys(es[..|es| - 1], whitelistArray)
    ensures Seen(es, whitelistArray, Last) == Seen(es[..|es| - 1], whitelistArray, Last)[es[|es| - 1].name := es[|es| - 1]]
  {
    var init, e := es[..|es| - 1], es[|es| - 1];
    KeysAreSeen(init, whitelistArray, Last);
    assert !InList(whitelistArray)(e);
  }

  lemma MultisetUpdate(v: seq<Entry>, j: nat, e: Entry)
    requires j < |v|
    ensures multiset(v[j := e]) == multiset(v) - multiset{v[j]} + multiset{e}
  {
  }

  lemma ReplaceBound(p: multiset<Entry>, v: multiset<Entry>, was: Entry, now: Entry)
    ensures p + (v - multiset{was} + multiset{now}) <= p + v + multiset{now}
  {
  }
}
