/**
  The ranker of the submit handler. In exact-match mode the winners are the
  entries whose number equals the target. Otherwise the entries are sorted
  by closeness to the target, ties broken by line index, sliced to the
  winner count and, under tie mode "all", extended by the run of entries
  tied with the last winner.
 */
module Ranking {
  import opened Lists
  import opened Parser

  /** The tie policy chosen in the form: "first" cuts at the winner count;
      any other value extends the last place. */
  datatype TieMode = TieFirst | TieAll

  // Exact match.

  /** The test `e.number === t`. */
  function NumberIs(t: real): Entry -> bool {
    (e: Entry) => e.number == t
  }

  /** `filteredEntries.filter(e => e.number === t)` */
  function ExactMatches(es: seq<Entry>, t: real): seq<Entry> {
    Filter(es, NumberIs(t))
  }

  /** The exact-match winners are the entries whose number is the target,
      in their order; `ks` lists their positions. */
  lemma ExactMatchesSpec(es: seq<Entry>, t: real) returns (ks: seq<nat>)
    ensures |ks| == |ExactMatches(es, t)| && Positions(ks, |es|)
    ensures forall k :: 0 <= k < |ks| ==> ExactMatches(es, t)[k] == es[ks[k]] && es[ks[k]].number == t
    ensures forall i :: 0 <= i < |es| && es[i].number == t ==> i in ks
  {
    FilterPositions(es, NumberIs(t));
    ks := FilterKept(es, NumberIs(t));
    forall i | 0 <= i < |es| && es[i].number == t ensures i in ks {
      assert NumberIs(t)(es[i]);
    }
    forall k | 0 <= k < |ks| ensures es[ks[k]].number == t {
      assert NumberIs(t)(ExactMatches(es, t)[k]);
    }
  }

  // Closeness.

  /** `Math.abs(e.number - target)` */
  function Dist(e: Entry, target: real): (d: real)
    ensures d >= 0.0
    ensures d == e.number - target || d == target - e.number
  {
    if e.number < target then target - e.number else e.number - target
  }

  /** The comparator handed to `sort`: negative when `a` goes first. */
  function Compare(a: Entry, b: Entry, target: real): real {
    var diffA, diffB := Dist(a, target), Dist(b, target);
    if diffA == diffB then (a.index - b.index) as real else diffA - diffB
  }

  /** `a` may stand before `b`. */
  predicate Before(a: Entry, b: Entry, target: real) {
    Compare(a, b, target) <= 0.0
  }

  /** The comparator orders by distance, then by index. */
  lemma CompareIsLexicographic(a: Entry, b: Entry, target: real)
    ensures Compare(a, b, target) < 0.0 <==>
      Dist(a, target) < Dist(b, target) || (Dist(a, target) == Dist(b, target) && a.index < b.index)
    ensures Compare(a, b, target) == 0.0 <==> Dist(a, target) == Dist(b, target) && a.index == b.index
    ensures Compare(a, b, target) == -Compare(b, a, target)
  {
  }

  /** `Before` is a total preorder. */
  lemma BeforeTotal(a: Entry, b: Entry, target: real)
    ensures Before(a, b, target) || Before(b, a, target)
  {
  }

  lemma BeforeTransitive(a: Entry, b: Entry, c: Entry, target: real)
    requires Before(a, b, target) && Before(b, c, target)
    ensures Before(a, c, target)
  {
  }

  predicate Sorted(s: seq<Entry>, target: real) {
    forall i, j :: 0 <= i < j < |s| ==> Before(s[i], s[j], target)
  }

  /** Entries sharing an index are the same entry (each line makes one). */
  predicate IndexKeyed(s: seq<Entry>) {
    forall i, j :: 0 <= i < |s| && 0 <= j < |s| && s[i].index == s[j].index ==> s[i] == s[j]
  }

  /** Inserts `e` into the sorted `s`, before the first element it may
      stand before. */
  function Insert(e: Entry, s: seq<Entry>, target: real): (r: seq<Entry>)
    ensures |r| == |s| + 1
    ensures multiset(r) == multiset(s) + multiset{e}
  {
    if s == [] then [e]
    else if Before(e, s[0], target) then [e] + s
    else
      assert s == [s[0]] + s[1..];
      [s[0]] + Insert(e, s[1..], target)
  }

  /** The entries in the order `sort` leaves them (an insertion sort; any
      sorted permutation is this one, see `SortedUnique`). */
  function Ranked(es: seq<Entry>, target: real): (r: seq<Entry>)
    ensures |r| == |es|
    ensures multiset(r) == multiset(es)
  {
    if es == [] then []
    else
      assert es == [es[0]] + es[1..];
      Insert(es[0], Ranked(es[1..], target), target)
  }

  /** An element that may stand before every element of a sorted sequence
      may head it. */
  lemma SortedCons(x: Entry, r: seq<Entry>, target: real)
    requires Sorted(r, target)
    requires forall i :: 0 <= i < |r| ==> Before(x, r[i], target)
    ensures Sorted([x] + r, target)
  {
    var xr := [x] + r;
    forall i, j | 0 <= i < j < |xr| ensures Before(xr[i], xr[j], target) {
      assert xr[j] == r[j - 1];
      if i > 0 {
        assert xr[i] == r[i - 1];
      }
    }
  }

  lemma {:induction false} InsertSorted(e: Entry, s: seq<Entry>, target: real)
    requires Sorted(s, target)
    ensures Sorted(Insert(e, s, target), target)
  {
    if s == [] {
    } else if Before(e, s[0], target) {
      forall j | 0 <= j < |s| ensures Before(e, s[j], target) {
        if j > 0 {
          BeforeTransitive(e, s[0], s[j], target);
        }
      }
      SortedCons(e, s, target);
    } else {
      var tail := s[1..];
      InsertSorted(e, tail, target);
      BeforeTotal(e, s[0], target);
      InsertAfterHead(e, s, target);
      SortedCons(s[0], Insert(e, tail, target), target);
    }
  }

  /** When `e` goes after the head of `s`, the head may stand before every
      element of the rest with `e` inserted. */
  lemma InsertAfterHead(e: Entry, s: seq<Entry>, target: real)
    requires Sorted(s, target) && s != [] && Before(s[0], e, target)
    ensures forall i :: 0 <= i < |Insert(e, s[1..], target)| ==> Before(s[0], Insert(e, s[1..], target)[i], target)
  {
    var tail := s[1..];
    var r := Insert(e, tail, target);
    forall i | 0 <= i < |r| ensures Before(s[0], r[i], target) {
      assert r[i] in multiset(r);
      if r[i] != e {
        var k :| 0 <= k < |tail| && tail[k] == r[i];
        assert s[k + 1] == r[i];
      }
    }
  }

  /** The ranked order is sorted by the comparator. */
  lemma {:induction false} RankedSorted(es: seq<Entry>, target: real)
    ensures Sorted(Ranked(es, target), target)
  {
    if es != [] {
      RankedSorted(es[1..], target);
      InsertSorted(es[0], Ranked(es[1..], target), target);
    }
  }

  /** The first element of a sorted sequence may stand before every element. */
  lemma SortedHeadFirst(s: seq<Entry>, x: Entry, target: real)
    requires Sorted(s, target) && s != [] && x in multiset(s)
    ensures Before(s[0], x, target)
  {
    var i :| 0 <= i < |s| && s[i] == x;
    if i == 0 {
      assert Compare(x, x, target) == 0.0;
    }
  }

  /** Two sorted arrangements of the same entries start alike. */
  lemma SortedHeadsAgree(s: seq<Entry>, t: seq<Entry>, target: real)
    requires Sorted(s, target) && Sorted(t, target) && s != [] && t != []
    requires multiset(s) == multiset(t) && IndexKeyed(s)
    ensures s[0] == t[0]
  {
    assert s[0] in multiset(t) && t[0] in multiset(s);
    SortedHeadFirst(s, t[0], target);
    SortedHeadFirst(t, s[0], target);
    var i :| 0 <= i < |s| && s[i] == t[0];
    CompareIsLexicographic(s[0], t[0], target);
  }

  lemma MultisetOfTails(s: seq<Entry>, t: seq<Entry>)
    requires s != [] && t != [] && s[0] == t[0] && multiset(s) == multiset(t)
    ensures multiset(s[1..]) == multiset(t[1..])
  {
    assert s == [s[0]] + s[1..] && t == [t[0]] + t[1..];
    assert multiset(s[1..]) == multiset(s) - multiset{s[0]};
    assert multiset(t[1..]) == multiset(t) - multiset{t[0]};
  }

  /** Because indices identify entries, the comparator admits a single
      sorted order: two sorted arrangements of the same entries are equal. */
  lemma {:induction false} SortedUnique(s: seq<Entry>, t: seq<Entry>, target: real)
    requires Sorted(s, target) && Sorted(t, target)
    requires multiset(s) == multiset(t) && IndexKeyed(s)
    ensures s == t
  {
    assert |t| == |multiset(t)| == |multiset(s)| == |s|;
    if s != [] {
      SortedHeadsAgree(s, t, target);
      MultisetOfTails(s, t);
      SortedUnique(s[1..], t[1..], target);
      assert s == [s[0]] + s[1..] && t == [t[0]] + t[1..];
    }
  }

  /** The order `sort` produces: a sorted permutation of the entries, the
      only one. */
  lemma RankedIsTheSortedPermutation(es: seq<Entry>, s: seq<Entry>, target: real)
    requires IndexKeyed(es)
    ensures Sorted(Ranked(es, target), target) && multiset(Ranked(es, target)) == multiset(es)
    ensures Sorted(s, target) && multiset(s) == multiset(es) ==> s == Ranked(es, target)
  {
    RankedSorted(es, target);
    if Sorted(s, target) && multiset(s) == multiset(es) {
      forall i, j | 0 <= i < |s| && 0 <= j < |s| && s[i].index == s[j].index ensures s[i] == s[j] {
        assert s[i] in multiset(es) && s[j] in multiset(es);
      }
      SortedUnique(s, Ranked(es, target), target);
    }
  }

  // The cut.

  /** The end of the run of entries at distance `d` starting at `i`. */
  function RunEnd(s: seq<Entry>, target: real, d: real, i: nat): (e: nat)
    requires i <= |s|
    ensures i <= e <= |s|
    decreases |s| - i
  {
    if i < |s| && Dist(s[i], target) == d then RunEnd(s, target, d, i + 1) else i
  }

  lemma {:induction false} RunEndSpec(s: seq<Entry>, target: real, d: real, i: nat)
    requires i <= |s|
    ensures forall k :: i <= k < RunEnd(s, target, d, i) ==> Dist(s[k], target) == d
    ensures RunEnd(s, target, d, i) < |s| ==> Dist(s[RunEnd(s, target, d, i)], target) != d
    decreases |s| - i
  {
    if i < |s| && Dist(s[i], target) == d {
      RunEndSpec(s, target, d, i + 1);
    }
  }

  function Min(a: int, b: int): int {
    if a < b then a else b
  }

  /** The winners cut from the sorted entries. */
  function Selected(sorted: seq<Entry>, target: real, wCount: nat, tieMode: TieMode): seq<Entry>
  {
    var base := Min(wCount, |sorted|);
    if tieMode == TieFirst || base == 0 then sorted[..base]
    else sorted[..RunEnd(sorted, target, Dist(sorted[base - 1], target), base)]
  }

  /** `slice(0, wCount)` and, unless the tie mode is "first", the loop that
      adds the entries tied with the last winner. */
  method SelectWinners(sortedEntries: seq<Entry>, target: real, wCount: int, tieMode: TieMode)
    returns (selectedWinners: seq<Entry>)
    requires wCount >= 1
    ensures selectedWinners == Selected(sortedEntries, target, wCount, tieMode)
  {
    selectedWinners := sortedEntries[..Min(wCount, |sortedEntries|)];
    if tieMode == TieAll && |selectedWinners| > 0 {
      var thresholdDiff := Dist(selectedWinners[|selectedWinners| - 1], target);
      ghost var base := |selectedWinners|;
      var i := wCount;
      while i < |sortedEntries|
        invariant wCount <= i
        invariant i <= |sortedEntries| ==> selectedWinners == sortedEntries[..i] && base == wCount
        invariant i <= |sortedEntries| ==>
          RunEnd(sortedEntries, target, thresholdDiff, base) == RunEnd(sortedEntries, target, thresholdDiff, i)
        invariant i > |sortedEntries| ==> selectedWinners == sortedEntries[..base] && base == |sortedEntries|
        decreases |sortedEntries| - i
      {
        if Dist(sortedEntries[i], target) == thresholdDiff {
          assert sortedEntries[..i + 1] == sortedEntries[..i] + [sortedEntries[i]];
          selectedWinners := selectedWinners + [sortedEntries[i]];
        } else {
          break;
        }
        i := i + 1;
      }
    }
  }

  // What the cut keeps.

  /** Under tie mode "first" the winners are the first `min(wCount, n)`
      sorted entries. */
  lemma SelectedFirst(sorted: seq<Entry>, target: real, wCount: nat)
    ensures var r := Selected(sorted, target, wCount, TieFirst);
      |r| == Min(wCount, |sorted|) && r == sorted[..|r|]
  {
  }

  /** Under tie mode "all" the winners are a prefix of the sorted entries
      holding the first `min(wCount, n)`; every extra winner is exactly as
      far as the last of those; the next entry, if any, is strictly farther;
      with no entries there is no extension. */
  lemma SelectedAll(sorted: seq<Entry>, target: real, wCount: nat)
    requires Sorted(sorted, target)
    ensures var r, base := Selected(sorted, target, wCount, TieAll), Min(wCount, |sorted|);
      && base <= |r| <= |sorted| && r == sorted[..|r|]
      && (base == 0 ==> r == [])
      && (base > 0 ==> forall k :: base <= k < |r| ==> Dist(sorted[k], target) == Dist(sorted[base - 1], target))
      && (base > 0 && |r| < |sorted| ==> Dist(sorted[|r|], target) > Dist(sorted[base - 1], target))
  {
    var base := Min(wCount, |sorted|);
    if base > 0 {
      var d := Dist(sorted[base - 1], target);
      RunEndSpec(sorted, target, d, base);
      var e := RunEnd(sorted, target, d, base);
      if e < |sorted| {
        assert Before(sorted[base - 1], sorted[e], target);
      }
    }
  }
}
