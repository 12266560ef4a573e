/**
  The "Pick Winners" handler: validation of the form, then parsing, the
  whitelist, the duplicate filter and the ranker, in that order.
 */
module Winners {
  import opened Optional
  import opened Text
  import opened Numbers
  import opened Lists
  import opened Parser
  import opened Duplicates
  import opened Ranking

  /** The form as the handler reads it. `target` is what `parseFloat` makes
      of the winning-number field, `None` standing for NaN. */
  datatype Form = Form(
    rawData: string,
    target: Option<real>,
    numberOfWinners: string,
    tieMode: TieMode,
    duplicateMode: DuplicateMode,
    whitelist: string,
    exactMatch: bool)

  const NoDataMessage := "No data provided. Please enter at least one name/number pair."
  const BadTargetMessage := "Please provide a valid numeric Winning Number."
  const BadCountMessage := "Please provide a valid Number of Winners (>=1)."

  /** The three inline error messages; `""` is no error. */
  datatype Errors = Errors(rawDataError: string, winningNumberError: string, numberOfWinnersError: string)

  /** `isNaN(wCount) || wCount < 1` for `wCount = parseInt(numberOfWinners, 10)` */
  predicate CountInvalid(numberOfWinners: string) {
    var w := ParseInt(numberOfWinners);
    w.None? || w.value < 1
  }

  /** Some check fails. */
  predicate Invalid(form: Form) {
    IsBlank(form.rawData) || form.target.None? || (!form.exactMatch && CountInvalid(form.numberOfWinners))
  }

  /** The messages the checks leave behind. */
  function FormErrors(form: Form): Errors {
    Errors(
      if IsBlank(form.rawData) then NoDataMessage else "",
      if form.target.None? then BadTargetMessage else "",
      if !form.exactMatch && CountInvalid(form.numberOfWinners) then BadCountMessage else "")
  }

  /** The three checks, run in turn after the errors are cleared; each one
      that fails sets its message and the `hasError` flag. */
  method Validate(form: Form) returns (errors: Errors, hasError: bool)
    ensures errors == FormErrors(form)
    ensures hasError <==> Invalid(form)
  {
    errors := Errors("", "", "");
    hasError := false;
    if IsBlank(form.rawData) {
      errors := errors.(rawDataError := NoDataMessage);
      hasError := true;
    }
    if form.target.None? {
      errors := errors.(winningNumberError := BadTargetMessage);
      hasError := true;
    }
    if !form.exactMatch {
      if CountInvalid(form.numberOfWinners) {
        errors := errors.(numberOfWinnersError := BadCountMessage);
        hasError := true;
      }
    }
  }

  /** Every check runs: each message is set exactly when its own check
      fails, whatever the others find, and a message is set exactly when the
      form is rejected. */
  lemma FormErrorsSpec(form: Form)
    ensures FormErrors(form).rawDataError != "" <==> IsBlank(form.rawData)
    ensures FormErrors(form).winningNumberError != "" <==> form.target.None?
    ensures FormErrors(form).numberOfWinnersError != "" <==> !form.exactMatch && CountInvalid(form.numberOfWinners)
    ensures Invalid(form) <==> FormErrors(form) != Errors("", "", "")
  {
  }

  /** What a submission leaves: the errors, with the winner list untouched,
      or the new winner list. */
  datatype Outcome = Rejected(errors: Errors) | Picked(winners: seq<Entry>)

  /** The entries that reach the ranker. */
  function FilteredEntries(form: Form): seq<Entry> {
    Dedup(ParseRawData(form.rawData), WhitelistArray(form.whitelist), form.duplicateMode)
  }

  /** The winner count, once validation has passed in ranked mode. */
  function WinnerCount(form: Form): nat
    requires !CountInvalid(form.numberOfWinners)
  {
    ParseInt(form.numberOfWinners).value
  }

  /** What "Pick Winners" does with the form. */
  function Submit(form: Form): Outcome {
    if Invalid(form) then Rejected(FormErrors(form))
    else
      var filtered, target := FilteredEntries(form), form.target.value;
      if form.exactMatch then Picked(ExactMatches(filtered, target))
      else Picked(Selected(Ranked(filtered, target), target, WinnerCount(form), form.tieMode))
  }

  /** The handler, step by step. */
  method HandleSubmit(form: Form) returns (outcome: Outcome)
    ensures outcome == Submit(form)
  {
    var errors, hasError := Validate(form);
    if hasError {
      return Rejected(errors);
    }
    var entries := ParseRawData(form.rawData);
    var whitelistArray := WhitelistArray(form.whitelist);
    var filteredEntries := FilterDuplicates(entries, whitelistArray, form.duplicateMode);
    var target := form.target.value;
    var selectedWinners;
    if form.exactMatch {
      selectedWinners := ExactMatches(filteredEntries, target);
    } else {
      var sortedEntries := Ranked(filteredEntries, target);
      var wCount := ParseInt(form.numberOfWinners).value;
      selectedWinners := SelectWinners(sortedEntries, target, wCount, form.tieMode);
    }
    outcome := Picked(selectedWinners);
  }

  // What a submission promises.

  /** A submission is rejected exactly when a check fails. */
  lemma SubmitRejectedIff(form: Form)
    ensures Submit(form).Rejected? <==>
      IsBlank(form.rawData) || form.target.None? || (!form.exactMatch && CountInvalid(form.numberOfWinners))
  {
  }

  /** In exact-match mode the winner count and the tie mode are not read. */
  lemma ExactIgnoresCountAndTies(form: Form, numberOfWinners: string, tieMode: TieMode)
    requires form.exactMatch
    ensures Submit(form) == Submit(form.(numberOfWinners := numberOfWinners, tieMode := tieMode))
  {
  }

  /** Data that is not blank but has no line with a digit is no error: it
      yields no winners. */
  lemma NoNumbersNoWinners(form: Form)
    requires !Invalid(form)
    requires forall i :: 0 <= i < |Split(form.rawData, '\n')| ==> !HasDigit(Split(form.rawData, '\n')[i])
    ensures Submit(form) == Picked([])
  {
    ParseRawDataNoDigits(form.rawData);
    NothingToFilter(form);
    NothingToPick(form);
  }

  lemma NothingToPick(form: Form)
    requires !Invalid(form) && FilteredEntries(form) == []
    ensures Submit(form) == Picked([])
  {
    var target := form.target.value;
    if form.exactMatch {
      assert ExactMatches([], target) == [];
    } else {
      assert Selected(Ranked([], target), target, WinnerCount(form), form.tieMode) == [];
    }
  }

  lemma NothingToFilter(form: Form)
    requires ParseRawData(form.rawData) == []
    ensures FilteredEntries(form) == []
  {
    DedupEmpty(WhitelistArray(form.whitelist), form.duplicateMode);
  }

  /** Entries in strictly increasing line order have distinct indices. */
  lemma LineOrderIndexKeyed(r: seq<Entry>)
    requires InLineOrder(r)
    ensures IndexKeyed(r)
  {
    forall i, j | 0 <= i < |r| && 0 <= j < |r| && r[i].index == r[j].index ensures r[i] == r[j] {
      assert !(i < j) && !(j < i);
    }
  }

  /** Elements of a sub-multiset of index-keyed entries are index-keyed. */
  lemma SubMultisetIndexKeyed(s: seq<Entry>, es: seq<Entry>)
    requires multiset(s) <= multiset(es) && IndexKeyed(es)
    ensures IndexKeyed(s)
  {
    forall i, j | 0 <= i < |s| && 0 <= j < |s| && s[i].index == s[j].index ensures s[i] == s[j] {
      assert s[i] in multiset(es) && s[j] in multiset(es);
    }
  }

  /** The order the ranker sorts into is determined: it is `Ranked`, and any
      sorted arrangement of the filtered entries is that one. */
  lemma SortIsDetermined(form: Form, s: seq<Entry>, target: real)
    requires Sorted(s, target) && multiset(s) == multiset(FilteredEntries(form))
    ensures s == Ranked(FilteredEntries(form), target)
  {
    var entries := ParseRawData(form.rawData);
    ParseRawDataOrdered(form.rawData);
    LineOrderIndexKeyed(entries);
    DedupSubMultiset(entries, WhitelistArray(form.whitelist), form.duplicateMode);
    SubMultisetIndexKeyed(FilteredEntries(form), entries);
    RankedIsTheSortedPermutation(FilteredEntries(form), s, target);
  }

  lemma PrefixSubMultiset(s: seq<Entry>, n: nat)
    requires n <= |s|
    ensures multiset(s[..n]) <= multiset(s)
  {
    assert s == s[..n] + s[n..];
  }

  /** Every winner is a parsed entry, unaltered, and no entry wins twice. */
  lemma WinnersAreEntries(form: Form)
    requires Submit(form).Picked?
    ensures multiset(Submit(form).winners) <= multiset(ParseRawData(form.rawData))
  {
    var entries := ParseRawData(form.rawData);
    var filtered, target := FilteredEntries(form), form.target.value;
    DedupSubMultiset(entries, WhitelistArray(form.whitelist), form.duplicateMode);
    if form.exactMatch {
      FilterSubMultiset(filtered, NumberIs(target));
    } else {
      var sorted := Ranked(filtered, target);
      var r := Selected(sorted, target, WinnerCount(form), form.tieMode);
      SelectedPrefix(sorted, target, WinnerCount(form), form.tieMode);
      PrefixSubMultiset(sorted, |r|);
    }
  }

  /** The cut is a prefix of the sorted entries. */
  lemma SelectedPrefix(sorted: seq<Entry>, target: real, wCount: nat, tieMode: TieMode)
    ensures |Selected(sorted, target, wCount, tieMode)| <= |sorted|
    ensures Selected(sorted, target, wCount, tieMode) == sorted[..|Selected(sorted, target, wCount, tieMode)|]
  {
  }
}
