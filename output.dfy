/**
  The three texts built from the winner list: one `:W: name - number :W:`
  line per winner, the winners' original lines, and one
  `Name: name, Difference: d` line per winner. JavaScript's number-to-text
  conversions are parameters: `show` for `${w.number}` and `toFixed2` for
  `.toFixed(2)`.
 */
module Output {
  import opened Optional
  import opened Text
  import opened Parser
  import opened Names
  import opened Ranking
  import opened Winners

  /** `:W: ${dispName} - ${w.number} :W:` */
  function WinnerLine(filterNames: bool, w: Entry, show: real -> string): string {
    ":W: " + DisplayName(filterNames, w.name) + " - " + show(w.number) + " :W:"
  }

  function WinnerLines(winners: seq<Entry>, filterNames: bool, show: real -> string): (r: seq<string>)
    ensures |r| == |winners|
    ensures forall i :: 0 <= i < |r| ==> r[i] == WinnerLine(filterNames, winners[i], show)
  {
    seq(|winners|, i requires 0 <= i < |winners| => WinnerLine(filterNames, winners[i], show))
  }

  /** `winnersText` */
  function WinnersText(winners: seq<Entry>, filterNames: bool, show: real -> string): string {
    Join(WinnerLines(winners, filterNames, show), '\n')
  }

  function Originals(winners: seq<Entry>): (r: seq<string>)
    ensures |r| == |winners|
    ensures forall i :: 0 <= i < |r| ==> r[i] == winners[i].original
  {
    seq(|winners|, i requires 0 <= i < |winners| => winners[i].original)
  }

  /** `originalDataText` */
  function OriginalDataText(winners: seq<Entry>): string {
    Join(Originals(winners), '\n')
  }

  /** `Name: ${dispName}, Difference: ${diff}`, where the difference is
      `NaN` when the winning-number field no longer holds a number. */
  function DifferenceLine(filterNames: bool, w: Entry, target: Option<real>, toFixed2: real -> string): string {
    var diff := if target.None? then "NaN" else toFixed2(Dist(w, target.value));
    "Name: " + DisplayName(filterNames, w.name) + ", Difference: " + diff
  }

  function DifferenceLines(winners: seq<Entry>, filterNames: bool, target: Option<real>, toFixed2: real -> string): (r: seq<string>)
    ensures |r| == |winners|
    ensures forall i :: 0 <= i < |r| ==> r[i] == DifferenceLine(filterNames, winners[i], target, toFixed2)
  {
    seq(|winners|, i requires 0 <= i < |winners| => DifferenceLine(filterNames, winners[i], target, toFixed2))
  }

  /** `differencesText` */
  function DifferencesText(winners: seq<Entry>, filterNames: bool, target: Option<real>, toFixed2: real -> string): string {
    Join(DifferenceLines(winners, filterNames, target, toFixed2), '\n')
  }

  /** A winner line holds the display name between its markers. */
  lemma WinnerLineShape(filterNames: bool, w: Entry, show: real -> string)
    ensures var line, name := WinnerLine(filterNames, w, show), DisplayName(filterNames, w.name);
      && |line| >= 8 + |name|
      && line[..4] == ":W: " && line[4..4 + |name|] == name && line[|line| - 4..] == " :W:"
  {
  }

  /** The winners text has one line per winner, in order, when no display
      name and no shown number holds a line break. */
  lemma WinnersTextLines(winners: seq<Entry>, filterNames: bool, show: real -> string)
    requires winners != []
    requires forall i :: 0 <= i < |winners| ==> '\n' !in WinnerLine(filterNames, winners[i], show)
    ensures Split(WinnersText(winners, filterNames, show), '\n') == WinnerLines(winners, filterNames, show)
  {
    SplitJoin(WinnerLines(winners, filterNames, show), '\n');
  }

  /** The original-data text splits back into the winners' original lines
      when none of them holds a line break. */
  lemma OriginalDataTextLines(winners: seq<Entry>)
    requires winners != []
    requires forall i :: 0 <= i < |winners| ==> '\n' !in winners[i].original
    ensures Split(OriginalDataText(winners), '\n') == Originals(winners)
  {
    SplitJoin(Originals(winners), '\n');
  }

  /** The differences text has one line per winner, in order, when no
      display name and no formatted difference holds a line break. */
  lemma DifferencesTextLines(winners: seq<Entry>, filterNames: bool, target: Option<real>, toFixed2: real -> string)
    requires winners != []
    requires forall i :: 0 <= i < |winners| ==> '\n' !in DifferenceLine(filterNames, winners[i], target, toFixed2)
    ensures Split(DifferencesText(winners, filterNames, target, toFixed2), '\n') == DifferenceLines(winners, filterNames, target, toFixed2)
  {
    SplitJoin(DifferenceLines(winners, filterNames, target, toFixed2), '\n');
  }

  /** Entries drawn from the parsed data have one-line originals, so their
      original-data text splits back into those lines. */
  lemma ParsedOriginalsLines(data: string, winners: seq<Entry>)
    requires winners != [] && multiset(winners) <= multiset(ParseRawData(data))
    ensures Split(OriginalDataText(winners), '\n') == Originals(winners)
  {
    var entries := ParseRawData(data);
    forall i | 0 <= i < |winners| ensures '\n' !in winners[i].original {
      assert winners[i] in multiset(entries);
      var k :| 0 <= k < |entries| && entries[k] == winners[i];
      ParsedOriginalIsOneLine(data, k);
    }
    OriginalDataTextLines(winners);
  }

  /** The original lines of the winners of a submission come back from the
      original-data text, one per winner. */
  lemma PickedOriginalsLines(form: Form)
    requires Submit(form).Picked? && Submit(form).winners != []
    ensures Split(OriginalDataText(Submit(form).winners), '\n') == Originals(Submit(form).winners)
  {
    WinnersAreEntries(form);
    ParsedOriginalsLines(form.rawData, Submit(form).winners);
  }
}
