/** The location suggestions offered next to the location input. */
module LocationPicker {

  import opened Text
  import opened Wrappers
  import opened Lists

  const MaxSuggestions: nat := 10

  /** The present values among the `location` column of the fetched sessions, in order. */
  function Present(rows: seq<Option<string>>): (r: seq<string>)
    ensures |r| <= |rows|
  {
    if rows == [] then []
    else (if rows[0].Some? then [rows[0].value] else []) + Present(rows[1..])
  }

  lemma {:induction false} PresentMember(rows: seq<Option<string>>, y: string)
    ensures y in Present(rows) <==> Some(y) in rows
  {
    if rows != [] {
      PresentMember(rows[1..], y);
      assert rows == [rows[0]] + rows[1..];
    }
  }

  /** `fetchPreviousLocations`: nulls dropped, then repeats dropped. */
  function PreviousLocations(rows: seq<Option<string>>): (r: seq<string>)
    ensures NoDup(r)
    ensures forall y :: y in r <==> Some(y) in rows
  {
    DedupeNoRepeats(Present(rows));
    forall y ensures y in Dedupe(Present(rows)) <==> Some(y) in rows {
      DedupeMember(Present(rows), y);
      PresentMember(rows, y);
    }
    Dedupe(Present(rows))
  }

  /** `allSuggestions`: the distinct values of the history followed by the suggestions, at most ten. */
  function AllSuggestions(previous: seq<string>, suggestions: seq<string>): (r: seq<string>)
    ensures |r| <= MaxSuggestions
    ensures NoDup(r)
    ensures forall i :: 0 <= i < |r| ==> r[i] in previous || r[i] in suggestions
  {
    var d := Dedupe(previous + suggestions);
    DedupeNoRepeats(previous + suggestions);
    var r := Take(d, MaxSuggestions);
    forall i | 0 <= i < |r| ensures r[i] in previous || r[i] in suggestions {
      assert r[i] == d[i];
      DedupeMember(previous + suggestions, d[i]);
    }
    r
  }

  /**
   * History comes first: with a repeat-free history, the suggestions are the
   * history followed by the suggested values it does not already hold, in
   * their first-appearance order, cut to ten.
   */
  lemma HistoryBeforeSuggestions(previous: seq<string>, suggestions: seq<string>)
    requires NoDup(previous)
    ensures AllSuggestions(previous, suggestions) ==
            Take(previous + Without(Dedupe(suggestions), previous), MaxSuggestions)
  {
    DedupeAppend(previous, suggestions);
    DedupeNoDup(previous);
  }
}
