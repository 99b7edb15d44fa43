/**
 * The recent-location history the guest session manager keeps: at most ten
 * distinct locations, the most recently used first.
 */
module GuestSession {

  import opened Text
  import opened Wrappers
  import opened Lists

  const MaxRecent: nat := 10

  /** `loadRecentLocations`: the stored list with repeats dropped, cut to ten. */
  function LoadRecent(saved: seq<string>): (r: seq<string>)
    ensures |r| <= MaxRecent
    ensures NoDup(r)
    ensures forall i :: 0 <= i < |r| ==> r[i] in saved
    ensures |Dedupe(saved)| <= MaxRecent ==> r == Dedupe(saved)
  {
    var d := Dedupe(saved);
    DedupeNoRepeats(saved);
    var r := Take(d, MaxRecent);
    assert forall i :: 0 <= i < |r| ==> r[i] == d[i];
    assert forall i :: 0 <= i < |r| ==> r[i] in saved by {
      forall i | 0 <= i < |r| ensures r[i] in saved {
        DedupeMember(saved, d[i]);
      }
    }
    r
  }

  /**
   * `saveLocationToHistory`: `None` where a blank location is ignored; otherwise
   * the new list, with the location in front and every older copy of it removed.
   */
  function SaveLocation(location: string, saved: seq<string>): (r: Option<seq<string>>)
    ensures r.None? <==> IsBlank(location)
    ensures r.Some? ==> 0 < |r.value| <= MaxRecent
    ensures r.Some? ==> r.value[0] == location && location !in r.value[1..]
    ensures r.Some? ==> forall i :: 1 <= i < |r.value| ==> r.value[i] in saved
  {
    StripEmptyIffBlank(location);
    if Strip(location) == [] then None
    else
      var rest := Remove(saved, location);
      var r := Take([location] + rest, MaxRecent);
      assert r[1..] == Take(rest, MaxRecent - 1);
      forall y | y in r[1..] ensures y in saved && y != location {
        RemoveMember(saved, location, y);
      }
      assert forall i :: 1 <= i < |r| ==> r[i] in r[1..];
      Some(r)
  }

  /**
   * On a list without repeats, saving is moving to the front: the result is
   * the first ten distinct values of the location followed by the old list.
   */
  lemma {:induction false} SaveMovesToFront(location: string, saved: seq<string>)
    requires !IsBlank(location) && NoDup(saved)
    ensures SaveLocation(location, saved) == Some(Take(Dedupe([location] + saved), MaxRecent))
  {
    DedupeCons(location, saved);
    DedupeNoDup(saved);
  }

  /** Saving the same location again leaves the list as it is. */
  lemma SaveTwiceIsSaveOnce(location: string, saved: seq<string>)
    requires !IsBlank(location)
    ensures SaveLocation(location, SaveLocation(location, saved).value) == SaveLocation(location, saved)
  {
    var r := SaveLocation(location, saved).value;
    assert r == [location] + r[1..];
    RemoveCons(location, r[1..], location);
    RemoveAbsent(r[1..], location);
    assert Remove(r, location) == r[1..];
    assert [location] + Remove(r, location) == r;
  }

  /** Reloading a list that was loaded before changes nothing. */
  lemma LoadRecentIdempotent(saved: seq<string>)
    ensures LoadRecent(LoadRecent(saved)) == LoadRecent(saved)
  {
    DedupeNoDup(LoadRecent(saved));
  }
}
