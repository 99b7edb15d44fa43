/**
 * The match timeline screen: which matches are listed as history and which
 * as the queue, the numbers in the timeline circles, the session planner's
 * starting length and its guard, and the score buttons of the match in play.
 */
module MatchSchedule {

  import opened Wrappers
  import opened Text
  import opened Domain
  import StatsReplay
  import AppContext
  import PlayerList

  /** No two matches share an id. */
  predicate UniqueIds(ms: seq<Match>) {
    forall i, j :: 0 <= i < j < |ms| ==> ms[i].id != ms[j].id
  }

  // ---------------------------------------------------------------------
  // History and queue

  /**
   * The history list is `StatsReplay.ReplayOrder`: the same filter and the same
   * end-or-start ordering. It lists every finished match and nothing else.
   */
  lemma HistoryExact(ms: seq<Match>, m: Match)
    ensures m in StatsReplay.ReplayOrder(ms) <==> m in ms && m.isFinished
  {
    var r := StatsReplay.ReplayOrder(ms);
    assert m in r <==> m in multiset(r);
    assert m in StatsReplay.Finished(ms) <==> m in multiset(StatsReplay.Finished(ms));
    StatsReplay.FinishedAreFinished(ms, m);
  }

  /** The history is as long as the list of finished matches. */
  lemma HistoryLength(ms: seq<Match>)
    ensures |StatsReplay.ReplayOrder(ms)| == |StatsReplay.Finished(ms)|
  {
    var r := StatsReplay.ReplayOrder(ms);
    assert |r| == |multiset(r)|;
    assert |StatsReplay.Finished(ms)| == |multiset(StatsReplay.Finished(ms))|;
  }

  /**
   * `queuedMatches`: the unfinished matches, in list order, whose id differs
   * from the active match's; with no active match only the finished flag counts.
   */
  function Upcoming(ms: seq<Match>, active: Option<Match>): (r: seq<Match>)
    ensures |r| <= |ms|
  {
    if ms == [] then []
    else
      (if !ms[0].isFinished && (active.None? || ms[0].id != active.value.id) then [ms[0]] else [])
        + Upcoming(ms[1..], active)
  }

  lemma {:induction false} UpcomingExact(ms: seq<Match>, active: Option<Match>, m: Match)
    ensures m in Upcoming(ms, active) <==>
      m in ms && !m.isFinished && (active.None? || m.id != active.value.id)
  {
    if ms != [] {
      UpcomingExact(ms[1..], active, m);
      assert ms == [ms[0]] + ms[1..];
    }
  }

  /** The number of unfinished matches carrying the id. */
  function OpenWithId(ms: seq<Match>, id: string): nat {
    if ms == [] then 0
    else (if !ms[0].isFinished && ms[0].id == id then 1 else 0) + OpenWithId(ms[1..], id)
  }

  /** Hiding one id removes from the queue exactly the unfinished matches with that id. */
  lemma {:induction false} UpcomingCount(ms: seq<Match>, a: Match)
    ensures |Upcoming(ms, Some(a))| + OpenWithId(ms, a.id) == |PlayerList.Queued(ms)|
  {
    if ms != [] {
      UpcomingCount(ms[1..], a);
    }
  }

  /** Every match is finished or queued, never both. */
  lemma {:induction false} FinishedQueuedSplit(ms: seq<Match>)
    ensures |StatsReplay.Finished(ms)| + |PlayerList.Queued(ms)| == |ms|
  {
    if ms != [] {
      FinishedQueuedSplit(ms[1..]);
    }
  }

  lemma {:induction false} NoOtherWithId(ms: seq<Match>, id: string)
    requires forall k :: 0 <= k < |ms| ==> ms[k].id != id
    ensures OpenWithId(ms, id) == 0
  {
    if ms != [] {
      assert forall k :: 0 <= k < |ms| - 1 ==> ms[1..][k] == ms[k + 1];
      NoOtherWithId(ms[1..], id);
    }
  }

  /** With unique ids, an unfinished match is the only open one with its id. */
  lemma {:induction false} UniqueOpen(ms: seq<Match>, k: nat)
    requires UniqueIds(ms) && k < |ms| && !ms[k].isFinished
    ensures OpenWithId(ms, ms[k].id) == 1
  {
    var t := ms[1..];
    assert forall j :: 0 <= j < |t| ==> t[j] == ms[j + 1];
    if k == 0 {
      NoOtherWithId(t, ms[0].id);
    } else {
      assert UniqueIds(t);
      UniqueOpen(t, k - 1);
    }
  }

  /** Every match is finished when none is active. */
  lemma {:induction false} AllFinishedNothingQueued(ms: seq<Match>, active: Option<Match>)
    requires forall k :: 0 <= k < |ms| ==> ms[k].isFinished
    ensures Upcoming(ms, active) == []
  {
    if ms != [] {
      assert forall k :: 0 <= k < |ms| - 1 ==> ms[1..][k] == ms[k + 1];
      AllFinishedNothingQueued(ms[1..], active);
    }
  }

  /** With no match in play the queue is empty, so the placeholder slot is never followed by a queued match. */
  lemma NoActiveNoQueue(ms: seq<Match>)
    requires AppContext.ActiveMatch(ms).None?
    ensures Upcoming(ms, None) == []
  {
    assert AppContext.FirstUnfinished(ms).None?;
    AllFinishedNothingQueued(ms, None);
  }

  // ---------------------------------------------------------------------
  // Timeline numbering

  /**
   * The numbers in the timeline circles, top to bottom: the history as
   * `idx + 1`, the current slot (shown even when nothing is in play) as
   * finished + 1, and the queue as finished + (2 with a match in play, else 1) + idx.
   */
  function Circles(ms: seq<Match>): (r: seq<nat>)
    ensures |r| == |StatsReplay.ReplayOrder(ms)| + 1 + |Upcoming(ms, AppContext.ActiveMatch(ms))|
  {
    var f := |StatsReplay.ReplayOrder(ms)|;
    var active := AppContext.ActiveMatch(ms);
    var q := Upcoming(ms, active);
    seq(f, idx => idx + 1) + [f + 1] + seq(|q|, idx => f + (if active.Some? then 2 else 1) + idx)
  }

  /** The circles count 1, 2, 3, ... without a gap or a repeat. */
  lemma CirclesConsecutive(ms: seq<Match>)
    ensures forall i :: 0 <= i < |Circles(ms)| ==> Circles(ms)[i] == i + 1
  {
    if AppContext.ActiveMatch(ms).None? {
      NoActiveNoQueue(ms);
    }
  }

  /**
   * With unique ids every match gets exactly one circle, and the current slot
   * takes one more only when no match is in play.
   */
  lemma CirclesCoverMatches(ms: seq<Match>)
    requires UniqueIds(ms)
    ensures |Circles(ms)| == |ms| + (if AppContext.ActiveMatch(ms).None? then 1 else 0)
  {
    HistoryLength(ms);
    FinishedQueuedSplit(ms);
    match AppContext.ActiveMatch(ms)
    case None =>
      NoActiveNoQueue(ms);
      AllQueuedWhenNoneActive(ms);
    case Some(a) =>
      var k := AppContext.FirstUnfinished(ms).value;
      assert a == ms[k];
      UniqueOpen(ms, k);
      UpcomingCount(ms, a);
  }

  /** Without a match in play nothing is queued. */
  lemma AllQueuedWhenNoneActive(ms: seq<Match>)
    requires AppContext.ActiveMatch(ms).None?
    ensures PlayerList.Queued(ms) == []
  {
    assert AppContext.FirstUnfinished(ms).None?;
    PlayerList.QueuedNoneUnfinished(ms);
  }

  // ---------------------------------------------------------------------
  // The session planner

  /**
   * The planner's starting length for the active count: 3 sets for four
   * players, one set per player above four, 1 below four. It agrees with the
   * roster screen's `getSetsCount` only for 1, 4, 5, 7 and more than 8 players.
   */
  function DefaultPlanCount(activeCount: nat): (r: nat)
    ensures r >= 1
    ensures activeCount > 4 ==> r == activeCount
    ensures activeCount < 4 ==> r == 1
    ensures r == PlayerList.SetsCount(activeCount) <==>
      activeCount == 1 || activeCount == 4 || activeCount == 5 || activeCount == 7 || activeCount > 8
  {
    if activeCount == 4 then 3
    else if activeCount > 4 then activeCount
    else 1
  }

  /**
   * `handleGenerate`: a plan length of zero or below (the field reads
   * `parseInt(value) || 0`) does nothing; otherwise the schedule is generated.
   */
  function Generate(s: AppContext.State, planCount: int, ids: nat -> string, now: int, pick: nat -> nat)
    : (r: AppContext.State)
    ensures planCount <= 0 ==> r == s
    ensures r.players == s.players
    ensures |r.matches| >= |s.matches| && r.matches[..|s.matches|] == s.matches
    ensures planCount > 0 && |Active(s.players)| >= 4 ==> |r.matches| == |s.matches| + planCount
    ensures planCount > 0 && |Active(s.players)| < 4 ==> r == s
  {
    if planCount > 0 then AppContext.GenerateSchedule(s, planCount, ids, now, pick) else s
  }

  /** Text that holds no number, or the number 0, leaves the schedule alone. */
  lemma NonNumberGeneratesNothing(s: AppContext.State, text: string, ids: nat -> string, now: int, pick: nat -> nat)
    requires ParseIntPrefix(text).None? || ParseIntPrefix(text) == Some(0)
    ensures Generate(s, ParseIntOrZero(text), ids, now, pick) == s
  {
    assert ParseIntOrZero(text) == 0;
  }

  /** Appending keeps the first unfinished match of a list that has one. */
  lemma {:induction false} FirstUnfinishedKept(ms: seq<Match>, t: seq<Match>)
    requires AppContext.FirstUnfinished(ms).Some?
    ensures AppContext.FirstUnfinished(ms + t) == AppContext.FirstUnfinished(ms)
  {
    if ms[0].isFinished {
      assert (ms + t)[1..] == ms[1..] + t;
      FirstUnfinishedKept(ms[1..], t);
    }
  }

  /**
   * Generating while a match is in play leaves that match in play and adds
   * `planCount` matches to the end of the queue.
   */
  lemma {:induction false} GenerateExtendsQueue(s: AppContext.State, planCount: int, ids: nat -> string, now: int, pick: nat -> nat)
    requires AppContext.ActiveMatch(s.matches).Some?
    requires planCount > 0 && |Active(s.players)| >= 4
    ensures var r := Generate(s, planCount, ids, now, pick);
      AppContext.ActiveMatch(r.matches) == AppContext.ActiveMatch(s.matches) &&
      |PlayerList.Queued(r.matches)| == |PlayerList.Queued(s.matches)| + planCount
  {
    var r := Generate(s, planCount, ids, now, pick);
    var added := r.matches[|s.matches|..];
    assert r.matches == s.matches + added;
    FirstUnfinishedKept(s.matches, added);
    PlayerList.QueueAfterSchedule(s, planCount, ids, now, pick);
  }

  // ---------------------------------------------------------------------
  // Score buttons

  /** The minus button: `Math.max(0, score - 1)`. */
  function Minus(score: int): (r: int)
    ensures r >= 0
    ensures score >= 1 ==> r == score - 1
    ensures score <= 1 ==> r == 0
  {
    if score - 1 > 0 then score - 1 else 0
  }

  datatype Press = Plus | Less

  /** The counter after a run of presses on one side's buttons. */
  function Apply(score: int, presses: seq<Press>): (r: int)
    decreases |presses|
  {
    if presses == [] then score
    else Apply(if presses[0] == Plus then score + 1 else Minus(score), presses[1..])
  }

  function CountOf(presses: seq<Press>, p: Press): nat {
    if presses == [] then 0 else (if presses[0] == p then 1 else 0) + CountOf(presses[1..], p)
  }

  /**
   * From a counter of 0 or more, no run of presses goes below 0; the clamp
   * only ever raises the counter above the plain sum, and never above the
   * start plus the plus-presses.
   */
  lemma {:induction false} PressesStayInRange(score: int, presses: seq<Press>)
    requires score >= 0
    decreases |presses|
    ensures Apply(score, presses) >= 0
    ensures score + CountOf(presses, Plus) - CountOf(presses, Less) <= Apply(score, presses)
    ensures Apply(score, presses) <= score + CountOf(presses, Plus)
  {
    if presses != [] {
      var next := if presses[0] == Plus then score + 1 else Minus(score);
      PressesStayInRange(next, presses[1..]);
    }
  }

  // ---------------------------------------------------------------------
  // Finishing the match in play

  /**
   * `handleFinish`: with a match in play it is finished with the entered
   * score and both counters go back to 0; with none nothing happens.
   */
  function HandleFinish(s: AppContext.State, scoreA: int, scoreB: int): (r: (AppContext.State, int, int))
    ensures AppContext.ActiveMatch(s.matches).None? ==> r == (s, scoreA, scoreB)
    ensures AppContext.ActiveMatch(s.matches).Some? ==>
      r.1 == 0 && r.2 == 0 &&
      r.0.matches == AppContext.FinishMatches(s.matches, AppContext.ActiveMatch(s.matches).value.id, scoreA, scoreB)
  {
    match AppContext.ActiveMatch(s.matches)
    case None => (s, scoreA, scoreB)
    case Some(a) =>
      var k := AppContext.FirstUnfinished(s.matches).value;
      assert s.matches[k].id == a.id;
      var t := AppContext.FinishMatch(s, a.id, scoreA, scoreB);
      (if t.Some? then t.value else s, 0, 0)
  }

  /** Finishing by id moves every open match with that id into the finished set. */
  lemma {:induction false} FinishedAfterFinish(ms: seq<Match>, id: string, scoreA: int, scoreB: int)
    ensures |StatsReplay.Finished(AppContext.FinishMatches(ms, id, scoreA, scoreB))| ==
      |StatsReplay.Finished(ms)| + OpenWithId(ms, id)
  {
    if ms != [] {
      var r := AppContext.FinishMatches(ms, id, scoreA, scoreB);
      assert r[1..] == AppContext.FinishMatches(ms[1..], id, scoreA, scoreB);
      FinishedAfterFinish(ms[1..], id, scoreA, scoreB);
    }
  }

  /**
   * With unique ids, finishing the match in play adds exactly one entry to
   * the history and leaves the list length alone.
   */
  lemma FinishGrowsHistory(s: AppContext.State, scoreA: int, scoreB: int)
    requires UniqueIds(s.matches) && AppContext.ActiveMatch(s.matches).Some?
    ensures var r := HandleFinish(s, scoreA, scoreB).0;
      |StatsReplay.ReplayOrder(r.matches)| == |StatsReplay.ReplayOrder(s.matches)| + 1 &&
      |r.matches| == |s.matches|
  {
    var a := AppContext.ActiveMatch(s.matches).value;
    var k := AppContext.FirstUnfinished(s.matches).value;
    var r := HandleFinish(s, scoreA, scoreB).0;
    UniqueOpen(s.matches, k);
    FinishedAfterFinish(s.matches, a.id, scoreA, scoreB);
    HistoryLength(s.matches);
    HistoryLength(r.matches);
  }
}
