/**
 * The roster screen: the number of matches a schedule gets, the up/down
 * buttons, the guards in front of schedule generation and the history picker.
 */
module PlayerList {

  import opened Wrappers
  import opened Text
  import opened Domain
  import Matchmaking
  import StatsReplay
  import AppContext

  // ---------------------------------------------------------------------
  // Schedule length

  /** `getSetsCount`: `{ 4: 3, 5: 5, 6: 9, 7: 7, 8: 14 }[n] || n`. */
  function SetsCount(n: nat): (r: nat)
    ensures 4 <= n <= 8 ==> r == Matchmaking.TableLen(n)
    ensures n < 4 || n > 8 ==> r == n
  {
    if n == 4 then 3
    else if n == 5 then 5
    else if n == 6 then 9
    else if n == 7 then 7
    else if n == 8 then 14
    else n
  }

  /** With every player active, the roster is its own active list. */
  lemma {:induction false} AllActive(all: seq<Player>)
    requires forall k :: 0 <= k < |all| ==> all[k].active
    ensures Active(all) == all
  {
    if all != [] {
      assert forall k :: 0 <= k < |all| - 1 ==> all[1..][k] == all[k + 1];
      AllActive(all[1..]);
      assert all == [all[0]] + all[1..];
    }
  }

  /**
   * With four to eight players, all active, a schedule of `SetsCount` matches
   * runs through the table once: entry `i` is table entry `i`.
   */
  lemma {:induction false} SetsCountIsOnePass(all: seq<Player>, existing: seq<Match>, pick: nat -> nat, i: nat)
    requires 4 <= |all| <= 8 && forall k :: 0 <= k < |all| ==> all[k].active
    requires i < SetsCount(|all|)
    ensures |Matchmaking.GenerateSessionSchedule(all, existing, SetsCount(|all|), pick)| == Matchmaking.TableLen(|all|)
    ensures Matchmaking.GenerateSessionSchedule(all, existing, SetsCount(|all|), pick)[i] ==
      Matchmaking.FromConfig(all, Matchmaking.PresetAt(|all|, i))
  {
    AllActive(all);
    Matchmaking.ScheduleAt(all, existing, SetsCount(|all|), pick, i);
    Matchmaking.ScheduleFromTable(all, existing, i, pick);
    Matchmaking.ModUnique(i, 0, i, Matchmaking.TableLen(|all|));
  }

  // ---------------------------------------------------------------------
  // Adding a player

  /** `handleAdd`: a name that is blank once trimmed adds nobody; otherwise the trimmed name joins. */
  function HandleAdd(players: seq<Player>, id: string, newName: string): (r: seq<Player>)
    ensures IsBlank(newName) ==> r == players
    ensures !IsBlank(newName) ==> |r| == |players| + 1 && r[..|players|] == players
    ensures !IsBlank(newName) ==> r[|players|].name == Strip(newName) && r[|players|].name != [] && r[|players|].active
  {
    if IsBlank(newName) then players
    else
      StripEmptyIffBlank(newName);
      AppContext.AddPlayer(players, id, Strip(newName))
  }

  // ---------------------------------------------------------------------
  // Up and down buttons

  /** `handleMoveUp`: the player at `index` trades places with the one above, unless already first. */
  function MoveUp(players: seq<Player>, index: nat): (r: seq<Player>)
    requires index < |players|
    ensures index == 0 ==> r == players
    ensures index > 0 ==> Swapped(players, r, index - 1)
  {
    if index > 0 then
      AdjacentReorder(players, index, index - 1);
      AppContext.Reorder(players, index, index - 1)
    else players
  }

  /** `handleMoveDown`: the player at `index` trades places with the one below, unless already last. */
  function MoveDown(players: seq<Player>, index: nat): (r: seq<Player>)
    requires index < |players|
    ensures index == |players| - 1 ==> r == players
    ensures index < |players| - 1 ==> Swapped(players, r, index)
  {
    if index < |players| - 1 then
      AdjacentReorder(players, index, index + 1);
      AppContext.Reorder(players, index, index + 1)
    else players
  }

  /** `r` is `s` with the neighbours at `i` and `i + 1` exchanged. */
  ghost predicate Swapped<T>(s: seq<T>, r: seq<T>, i: nat) {
    i + 1 < |s| && |r| == |s| && r[i] == s[i + 1] && r[i + 1] == s[i]
    && forall k :: 0 <= k < |s| && k != i && k != i + 1 ==> r[k] == s[k]
  }

  /** Moving an entry to a neighbouring place exchanges the two. */
  lemma AdjacentReorder<T>(s: seq<T>, from: nat, to: nat)
    requires from < |s| && to < |s| && (to + 1 == from || from + 1 == to)
    ensures Swapped(s, AppContext.Reorder(s, from, to), if from < to then from else to)
  {
    var r := AppContext.Reorder(s, from, to);
    var i := if from < to then from else to;
    assert r[..to] + r[to + 1..] == s[..from] + s[from + 1..];
    forall k | 0 <= k < |s| && k != i && k != i + 1
      ensures r[k] == s[k]
    {
      if k < i {
        assert r[k] == (r[..to] + r[to + 1..])[k];
        assert s[k] == (s[..from] + s[from + 1..])[k];
      } else {
        assert r[k] == (r[..to] + r[to + 1..])[k - 1];
        assert s[k] == (s[..from] + s[from + 1..])[k - 1];
      }
    }
    if from < to {
      assert r[from] == (r[..to] + r[to + 1..])[from];
      assert s[to] == (s[..from] + s[from + 1..])[from];
    } else {
      assert r[from] == (r[..to] + r[to + 1..])[to];
      assert s[to] == (s[..from] + s[from + 1..])[to];
    }
  }

  /** Down after up restores the roster. */
  lemma UpThenDown(players: seq<Player>, index: nat)
    requires 0 < index < |players|
    ensures MoveDown(MoveUp(players, index), index - 1) == players
  {
    var up := MoveUp(players, index);
    var back := MoveDown(up, index - 1);
    assert |back| == |players|;
    assert forall k :: 0 <= k < |players| ==> back[k] == players[k];
  }

  // ---------------------------------------------------------------------
  // Scheduling from the roster

  datatype ScheduleAction = NeedMorePlayers | AskToConfirm | Generate(count: nat)

  /** Some match has not been finished (`matches.some(m => !m.isFinished)`). */
  predicate HasUnfinished(ms: seq<Match>) {
    exists k :: 0 <= k < |ms| && !ms[k].isFinished
  }

  /**
   * `handleConfirmAndSchedule`: a warning with fewer than four players on the
   * roster, a confirmation when unfinished matches exist, otherwise a
   * schedule of `SetsCount` matches for the roster size.
   */
  function ConfirmAndSchedule(players: seq<Player>, ms: seq<Match>): (r: ScheduleAction)
    ensures r == NeedMorePlayers <==> |players| < 4
    ensures r == AskToConfirm <==> |players| >= 4 && HasUnfinished(ms)
    ensures r.Generate? ==> r.count == SetsCount(|players|) && r.count >= 3
  {
    if |players| < 4 then NeedMorePlayers
    else if HasUnfinished(ms) then AskToConfirm
    else Generate(SetsCount(|players|))
  }

  /** The state after the button: only a `Generate` outcome changes it. */
  function ScheduleFromRoster(s: AppContext.State, ids: nat -> string, now: int, pick: nat -> nat): (r: AppContext.State)
    ensures !ConfirmAndSchedule(s.players, s.matches).Generate? ==> r == s
    ensures ConfirmAndSchedule(s.players, s.matches).Generate? ==> !HasUnfinished(s.matches)
    ensures ConfirmAndSchedule(s.players, s.matches).Generate? && |Active(s.players)| >= 4 ==>
      |r.matches| == |s.matches| + SetsCount(|s.players|) && r.matches[..|s.matches|] == s.matches
  {
    match ConfirmAndSchedule(s.players, s.matches)
    case Generate(count) => AppContext.GenerateSchedule(s, count, ids, now, pick)
    case _ => s
  }

  /** The unfinished matches, in order. */
  function Queued(ms: seq<Match>): (r: seq<Match>)
    ensures |r| <= |ms|
  {
    if ms == [] then [] else (if ms[0].isFinished then [] else [ms[0]]) + Queued(ms[1..])
  }

  lemma {:induction false} QueuedAppend(a: seq<Match>, b: seq<Match>)
    ensures Queued(a + b) == Queued(a) + Queued(b)
  {
    if a == [] {
      assert a + b == b;
    } else {
      assert (a + b)[1..] == a[1..] + b;
      QueuedAppend(a[1..], b);
    }
  }

  lemma {:induction false} QueuedAllUnfinished(ms: seq<Match>)
    requires forall k :: 0 <= k < |ms| ==> !ms[k].isFinished
    ensures Queued(ms) == ms
  {
    if ms != [] {
      assert forall k :: 0 <= k < |ms| - 1 ==> ms[1..][k] == ms[k + 1];
      QueuedAllUnfinished(ms[1..]);
      assert ms == [ms[0]] + ms[1..];
    }
  }

  lemma {:induction false} QueuedNoneUnfinished(ms: seq<Match>)
    requires !HasUnfinished(ms)
    ensures Queued(ms) == []
  {
    if ms != [] {
      assert forall k :: 0 <= k < |ms| - 1 ==> ms[1..][k] == ms[k + 1];
      QueuedNoneUnfinished(ms[1..]);
    }
  }

  /** A schedule appends its plan and leaves the earlier matches' queue in front. */
  lemma {:induction false} QueueAfterSchedule(s: AppContext.State, count: nat, ids: nat -> string, now: int, pick: nat -> nat)
    ensures var r := AppContext.GenerateSchedule(s, count, ids, now, pick);
      Queued(r.matches) == Queued(s.matches) + r.matches[|s.matches|..]
  {
    var r := AppContext.GenerateSchedule(s, count, ids, now, pick);
    var added := r.matches[|s.matches|..];
    assert r.matches == s.matches + added;
    QueuedAppend(s.matches, added);
    assert forall k :: 0 <= k < |added| ==> added[k] == r.matches[|s.matches| + k];
    QueuedAllUnfinished(added);
  }

  /** Generating from the roster with nothing queued leaves exactly the new plan queued. */
  lemma RosterScheduleQueue(s: AppContext.State, ids: nat -> string, now: int, pick: nat -> nat)
    requires ConfirmAndSchedule(s.players, s.matches).Generate? && |Active(s.players)| >= 4
    ensures |Queued(ScheduleFromRoster(s, ids, now, pick).matches)| == SetsCount(|s.players|)
  {
    QueueAfterSchedule(s, SetsCount(|s.players|), ids, now, pick);
    QueuedNoneUnfinished(s.matches);
  }

  // ---------------------------------------------------------------------
  // Overwriting a queued schedule

  /**
   * `handleOverwriteSchedule` as written: `generateSchedule(sets, true)`
   * passes a flag the context's `generateSchedule(count)` never reads, so the
   * new plan is appended behind the queue it was meant to replace.
   */
  function OverwriteAsWritten(s: AppContext.State, ids: nat -> string, now: int, pick: nat -> nat): (r: AppContext.State)
    ensures r.players == s.players
  {
    AppContext.GenerateSchedule(s, SetsCount(|s.players|), ids, now, pick)
  }

  /** As written, the old queue survives and the new plan lines up behind it. */
  lemma OverwriteKeepsOldQueue(s: AppContext.State, ids: nat -> string, now: int, pick: nat -> nat)
    requires |Active(s.players)| >= 4 && HasUnfinished(s.matches)
    ensures var q := Queued(OverwriteAsWritten(s, ids, now, pick).matches);
      |q| == |Queued(s.matches)| + SetsCount(|s.players|) && q[..|Queued(s.matches)|] == Queued(s.matches)
    ensures |Queued(OverwriteAsWritten(s, ids, now, pick).matches)| > SetsCount(|s.players|)
  {
    QueueAfterSchedule(s, SetsCount(|s.players|), ids, now, pick);
    var k :| 0 <= k < |s.matches| && !s.matches[k].isFinished;
    QueuedHolds(s.matches, k);
  }

  lemma {:induction false} QueuedHolds(ms: seq<Match>, k: nat)
    requires k < |ms| && !ms[k].isFinished
    ensures |Queued(ms)| > 0
  {
    if k > 0 {
      assert ms[1..][k - 1] == ms[k];
      QueuedHolds(ms[1..], k - 1);
    }
  }

  /**
   * The overwrite the confirmation dialog offers: the unfinished matches are
   * dropped and a fresh plan of `SetsCount` matches is generated.
   */
  function Overwrite(s: AppContext.State, ids: nat -> string, now: int, pick: nat -> nat): (r: AppContext.State)
    ensures r.players == s.players
  {
    AppContext.GenerateSchedule(s.(matches := StatsReplay.Finished(s.matches)), SetsCount(|s.players|), ids, now, pick)
  }

  lemma {:induction false} FinishedHaveNoQueue(ms: seq<Match>)
    ensures Queued(StatsReplay.Finished(ms)) == []
  {
    if ms != [] {
      FinishedHaveNoQueue(ms[1..]);
      QueuedAppend(if ms[0].isFinished then [ms[0]] else [], StatsReplay.Finished(ms[1..]));
    }
  }

  /** After the overwrite, the queue is exactly the new plan and the finished matches are kept. */
  lemma {:induction false} OverwriteReplacesQueue(s: AppContext.State, ids: nat -> string, now: int, pick: nat -> nat)
    requires |Active(s.players)| >= 4
    ensures var r := Overwrite(s, ids, now, pick);
      |Queued(r.matches)| == SetsCount(|s.players|) &&
      r.matches[..|StatsReplay.Finished(s.matches)|] == StatsReplay.Finished(s.matches)
  {
    var kept := s.(matches := StatsReplay.Finished(s.matches));
    QueueAfterSchedule(kept, SetsCount(|s.players|), ids, now, pick);
    FinishedHaveNoQueue(s.matches);
  }

  // ---------------------------------------------------------------------
  // History picker

  /** Some roster player has the id, or the same name up to letter case. */
  predicate OnRoster(roster: seq<Player>, dp: Player) {
    exists k :: 0 <= k < |roster| && (roster[k].id == dp.id || Lower(roster[k].name) == Lower(dp.name))
  }

  /**
   * The history players offered for adding:
   * `dbPlayers.filter(dp => !players.some(p => p.id === dp.id || p.name.toLowerCase() === dp.name.toLowerCase()))`.
   */
  function PickerChoices(db: seq<Player>, roster: seq<Player>): (r: seq<Player>)
    ensures |r| <= |db|
  {
    if db == [] then []
    else (if OnRoster(roster, db[0]) then [] else [db[0]]) + PickerChoices(db[1..], roster)
  }

  /** Offered exactly when in the history and clashing with nobody on the roster. */
  lemma {:induction false} PickerExact(db: seq<Player>, roster: seq<Player>, dp: Player)
    ensures dp in PickerChoices(db, roster) <==> dp in db && !OnRoster(roster, dp)
  {
    if db != [] {
      PickerExact(db[1..], roster, dp);
      assert db == [db[0]] + db[1..];
    }
  }

  /** A history entry whose name differs from a roster name only in case is not offered. */
  lemma PickerIgnoresCase(db: seq<Player>, roster: seq<Player>, dp: Player, k: nat)
    requires k < |roster| && Lower(roster[k].name) == Lower(dp.name)
    ensures dp !in PickerChoices(db, roster)
  {
    PickerExact(db, roster, dp);
  }
}
