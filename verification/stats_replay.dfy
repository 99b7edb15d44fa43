/**
 * `recalculatePlayerStats`: every player's statistics rebuilt from zero by
 * replaying the finished matches in the order they ended. The players are
 * first gathered in a map keyed by id; the map's insertion order is the
 * order of the result.
 */
module StatsReplay {

  import opened Wrappers
  import opened Domain
  import Lists
  import Sorting

  /** Field-wise sum of two tallies. */
  function AddStats(a: Stats, b: Stats): Stats {
    Stats(a.matchesPlayed + b.matchesPlayed, a.wins + b.wins, a.losses + b.losses, a.draws + b.draws,
          a.gamesWon + b.gamesWon, a.gamesLost + b.gamesLost, a.restCount + b.restCount)
  }

  lemma AddAssoc(a: Stats, b: Stats, c: Stats)
    ensures AddStats(a, AddStats(b, c)) == AddStats(AddStats(a, b), c)
  {
  }

  lemma AddSwap(a: Stats, b: Stats, c: Stats)
    ensures AddStats(a, AddStats(b, c)) == AddStats(b, AddStats(a, c))
  {
  }

  lemma AddZero(a: Stats)
    ensures AddStats(ZeroStats, a) == a && AddStats(a, ZeroStats) == a
  {
  }

  /** The player with every counter back at zero. */
  function Zeroed(p: Player): Player {
    p.(stats := ZeroStats)
  }

  // ---------------------------------------------------------------------
  // The player map

  /** `map.set(p.id, p)`: a known id keeps its place and takes the new value; a new id goes last. */
  function Upsert(entries: seq<Player>, p: Player): (r: seq<Player>)
    ensures |entries| <= |r| <= |entries| + 1
    ensures p in r
  {
    match IndexOfId(entries, p.id)
    case Some(k) =>
      assert entries[k := p][k] == p;
      entries[k := p]
    case None => entries + [p]
  }

  /**
   * The map the replay starts from: the players set one after the other,
   * each with its statistics reset.
   */
  function ResetRoster(players: seq<Player>): (r: seq<Player>)
    ensures |r| <= |players|
  {
    if players == [] then []
    else Upsert(ResetRoster(players[..|players| - 1]), Zeroed(players[|players| - 1]))
  }

  /** Setting an entry leaves the ids as they were, or adds the new id at the end. */
  lemma UpsertIds(entries: seq<Player>, p: Player)
    ensures Ids(Upsert(entries, p)) == if p.id in Ids(entries) then Ids(entries) else Ids(entries) + [p.id]
  {
    match IndexOfId(entries, p.id)
    case Some(k) =>
      assert Ids(entries)[k] == p.id;
    case None =>
      assert p.id !in Ids(entries);
      assert Ids(entries + [p]) == Ids(entries) + [p.id];
  }

  /** The map holds each id once, in the order the ids first occur among the players. */
  lemma {:induction false} RosterIds(players: seq<Player>)
    ensures Ids(ResetRoster(players)) == Lists.Dedupe(Ids(players))
  {
    if players != [] {
      var init := players[..|players| - 1];
      var last := players[|players| - 1];
      RosterIds(init);
      UpsertIds(ResetRoster(init), Zeroed(last));
      assert Ids(players) == Ids(init) + [last.id];
      Lists.DedupeSnoc(Ids(init), last.id);
    }
  }

  /** No id has two entries. */
  lemma RosterDistinct(players: seq<Player>)
    ensures Lists.NoDup(Ids(ResetRoster(players)))
  {
    RosterIds(players);
    Lists.DedupeNoRepeats(Ids(players));
  }

  /** Every entry of the map starts from zero. */
  lemma {:induction false} RosterZeroed(players: seq<Player>, k: nat)
    requires k < |ResetRoster(players)|
    ensures ResetRoster(players)[k].stats == ZeroStats
  {
    var init := players[..|players| - 1];
    var prev := ResetRoster(init);
    if k < |prev| {
      RosterZeroed(init, k);
    }
  }

  /**
   * A player whose id does not occur again later in the list is in the map:
   * of several players sharing an id, the last one wins.
   */
  lemma {:induction false} RosterHoldsLast(players: seq<Player>, k: nat)
    requires k < |players|
    requires forall j :: k < j < |players| ==> players[j].id != players[k].id
    ensures Zeroed(players[k]) in ResetRoster(players)
  {
    var init := players[..|players| - 1];
    var last := players[|players| - 1];
    if k < |players| - 1 {
      RosterHoldsLast(init, k);
      var prev := ResetRoster(init);
      var i :| 0 <= i < |prev| && prev[i] == Zeroed(players[k]);
      match IndexOfId(prev, last.id)
      case Some(j) =>
        assert prev[j].id == last.id != players[k].id;
        assert ResetRoster(players)[i] == Zeroed(players[k]);
      case None =>
        assert ResetRoster(players)[i] == Zeroed(players[k]);
    }
  }

  /** Every player with the statistics reset, in order. */
  function ZeroAll(players: seq<Player>): (r: seq<Player>)
    ensures |r| == |players|
  {
    seq(|players|, k requires 0 <= k < |players| => Zeroed(players[k]))
  }

  /** Players whose ids are distinct keep their order and are only reset. */
  lemma {:induction false} RosterOfDistinct(players: seq<Player>)
    requires Lists.NoDup(Ids(players))
    ensures ResetRoster(players) == ZeroAll(players)
  {
    if players != [] {
      var init := players[..|players| - 1];
      var last := players[|players| - 1];
      assert Lists.NoDup(Ids(init)) by {
        forall i, j | 0 <= i < j < |Ids(init)| ensures Ids(init)[i] != Ids(init)[j] {
          assert Ids(init)[i] == Ids(players)[i] && Ids(init)[j] == Ids(players)[j];
        }
      }
      RosterOfDistinct(init);
      assert Ids(ZeroAll(init)) == Ids(init);
      assert last.id !in Ids(init) by {
        forall i | 0 <= i < |init| ensures init[i].id != last.id {
          assert Ids(players)[i] == init[i].id;
          assert Ids(players)[|players| - 1] == last.id;
        }
      }
      UpsertIds(ZeroAll(init), Zeroed(last));
      assert ZeroAll(init) + [Zeroed(last)] == ZeroAll(players);
    }
  }

  // ---------------------------------------------------------------------
  // One match

  /** What one finished match adds to a player's tally (the body of the inner `forEach`). */
  function Delta(p: Player, m: Match): Stats {
    var inA := OnTeam(p.id, m.teamA);
    var inB := OnTeam(p.id, m.teamB);
    if !inA && !inB then
      // only active players are counted as resting
      Stats(0, 0, 0, 0, 0, 0, if p.active then 1 else 0)
    else
      var isWinner := (inA && m.scoreA > m.scoreB) || (inB && m.scoreB > m.scoreA);
      var isLoser := (inA && m.scoreB > m.scoreA) || (inB && m.scoreA > m.scoreB);
      Stats(1,
            if isWinner then 1 else 0,
            if isLoser then 1 else 0,
            if m.scoreA == m.scoreB then 1 else 0,
            if inA then m.scoreA else m.scoreB,
            if inA then m.scoreB else m.scoreA,
            0)
  }

  /** `playerMap.set(id, { ...player, stats: newStats })` for one match. */
  function Step(p: Player, m: Match): (q: Player)
    ensures q.id == p.id && q.name == p.name && q.active == p.active
  {
    p.(stats := AddStats(p.stats, Delta(p, m)))
  }

  /** One map entry after the matches are replayed in the given order. */
  function Replay(p: Player, ms: seq<Match>): (q: Player)
    ensures q.id == p.id && q.name == p.name && q.active == p.active
    decreases |ms|
  {
    if ms == [] then p else Replay(Step(p, ms[0]), ms[1..])
  }

  // ---------------------------------------------------------------------
  // The reference tally

  /** A match counts only once it is finished. */
  function Gain(p: Player, m: Match): Stats {
    if m.isFinished then Delta(p, m) else ZeroStats
  }

  /** The sum of what each match adds, a quantity that does not depend on order. */
  function Total(p: Player, ms: seq<Match>): Stats {
    if ms == [] then ZeroStats else AddStats(Gain(p, ms[0]), Total(p, ms[1..]))
  }

  /** The tally depends on the player only through the id and the active flag. */
  lemma {:induction false} TotalOfSamePlayer(p: Player, q: Player, ms: seq<Match>)
    requires p.id == q.id && p.active == q.active
    ensures Total(p, ms) == Total(q, ms)
  {
    if ms != [] {
      TotalOfSamePlayer(p, q, ms[1..]);
    }
  }

  lemma {:induction false} TotalAppend(p: Player, a: seq<Match>, b: seq<Match>)
    ensures Total(p, a + b) == AddStats(Total(p, a), Total(p, b))
  {
    if a == [] {
      assert a + b == b;
      AddZero(Total(p, b));
    } else {
      assert (a + b)[1..] == a[1..] + b;
      assert (a + b)[0] == a[0];
      TotalAppend(p, a[1..], b);
      AddAssoc(Gain(p, a[0]), Total(p, a[1..]), Total(p, b));
    }
  }

  /** Taking one match out of the middle. */
  lemma TotalRemoveAt(p: Player, ms: seq<Match>, k: nat)
    requires k < |ms|
    ensures Total(p, ms) == AddStats(Gain(p, ms[k]), Total(p, ms[..k] + ms[k + 1..]))
  {
    assert ms == ms[..k] + ([ms[k]] + ms[k + 1..]);
    TotalAppend(p, ms[..k], [ms[k]] + ms[k + 1..]);
    TotalAppend(p, ms[..k], ms[k + 1..]);
    assert ([ms[k]] + ms[k + 1..])[1..] == ms[k + 1..];
    AddSwap(Total(p, ms[..k]), Gain(p, ms[k]), Total(p, ms[k + 1..]));
  }

  /** Reordering the matches does not change the tally. */
  lemma {:induction false} TotalPermutation(p: Player, a: seq<Match>, b: seq<Match>)
    requires multiset(a) == multiset(b)
    ensures Total(p, a) == Total(p, b)
    decreases |a|
  {
    if a == [] {
      assert |b| == |multiset(b)| == 0;
    } else {
      var x := a[0];
      assert x in multiset(b);
      var k :| 0 <= k < |b| && b[k] == x;
      var rest := b[..k] + b[k + 1..];
      BagRemove(a, b, k);
      TotalPermutation(p, a[1..], rest);
      TotalRemoveAt(p, b, k);
    }
  }

  /** Taking the same element out of two permutations of each other leaves permutations. */
  lemma BagRemove<T>(a: seq<T>, b: seq<T>, k: nat)
    requires |a| > 0 && k < |b| && b[k] == a[0] && multiset(a) == multiset(b)
    ensures multiset(a[1..]) == multiset(b[..k] + b[k + 1..])
  {
    assert a == [a[0]] + a[1..];
    assert b == b[..k] + [b[k]] + b[k + 1..];
    assert multiset(a) == multiset{a[0]} + multiset(a[1..]);
    assert multiset(b) == multiset(b[..k]) + multiset{b[k]} + multiset(b[k + 1..]);
    assert multiset(b[..k] + b[k + 1..]) == multiset(b[..k]) + multiset(b[k + 1..]);
    BagCancel(a[0], multiset(a[1..]), multiset(b[..k] + b[k + 1..]));
  }

  lemma BagCancel<T>(x: T, s: multiset<T>, t: multiset<T>)
    requires multiset{x} + s == multiset{x} + t
    ensures s == t
  {
    assert s == (multiset{x} + s) - multiset{x};
    assert t == (multiset{x} + t) - multiset{x};
  }

  /** Replaying finished matches adds their tally to the starting statistics. */
  lemma {:induction false} ReplayAdds(p: Player, ms: seq<Match>)
    requires forall k :: 0 <= k < |ms| ==> ms[k].isFinished
    ensures Replay(p, ms) == p.(stats := AddStats(p.stats, Total(p, ms)))
    decreases |ms|
  {
    if ms == [] {
      AddZero(p.stats);
    } else {
      var q := Step(p, ms[0]);
      ReplayAdds(q, ms[1..]);
      TotalOfSamePlayer(p, q, ms[1..]);
      assert Gain(p, ms[0]) == Delta(p, ms[0]);
      AddAssoc(p.stats, Delta(p, ms[0]), Total(p, ms[1..]));
    }
  }

  // ---------------------------------------------------------------------
  // The replay order

  /** `matches.filter(m => m.isFinished)`. */
  function Finished(ms: seq<Match>): (r: seq<Match>)
    ensures |r| <= |ms|
  {
    if ms == [] then [] else (if ms[0].isFinished then [ms[0]] else []) + Finished(ms[1..])
  }

  lemma {:induction false} FinishedAreFinished(ms: seq<Match>, m: Match)
    ensures m in Finished(ms) <==> m in ms && m.isFinished
  {
    if ms != [] {
      FinishedAreFinished(ms[1..], m);
      assert ms == [ms[0]] + ms[1..];
    }
  }

  /** Leaving out unfinished matches does not change the tally. */
  lemma {:induction false} TotalOfFinished(p: Player, ms: seq<Match>)
    ensures Total(p, Finished(ms)) == Total(p, ms)
  {
    if ms != [] {
      TotalOfFinished(p, ms[1..]);
      if ms[0].isFinished {
        var f := [ms[0]] + Finished(ms[1..]);
        assert Finished(ms) == f;
        assert f[0] == ms[0] && f[1..] == Finished(ms[1..]);
      } else {
        assert Finished(ms) == Finished(ms[1..]);
        AddZero(Total(p, ms[1..]));
      }
    }
  }

  /** `a.endTime || a.timestamp`: an absent or zero end time falls back to the start. */
  function EndOrStart(m: Match): int {
    if m.endTime.Some? && m.endTime.value != 0 then m.endTime.value else m.timestamp
  }

  function EndKey(m: Match): Sorting.SortKey {
    Sorting.SortKey(EndOrStart(m), 0, 0)
  }

  /** The finished matches, oldest first. */
  function ReplayOrder(ms: seq<Match>): (r: seq<Match>)
    ensures multiset(r) == multiset(Finished(ms))
    ensures forall i, j :: 0 <= i < j < |r| ==> EndOrStart(r[i]) <= EndOrStart(r[j])
  {
    var r := Sorting.SortBy(Finished(ms), EndKey);
    assert forall i, j :: 0 <= i < j < |r| ==> Sorting.KeyLe(EndKey(r[i]), EndKey(r[j]));
    r
  }

  lemma ReplayOrderFinished(ms: seq<Match>, k: nat)
    requires k < |ReplayOrder(ms)|
    ensures ReplayOrder(ms)[k].isFinished
  {
    var m := ReplayOrder(ms)[k];
    assert m in multiset(Finished(ms));
    FinishedAreFinished(ms, m);
  }

  // ---------------------------------------------------------------------
  // The whole recalculation

  /** `recalculatePlayerStats(players, matches)`. */
  function RecalculatePlayerStats(players: seq<Player>, matches: seq<Match>): (r: seq<Player>)
    ensures |r| == |ResetRoster(players)|
    ensures forall k :: 0 <= k < |r| ==>
      r[k].id == ResetRoster(players)[k].id && r[k].name == ResetRoster(players)[k].name
      && r[k].active == ResetRoster(players)[k].active
  {
    var roster := ResetRoster(players);
    var order := ReplayOrder(matches);
    seq(|roster|, k requires 0 <= k < |roster| => Replay(roster[k], order))
  }

  /** One entry per id, in the order the ids first occur. */
  lemma RecalculateIds(players: seq<Player>, matches: seq<Match>)
    ensures Ids(RecalculatePlayerStats(players, matches)) == Lists.Dedupe(Ids(players))
  {
    RosterIds(players);
    var r := RecalculatePlayerStats(players, matches);
    assert Ids(r) == Ids(ResetRoster(players));
  }

  /**
   * Replaying, from zero, the finished matches in any order that holds each
   * of them once gives the tally of the whole match list.
   */
  lemma {:induction false} ReplayFromZero(p: Player, order: seq<Match>, matches: seq<Match>)
    requires p.stats == ZeroStats
    requires multiset(order) == multiset(Finished(matches))
    requires forall i :: 0 <= i < |order| ==> order[i].isFinished
    ensures Replay(p, order) == p.(stats := Total(p, matches))
  {
    ReplayAdds(p, order);
    AddZero(Total(p, order));
    TotalPermutation(p, order, Finished(matches));
    TotalOfFinished(p, matches);
  }

  /**
   * Each player ends with exactly the sum of what every finished match adds,
   * whatever order the matches come in.
   */
  lemma {:induction false} RecalculateIsTotal(players: seq<Player>, matches: seq<Match>, k: nat)
    requires k < |ResetRoster(players)|
    ensures RecalculatePlayerStats(players, matches)[k] ==
            ResetRoster(players)[k].(stats := Total(ResetRoster(players)[k], matches))
  {
    var p := ResetRoster(players)[k];
    var order := ReplayOrder(matches);
    forall i | 0 <= i < |order| ensures order[i].isFinished {
      ReplayOrderFinished(matches, i);
    }
    RosterZeroed(players, k);
    ReplayFromZero(p, order, matches);
    assert RecalculatePlayerStats(players, matches)[k] == Replay(p, order);
  }

  /** The order of the match list does not matter. */
  lemma {:induction false} RecalculateOrderIrrelevant(players: seq<Player>, m1: seq<Match>, m2: seq<Match>)
    requires multiset(m1) == multiset(m2)
    ensures RecalculatePlayerStats(players, m1) == RecalculatePlayerStats(players, m2)
  {
    var r1 := RecalculatePlayerStats(players, m1);
    var r2 := RecalculatePlayerStats(players, m2);
    forall k | 0 <= k < |r1| ensures r1[k] == r2[k] {
      RecalculateIsTotal(players, m1, k);
      RecalculateIsTotal(players, m2, k);
      TotalPermutation(ResetRoster(players)[k], m1, m2);
    }
  }

  lemma TotalSkipsUnfinished(p: Player, before: seq<Match>, m: Match, after: seq<Match>)
    requires !m.isFinished
    ensures Total(p, before + [m] + after) == Total(p, before + after)
  {
    TotalAppend(p, before + [m], after);
    TotalAppend(p, before, [m]);
    TotalAppend(p, before, after);
    assert Total(p, [m]) == AddStats(ZeroStats, Total(p, []));
    AddZero(ZeroStats);
    AddZero(Total(p, before));
  }

  /** A match that is not finished changes nobody's statistics. */
  lemma {:induction false} UnfinishedIgnored(players: seq<Player>, before: seq<Match>, m: Match, after: seq<Match>)
    requires !m.isFinished
    ensures RecalculatePlayerStats(players, before + [m] + after) == RecalculatePlayerStats(players, before + after)
  {
    var r1 := RecalculatePlayerStats(players, before + [m] + after);
    var r2 := RecalculatePlayerStats(players, before + after);
    forall k | 0 <= k < |r1| ensures r1[k] == r2[k] {
      RecalculateIsTotal(players, before + [m] + after, k);
      RecalculateIsTotal(players, before + after, k);
      TotalSkipsUnfinished(ResetRoster(players)[k], before, m, after);
    }
  }

  /** Recalculating from recalculated players gives the same players again. */
  lemma RecalculateIdempotent(players: seq<Player>, matches: seq<Match>)
    ensures RecalculatePlayerStats(RecalculatePlayerStats(players, matches), matches) ==
            RecalculatePlayerStats(players, matches)
  {
    var roster := ResetRoster(players);
    var r := RecalculatePlayerStats(players, matches);
    RosterDistinct(players);
    assert Ids(r) == Ids(roster);
    RosterOfDistinct(r);
    forall k | 0 <= k < |r| ensures ZeroAll(r)[k] == roster[k] {
      RosterZeroed(players, k);
    }
    assert ResetRoster(r) == roster;
  }

  // ---------------------------------------------------------------------
  // What the tally counts

  /** The finished matches the player plays in. */
  function Appearances(id: string, ms: seq<Match>): (n: nat)
    ensures n <= |ms|
  {
    if ms == [] then 0 else (if ms[0].isFinished && Plays(id, ms[0]) then 1 else 0) + Appearances(id, ms[1..])
  }

  /** The finished matches the player sits out. */
  function Absences(id: string, ms: seq<Match>): (n: nat)
    ensures n <= |ms|
  {
    if ms == [] then 0 else (if ms[0].isFinished && !Plays(id, ms[0]) then 1 else 0) + Absences(id, ms[1..])
  }

  /**
   * `matchesPlayed` counts the finished matches the player is in; `restCount`
   * counts the others, but only for an active player; together they cover
   * every finished match.
   */
  lemma {:induction false} TotalCountsMatches(p: Player, ms: seq<Match>)
    ensures Total(p, ms).matchesPlayed == Appearances(p.id, ms)
    ensures Total(p, ms).restCount == if p.active then Absences(p.id, ms) else 0
    ensures Appearances(p.id, ms) + Absences(p.id, ms) == |Finished(ms)|
  {
    if ms != [] {
      TotalCountsMatches(p, ms[1..]);
    }
  }

  /** The player never plays on both sides of one match. */
  predicate OneSide(id: string, ms: seq<Match>) {
    forall k :: 0 <= k < |ms| ==> !(OnTeam(id, ms[k].teamA) && OnTeam(id, ms[k].teamB))
  }

  /** For a player on one side of each match, every match played is exactly one of a win, a loss or a draw. */
  lemma {:induction false} ResultsCoverMatches(p: Player, ms: seq<Match>)
    requires OneSide(p.id, ms)
    ensures Total(p, ms).wins + Total(p, ms).losses + Total(p, ms).draws == Total(p, ms).matchesPlayed
    ensures Total(p, ms).wins >= 0 && Total(p, ms).losses >= 0 && Total(p, ms).draws >= 0
  {
    if ms != [] {
      assert OneSide(p.id, ms[1..]) by {
        forall k | 0 <= k < |ms[1..]| ensures !(OnTeam(p.id, ms[1..][k].teamA) && OnTeam(p.id, ms[1..][k].teamB)) {
          assert ms[1..][k] == ms[k + 1];
        }
      }
      ResultsCoverMatches(p, ms[1..]);
    }
  }

  /** The player's own side's score in one finished match it plays in, else 0. */
  function OwnScore(id: string, m: Match): int {
    if !m.isFinished then 0
    else if OnTeam(id, m.teamA) then m.scoreA
    else if OnTeam(id, m.teamB) then m.scoreB
    else 0
  }

  /** The opponents' score in one finished match the player plays in, else 0. */
  function OpponentScore(id: string, m: Match): int {
    if !m.isFinished then 0
    else if OnTeam(id, m.teamA) then m.scoreB
    else if OnTeam(id, m.teamB) then m.scoreA
    else 0
  }

  /** The player's own side's score, summed over the matches. */
  function OwnGames(id: string, ms: seq<Match>): int {
    if ms == [] then 0 else OwnScore(id, ms[0]) + OwnGames(id, ms[1..])
  }

  /** The opponents' score, summed over the matches. */
  function OpponentGames(id: string, ms: seq<Match>): int {
    if ms == [] then 0 else OpponentScore(id, ms[0]) + OpponentGames(id, ms[1..])
  }

  lemma GainGames(p: Player, m: Match)
    ensures Gain(p, m).gamesWon == OwnScore(p.id, m)
    ensures Gain(p, m).gamesLost == OpponentScore(p.id, m)
  {
  }

  /** `gamesWon` collects the player's own side's games. */
  lemma {:induction false} TotalCountsGamesWon(p: Player, ms: seq<Match>)
    ensures Total(p, ms).gamesWon == OwnGames(p.id, ms)
  {
    if ms != [] {
      var m, rest := ms[0], ms[1..];
      TotalCountsGamesWon(p, rest);
      GainGames(p, m);
      calc {
        Total(p, ms).gamesWon;
        AddStats(Gain(p, m), Total(p, rest)).gamesWon;
        OwnScore(p.id, m) + OwnGames(p.id, rest);
      }
    }
  }

  /** `gamesLost` collects the opponents' games. */
  lemma {:induction false} TotalCountsGamesLost(p: Player, ms: seq<Match>)
    ensures Total(p, ms).gamesLost == OpponentGames(p.id, ms)
  {
    if ms != [] {
      var m, rest := ms[0], ms[1..];
      TotalCountsGamesLost(p, rest);
      GainGames(p, m);
      calc {
        Total(p, ms).gamesLost;
        AddStats(Gain(p, m), Total(p, rest)).gamesLost;
        OpponentScore(p.id, m) + OpponentGames(p.id, rest);
      }
    }
  }
}
