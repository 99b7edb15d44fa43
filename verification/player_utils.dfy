/**
 * The player helpers shared by the views: points, the ranking order, the
 * "P1. name" labels and the list of resting players.
 */
module PlayerUtils {

  import opened Text
  import opened Wrappers
  import opened Domain
  import Sorting
  import StatsReplay

  /** `calculatePoints`: a win is worth 2, a draw 1, a loss nothing. */
  function Points(s: Stats): int {
    s.wins * 2 + s.draws * 1 + s.losses * 0
  }

  /**
   * For a player who is on one side of each match, the points lie between 0
   * and two per match played, and reach the top exactly when every match was won.
   */
  lemma {:induction false} PointsBounded(p: Player, ms: seq<Match>)
    requires StatsReplay.OneSide(p.id, ms)
    ensures 0 <= Points(StatsReplay.Total(p, ms)) <= 2 * StatsReplay.Total(p, ms).matchesPlayed
    ensures Points(StatsReplay.Total(p, ms)) == 2 * StatsReplay.Total(p, ms).matchesPlayed <==>
            StatsReplay.Total(p, ms).wins == StatsReplay.Total(p, ms).matchesPlayed
  {
    StatsReplay.ResultsCoverMatches(p, ms);
  }

  /** The comparator of `sortPlayers`, as an ascending key: each measure is wanted descending. */
  function RankKey(p: Player): Sorting.SortKey {
    Sorting.SortKey(-Points(p.stats), -(p.stats.gamesWon - p.stats.gamesLost), -p.stats.matchesPlayed)
  }

  /**
   * `sortPlayers`: the same players, ranked by points, then game difference,
   * then matches played, each from high to low.
   */
  function SortPlayers(players: seq<Player>): (r: seq<Player>)
    ensures multiset(r) == multiset(players)
    ensures forall i, j :: 0 <= i < j < |r| ==> Points(r[i].stats) >= Points(r[j].stats)
    ensures forall i, j :: 0 <= i < j < |r| && Points(r[i].stats) == Points(r[j].stats) ==>
      r[i].stats.gamesWon - r[i].stats.gamesLost >= r[j].stats.gamesWon - r[j].stats.gamesLost
    ensures forall i, j :: (0 <= i < j < |r| && Points(r[i].stats) == Points(r[j].stats)
      && r[i].stats.gamesWon - r[i].stats.gamesLost == r[j].stats.gamesWon - r[j].stats.gamesLost) ==>
      r[i].stats.matchesPlayed >= r[j].stats.matchesPlayed
  {
    var r := Sorting.SortBy(players, RankKey);
    assert forall i, j :: 0 <= i < j < |r| ==> Sorting.KeyLe(RankKey(r[i]), RankKey(r[j]));
    r
  }

  /** The label of the active player at index `i`: "P" and the 1-based number, a dot, the name. */
  function Label(i: nat, p: Player): string {
    "P" + NatToString(i + 1) + ". " + p.name
  }

  /** The label starts with "P", its number reads back as `i + 1`, and it ends with the name. */
  lemma LabelReadsBack(i: nat, p: Player)
    ensures |Label(i, p)| > |p.name| && Label(i, p)[0] == 'P'
    ensures ParseIntPrefix(Label(i, p)[1..]) == Some(i + 1)
    ensures Label(i, p)[|Label(i, p)| - |p.name|..] == p.name
  {
    var l := Label(i, p);
    assert l[1..] == NatToString(i + 1) + (". " + p.name);
    ParseNatToString(i + 1, ". " + p.name);
  }

  /**
   * `getNameWithNumber`: the numbered label when the id is among the active
   * players, else the roster name, else "Unknown" (also for an empty name).
   */
  function NameWithNumber(id: string, all: seq<Player>, active: seq<Player>): (r: string)
    ensures r != []
    ensures IndexOfId(active, id).None? && (FindById(all, id).None? || FindById(all, id).value.name == []) ==>
      r == "Unknown"
  {
    match IndexOfId(active, id)
    case Some(i) => Label(i, active[i])
    case None =>
      match FindById(all, id)
      case Some(p) => if p.name != [] then p.name else "Unknown"
      case None => "Unknown"
  }

  /** An active player is shown with the number of its first place in the active list. */
  lemma {:induction false} ActiveNameIsNumbered(id: string, all: seq<Player>, active: seq<Player>, i: nat)
    requires i < |active| && active[i].id == id
    requires forall j :: 0 <= j < i ==> active[j].id != id
    ensures NameWithNumber(id, all, active)[0] == 'P'
    ensures ParseIntPrefix(NameWithNumber(id, all, active)[1..]) == Some(i + 1)
  {
    match IndexOfId(active, id)
    case Some(k) =>
      assert k == i;
      LabelReadsBack(i, active[i]);
    case None =>
      assert false;
  }

  /** A player who is not active is shown by the bare name when it has one. */
  lemma InactiveNameIsPlain(id: string, all: seq<Player>, active: seq<Player>, p: Player)
    requires forall j :: 0 <= j < |active| ==> active[j].id != id
    requires FindById(all, id) == Some(p) && p.name != []
    ensures NameWithNumber(id, all, active) == p.name
  {
    match IndexOfId(active, id)
    case Some(k) =>
      assert false;
    case None =>
  }

  /** The labels of the first `n` active players who are not on court, in list order. */
  function RestingAmong(m: Match, active: seq<Player>, n: nat): (r: seq<string>)
    requires n <= |active|
    ensures |r| <= n
  {
    if n == 0 then []
    else
      RestingAmong(m, active, n - 1)
        + (if Plays(active[n - 1].id, m) then [] else [Label(n - 1, active[n - 1])])
  }

  /** `getRestingPlayerNames`: the active players outside the match's four ids. */
  function RestingPlayerNames(m: Match, active: seq<Player>): (r: seq<string>)
    ensures |r| <= |active|
  {
    RestingAmong(m, active, |active|)
  }

  /** Every active player who does not play is listed. */
  lemma {:induction false} RestingListed(m: Match, active: seq<Player>, n: nat, i: nat)
    requires n <= |active| && i < n && !Plays(active[i].id, m)
    ensures Label(i, active[i]) in RestingAmong(m, active, n)
  {
    if i < n - 1 {
      RestingListed(m, active, n - 1, i);
    }
  }

  /** Every listed name is the label of an active player who does not play. */
  lemma {:induction false} RestingOnlyResting(m: Match, active: seq<Player>, n: nat, s: string)
    requires n <= |active| && s in RestingAmong(m, active, n)
    ensures exists i :: 0 <= i < n && !Plays(active[i].id, m) && s == Label(i, active[i])
  {
    if s !in RestingAmong(m, active, n - 1) {
      assert s == Label(n - 1, active[n - 1]);
    } else {
      RestingOnlyResting(m, active, n - 1, s);
    }
  }

  /** Both directions for the whole active list. */
  lemma RestingNamesExact(m: Match, active: seq<Player>, s: string)
    ensures s in RestingPlayerNames(m, active) <==>
      exists i :: 0 <= i < |active| && !Plays(active[i].id, m) && s == Label(i, active[i])
  {
    if s in RestingPlayerNames(m, active) {
      RestingOnlyResting(m, active, |active|, s);
    }
    if exists i :: 0 <= i < |active| && !Plays(active[i].id, m) && s == Label(i, active[i]) {
      var i :| 0 <= i < |active| && !Plays(active[i].id, m) && s == Label(i, active[i]);
      RestingListed(m, active, |active|, i);
    }
  }

  /** The positions in the first `n` active players of those not on court, in increasing order. */
  function RestingIndices(m: Match, active: seq<Player>, n: nat): (r: seq<nat>)
    requires n <= |active|
    ensures forall k :: 0 <= k < |r| ==> r[k] < n
  {
    if n == 0 then []
    else RestingIndices(m, active, n - 1) + (if Plays(active[n - 1].id, m) then [] else [n - 1])
  }

  /**
   * The resting list is exactly the labels of the resting positions, in
   * increasing position order, and every resting position is among them.
   */
  lemma {:induction false} RestingInOrder(m: Match, active: seq<Player>, n: nat)
    requires n <= |active|
    ensures |RestingIndices(m, active, n)| == |RestingAmong(m, active, n)|
    ensures forall k :: 0 <= k < |RestingIndices(m, active, n)| ==>
      !Plays(active[RestingIndices(m, active, n)[k]].id, m) &&
      RestingAmong(m, active, n)[k] == Label(RestingIndices(m, active, n)[k], active[RestingIndices(m, active, n)[k]])
    ensures forall k, l :: 0 <= k < l < |RestingIndices(m, active, n)| ==>
      RestingIndices(m, active, n)[k] < RestingIndices(m, active, n)[l]
    ensures forall i :: 0 <= i < n && !Plays(active[i].id, m) ==> i in RestingIndices(m, active, n)
  {
    if n > 0 {
      RestingInOrder(m, active, n - 1);
      var idx := RestingIndices(m, active, n);
      var prev := RestingIndices(m, active, n - 1);
      var r := RestingAmong(m, active, n);
      var rp := RestingAmong(m, active, n - 1);
      forall k | 0 <= k < |idx|
        ensures !Plays(active[idx[k]].id, m) && r[k] == Label(idx[k], active[idx[k]])
      {
        if k < |prev| {
          assert idx[k] == prev[k] && r[k] == rp[k];
        }
      }
      forall i | 0 <= i < n && !Plays(active[i].id, m)
        ensures i in idx
      {
        if i < n - 1 {
          var k :| 0 <= k < |prev| && prev[k] == i;
          assert idx[k] == i;
        } else {
          assert idx[|idx| - 1] == i;
        }
      }
    }
  }

  /** The whole resting list, read front to back: the names `getRestingPlayerNames` returns, in order. */
  lemma RestingNamesInOrder(m: Match, active: seq<Player>)
    ensures var idx := RestingIndices(m, active, |active|);
      |RestingPlayerNames(m, active)| == |idx|
      && (forall k :: 0 <= k < |idx| ==>
            !Plays(active[idx[k]].id, m) && RestingPlayerNames(m, active)[k] == Label(idx[k], active[idx[k]]))
      && (forall k, l :: 0 <= k < l < |idx| ==> idx[k] < idx[l])
      && (forall i :: 0 <= i < |active| && !Plays(active[i].id, m) ==> i in idx)
  {
    RestingInOrder(m, active, |active|);
  }
}
