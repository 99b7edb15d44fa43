/**
 * The analytics screen: the recent-match window, one player's record with
 * per-partner and per-opponent tallies, the best-partner ranking, the
 * head-to-head summary and the colour band of a win rate.
 */
module Analytics {

  import opened Wrappers
  import opened Text
  import opened Domain
  import Lists
  import Sorting
  import StatsReplay

  // ---------------------------------------------------------------------
  // The recent-match window

  /** Newest first: a later timestamp sorts earlier. */
  function NewestFirst(m: Match): Sorting.SortKey {
    Sorting.SortKey(-m.timestamp, 0, 0)
  }

  /** The finished matches, newest first. */
  function ByRecency(ms: seq<Match>): (r: seq<Match>)
    ensures multiset(r) == multiset(StatsReplay.Finished(ms))
    ensures Sorting.SortedBy(r, NewestFirst)
  {
    Sorting.SortBy(StatsReplay.Finished(ms), NewestFirst)
  }

  /** `recentMatches`: the finished matches sorted by timestamp, newest first, cut at 100. */
  function RecentMatches(ms: seq<Match>): (r: seq<Match>)
    ensures |r| == if |StatsReplay.Finished(ms)| < 100 then |StatsReplay.Finished(ms)| else 100
    ensures multiset(r) <= multiset(StatsReplay.Finished(ms))
    ensures |StatsReplay.Finished(ms)| <= 100 ==> multiset(r) == multiset(StatsReplay.Finished(ms))
    ensures forall i, j :: 0 <= i < j < |r| ==> r[i].timestamp >= r[j].timestamp
  {
    var sorted := ByRecency(ms);
    var r := Take(sorted, 100);
    Sorting.PrefixFacts(sorted, NewestFirst, |r|);
    r
  }

  /** Every match in the window is a finished match of the list. */
  lemma RecentAreFinished(ms: seq<Match>, k: nat)
    requires k < |RecentMatches(ms)|
    ensures RecentMatches(ms)[k].isFinished && RecentMatches(ms)[k] in ms
  {
    var m := RecentMatches(ms)[k];
    assert m in multiset(RecentMatches(ms));
    StatsReplay.FinishedAreFinished(ms, m);
  }

  /** A finished match left out of the window is no newer than any match in it. */
  lemma RecentKeepsNewest(ms: seq<Match>, m: Match, k: nat)
    requires m in StatsReplay.Finished(ms) && m !in RecentMatches(ms)
    requires k < |RecentMatches(ms)|
    ensures m.timestamp <= RecentMatches(ms)[k].timestamp
  {
    var sorted := ByRecency(ms);
    var r := RecentMatches(ms);
    assert r == sorted[..|r|];
    assert m in multiset(StatsReplay.Finished(ms));
    assert m in sorted;
    Sorting.CutKeepsFront(sorted, NewestFirst, |r|, m, k);
  }

  // ---------------------------------------------------------------------
  // Win/played records keyed by player id, in insertion order

  datatype Record = Record(wins: nat, played: nat)

  /** One entry of a `Map<string, { wins, played }>`. */
  datatype Entry = Entry(id: string, rec: Record)

  /** `map.get(id) || { wins: 0, played: 0 }`. */
  function Lookup(es: seq<Entry>, id: string): Record {
    if es == [] then Record(0, 0)
    else if es[0].id == id then es[0].rec
    else Lookup(es[1..], id)
  }

  function Keys(es: seq<Entry>): (r: seq<string>)
    ensures |r| == |es|
    ensures forall k :: 0 <= k < |es| ==> r[k] == es[k].id
  {
    if es == [] then [] else [es[0].id] + Keys(es[1..])
  }

  function Bonus(won: bool): nat {
    if won then 1 else 0
  }

  /**
   * `map.set(id, { wins: current.wins + (won ? 1 : 0), played: current.played + 1 })`:
   * an existing key keeps its place, a new key goes last.
   */
  function Bump(es: seq<Entry>, id: string, won: bool): (r: seq<Entry>)
    ensures |r| >= |es|
  {
    if es == [] then [Entry(id, Record(Bonus(won), 1))]
    else if es[0].id == id then [Entry(id, Record(es[0].rec.wins + Bonus(won), es[0].rec.played + 1))] + es[1..]
    else [es[0]] + Bump(es[1..], id, won)
  }

  function SumPlayed(es: seq<Entry>): nat {
    if es == [] then 0 else es[0].rec.played + SumPlayed(es[1..])
  }

  function SumWins(es: seq<Entry>): nat {
    if es == [] then 0 else es[0].rec.wins + SumWins(es[1..])
  }

  /** No record has more wins than games. */
  predicate Sound(es: seq<Entry>) {
    forall k :: 0 <= k < |es| ==> es[k].rec.wins <= es[k].rec.played
  }

  /** The bumped key gains one game and the win; every other key reads as before. */
  lemma {:induction false} BumpLookup(es: seq<Entry>, id: string, won: bool, x: string)
    ensures Lookup(Bump(es, id, won), x) ==
      if x == id then Record(Lookup(es, id).wins + Bonus(won), Lookup(es, id).played + 1) else Lookup(es, x)
  {
    if es != [] && es[0].id != id {
      BumpLookup(es[1..], id, won, x);
    }
  }

  /** A bump adds one game, and the win if there was one, to the totals. */
  lemma {:induction false} BumpSums(es: seq<Entry>, id: string, won: bool)
    ensures SumPlayed(Bump(es, id, won)) == SumPlayed(es) + 1
    ensures SumWins(Bump(es, id, won)) == SumWins(es) + Bonus(won)
  {
    if es != [] && es[0].id != id {
      BumpSums(es[1..], id, won);
    }
  }

  lemma {:induction false} BumpSound(es: seq<Entry>, id: string, won: bool)
    requires Sound(es)
    ensures Sound(Bump(es, id, won))
  {
    if es != [] && es[0].id != id {
      BumpSound(es[1..], id, won);
      assert forall k :: 0 <= k < |es| - 1 ==> es[1..][k] == es[k + 1];
    }
  }

  /** The key list gains the id at the end when it is new, and is unchanged otherwise. */
  lemma {:induction false} BumpKeys(es: seq<Entry>, id: string, won: bool)
    ensures Keys(Bump(es, id, won)) == if id in Keys(es) then Keys(es) else Keys(es) + [id]
  {
    if es != [] && es[0].id != id {
      var tail := es[1..];
      BumpKeys(tail, id, won);
      assert Keys(es) == [es[0].id] + Keys(tail);
      assert Keys(Bump(es, id, won)) == [es[0].id] + Keys(Bump(tail, id, won));
      assert id in Keys(es) <==> id in Keys(tail);
    }
  }

  lemma BumpNoDup(es: seq<Entry>, id: string, won: bool)
    requires Lists.NoDup(Keys(es))
    ensures Lists.NoDup(Keys(Bump(es, id, won)))
  {
    BumpKeys(es, id, won);
    var ks := Keys(es);
    if id !in ks {
      assert forall i, j :: 0 <= i < j < |ks + [id]| ==> (ks + [id])[i] != (ks + [id])[j];
    }
  }

  // ---------------------------------------------------------------------
  // One player's record

  /** `{ wins, played, partners, rivals }`. */
  datatype Tally = Tally(wins: nat, played: nat, partners: seq<Entry>, rivals: seq<Entry>)

  /** `iWon`: the player's side scored strictly more; team A is checked first. */
  predicate Won(me: string, m: Match) {
    (OnTeam(me, m.teamA) && m.scoreA > m.scoreB) || (OnTeam(me, m.teamB) && m.scoreB > m.scoreA)
  }

  /** The player's side: team A when the player is on it, else team B. */
  function MySide(me: string, m: Match): Team {
    if OnTeam(me, m.teamA) then m.teamA else m.teamB
  }

  /** The other side. */
  function OtherSide(me: string, m: Match): Team {
    if OnTeam(me, m.teamA) then m.teamB else m.teamA
  }

  /** `team.find(id => id !== me)`, kept only when it is a non-empty id. */
  function PartnerOf(me: string, m: Match): (r: Option<string>)
    ensures r.Some? ==> r.value != [] && r.value != me && OnTeam(r.value, MySide(me, m))
  {
    var side := MySide(me, m);
    var found := if side.player1Id != me then side.player1Id else side.player2Id;
    if found != me && found != [] then Some(found) else None
  }

  /** One match of the `forEach`: skipped unless the player is on a side. */
  function CountMatch(t: Tally, me: string, m: Match): Tally {
    if !Plays(me, m) then t
    else
      var won := Won(me, m);
      var partners := match PartnerOf(me, m)
        case Some(q) => Bump(t.partners, q, won)
        case None => t.partners;
      var opp := OtherSide(me, m);
      Tally(t.wins + Bonus(won), t.played + 1, partners,
            Bump(Bump(t.rivals, opp.player1Id, won), opp.player2Id, won))
  }

  /** The tally after the matches, counted in list order. */
  function TallyOf(me: string, ms: seq<Match>): Tally {
    if ms == [] then Tally(0, 0, [], [])
    else CountMatch(TallyOf(me, ms[..|ms| - 1]), me, ms[|ms| - 1])
  }

  /** `myStats`: nothing while no player is selected. */
  function MyStats(me: string, recent: seq<Match>): (r: Option<Tally>)
    ensures r.None? <==> me == []
  {
    if me == [] then None else Some(TallyOf(me, recent))
  }

  /**
   * What every tally satisfies: no record has more wins than games, ids are
   * unique, every counted match gave the two opponents one game each and the
   * partner at most one.
   */
  predicate Coherent(t: Tally) {
    t.wins <= t.played
    && Sound(t.partners) && Sound(t.rivals)
    && Lists.NoDup(Keys(t.partners)) && Lists.NoDup(Keys(t.rivals))
    && SumPlayed(t.rivals) == 2 * t.played && SumWins(t.rivals) == 2 * t.wins
    && SumPlayed(t.partners) <= t.played && SumWins(t.partners) <= t.wins
  }

  lemma CountKeepsCoherent(t: Tally, me: string, m: Match)
    requires Coherent(t)
    ensures Coherent(CountMatch(t, me, m))
  {
    if Plays(me, m) {
      var won := Won(me, m);
      var opp := OtherSide(me, m);
      var r1 := Bump(t.rivals, opp.player1Id, won);
      BumpSums(t.rivals, opp.player1Id, won);
      BumpSound(t.rivals, opp.player1Id, won);
      BumpNoDup(t.rivals, opp.player1Id, won);
      BumpSums(r1, opp.player2Id, won);
      BumpSound(r1, opp.player2Id, won);
      BumpNoDup(r1, opp.player2Id, won);
      match PartnerOf(me, m)
      case Some(q) =>
        BumpSums(t.partners, q, won);
        BumpSound(t.partners, q, won);
        BumpNoDup(t.partners, q, won);
      case None =>
    }
  }

  lemma {:induction false} TallyCoherent(me: string, ms: seq<Match>)
    ensures Coherent(TallyOf(me, ms))
  {
    if ms != [] {
      TallyCoherent(me, ms[..|ms| - 1]);
      CountKeepsCoherent(TallyOf(me, ms[..|ms| - 1]), me, ms[|ms| - 1]);
    }
  }

  /** The matches the player takes part in, in order. */
  function Involving(me: string, ms: seq<Match>): (r: seq<Match>)
    ensures |r| <= |ms|
  {
    if ms == [] then []
    else (if Plays(me, ms[0]) then [ms[0]] else []) + Involving(me, ms[1..])
  }

  /** The matches the player's side won, in order. */
  function WonBy(me: string, ms: seq<Match>): (r: seq<Match>)
    ensures |r| <= |ms|
  {
    if ms == [] then []
    else (if Plays(me, ms[0]) && Won(me, ms[0]) then [ms[0]] else []) + WonBy(me, ms[1..])
  }

  lemma {:induction false} InvolvingSnoc(me: string, ms: seq<Match>, m: Match)
    ensures |Involving(me, ms + [m])| == |Involving(me, ms)| + (if Plays(me, m) then 1 else 0)
    ensures |WonBy(me, ms + [m])| == |WonBy(me, ms)| + (if Plays(me, m) && Won(me, m) then 1 else 0)
  {
    if ms != [] {
      assert (ms + [m])[1..] == ms[1..] + [m];
      InvolvingSnoc(me, ms[1..], m);
    } else {
      assert [m][1..] == [];
    }
  }

  /** `played` counts the matches with the player on a side, `wins` those the side won. */
  lemma {:induction false} TallyCounts(me: string, ms: seq<Match>)
    ensures TallyOf(me, ms).played == |Involving(me, ms)|
    ensures TallyOf(me, ms).wins == |WonBy(me, ms)|
  {
    if ms != [] {
      var init := ms[..|ms| - 1];
      TallyCounts(me, init);
      assert ms == init + [ms[|ms| - 1]];
      InvolvingSnoc(me, init, ms[|ms| - 1]);
    }
  }

  // ---------------------------------------------------------------------
  // Rates

  /**
   * `Math.round(wins / played * 100)`, 0 without games: the nearest whole
   * percentage, a half rounding up.
   */
  function WinRate(rec: Record): (r: nat)
    ensures rec.played > 0 ==> 2 * rec.played * r <= 200 * rec.wins + rec.played < 2 * rec.played * (r + 1)
    ensures rec.wins <= rec.played ==> r <= 100
  {
    if rec.played == 0 then 0
    else
      RoundingBounds(rec.wins, rec.played);
      (200 * rec.wins + rec.played) / (2 * rec.played)
  }

  lemma RoundingBounds(wins: nat, played: nat)
    requires played > 0
    ensures var q := (200 * wins + played) / (2 * played);
      2 * played * q <= 200 * wins + played < 2 * played * (q + 1) && (wins <= played ==> q <= 100)
  {
    var d := 2 * played;
    var x := 200 * wins + played;
    DivBounds(x, d);
    if wins <= played {
      assert x < d * 101;
      MulLess(x / d, 101, d);
    }
  }

  lemma DivBounds(x: nat, d: nat)
    requires d > 0
    ensures d * (x / d) <= x < d * (x / d + 1)
  {
    assert x == d * (x / d) + x % d;
    assert d * (x / d + 1) == d * (x / d) + d;
  }

  lemma MulLess(a: nat, b: nat, d: nat)
    requires d > 0 && d * a <= d * b - 1
    ensures a < b
  {
    assert d * (b - a) == d * b - d * a;
  }

  // ---------------------------------------------------------------------
  // Best partners

  datatype PartnerRow = PartnerRow(id: string, name: string, wins: nat, played: nat, winRate: nat)

  /** `new Map(players.map(p => [p.id, p])).get(id)`: the last player with the id wins. */
  function LastById(players: seq<Player>, id: string): (r: Option<Player>)
    ensures r.Some? ==> r.value in players && r.value.id == id
    ensures r.None? <==> forall k :: 0 <= k < |players| ==> players[k].id != id
  {
    if players == [] then None
    else if players[|players| - 1].id == id then Some(players[|players| - 1])
    else LastById(players[..|players| - 1], id)
  }

  /**
   * `activePlayers.find(p => p.id === id)?.name || id` for an id seen in a
   * recent match: an unknown id shows as "Unknown", an empty name as the id.
   */
  function PartnerName(players: seq<Player>, id: string): (r: string)
    ensures r != [] || id == []
  {
    match LastById(players, id)
    case Some(p) => if p.name != [] then p.name else id
    case None => "Unknown"
  }

  /** The row `bestPartners` makes of an entry with at least three games. */
  predicate Produces(players: seq<Player>, e: Entry, row: PartnerRow) {
    e.rec.played >= 3 && row == PartnerRow(e.id, PartnerName(players, e.id), e.rec.wins, e.rec.played, WinRate(e.rec))
  }

  /** The entries with at least three games, as rows, in key order. */
  function PartnerRows(players: seq<Player>, es: seq<Entry>): (r: seq<PartnerRow>)
    ensures |r| <= |es|
  {
    if es == [] then []
    else
      var e := es[0];
      (if e.rec.played >= 3 then [PartnerRow(e.id, PartnerName(players, e.id), e.rec.wins, e.rec.played, WinRate(e.rec))] else [])
        + PartnerRows(players, es[1..])
  }

  /** A row is listed exactly when an entry with at least three games produced it. */
  lemma {:induction false} PartnerRowsExact(players: seq<Player>, es: seq<Entry>, row: PartnerRow)
    ensures row in PartnerRows(players, es) <==> exists k :: 0 <= k < |es| && Produces(players, es[k], row)
  {
    if es != [] {
      var tail := es[1..];
      PartnerRowsExact(players, tail, row);
      if exists k :: 0 <= k < |tail| && Produces(players, tail[k], row) {
        var k :| 0 <= k < |tail| && Produces(players, tail[k], row);
        assert es[k + 1] == tail[k];
      }
      if exists k :: 0 <= k < |es| && Produces(players, es[k], row) {
        var k :| 0 <= k < |es| && Produces(players, es[k], row);
        if k > 0 {
          assert tail[k - 1] == es[k];
        }
      }
    }
  }

  /** Higher rate first. */
  function RateFirst(r: PartnerRow): Sorting.SortKey {
    Sorting.SortKey(-(r.winRate as int), 0, 0)
  }

  function RankedPartners(players: seq<Player>, t: Tally): (r: seq<PartnerRow>)
    ensures multiset(r) == multiset(PartnerRows(players, t.partners))
    ensures Sorting.SortedBy(r, RateFirst)
  {
    Sorting.SortBy(PartnerRows(players, t.partners), RateFirst)
  }

  /**
   * `bestPartners`: partners with at least three games together, highest
   * rounded win rate first (ties in first-partnered order), at most five.
   */
  function BestPartners(players: seq<Player>, stats: Option<Tally>): (r: seq<PartnerRow>)
    ensures stats.None? ==> r == []
    ensures |r| <= 5
    ensures forall i, j :: 0 <= i < j < |r| ==> r[i].winRate >= r[j].winRate
    ensures stats.Some? ==> multiset(r) <= multiset(PartnerRows(players, stats.value.partners))
    ensures stats.Some? && |PartnerRows(players, stats.value.partners)| <= 5 ==>
      multiset(r) == multiset(PartnerRows(players, stats.value.partners))
  {
    match stats
    case None => []
    case Some(t) =>
      var ranked := RankedPartners(players, t);
      var r := Take(ranked, 5);
      Sorting.PrefixFacts(ranked, RateFirst, |r|);
      r
  }

  /**
   * Every listed partner comes from the tally with at least three games, its
   * wins and games are the tally's and its rate is at most 100.
   */
  lemma {:induction false} ListedPartner(players: seq<Player>, me: string, recent: seq<Match>, row: PartnerRow)
    requires row in BestPartners(players, MyStats(me, recent))
    ensures me != []
    ensures row.played >= 3 && row.wins <= row.played && row.winRate <= 100
    ensures Lookup(TallyOf(me, recent).partners, row.id) == Record(row.wins, row.played)
    ensures row.name == PartnerName(players, row.id)
  {
    var t := TallyOf(me, recent);
    TallyCoherent(me, recent);
    assert row in multiset(BestPartners(players, MyStats(me, recent)));
    PartnerRowsExact(players, t.partners, row);
    var k :| 0 <= k < |t.partners| && Produces(players, t.partners[k], row);
    LookupUnique(t.partners, k);
  }

  /** With unique ids, looking up an entry's id gives its record. */
  lemma {:induction false} LookupUnique(es: seq<Entry>, k: nat)
    requires k < |es| && Lists.NoDup(Keys(es))
    ensures Lookup(es, es[k].id) == es[k].rec
  {
    if k > 0 {
      assert Keys(es)[0] != Keys(es)[k];
      assert Keys(es[1..]) == Keys(es)[1..];
      LookupUnique(es[1..], k - 1);
    }
  }

  /** A qualifying partner left off the list has no higher rate than any listed one. */
  lemma BestPartnersTop(players: seq<Player>, t: Tally, row: PartnerRow, k: nat)
    requires row in PartnerRows(players, t.partners) && row !in BestPartners(players, Some(t))
    requires k < |BestPartners(players, Some(t))|
    ensures row.winRate <= BestPartners(players, Some(t))[k].winRate
  {
    var ranked := RankedPartners(players, t);
    var r := BestPartners(players, Some(t));
    assert r == ranked[..|r|];
    assert row in multiset(PartnerRows(players, t.partners));
    assert row in ranked;
    Sorting.CutKeepsFront(ranked, RateFirst, |r|, row, k);
  }

  // ---------------------------------------------------------------------
  // Head to head

  datatype RivalRow = RivalRow(wins: nat, played: nat, losses: int, winRate: nat)

  /**
   * `rivalStats`: the record against one opponent, nothing without a selected
   * player or opponent; every game not won, a draw included, is a loss.
   */
  function RivalStats(stats: Option<Tally>, rivalId: string): (r: Option<RivalRow>)
    ensures r.None? <==> stats.None? || rivalId == []
    ensures r.Some? ==> Record(r.value.wins, r.value.played) == Lookup(stats.value.rivals, rivalId)
    ensures r.Some? ==> r.value.wins + r.value.losses == r.value.played
    ensures r.Some? && r.value.played == 0 ==> r.value.winRate == 0
  {
    if stats.None? || rivalId == [] then None
    else
      var rec := Lookup(stats.value.rivals, rivalId);
      Some(RivalRow(rec.wins, rec.played, rec.played - rec.wins, WinRate(rec)))
  }

  /** A sound record list looks up to a sound record. */
  lemma {:induction false} LookupSound(es: seq<Entry>, id: string)
    requires Sound(es)
    ensures Lookup(es, id).wins <= Lookup(es, id).played
  {
    if es != [] && es[0].id != id {
      assert forall k :: 0 <= k < |es| - 1 ==> es[1..][k] == es[k + 1];
      LookupSound(es[1..], id);
    }
  }

  /** Against any opponent the losses are never negative and the rate is at most 100. */
  lemma RivalBounded(me: string, recent: seq<Match>, rivalId: string)
    requires me != [] && rivalId != []
    ensures RivalStats(MyStats(me, recent), rivalId).value.losses >= 0
    ensures RivalStats(MyStats(me, recent), rivalId).value.winRate <= 100
  {
    TallyCoherent(me, recent);
    LookupSound(TallyOf(me, recent).rivals, rivalId);
  }

  /** A single drawn match against an opponent shows as one game, no win and one loss. */
  lemma DrawCountsAsLoss(me: string, rival: string, m: Match)
    requires me != [] && rival != [] && me != rival
    requires OnTeam(me, m.teamA) && !OnTeam(me, m.teamB)
    requires m.teamB.player1Id == rival && m.teamB.player2Id != rival
    requires m.scoreA == m.scoreB
    ensures RivalStats(MyStats(me, [m]), rival) == Some(RivalRow(0, 1, 1, 0))
  {
    var t := TallyOf(me, [m]);
    assert [m][..0] == [];
    assert TallyOf(me, [m][..0]) == Tally(0, 0, [], []);
    assert t == CountMatch(Tally(0, 0, [], []), me, m);
    assert !Won(me, m);
    var r1 := Bump([], rival, false);
    assert r1 == [Entry(rival, Record(0, 1))];
    BumpLookup(r1, m.teamB.player2Id, false, rival);
  }

  // ---------------------------------------------------------------------
  // Win-rate colour

  datatype Shade = Slate | Green | Blue | Yellow | Red

  /**
   * `getWinRateColor`: slate without games, then green from 70%, blue from
   * 50%, yellow from 30%, red below; the thresholds are compared exactly.
   */
  function WinRateColor(wins: nat, played: nat): (r: Shade)
    ensures r == Slate <==> played == 0
  {
    if played == 0 then Slate
    else if 10 * wins >= 7 * played then Green
    else if 2 * wins >= played then Blue
    else if 10 * wins >= 3 * played then Yellow
    else Red
  }

  /** The colour as a rank: a better band has a higher rank. */
  function ShadeRank(s: Shade): nat {
    match s
    case Slate => 0
    case Red => 1
    case Yellow => 2
    case Blue => 3
    case Green => 4
  }

  /** With the same number of games, more wins never give a worse colour. */
  lemma MoreWinsNoWorse(w1: nat, w2: nat, played: nat)
    requires w1 <= w2
    ensures ShadeRank(WinRateColor(w1, played)) <= ShadeRank(WinRateColor(w2, played))
  {
  }

  /** The bands agree with the rate `wins / played` read as an exact fraction. */
  lemma {:induction false} ColorMatchesRate(wins: nat, played: nat)
    requires played > 0
    ensures var rate := wins as real / played as real;
      (WinRateColor(wins, played) == Green <==> rate >= 0.7) &&
      (WinRateColor(wins, played) == Blue <==> 0.5 <= rate < 0.7) &&
      (WinRateColor(wins, played) == Yellow <==> 0.3 <= rate < 0.5) &&
      (WinRateColor(wins, played) == Red <==> rate < 0.3)
  {
    var rate := wins as real / played as real;
    RateAtLeast(wins, played, 0.7);
    RateAtLeast(wins, played, 0.5);
    RateAtLeast(wins, played, 0.3);
  }

  /** Comparing the fraction with a threshold is comparing the wins with the scaled games. */
  lemma RateAtLeast(wins: nat, played: nat, c: real)
    requires played > 0
    ensures wins as real / played as real >= c <==> wins as real >= c * played as real
  {
    var p := played as real;
    var rate := wins as real / p;
    assert rate * p == wins as real;
    assert (rate - c) * p == wins as real - c * p;
  }
}
