/**
 * Doubles rotation: who rests next, how the four players on court are split
 * into two teams, and the fixed round-robin tables used to plan a session.
 */
module Matchmaking {

  import opened Wrappers
  import opened Domain

  /** A proposed match: two teams of player ids and the name of the resting player, if any. */
  datatype Proposal = Proposal(teamA: Team, teamB: Team, resting: Option<string>)

  function ProposalIds(p: Proposal): (ids: seq<string>)
    ensures |ids| == 4
  {
    [p.teamA.player1Id, p.teamA.player2Id, p.teamB.player1Id, p.teamB.player2Id]
  }

  /** The ids of the four players on court, as a bag. */
  function OnCourtBag(p: Proposal): multiset<string> {
    multiset{p.teamA.player1Id, p.teamA.player2Id, p.teamB.player1Id, p.teamB.player2Id}
  }

  function GroupBag(g: seq<Player>): multiset<string>
    requires |g| == 4
  {
    multiset{g[0].id, g[1].id, g[2].id, g[3].id}
  }

  // ---------------------------------------------------------------------
  // Who rests

  /**
   * The "reverse order rest" index among `n` active players before match
   * number `m`: the last player rests first, then the one before, and so on.
   */
  function RestIndex(n: nat, m: nat): (r: nat)
    requires n > 0
    ensures r < n
    ensures r == n - 1 - m % n
  {
    (n - 1 - m % n + n) % n
  }

  lemma MulAtLeast(a: int, n: int)
    requires a >= 1 && n > 0
    ensures a * n >= n
  {
  }

  /** The remainder is the unique `r` in `[0, n)` with `x == q * n + r`. */
  lemma {:induction false} ModUnique(x: int, q: int, r: int, n: int)
    requires n > 0 && 0 <= r < n && x == q * n + r
    ensures x % n == r
  {
    var q2 := x / n;
    var r2 := x % n;
    assert x == q2 * n + r2;
    assert (q - q2) * n == r2 - r;
    if q > q2 {
      MulAtLeast(q - q2, n);
    } else if q < q2 {
      MulAtLeast(q2 - q, n);
    }
  }

  /** Adding `k < n` to `m` moves its remainder by `k`, wrapping once at most. */
  lemma {:induction false} ModShift(m: nat, k: nat, n: nat)
    requires 0 < n && k < n
    ensures (m + k) % n == if m % n + k < n then m % n + k else m % n + k - n
  {
    var q := m / n;
    var o := m % n;
    assert m == q * n + o;
    if o + k < n {
      ModUnique(m + k, q, o + k, n);
    } else {
      assert m + k == (q + 1) * n + (o + k - n);
      ModUnique(m + k, q + 1, o + k - n, n);
    }
  }

  /** One match later, the rest passes to the player before, wrapping from the first to the last. */
  lemma {:induction false} RestMovesBackwards(n: nat, m: nat)
    requires n > 0
    ensures RestIndex(n, m + 1) == if RestIndex(n, m) == 0 then n - 1 else RestIndex(n, m) - 1
  {
    if n > 1 {
      ModShift(m, 1, n);
    }
  }

  /** Within any `n` consecutive matches, no player rests twice ... */
  lemma {:induction false} RestsAtMostOnceInCycle(n: nat, m: nat, k1: nat, k2: nat)
    requires 0 < n && k1 < n && k2 < n
    requires RestIndex(n, m + k1) == RestIndex(n, m + k2)
    ensures k1 == k2
  {
    ModShift(m, k1, n);
    ModShift(m, k2, n);
  }

  /** ... and every player rests once. */
  lemma EveryoneRestsInCycle(n: nat, m: nat, i: nat) returns (k: nat)
    requires i < n
    ensures k < n && RestIndex(n, m + k) == i
  {
    var o := m % n;
    var t := n - 1 - i;
    k := if t >= o then t - o else t - o + n;
    ModShift(m, k, n);
  }

  /**
   * The four players who go on court: all of them when exactly four are
   * active, otherwise the first four in active order once the rester is left out.
   */
  function PlayingGroup(active: seq<Player>, m: nat): (g: seq<Player>)
    requires |active| >= 4
    ensures |g| == 4
    ensures |active| == 4 ==> g == active
    ensures |active| > 4 ==> forall k :: 0 <= k < 4 ==>
              g[k] == active[if k < RestIndex(|active|, m) then k else k + 1]
  {
    if |active| == 4 then active
    else
      var r := RestIndex(|active|, m);
      var others := active[..r] + active[r + 1..];
      others[..4]
  }

  // ---------------------------------------------------------------------
  // Splitting four players into teams

  datatype Split = Split(teamA: Team, teamB: Team)

  /** Both players were on the same team of the match. */
  predicate Together(m: Match, x: string, y: string) {
    (OnTeam(x, m.teamA) && OnTeam(y, m.teamA)) || (OnTeam(x, m.teamB) && OnTeam(y, m.teamB))
  }

  /** How many past matches had `x` and `y` as partners. */
  function PartnerCount(history: seq<Match>, x: string, y: string): (c: nat)
    ensures c <= |history|
  {
    if history == [] then 0
    else (if Together(history[0], x, y) then 1 else 0) + PartnerCount(history[1..], x, y)
  }

  function Cost(history: seq<Match>, s: Split): nat {
    PartnerCount(history, s.teamA.player1Id, s.teamA.player2Id)
    + PartnerCount(history, s.teamB.player1Id, s.teamB.player2Id)
  }

  /** The three ways to split four players into two teams. */
  function Combos(p: seq<Player>): (cs: seq<Split>)
    requires |p| == 4
    ensures |cs| == 3
  {
    [ Split(Team(p[0].id, p[1].id), Team(p[2].id, p[3].id)),
      Split(Team(p[0].id, p[2].id), Team(p[1].id, p[3].id)),
      Split(Team(p[0].id, p[3].id), Team(p[1].id, p[2].id)) ]
  }

  /** No split among `cs` costs less than `s`. */
  predicate Cheapest(history: seq<Match>, s: Split, cs: seq<Split>) {
    forall t :: t in cs ==> Cost(history, s) <= Cost(history, t)
  }

  /** The splits that cost exactly `c`, in order. */
  function CostingExactly(history: seq<Match>, cs: seq<Split>, c: nat): (r: seq<Split>)
    ensures forall s :: s in r <==> s in cs && Cost(history, s) == c
  {
    if cs == [] then []
    else (if Cost(history, cs[0]) == c then [cs[0]] else []) + CostingExactly(history, cs[1..], c)
  }

  /** The cheapest of the three splits: the candidates the tie-breaking shuffle chooses among. */
  function CheapestSplits(history: seq<Match>, cs: seq<Split>): (r: seq<Split>)
    requires |cs| == 3
    ensures |r| > 0
    ensures forall s :: s in r <==> s in cs && Cheapest(history, s, cs)
  {
    var c0, c1, c2 := Cost(history, cs[0]), Cost(history, cs[1]), Cost(history, cs[2]);
    var low := if c0 <= c1 && c0 <= c2 then c0 else if c1 <= c2 then c1 else c2;
    assert cs[0] in cs && cs[1] in cs && cs[2] in cs;
    assert forall t :: t in cs ==> t == cs[0] || t == cs[1] || t == cs[2];
    var r := CostingExactly(history, cs, low);
    assert low == c0 ==> cs[0] in r;
    assert low == c1 ==> cs[1] in r;
    assert low == c2 ==> cs[2] in r;
    r
  }

  /**
   * `optimizePairings`: one of the three splits with the fewest repeated
   * partnerships. The source breaks ties with a random shuffle; `pick`
   * stands for its outcome, so every cheapest split can be chosen.
   */
  function OptimizePairings(p: seq<Player>, history: seq<Match>, resting: Option<string>, pick: nat): (r: Proposal)
    requires |p| == 4
    ensures r.resting == resting
    ensures Split(r.teamA, r.teamB) in Combos(p)
    ensures Cheapest(history, Split(r.teamA, r.teamB), Combos(p))
    ensures OnCourtBag(r) == GroupBag(p)
  {
    var best := CheapestSplits(history, Combos(p));
    var s := best[pick % |best|];
    assert s in best;
    SplitIdsArePlayers(p, s);
    Proposal(s.teamA, s.teamB, resting)
  }

  /** Each of the three splits puts each of the four players on court once. */
  lemma {:induction false} SplitIdsArePlayers(p: seq<Player>, s: Split)
    requires |p| == 4 && s in Combos(p)
    ensures multiset{s.teamA.player1Id, s.teamA.player2Id, s.teamB.player1Id, s.teamB.player2Id} == GroupBag(p)
  {
    var cs := Combos(p);
    var a, b, c, d := p[0].id, p[1].id, p[2].id, p[3].id;
    if s == cs[0] {
      assert [s.teamA.player1Id, s.teamA.player2Id, s.teamB.player1Id, s.teamB.player2Id] == [a, b, c, d];
    } else if s == cs[1] {
      assert [s.teamA.player1Id, s.teamA.player2Id, s.teamB.player1Id, s.teamB.player2Id] == [a, c, b, d];
      BagSwap(a, b, c, d);
    } else {
      assert s == cs[2];
      assert [s.teamA.player1Id, s.teamA.player2Id, s.teamB.player1Id, s.teamB.player2Id] == [a, d, b, c];
      BagRotate(a, b, c, d);
    }
  }

  lemma BagSwap<T>(a: T, b: T, c: T, d: T)
    ensures multiset{a, c, b, d} == multiset{a, b, c, d}
  {
  }

  lemma BagRotate<T>(a: T, b: T, c: T, d: T)
    ensures multiset{a, d, b, c} == multiset{a, b, c, d}
  {
  }

  /** Every cheapest split is the outcome of some shuffle. */
  lemma AnyCheapestSplitCanBeChosen(p: seq<Player>, history: seq<Match>, resting: Option<string>, s: Split)
    returns (pick: nat)
    requires |p| == 4 && s in Combos(p) && Cheapest(history, s, Combos(p))
    ensures OptimizePairings(p, history, resting, pick) == Proposal(s.teamA, s.teamB, resting)
  {
    var best := CheapestSplits(history, Combos(p));
    assert s in best;
    var k :| 0 <= k < |best| && best[k] == s;
    ModUnique(k, 0, k, |best|);
    pick := k;
  }

  /**
   * `generateNextMatch`: `None` with fewer than four active players. The
   * match count is the override when given, else the number of past matches.
   */
  function GenerateNextMatch(all: seq<Player>, history: seq<Match>, override: Option<nat>, pick: nat): (r: Option<Proposal>)
    ensures r.None? <==> |Active(all)| < 4
    ensures r.Some? ==> OnCourtBag(r.value) == GroupBag(PlayingGroup(Active(all), override.GetOr(|history|)))
    ensures r.Some? ==> forall k :: 0 <= k < 4 ==> ProposalIds(r.value)[k] in Ids(Active(all))
    ensures r.Some? && |Active(all)| == 4 ==> r.value.resting.None?
    ensures r.Some? && |Active(all)| > 4 ==>
              r.value.resting == Some(Active(all)[RestIndex(|Active(all)|, override.GetOr(|history|))].name)
  {
    var active := Active(all);
    if |active| < 4 then None
    else
      var m := override.GetOr(|history|);
      var group := PlayingGroup(active, m);
      var resting := if |active| == 4 then None else Some(active[RestIndex(|active|, m)].name);
      var p := OptimizePairings(group, history, resting, pick);
      OnCourtAreActive(active, m, p);
      Some(p)
  }

  /** With exactly four active players, all four play and nobody is named as resting. */
  lemma FourActiveAllPlay(all: seq<Player>, history: seq<Match>, override: Option<nat>, pick: nat)
    requires |Active(all)| == 4
    ensures GenerateNextMatch(all, history, override, pick).Some?
    ensures OnCourtBag(GenerateNextMatch(all, history, override, pick).value) == GroupBag(Active(all))
    ensures GenerateNextMatch(all, history, override, pick).value.resting.None?
  {
  }

  // ---------------------------------------------------------------------
  // Session planning

  /** One preset match: active-list positions of team A's and team B's players. */
  datatype Config = Config(a1: nat, a2: nat, b1: nat, b2: nat)

  /** Four distinct positions below `n`. */
  predicate ValidConfig(c: Config, n: nat) {
    c.a1 < n && c.a2 < n && c.b1 < n && c.b2 < n
    && c.a1 != c.a2 && c.a1 != c.b1 && c.a1 != c.b2
    && c.a2 != c.b1 && c.a2 != c.b2 && c.b1 != c.b2
  }

  /** The number of entries in the table for `n` players. */
  function TableLen(n: nat): (len: nat)
    requires 4 <= n <= 8
    ensures len > 0
  {
    if n == 4 then 3 else if n == 5 then 5 else if n == 6 then 9 else if n == 7 then 7 else 14
  }

  /**
   * Entry `k` of `PRESETS[n]`, the round-robin table for 4 to 8 active
   * players: four distinct positions in the active list.
   */
  function PresetAt(n: nat, k: nat): (c: Config)
    requires 4 <= n <= 8 && k < TableLen(n)
    ensures ValidConfig(c, n)
  {
    if n == 4 then
      if k == 0 then Config(0, 1, 2, 3) else
      if k == 1 then Config(0, 2, 1, 3) else
      Config(0, 3, 1, 2)
    else if n == 5 then
      if k == 0 then Config(0, 1, 2, 3) else
      if k == 1 then Config(0, 2, 1, 4) else
      if k == 2 then Config(0, 4, 1, 3) else
      if k == 3 then Config(0, 3, 4, 2) else
      Config(1, 2, 3, 4)
    else if n == 6 then
      if k == 0 then Config(0, 1, 2, 3) else
      if k == 1 then Config(0, 2, 1, 4) else
      if k == 2 then Config(0, 3, 4, 5) else
      if k == 3 then Config(1, 2, 3, 4) else
      if k == 4 then Config(0, 5, 1, 3) else
      if k == 5 then Config(2, 4, 3, 5) else
      if k == 6 then Config(0, 4, 2, 5) else
      if k == 7 then Config(1, 5, 2, 3) else
      Config(0, 1, 4, 5)
    else if n == 7 then
      if k == 0 then Config(2, 5, 3, 4) else
      if k == 1 then Config(1, 4, 2, 3) else
      if k == 2 then Config(0, 5, 6, 4) else
      if k == 3 then Config(0, 4, 5, 3) else
      if k == 4 then Config(0, 3, 4, 2) else
      if k == 5 then Config(0, 2, 3, 1) else
      Config(3, 6, 4, 5)
    else
      if k == 0 then Config(0, 7, 1, 6) else
      if k == 1 then Config(2, 5, 3, 4) else
      if k == 2 then Config(0, 6, 7, 5) else
      if k == 3 then Config(1, 4, 2, 3) else
      if k == 4 then Config(0, 5, 6, 4) else
      if k == 5 then Config(7, 3, 1, 2) else
      if k == 6 then Config(0, 4, 5, 3) else
      if k == 7 then Config(6, 2, 7, 1) else
      if k == 8 then Config(0, 3, 4, 2) else
      if k == 9 then Config(5, 1, 6, 7) else
      if k == 10 then Config(0, 2, 3, 1) else
      if k == 11 then Config(4, 7, 5, 6) else
      if k == 12 then Config(0, 1, 2, 7) else
      Config(3, 6, 4, 5)
  }

  predicate Partners(c: Config, x: nat, y: nat) {
    (c.a1 == x && c.a2 == y) || (c.a1 == y && c.a2 == x) || (c.b1 == x && c.b2 == y) || (c.b1 == y && c.b2 == x)
  }

  predicate OnCourt(c: Config, x: nat) {
    c.a1 == x || c.a2 == x || c.b1 == x || c.b2 == x
  }

  /** How many of the first `upTo` entries of table `n` pair `x` with `y`. */
  function PartneredIn(n: nat, x: nat, y: nat, upTo: nat): nat
    requires 4 <= n <= 8 && upTo <= TableLen(n)
  {
    if upTo == 0 then 0
    else PartneredIn(n, x, y, upTo - 1) + (if Partners(PresetAt(n, upTo - 1), x, y) then 1 else 0)
  }

  /** How many of the first `upTo` entries of table `n` leave `x` off court. */
  function RestingIn(n: nat, x: nat, upTo: nat): nat
    requires 4 <= n <= 8 && upTo <= TableLen(n)
  {
    if upTo == 0 then 0
    else RestingIn(n, x, upTo - 1) + (if OnCourt(PresetAt(n, upTo - 1), x) then 0 else 1)
  }

  /** In the four-player table every pair of players partners exactly once. */
  lemma FourTablePairsEachOnce(x: nat, y: nat)
    requires x < y < 4
    ensures PartneredIn(4, x, y, TableLen(4)) == 1
  {
    if x == 0 && y == 1 {
      assert PartneredIn(4, 0, 1, 3) == 1;
    } else if x == 0 && y == 2 {
      assert PartneredIn(4, 0, 2, 3) == 1;
    } else if x == 0 && y == 3 {
      assert PartneredIn(4, 0, 3, 3) == 1;
    } else if x == 1 && y == 2 {
      assert PartneredIn(4, 1, 2, 3) == 1;
    } else if x == 1 && y == 3 {
      assert PartneredIn(4, 1, 3, 3) == 1;
    } else {
      assert PartneredIn(4, 2, 3, 3) == 1;
    }
  }

  /** In the five-player table every player rests exactly once. */
  lemma FiveTableRestsEachOnce(x: nat)
    requires x < 5
    ensures RestingIn(5, x, TableLen(5)) == 1
  {
    if x == 0 {
      assert RestingIn(5, 0, 5) == 1;
    } else if x == 1 {
      assert RestingIn(5, 1, 5) == 1;
    } else if x == 2 {
      assert RestingIn(5, 2, 5) == 1;
    } else if x == 3 {
      assert RestingIn(5, 3, 5) == 1;
    } else {
      assert RestingIn(5, 4, 5) == 1;
    }
  }

  /** In the six-player table every player sits out three of the nine matches. */
  lemma SixTableRestsEachThrice(x: nat)
    requires x < 6
    ensures RestingIn(6, x, TableLen(6)) == 3
  {
    if x == 0 {
      assert RestingIn(6, 0, 9) == 3;
    } else if x == 1 {
      assert RestingIn(6, 1, 9) == 3;
    } else if x == 2 {
      assert RestingIn(6, 2, 9) == 3;
    } else if x == 3 {
      assert RestingIn(6, 3, 9) == 3;
    } else if x == 4 {
      assert RestingIn(6, 4, 9) == 3;
    } else {
      assert RestingIn(6, 5, 9) == 3;
    }
  }

  /** Each round of the eight-player table (two courts) puts all eight players on court. */
  lemma EightTableRoundsCoverAll(r: nat, x: nat)
    requires r < 7 && x < 8
    ensures OnCourt(PresetAt(8, 2 * r), x) || OnCourt(PresetAt(8, 2 * r + 1), x)
  {
  }

  /** The player the schedule names as resting: the first active player outside the four. */
  function FirstOutside(active: seq<Player>, ids: seq<string>): (r: Option<Player>)
    ensures r.Some? ==> r.value in active && r.value.id !in ids
    // `find` returns the first such player: everyone before it is on court
    ensures r.Some? ==> exists k :: 0 <= k < |active| && active[k] == r.value && forall j :: 0 <= j < k ==> active[j].id in ids
    ensures r.None? ==> forall k :: 0 <= k < |active| ==> active[k].id in ids
  {
    if active == [] then None
    else if active[0].id !in ids then Some(active[0])
    else FirstOutside(active[1..], ids)
  }

  /** A preset entry mapped onto the active players. */
  function FromConfig(active: seq<Player>, c: Config): (p: Proposal)
    requires ValidConfig(c, |active|)
    ensures ProposalIds(p) == [active[c.a1].id, active[c.a2].id, active[c.b1].id, active[c.b2].id]
    ensures forall k :: 0 <= k < 4 ==> ProposalIds(p)[k] in Ids(active)
    // the resting name is that of the first active player outside the four seats, if any
    ensures p.resting.None? <==> forall k :: 0 <= k < |active| ==> active[k].id in ProposalIds(p)
    ensures p.resting.Some? ==>
      exists k :: 0 <= k < |active| && active[k].name == p.resting.value && active[k].id !in ProposalIds(p) &&
        forall j :: 0 <= j < k ==> active[j].id in ProposalIds(p)
  {
    var ids := [active[c.a1].id, active[c.a2].id, active[c.b1].id, active[c.b2].id];
    var resting := FirstOutside(active, ids);
    Proposal(Team(ids[0], ids[1]), Team(ids[2], ids[3]),
             if resting.Some? then Some(resting.value.name) else None)
  }

  /** Entry `i` of a session planned from the table: the tables are used in a cycle. */
  function PresetEntry(active: seq<Player>, i: nat): (p: Proposal)
    requires 4 <= |active| <= 8
    ensures forall k :: 0 <= k < 4 ==> ProposalIds(p)[k] in Ids(active)
  {
    FromConfig(active, PresetAt(|active|, i % TableLen(|active|)))
  }

  /** Entry `i` of a planned session. */
  function ScheduleEntry(all: seq<Player>, existing: seq<Match>, i: nat, pick: nat -> nat): (p: Proposal)
    requires |Active(all)| >= 4
    ensures forall k :: 0 <= k < 4 ==> ProposalIds(p)[k] in Ids(Active(all))
  {
    var active := Active(all);
    if |active| <= 8 then PresetEntry(active, i)
    else
      GenerateNextMatch(all, existing, Some(|existing| + i), pick(i)).value
  }

  /**
   * `generateSessionSchedule`: nothing with fewer than four active players,
   * otherwise exactly `count` entries, each putting four active players on court.
   */
  function GenerateSessionSchedule(all: seq<Player>, existing: seq<Match>, count: nat, pick: nat -> nat): (r: seq<Proposal>)
    ensures |Active(all)| < 4 ==> r == []
    ensures |Active(all)| >= 4 ==> |r| == count
    ensures forall i, k :: 0 <= i < |r| && 0 <= k < 4 ==> ProposalIds(r[i])[k] in Ids(Active(all))
  {
    if |Active(all)| < 4 then []
    else
      seq(count, i requires 0 <= i < count => ScheduleEntry(all, existing, i, pick))
  }

  /** A proposal that puts the playing group on court only names active players. */
  lemma {:induction false} OnCourtAreActive(active: seq<Player>, m: nat, p: Proposal)
    requires |active| >= 4 && OnCourtBag(p) == GroupBag(PlayingGroup(active, m))
    ensures forall k :: 0 <= k < 4 ==> ProposalIds(p)[k] in Ids(active)
  {
    var group := PlayingGroup(active, m);
    forall k | 0 <= k < 4 ensures ProposalIds(p)[k] in Ids(active) {
      var id := ProposalIds(p)[k];
      assert id in OnCourtBag(p);
      var j :| 0 <= j < 4 && group[j].id == id;
      GroupMember(active, m, j);
    }
  }

  /** Every player of the playing group is an active player. */
  lemma GroupMember(active: seq<Player>, m: nat, j: nat)
    requires |active| >= 4 && j < 4
    ensures PlayingGroup(active, m)[j].id in Ids(active)
  {
    var g := PlayingGroup(active, m);
    if |active| == 4 {
      assert Ids(active)[j] == g[j].id;
    } else {
      var src := if j < RestIndex(|active|, m) then j else j + 1;
      assert Ids(active)[src] == g[j].id;
    }
  }

  /** With four to eight active players the plan follows the tables alone: past matches do not matter. */
  lemma PresetPlanIgnoresHistory(all: seq<Player>, e1: seq<Match>, e2: seq<Match>, count: nat,
                                 pick1: nat -> nat, pick2: nat -> nat)
    requires 4 <= |Active(all)| <= 8
    ensures GenerateSessionSchedule(all, e1, count, pick1) == GenerateSessionSchedule(all, e2, count, pick2)
  {
  }

  /** ... and it repeats with the length of the table. */
  lemma {:induction false} PresetPlanRepeats(all: seq<Player>, existing: seq<Match>, count: nat, pick: nat -> nat, i: nat, j: nat)
    requires 4 <= |Active(all)| <= 8
    requires j == i + TableLen(|Active(all)|) && j < count
    ensures GenerateSessionSchedule(all, existing, count, pick)[i] == GenerateSessionSchedule(all, existing, count, pick)[j]
  {
    ScheduleAt(all, existing, count, pick, i);
    ScheduleAt(all, existing, count, pick, j);
    ScheduleEntryRepeats(all, existing, i, j, pick);
  }

  lemma {:induction false} ScheduleEntryRepeats(all: seq<Player>, existing: seq<Match>, i: nat, j: nat, pick: nat -> nat)
    requires 4 <= |Active(all)| <= 8 && j == i + TableLen(|Active(all)|)
    ensures ScheduleEntry(all, existing, j, pick) == ScheduleEntry(all, existing, i, pick)
  {
    PresetEntryRepeats(Active(all), i, j);
  }

  lemma ScheduleFromTable(all: seq<Player>, existing: seq<Match>, i: nat, pick: nat -> nat)
    requires 4 <= |Active(all)| <= 8
    ensures ScheduleEntry(all, existing, i, pick) == PresetEntry(Active(all), i)
  {
  }

  /** Entry `i` of the plan is the `i`-th entry the planner computes. */
  lemma ScheduleAt(all: seq<Player>, existing: seq<Match>, count: nat, pick: nat -> nat, i: nat)
    requires |Active(all)| >= 4 && i < count
    ensures |GenerateSessionSchedule(all, existing, count, pick)| == count
    ensures GenerateSessionSchedule(all, existing, count, pick)[i] == ScheduleEntry(all, existing, i, pick)
  {
  }

  lemma {:induction false} PresetEntryRepeats(active: seq<Player>, i: nat, j: nat)
    requires 4 <= |active| <= 8 && j == i + TableLen(|active|)
    ensures PresetEntry(active, j) == PresetEntry(active, i)
  {
    ModPeriod(i, TableLen(|active|));
  }

  lemma {:induction false} ModPeriod(i: nat, len: nat)
    requires len > 0
    ensures (i + len) % len == i % len
  {
    assert i == (i / len) * len + i % len;
    assert i + len == (i / len + 1) * len + i % len;
    ModUnique(i + len, i / len + 1, i % len, len);
  }
}
