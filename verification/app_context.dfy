/**
 * The club state held by the application context: the player list and the
 * match list, and the actions that change them. Identifiers, clocks and the
 * random draw of the matchmaker are parameters; log and feed messages are not
 * modelled.
 */
module AppContext {

  import opened Wrappers
  import opened Domain
  import Matchmaking
  import StatsReplay

  /** The two pieces of state every action here reads or writes. */
  datatype State = State(players: seq<Player>, matches: seq<Match>)

  // ---------------------------------------------------------------------
  // Looking matches up

  /** Index of the first match satisfying "unfinished", as `Array.find` scans. */
  function FirstUnfinished(ms: seq<Match>): (r: Option<nat>)
    ensures r.Some? ==> r.value < |ms| && !ms[r.value].isFinished
    ensures r.Some? ==> forall k :: 0 <= k < r.value ==> ms[k].isFinished
    ensures r.None? ==> forall k :: 0 <= k < |ms| ==> ms[k].isFinished
  {
    if ms == [] then None
    else if !ms[0].isFinished then Some(0)
    else match FirstUnfinished(ms[1..])
      case Some(k) => Some(k + 1)
      case None => None
  }

  /** `activeMatch`: the first unfinished match in list order, or nothing. */
  function ActiveMatch(ms: seq<Match>): (r: Option<Match>)
    ensures r.Some? <==> exists k :: 0 <= k < |ms| && !ms[k].isFinished
    ensures r.Some? ==> r.value in ms && !r.value.isFinished
  {
    match FirstUnfinished(ms)
    case Some(k) => Some(ms[k])
    case None => None
  }

  /** Index of the first match with the given id. */
  function FindMatch(ms: seq<Match>, id: string): (r: Option<nat>)
    ensures r.Some? ==> r.value < |ms| && ms[r.value].id == id
    ensures r.Some? ==> forall k :: 0 <= k < r.value ==> ms[k].id != id
    ensures r.None? ==> forall k :: 0 <= k < |ms| ==> ms[k].id != id
  {
    if ms == [] then None
    else if ms[0].id == id then Some(0)
    else match FindMatch(ms[1..], id)
      case Some(k) => Some(k + 1)
      case None => None
  }

  // ---------------------------------------------------------------------
  // Players

  /** `addPlayer`: a new active player with zeroed counters goes to the end. */
  function AddPlayer(players: seq<Player>, id: string, name: string): (r: seq<Player>)
    ensures |r| == |players| + 1 && r[..|players|] == players
    ensures r[|players|].id == id && r[|players|].name == name
    ensures r[|players|].active && r[|players|].stats == ZeroStats
  {
    players + [Player(id, name, true, ZeroStats)]
  }

  /**
   * `reorderPlayers`: the entry at `from` is cut out and put back in at `to`.
   * The callers only pass indices inside the list.
   */
  function Reorder<T>(s: seq<T>, from: nat, to: nat): (r: seq<T>)
    requires from < |s| && to < |s|
    ensures |r| == |s|
    ensures r[to] == s[from]
    ensures r[..to] + r[to + 1..] == s[..from] + s[from + 1..]
    ensures multiset(r) == multiset(s)
  {
    var rest := s[..from] + s[from + 1..];
    var r := rest[..to] + [s[from]] + rest[to..];
    assert r[..to] == rest[..to] && r[to + 1..] == rest[to..];
    assert rest[..to] + rest[to..] == rest;
    assert s == s[..from] + [s[from]] + s[from + 1..];
    calc {
      multiset(r);
      multiset(rest[..to]) + multiset{s[from]} + multiset(rest[to..]);
      multiset(rest) + multiset{s[from]};
      multiset(s[..from]) + multiset(s[from + 1..]) + multiset{s[from]};
      multiset(s);
    }
    r
  }

  /** Moving an entry and then moving it back restores the list. */
  lemma ReorderBack<T>(s: seq<T>, from: nat, to: nat)
    requires from < |s| && to < |s|
    ensures Reorder(Reorder(s, from, to), to, from) == s
  {
    var r := Reorder(s, from, to);
    var rest := s[..from] + s[from + 1..];
    assert r[..to] + r[to + 1..] == rest;
    assert rest[..from] == s[..from];
    assert rest[from..] == s[from + 1..];
    assert s == s[..from] + [s[from]] + s[from + 1..];
  }

  /** `togglePlayerActive`: flip the flag of every player with the id. */
  function Toggle(players: seq<Player>, id: string): (r: seq<Player>)
    ensures |r| == |players|
    ensures forall k :: 0 <= k < |r| ==>
      r[k].id == players[k].id && r[k].name == players[k].name && r[k].stats == players[k].stats
    ensures forall k :: 0 <= k < |r| ==> (r[k].active != players[k].active <==> players[k].id == id)
  {
    seq(|players|, k requires 0 <= k < |players| =>
      if players[k].id == id then players[k].(active := !players[k].active) else players[k])
  }

  /** Toggling twice gives back the original list. */
  lemma ToggleTwice(players: seq<Player>, id: string)
    ensures Toggle(Toggle(players, id), id) == players
  {
    var r := Toggle(Toggle(players, id), id);
    assert forall k :: 0 <= k < |r| ==> r[k] == players[k];
  }

  // ---------------------------------------------------------------------
  // Starting matches

  /** The fresh match the context creates for a proposal: unfinished, 0–0, court 1. */
  function NewMatch(p: Matchmaking.Proposal, id: string, timestamp: int): (m: Match)
    ensures m.id == id && m.timestamp == timestamp
    ensures m.teamA == p.teamA && m.teamB == p.teamB
    ensures !m.isFinished && m.scoreA == 0 && m.scoreB == 0 && m.courtNumber == 1
    ensures m.endTime.None? && m.location.None?
  {
    Match(id, timestamp, p.teamA, p.teamB, 0, 0, false, 1, None, None)
  }

  /**
   * `createNextMatch`: refused while a match is in progress or when fewer than
   * four players are active; otherwise one new match is appended.
   */
  function CreateNextMatch(s: State, id: string, now: int, pick: nat): (r: (bool, State))
    ensures r.0 <==> ActiveMatch(s.matches).None? && |Active(s.players)| >= 4
    ensures !r.0 ==> r.1 == s
    ensures r.0 ==> r.1.players == s.players && |r.1.matches| == |s.matches| + 1
    ensures r.0 ==> r.1.matches[..|s.matches|] == s.matches
    ensures r.0 ==> var m := r.1.matches[|s.matches|];
      m.id == id && m.timestamp == now && !m.isFinished && m.scoreA == 0 && m.scoreB == 0 && m.courtNumber == 1
  {
    if ActiveMatch(s.matches).Some? then (false, s)
    else
      match Matchmaking.GenerateNextMatch(s.players, s.matches, None, pick)
      case None => (false, s)
      case Some(p) =>
        var ms := s.matches + [NewMatch(p, id, now)];
        assert ms[..|s.matches|] == s.matches;
        (true, s.(matches := ms))
  }

  /** A match appended behind finished ones, and possibly followed by more, is the first unfinished one. */
  lemma {:induction false} AppendedIsFirstUnfinished(ms: seq<Match>, t: seq<Match>)
    requires |t| > |ms| && t[..|ms|] == ms && !t[|ms|].isFinished
    requires forall k :: 0 <= k < |ms| ==> ms[k].isFinished
    ensures FirstUnfinished(t) == Some(|ms|)
  {
    assert forall k :: 0 <= k < |ms| ==> t[k] == ms[k];
    match FirstUnfinished(t)
    case None =>
    case Some(j) =>
  }

  /** After a successful start the new match is the active one, and a second start is refused. */
  lemma CreatedIsActive(s: State, id: string, now: int, pick: nat, id2: string, now2: int, pick2: nat)
    ensures CreateNextMatch(s, id, now, pick).0 ==>
      var t := CreateNextMatch(s, id, now, pick).1;
      FirstUnfinished(t.matches) == Some(|s.matches|) &&
      CreateNextMatch(t, id2, now2, pick2) == (false, t)
  {
    var r := CreateNextMatch(s, id, now, pick);
    if r.0 {
      AppendedIsFirstUnfinished(s.matches, r.1.matches);
      assert ActiveMatch(r.1.matches).Some?;
    }
  }

  /** The matches `generateSchedule` appends, spaced one second apart. */
  function ScheduledMatches(plan: seq<Matchmaking.Proposal>, ids: nat -> string, now: int): (r: seq<Match>)
    ensures |r| == |plan|
    ensures forall i :: 0 <= i < |r| ==> r[i] == NewMatch(plan[i], ids(i), now + i * 1000)
  {
    seq(|plan|, i requires 0 <= i < |plan| => NewMatch(plan[i], ids(i), now + i * 1000))
  }

  /**
   * `generateSchedule`: the session plan for `count` matches is appended in
   * order; with fewer than four active players the plan is empty and nothing changes.
   */
  function GenerateSchedule(s: State, count: nat, ids: nat -> string, now: int, pick: nat -> nat): (r: State)
    ensures |Active(s.players)| < 4 || count == 0 ==> r == s
    ensures r.players == s.players
    ensures |Active(s.players)| >= 4 ==> |r.matches| == |s.matches| + count
    ensures |Active(s.players)| >= 4 ==> forall i :: 0 <= i < count ==>
      r.matches[|s.matches| + i] ==
        NewMatch(Matchmaking.GenerateSessionSchedule(s.players, s.matches, count, pick)[i], ids(i), now + i * 1000)
    ensures r.matches[..|s.matches|] == s.matches
    ensures forall i :: |s.matches| <= i < |r.matches| ==>
      !r.matches[i].isFinished && r.matches[i].scoreA == 0 && r.matches[i].scoreB == 0 &&
      r.matches[i].courtNumber == 1 && r.matches[i].timestamp == now + (i - |s.matches|) * 1000
  {
    var plan := Matchmaking.GenerateSessionSchedule(s.players, s.matches, count, pick);
    if |plan| == 0 then s
    else
      var ms := s.matches + ScheduledMatches(plan, ids, now);
      assert ms[..|s.matches|] == s.matches;
      s.(matches := ms)
  }

  /** With no match in progress, the first scheduled match becomes the active one. */
  lemma ScheduleStartsNext(s: State, count: nat, ids: nat -> string, now: int, pick: nat -> nat)
    requires ActiveMatch(s.matches).None? && |Active(s.players)| >= 4 && count > 0
    ensures FirstUnfinished(GenerateSchedule(s, count, ids, now, pick).matches) == Some(|s.matches|)
  {
    AppendedIsFirstUnfinished(s.matches, GenerateSchedule(s, count, ids, now, pick).matches);
  }

  // ---------------------------------------------------------------------
  // Finishing and deleting

  /** The match as it is stored once finished with the entered scores. */
  function Finished(m: Match, scoreA: int, scoreB: int): (f: Match)
    ensures f.isFinished && f.scoreA == scoreA && f.scoreB == scoreB
    ensures f.id == m.id && f.teamA == m.teamA && f.teamB == m.teamB && f.timestamp == m.timestamp
  {
    m.(scoreA := scoreA, scoreB := scoreB, isFinished := true)
  }

  /** The match-list half of `finishMatch`: only matches with the id change. */
  function FinishMatches(ms: seq<Match>, id: string, scoreA: int, scoreB: int): (r: seq<Match>)
    ensures |r| == |ms|
    ensures forall k :: 0 <= k < |ms| && ms[k].id != id ==> r[k] == ms[k]
    ensures forall k :: 0 <= k < |ms| && ms[k].id == id ==>
      r[k].isFinished && r[k].scoreA == scoreA && r[k].scoreB == scoreB &&
      r[k].id == id && r[k].teamA == ms[k].teamA && r[k].teamB == ms[k].teamB
  {
    seq(|ms|, k requires 0 <= k < |ms| => if ms[k].id == id then Finished(ms[k], scoreA, scoreB) else ms[k])
  }

  /**
   * The player update of `finishMatch` as the code writes it: a player on the
   * losing side or in a draw gets a loss, and `draws` is left alone.
   */
  function FinishStepAsWritten(p: Player, m: Match, scoreA: int, scoreB: int): (q: Player)
    ensures q.id == p.id && q.name == p.name && q.active == p.active
  {
    var inA := OnTeam(p.id, m.teamA);
    var inB := OnTeam(p.id, m.teamB);
    if !inA && !inB then
      if p.active then p.(stats := p.stats.(restCount := p.stats.restCount + 1)) else p
    else
      var isWinner := (inA && scoreA > scoreB) || (inB && scoreB > scoreA);
      p.(stats := p.stats.(
        matchesPlayed := p.stats.matchesPlayed + 1,
        wins := p.stats.wins + (if isWinner then 1 else 0),
        losses := p.stats.losses + (if isWinner then 0 else 1),
        gamesWon := p.stats.gamesWon + (if inA then scoreA else scoreB),
        gamesLost := p.stats.gamesLost + (if inA then scoreB else scoreA)))
  }

  /** A drawn match is booked as a loss by the code as written, and as a draw by the recalculation. */
  lemma DrawBookedAsLoss(p: Player, m: Match, score: int)
    requires OnTeam(p.id, m.teamA)
    ensures FinishStepAsWritten(p, m, score, score).stats.losses == p.stats.losses + 1
    ensures FinishStepAsWritten(p, m, score, score).stats.draws == p.stats.draws
    ensures StatsReplay.Step(p, Finished(m, score, score)).stats.losses == p.stats.losses
    ensures StatsReplay.Step(p, Finished(m, score, score)).stats.draws == p.stats.draws + 1
  {
  }

  /** `finishMatch` with the update the recalculation applies: one replay step per player. */
  function FinishPlayers(players: seq<Player>, m: Match): (r: seq<Player>)
    ensures |r| == |players|
    ensures forall i :: 0 <= i < |r| ==> r[i] == StatsReplay.Step(players[i], m)
  {
    seq(|players|, i requires 0 <= i < |players| => StatsReplay.Step(players[i], m))
  }

  /**
   * `finishMatch`: the target matches are finished with the scores and every
   * player's counters take the finished match into account. The code reads the
   * teams from the first match with the id and fails when there is none.
   */
  function FinishMatch(s: State, id: string, scoreA: int, scoreB: int): (r: Option<State>)
    ensures r.None? <==> forall k :: 0 <= k < |s.matches| ==> s.matches[k].id != id
    ensures r.Some? ==> r.value.matches == FinishMatches(s.matches, id, scoreA, scoreB)
    ensures r.Some? ==> |r.value.players| == |s.players|
  {
    match FindMatch(s.matches, id)
    case None => None
    case Some(k) =>
      Some(State(FinishPlayers(s.players, Finished(s.matches[k], scoreA, scoreB)),
                 FinishMatches(s.matches, id, scoreA, scoreB)))
  }

  /** The same action with the player update as written. */
  function FinishMatchAsWritten(s: State, id: string, scoreA: int, scoreB: int): (r: Option<State>)
    ensures r.None? <==> forall k :: 0 <= k < |s.matches| ==> s.matches[k].id != id
    ensures r.Some? ==> r.value.matches == FinishMatches(s.matches, id, scoreA, scoreB)
  {
    match FindMatch(s.matches, id)
    case None => None
    case Some(k) =>
      var m := s.matches[k];
      Some(State(seq(|s.players|, i requires 0 <= i < |s.players| => FinishStepAsWritten(s.players[i], m, scoreA, scoreB)),
                 FinishMatches(s.matches, id, scoreA, scoreB)))
  }

  /** Every player's counters equal the tally of the match list. */
  predicate Consistent(s: State) {
    forall i :: 0 <= i < |s.players| ==> s.players[i].stats == StatsReplay.Total(s.players[i], s.matches)
  }

  /** Finishing the single unfinished match with an id swaps it for its finished copy. */
  lemma FinishMatchesReplaces(ms: seq<Match>, id: string, k: nat, scoreA: int, scoreB: int)
    requires k < |ms| && ms[k].id == id
    requires forall j :: 0 <= j < |ms| && j != k ==> ms[j].id != id
    ensures FinishMatches(ms, id, scoreA, scoreB) == ms[k := Finished(ms[k], scoreA, scoreB)]
  {
  }

  /** Tally of one player after an unfinished match is replaced by its finished copy. */
  lemma {:induction false} TotalAfterFinish(p: Player, ms: seq<Match>, k: nat, f: Match)
    requires k < |ms| && !ms[k].isFinished && f.isFinished
    ensures StatsReplay.Total(p, ms[k := f]) == StatsReplay.AddStats(StatsReplay.Total(p, ms), StatsReplay.Delta(p, f))
  {
    var ms2 := ms[k := f];
    assert ms2[..k] + ms2[k + 1..] == ms[..k] + ms[k + 1..];
    StatsReplay.TotalRemoveAt(p, ms, k);
    StatsReplay.TotalRemoveAt(p, ms2, k);
    var rest := StatsReplay.Total(p, ms[..k] + ms[k + 1..]);
    StatsReplay.AddZero(rest);
    StatsReplay.AddSwap(StatsReplay.Delta(p, f), rest, ZeroStats);
    StatsReplay.AddZero(StatsReplay.AddStats(StatsReplay.Delta(p, f), rest));
    StatsReplay.AddZero(StatsReplay.Delta(p, f));
  }

  /**
   * Finishing the one unfinished match with an id keeps the counters equal to
   * the tally of the match list, so live counters and recalculated ones agree.
   */
  lemma FinishKeepsConsistent(s: State, id: string, k: nat, scoreA: int, scoreB: int)
    requires Consistent(s)
    requires k < |s.matches| && s.matches[k].id == id && !s.matches[k].isFinished
    requires forall j :: 0 <= j < |s.matches| && j != k ==> s.matches[j].id != id
    ensures FinishMatch(s, id, scoreA, scoreB).Some?
    ensures Consistent(FinishMatch(s, id, scoreA, scoreB).value)
  {
    var f := Finished(s.matches[k], scoreA, scoreB);
    assert FindMatch(s.matches, id) == Some(k);
    var t := FinishMatch(s, id, scoreA, scoreB).value;
    FinishMatchesReplaces(s.matches, id, k, scoreA, scoreB);
    assert t.matches == s.matches[k := f];
    forall i | 0 <= i < |t.players|
      ensures t.players[i].stats == StatsReplay.Total(t.players[i], t.matches)
    {
      var p := s.players[i];
      assert t.players[i] == StatsReplay.Step(p, f);
      StatsReplay.TotalOfSamePlayer(t.players[i], p, t.matches);
      TotalAfterFinish(p, s.matches, k, f);
    }
  }

  /** `deleteMatch`: keep the matches whose id differs, in order. */
  function DeleteMatch(ms: seq<Match>, id: string): (r: seq<Match>)
    ensures |r| <= |ms|
  {
    if ms == [] then []
    else (if ms[0].id != id then [ms[0]] else []) + DeleteMatch(ms[1..], id)
  }

  /** How many matches carry the id. */
  function CountWithId(ms: seq<Match>, id: string): nat {
    if ms == [] then 0 else (if ms[0].id == id then 1 else 0) + CountWithId(ms[1..], id)
  }

  /** Exactly the matches with another id survive, and exactly the ones with the id are gone. */
  lemma {:induction false} DeleteMatchExact(ms: seq<Match>, id: string, m: Match)
    ensures m in DeleteMatch(ms, id) <==> m in ms && m.id != id
    ensures |DeleteMatch(ms, id)| == |ms| - CountWithId(ms, id)
  {
    if ms != [] {
      DeleteMatchExact(ms[1..], id, m);
      assert ms == [ms[0]] + ms[1..];
    }
  }

  // ---------------------------------------------------------------------
  // Export and import

  /** What `JSON.parse` produced, reduced to the two fields the import checks: absent means "not an array". */
  datatype Parsed = Parsed(players: Option<seq<Player>>, matches: Option<seq<Match>>)

  /** `exportData`, as the parsed value it reads back as. */
  function Export(s: State): (d: Parsed)
    ensures d.players.Some? && d.matches.Some?
  {
    Parsed(Some(s.players), Some(s.matches))
  }

  /**
   * `importData`: `None` stands for text `JSON.parse` rejects. The state is
   * replaced only when both fields are arrays, and the result says whether it was.
   */
  function ImportData(s: State, json: Option<Parsed>): (r: (bool, State))
    ensures r.0 <==> json.Some? && json.value.players.Some? && json.value.matches.Some?
    ensures !r.0 ==> r.1 == s
    ensures r.0 ==> r.1 == State(json.value.players.value, json.value.matches.value)
  {
    match json
    case Some(Parsed(Some(ps), Some(ms))) => (true, State(ps, ms))
    case _ => (false, s)
  }

  /** Importing an export restores the exported state, whatever the state before. */
  lemma ImportExport(before: State, s: State)
    ensures ImportData(before, Some(Export(s))) == (true, s)
  {
  }
}
