/**
 * The application's records: players with their running statistics, doubles
 * teams and matches. Numbers the source keeps as JavaScript numbers are
 * integers here.
 */
module Domain {

  import opened Wrappers

  datatype Stats = Stats(
    matchesPlayed: int,
    wins: int,
    losses: int,
    draws: int,
    gamesWon: int,
    gamesLost: int,
    restCount: int)

  const ZeroStats: Stats := Stats(0, 0, 0, 0, 0, 0, 0)

  datatype Player = Player(id: string, name: string, active: bool, stats: Stats)

  datatype Team = Team(player1Id: string, player2Id: string)

  datatype Match = Match(
    id: string,
    timestamp: int,
    teamA: Team,
    teamB: Team,
    scoreA: int,
    scoreB: int,
    isFinished: bool,
    courtNumber: int,
    endTime: Option<int>,
    location: Option<string>)

  /** The player plays on the team. */
  predicate OnTeam(id: string, t: Team) {
    t.player1Id == id || t.player2Id == id
  }

  /** The player plays in the match, on either side. */
  predicate Plays(id: string, m: Match) {
    OnTeam(id, m.teamA) || OnTeam(id, m.teamB)
  }

  /** `players.filter(p => p.active)`. */
  function Active(players: seq<Player>): (r: seq<Player>)
    ensures |r| <= |players|
    ensures forall k :: 0 <= k < |r| ==> r[k].active
  {
    KeepActive(players)
  }

  function KeepActive(players: seq<Player>): (r: seq<Player>)
    ensures |r| <= |players|
    ensures forall k :: 0 <= k < |r| ==> r[k].active
  {
    if players == [] then []
    else (if players[0].active then [players[0]] else []) + KeepActive(players[1..])
  }

  /** An active player in the roster is in the active list. */
  lemma {:induction false} ActiveMember(players: seq<Player>, p: Player)
    ensures p in Active(players) <==> p in players && p.active
  {
    if players != [] {
      ActiveMember(players[1..], p);
      assert players == [players[0]] + players[1..];
    }
  }

  /** Filtering a concatenation filters each part: the active list keeps roster order. */
  lemma {:induction false} ActiveAppend(a: seq<Player>, b: seq<Player>)
    ensures Active(a + b) == Active(a) + Active(b)
  {
    KeepActiveAppend(a, b);
  }

  lemma {:induction false} KeepActiveAppend(a: seq<Player>, b: seq<Player>)
    ensures KeepActive(a + b) == KeepActive(a) + KeepActive(b)
  {
    if a == [] {
      assert a + b == b;
    } else {
      var head := if a[0].active then [a[0]] else [];
      assert (a + b)[0] == a[0];
      assert (a + b)[1..] == a[1..] + b;
      calc {
        KeepActive(a + b);
        head + KeepActive(a[1..] + b);
        { KeepActiveAppend(a[1..], b); }
        head + (KeepActive(a[1..]) + KeepActive(b));
        (head + KeepActive(a[1..])) + KeepActive(b);
        KeepActive(a) + KeepActive(b);
      }
    }
  }

  /** `players.find(p => p.id === id)`. */
  function FindById(players: seq<Player>, id: string): (r: Option<Player>)
    ensures r.Some? ==> r.value in players && r.value.id == id
    ensures r.None? ==> forall k :: 0 <= k < |players| ==> players[k].id != id
  {
    if players == [] then None
    else if players[0].id == id then Some(players[0])
    else FindById(players[1..], id)
  }

  /** `players.findIndex(p => p.id === id)`, `None` for -1. */
  function IndexOfId(players: seq<Player>, id: string): (r: Option<nat>)
    ensures r.Some? ==> r.value < |players| && players[r.value].id == id
    ensures r.Some? ==> forall k :: 0 <= k < r.value ==> players[k].id != id
    ensures r.None? ==> forall k :: 0 <= k < |players| ==> players[k].id != id
  {
    if players == [] then None
    else if players[0].id == id then Some(0)
    else match IndexOfId(players[1..], id)
      case None => None
      case Some(k) => Some(k + 1)
  }

  function Ids(players: seq<Player>): (r: seq<string>)
    ensures |r| == |players|
    ensures forall k :: 0 <= k < |players| ==> r[k] == players[k].id
  {
    seq(|players|, k requires 0 <= k < |players| => players[k].id)
  }
}
