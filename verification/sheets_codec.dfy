/**
 * The Google Sheets storage format: one spreadsheet row per finished match,
 * laid out as [timestamp, date, duration, winner1, winner2, loser1, loser2,
 * score, location], read back into players and matches, and written from a
 * finished match with player names. The HTTP calls, the clock and date
 * parsing are parameters.
 */
module SheetsCodec {

  import opened Wrappers
  import opened Text
  import opened Domain
  import Lists
  import StatsReplay

  /**
   * A cell value as the endpoint returns it: text, a non-text value that is
   * truthy (a number other than 0, `true`), or a falsy non-text value
   * (empty cell, `null`, 0, `false`).
   */
  datatype Cell = Str(s: string) | Num(n: int) | Blank

  /** JavaScript truthiness of a cell. */
  predicate Truthy(c: Cell) {
    match c
    case Str(s) => s != []
    case Num(n) => n != 0
    case Blank => false
  }

  /** Array destructuring: a position past the end reads as `undefined`. */
  function CellAt(row: seq<Cell>, i: nat): (c: Cell)
    ensures i >= |row| ==> c == Blank
  {
    if i < |row| then row[i] else Blank
  }

  /** A player name is a non-empty text cell. */
  function NameOf(c: Cell): (r: Option<string>)
    ensures r.Some? <==> c.Str? && c.s != []
    ensures r.Some? ==> r.value == c.s
  {
    if c.Str? && c.s != [] then Some(c.s) else None
  }

  // ---------------------------------------------------------------------
  // Player ids

  /** `replace(/\s+/g, '-')`: each run of whitespace becomes one dash. */
  function DashSpaces(s: string): (r: string)
    ensures |r| <= |s|
    ensures forall i :: 0 <= i < |r| ==> !IsSpace(r[i])
    ensures (forall i :: 0 <= i < |s| ==> !IsSpace(s[i])) ==> r == s
    decreases |s|
  {
    if s == [] then []
    else if IsSpace(s[0]) then
      var rest := TrimStart(s[1..]);
      "-" + DashSpaces(rest)
    else
      var r := DashSpaces(s[1..]);
      assert forall i :: 0 <= i < |s| - 1 ==> s[1..][i] == s[i + 1];
      [s[0]] + r
  }

  /** The id a sheet player gets: "gs-", then the lower-cased name with dashes for whitespace. */
  function Slug(name: string): string {
    "gs-" + DashSpaces(Lower(name))
  }

  /** Every id starts with "gs-" and holds no whitespace. */
  lemma SlugShape(name: string)
    ensures |Slug(name)| >= 3 && Slug(name)[..3] == "gs-"
    ensures forall i :: 0 <= i < |Slug(name)| ==> !IsSpace(Slug(name)[i])
  {
    var d := DashSpaces(Lower(name));
    assert forall i :: 3 <= i < |Slug(name)| ==> Slug(name)[i] == d[i - 3];
  }

  lemma LowerTwice(s: string)
    ensures Lower(Lower(s)) == Lower(s)
  {
    assert forall i :: 0 <= i < |s| ==> LowerChar(LowerChar(s[i])) == LowerChar(s[i]);
  }

  /** Names that differ only in letter case get the same id. */
  lemma SlugIgnoresCase(a: string, b: string)
    requires Lower(a) == Lower(b)
    ensures Slug(a) == Slug(b)
  {
  }

  /** A concrete instance: "Kim" and "kim" share an id, so they merge on recalculation. */
  lemma CaseVariantsCollide()
    ensures Slug("Kim") == Slug("kim") && "Kim" != "kim"
  {
    assert Lower("Kim") == "kim";
    assert Lower("kim") == "kim";
  }

  // ---------------------------------------------------------------------
  // The player map, keyed by name in insertion order

  /** The entry stored for a name the first time it is seen. */
  function NewPlayer(name: string): (p: Player)
    ensures p.name == name && p.id == Slug(name) && p.active && p.stats == ZeroStats
  {
    Player(Slug(name), name, true, ZeroStats)
  }

  /**
   * The map's values, in insertion order. Every value is the fresh entry of
   * its key, so the map is determined by its key list.
   */
  function MapValues(keys: seq<string>): (r: seq<Player>)
    ensures |r| == |keys|
    ensures forall k :: 0 <= k < |keys| ==> r[k] == NewPlayer(keys[k])
  {
    seq(|keys|, k requires 0 <= k < |keys| => NewPlayer(keys[k]))
  }

  /** `if (!playerMap.has(name)) playerMap.set(name, …)` for each name, in order. */
  function AddNames(keys: seq<string>, names: seq<string>): (r: seq<string>)
    ensures |r| >= |keys|
  {
    if names == [] then keys
    else
      var init := AddNames(keys, names[..|names| - 1]);
      var name := names[|names| - 1];
      if name in init then init else init + [name]
  }

  /** A key is present afterwards exactly when it was a key or one of the names. */
  lemma {:induction false} AddNamesMember(keys: seq<string>, names: seq<string>, x: string)
    ensures x in AddNames(keys, names) <==> x in keys || x in names
  {
    if names != [] {
      var init := names[..|names| - 1];
      AddNamesMember(keys, init, x);
      assert names == init + [names[|names| - 1]];
    }
  }

  /** The key list is the names in first-appearance order. */
  lemma {:induction false} AddNamesDedupes(keys: seq<string>, seen: seq<string>, names: seq<string>)
    requires keys == Lists.Dedupe(seen)
    ensures AddNames(keys, names) == Lists.Dedupe(seen + names)
  {
    if names != [] {
      var init := names[..|names| - 1];
      var name := names[|names| - 1];
      AddNamesDedupes(keys, seen, init);
      var prev := AddNames(keys, init);
      assert prev == Lists.Dedupe(seen + init);
      assert AddNames(keys, names) == if name in prev then prev else prev + [name];
      assert seen + names == (seen + init) + [name];
      Lists.DedupeSnoc(seen + init, name);
    } else {
      assert seen + names == seen;
    }
  }

  /** `playerMap.get(name)?.id || ''` for a cell. */
  function IdFor(keys: seq<string>, c: Cell): string {
    match NameOf(c)
    case Some(name) => if name in keys then NewPlayer(name).id else ""
    case None => ""
  }

  /** The id a cell resolves to once its name is in the map: the slug of the name, or empty. */
  function SlugOf(c: Cell): string {
    match NameOf(c)
    case Some(name) => Slug(name)
    case None => ""
  }

  /** The names a row contributes, in column order: winners, then losers. */
  function RowNames(row: seq<Cell>): (r: seq<string>)
    ensures forall k :: 0 <= k < |r| ==> r[k] != []
  {
    NameList(CellAt(row, 3)) + NameList(CellAt(row, 4)) + NameList(CellAt(row, 5)) + NameList(CellAt(row, 6))
  }

  function NameList(c: Cell): (r: seq<string>)
    ensures forall k :: 0 <= k < |r| ==> r[k] != []
  {
    match NameOf(c)
    case Some(name) => [name]
    case None => []
  }

  // ---------------------------------------------------------------------
  // Scores

  /** "a-b" read with `parseInt(…) || 0` on the first two dash-separated pieces. */
  function ScoreOfText(t: string): (r: (int, int)) {
    var parts := SplitOn(t, '-');
    (ParseIntOrZero(parts[0]), if |parts| > 1 then ParseIntOrZero(parts[1]) else 0)
  }

  /**
   * `(score || '0-0').split('-')`: a falsy cell reads as "0-0", and a truthy
   * non-text cell makes the `split` call fail (`None`).
   */
  function ScorePair(c: Cell): (r: Option<(int, int)>)
    ensures !Truthy(c) ==> r == Some((0, 0))
    ensures r.None? <==> c.Num? && c.n != 0
  {
    if !Truthy(c) then
      ScoreZero();
      Some(ScoreOfText("0-0"))
    else match c
      case Str(s) => Some(ScoreOfText(s))
      case _ => None
  }

  lemma ScoreZero()
    ensures ScoreOfText("0-0") == (0, 0)
  {
    ScoreText(0, 0);
  }

  /** The rendering "x-y" of two non-negative numbers reads back as the pair. */
  lemma {:induction false} ScoreText(x: nat, y: nat)
    ensures ScoreOfText(NatToString(x) + "-" + NatToString(y)) == (x, y)
  {
    var dx, dy := NatToString(x), NatToString(y);
    var t := dx + "-" + dy;
    assert '-' !in dx by {
      assert forall i :: 0 <= i < |dx| ==> IsDigit(dx[i]);
    }
    assert '-' !in dy by {
      assert forall i :: 0 <= i < |dy| ==> IsDigit(dy[i]);
    }
    assert t[|dx|] == '-';
    FirstIndexAfter(dx, dy);
    assert t[..|dx|] == dx && t[|dx| + 1..] == dy;
    assert SplitOn(t, '-') == [dx, dy];
    ParseNatToString(x, "");
    ParseNatToString(y, "");
    assert dx + "" == dx && dy + "" == dy;
  }

  lemma {:induction false} FirstIndexAfter(a: string, b: string)
    requires '-' !in a
    ensures FirstIndex(a + "-" + b, '-') == |a|
  {
    if a != [] {
      assert (a + "-" + b)[1..] == a[1..] + "-" + b;
      FirstIndexAfter(a[1..], b);
    }
  }

  // ---------------------------------------------------------------------
  // Reading rows

  /** The player map's keys and the matches gathered so far. */
  datatype Sheet = Sheet(keys: seq<string>, matches: seq<Match>)

  /** Every parsed match is finished, on court 1, and ended when it started. */
  predicate ParsedShape(ms: seq<Match>) {
    forall k :: 0 <= k < |ms| ==>
      ms[k].isFinished && ms[k].courtNumber == 1 && ms[k].endTime == Some(ms[k].timestamp) && ms[k].location.None?
  }

  /** The timestamp of row `index` of `total`: the dated cell, or minutes back from now. */
  function RowTime(c: Cell, total: nat, index: nat, now: int, dateOf: Cell -> int): int {
    if Truthy(c) then dateOf(c) else now - (total - index) * 60000
  }

  /** Once a row's names are added, each of its four name cells resolves to its slug. */
  lemma {:induction false} RowIdsResolve(keys: seq<string>, row: seq<Cell>, i: nat)
    requires 3 <= i <= 6
    ensures IdFor(AddNames(keys, RowNames(row)), CellAt(row, i)) == SlugOf(CellAt(row, i))
  {
    var c := CellAt(row, i);
    if NameOf(c).Some? {
      assert NameOf(c).value in RowNames(row);
      AddNamesMember(keys, RowNames(row), NameOf(c).value);
    }
  }

  /**
   * One row: its names join the map first; a row whose score cell cannot be
   * split is dropped after that, any other row yields one match with the
   * winners as team A.
   */
  function ParseRow(st: Sheet, total: nat, row: seq<Cell>, index: nat, now: int, dateOf: Cell -> int): (r: Sheet)
    ensures r.keys == AddNames(st.keys, RowNames(row))
    ensures ScorePair(CellAt(row, 7)).None? ==> r.matches == st.matches
    ensures ScorePair(CellAt(row, 7)).Some? ==>
      |r.matches| == |st.matches| + 1 && r.matches[..|st.matches|] == st.matches &&
      var m := r.matches[|st.matches|];
      m.isFinished && m.courtNumber == 1 && m.endTime == Some(m.timestamp) && m.location.None? &&
      m.teamA == Team(SlugOf(CellAt(row, 3)), SlugOf(CellAt(row, 4))) &&
      m.teamB == Team(SlugOf(CellAt(row, 5)), SlugOf(CellAt(row, 6))) &&
      (m.scoreA, m.scoreB) == ScorePair(CellAt(row, 7)).value &&
      m.timestamp == RowTime(CellAt(row, 0), total, index, now, dateOf)
  {
    var ks := AddNames(st.keys, RowNames(row));
    match ScorePair(CellAt(row, 7))
    case None => Sheet(ks, st.matches)
    case Some(score) =>
      var ts := RowTime(CellAt(row, 0), total, index, now, dateOf);
      RowIdsResolve(st.keys, row, 3);
      RowIdsResolve(st.keys, row, 4);
      RowIdsResolve(st.keys, row, 5);
      RowIdsResolve(st.keys, row, 6);
      var m := Match("gs-match-" + IntToString(ts) + "-" + NatToString(index), ts,
                     Team(IdFor(ks, CellAt(row, 3)), IdFor(ks, CellAt(row, 4))),
                     Team(IdFor(ks, CellAt(row, 5)), IdFor(ks, CellAt(row, 6))),
                     score.0, score.1, true, 1, Some(ts), None);
      assert (st.matches + [m])[..|st.matches|] == st.matches;
      Sheet(ks, st.matches + [m])
  }

  /** The first `n` rows, parsed in order. */
  function ParseRows(rows: seq<seq<Cell>>, n: nat, now: int, dateOf: Cell -> int): (r: Sheet)
    requires n <= |rows|
    ensures |r.matches| <= n
  {
    if n == 0 then Sheet([], [])
    else ParseRow(ParseRows(rows, n - 1, now, dateOf), |rows|, rows[n - 1], n - 1, now, dateOf)
  }

  lemma ParseRowsStep(rows: seq<seq<Cell>>, n: nat, now: int, dateOf: Cell -> int)
    requires 0 < n <= |rows|
    ensures ParseRows(rows, n, now, dateOf) ==
      ParseRow(ParseRows(rows, n - 1, now, dateOf), |rows|, rows[n - 1], n - 1, now, dateOf)
  {
  }

  /** Every match read from a sheet is finished, on court 1, and ended when it started. */
  lemma {:induction false} ParsedMatchesFinished(rows: seq<seq<Cell>>, n: nat, now: int, dateOf: Cell -> int)
    requires n <= |rows|
    ensures ParsedShape(ParseRows(rows, n, now, dateOf).matches)
  {
    if n > 1 {
      ParsedMatchesFinished(rows, n - 1, now, dateOf);
      FinishedStep(rows, n, now, dateOf);
    } else if n == 1 {
      FinishedStep(rows, n, now, dateOf);
    }
  }

  lemma FinishedStep(rows: seq<seq<Cell>>, n: nat, now: int, dateOf: Cell -> int)
    requires 0 < n <= |rows|
    requires ParsedShape(ParseRows(rows, n - 1, now, dateOf).matches)
    ensures ParsedShape(ParseRows(rows, n, now, dateOf).matches)
  {
    var prev := ParseRows(rows, n - 1, now, dateOf);
    var next := ParseRow(prev, |rows|, rows[n - 1], n - 1, now, dateOf);
    RowKeepsShape(prev, |rows|, rows[n - 1], n - 1, now, dateOf);
    ParseRowsStep(rows, n, now, dateOf);
    assert ParseRows(rows, n, now, dateOf).matches == next.matches;
  }

  /** A row adds at most one match, and that match has the parsed shape. */
  lemma RowKeepsShape(st: Sheet, total: nat, row: seq<Cell>, index: nat, now: int, dateOf: Cell -> int)
    requires ParsedShape(st.matches)
    ensures ParsedShape(ParseRow(st, total, row, index, now, dateOf).matches)
  {
    var r := ParseRow(st, total, row, index, now, dateOf);
    if ScorePair(CellAt(row, 7)).Some? {
      var ms := r.matches;
      forall k | 0 <= k < |ms|
        ensures ms[k].isFinished && ms[k].courtNumber == 1 && ms[k].endTime == Some(ms[k].timestamp) && ms[k].location.None?
      {
        if k < |st.matches| {
          assert ms[k] == ms[..|st.matches|][k];
        }
      }
    }
  }

  /** The names of each row, row by row. */
  function NameGroups(rows: seq<seq<Cell>>): (g: seq<seq<string>>)
    ensures |g| == |rows|
    ensures forall i :: 0 <= i < |rows| ==> g[i] == RowNames(rows[i])
  {
    seq(|rows|, i requires 0 <= i < |rows| => RowNames(rows[i]))
  }

  /** The map's keys after the first `n` groups of names. */
  function KeysAfter(groups: seq<seq<string>>, n: nat): seq<string>
    requires n <= |groups|
  {
    if n == 0 then [] else AddNames(KeysAfter(groups, n - 1), groups[n - 1])
  }

  /** All names of the first `n` groups in reading order. */
  function Flatten(groups: seq<seq<string>>, n: nat): seq<string>
    requires n <= |groups|
  {
    if n == 0 then [] else Flatten(groups, n - 1) + groups[n - 1]
  }

  /** One row's names extend the keys exactly as one more group does. */
  lemma ParsedKeysStep(rows: seq<seq<Cell>>, n: nat, now: int, dateOf: Cell -> int)
    requires 0 < n <= |rows|
    requires ParseRows(rows, n - 1, now, dateOf).keys == KeysAfter(NameGroups(rows), n - 1)
    ensures ParseRows(rows, n, now, dateOf).keys == KeysAfter(NameGroups(rows), n)
  {
    assert NameGroups(rows)[n - 1] == RowNames(rows[n - 1]);
    ParseRowsStep(rows, n, now, dateOf);
  }

  lemma {:induction false} ParsedKeys(rows: seq<seq<Cell>>, n: nat, now: int, dateOf: Cell -> int)
    requires n <= |rows|
    ensures ParseRows(rows, n, now, dateOf).keys == KeysAfter(NameGroups(rows), n)
  {
    if n > 1 {
      ParsedKeys(rows, n - 1, now, dateOf);
      ParsedKeysStep(rows, n, now, dateOf);
    } else if n == 1 {
      ParsedKeysStep(rows, n, now, dateOf);
    }
  }

  lemma {:induction false} KeysDedupe(groups: seq<seq<string>>, n: nat)
    requires n <= |groups|
    ensures KeysAfter(groups, n) == Lists.Dedupe(Flatten(groups, n))
  {
    if n > 0 {
      KeysDedupe(groups, n - 1);
      AddNamesDedupes(KeysAfter(groups, n - 1), Flatten(groups, n - 1), groups[n - 1]);
    }
  }

  /** Players are the distinct non-empty names, in the order they first appear. */
  lemma ParsedPlayerNames(rows: seq<seq<Cell>>, now: int, dateOf: Cell -> int)
    ensures ParseRows(rows, |rows|, now, dateOf).keys == Lists.Dedupe(Flatten(NameGroups(rows), |rows|))
  {
    ParsedKeys(rows, |rows|, now, dateOf);
    KeysDedupe(NameGroups(rows), |rows|);
  }

  /** A row yields a match unless its score cell is a truthy non-text value. */
  predicate Readable(row: seq<Cell>) {
    ScorePair(CellAt(row, 7)).Some?
  }

  function CountReadable(rows: seq<seq<Cell>>, n: nat): (c: nat)
    requires n <= |rows|
    ensures c <= n
  {
    if n == 0 then 0 else CountReadable(rows, n - 1) + (if Readable(rows[n - 1]) then 1 else 0)
  }

  /** One match per readable row, so one per row when every score cell is text or empty. */
  lemma {:induction false} ParsedMatchCount(rows: seq<seq<Cell>>, n: nat, now: int, dateOf: Cell -> int)
    requires n <= |rows|
    ensures |ParseRows(rows, n, now, dateOf).matches| == CountReadable(rows, n)
    ensures (forall k :: 0 <= k < n ==> Readable(rows[k])) ==> |ParseRows(rows, n, now, dateOf).matches| == n
  {
    if n > 1 {
      ParsedMatchCount(rows, n - 1, now, dateOf);
      CountStep(rows, n, now, dateOf);
    } else if n == 1 {
      CountStep(rows, n, now, dateOf);
    }
    if forall k :: 0 <= k < n ==> Readable(rows[k]) {
      AllReadable(rows, n);
    }
  }

  lemma CountStep(rows: seq<seq<Cell>>, n: nat, now: int, dateOf: Cell -> int)
    requires 0 < n <= |rows|
    requires |ParseRows(rows, n - 1, now, dateOf).matches| == CountReadable(rows, n - 1)
    ensures |ParseRows(rows, n, now, dateOf).matches| == CountReadable(rows, n)
  {
    ParseRowsStep(rows, n, now, dateOf);
  }

  lemma {:induction false} AllReadable(rows: seq<seq<Cell>>, n: nat)
    requires n <= |rows|
    requires forall k :: 0 <= k < n ==> Readable(rows[k])
    ensures CountReadable(rows, n) == n
  {
    if n > 1 {
      AllReadable(rows, n - 1);
      assert Readable(rows[n - 1]);
    } else if n == 1 {
      assert Readable(rows[0]);
    }
  }

  /** `parseRowsToAppState`: the map's players with stats recalculated from the parsed matches. */
  function ParseSheet(rows: seq<seq<Cell>>, now: int, dateOf: Cell -> int): (r: (seq<Player>, seq<Match>))
    ensures r.1 == ParseRows(rows, |rows|, now, dateOf).matches
    ensures ParsedShape(r.1)
    ensures |r.0| <= |ParseRows(rows, |rows|, now, dateOf).keys|
  {
    var sh := ParseRows(rows, |rows|, now, dateOf);
    ParsedMatchesFinished(rows, |rows|, now, dateOf);
    (StatsReplay.RecalculatePlayerStats(MapValues(sh.keys), sh.matches), sh.matches)
  }

  /**
   * The loaded players have distinct ids, and every one of them carries
   * exactly the tally of the parsed matches.
   */
  lemma {:induction false} SheetStatsAreTallies(rows: seq<seq<Cell>>, now: int, dateOf: Cell -> int)
    ensures var r := ParseSheet(rows, now, dateOf);
      Lists.NoDup(Ids(r.0)) &&
      forall k :: 0 <= k < |r.0| ==> r.0[k].stats == StatsReplay.Total(r.0[k], r.1)
  {
    var sh := ParseRows(rows, |rows|, now, dateOf);
    var roster := MapValues(sh.keys);
    var r := ParseSheet(rows, now, dateOf);
    StatsReplay.RecalculateIds(roster, sh.matches);
    StatsReplay.RosterIds(roster);
    StatsReplay.RosterDistinct(roster);
    forall k | 0 <= k < |r.0|
      ensures r.0[k].stats == StatsReplay.Total(r.0[k], r.1)
    {
      StatsReplay.RecalculateIsTotal(roster, sh.matches, k);
      StatsReplay.TotalOfSamePlayer(r.0[k], StatsReplay.ResetRoster(roster)[k], r.1);
    }
  }

  // ---------------------------------------------------------------------
  // Writing a match

  /** The row fields sent for a match; date and duration are not modelled. */
  datatype Payload = Payload(winner1: string, winner2: string, loser1: string, loser2: string,
                             score: string, location: string)

  datatype SaveResult = NotConfigured | Skipped | Sent(payload: Payload)

  /** `players.find(p => p.id === id)?.name || id`. */
  function DisplayName(players: seq<Player>, id: string): (r: string)
    ensures r == id || exists k :: 0 <= k < |players| && players[k].id == id && r == players[k].name
  {
    match FindById(players, id)
    case Some(p) => if p.name != [] then p.name else id
    case None => id
  }

  function Max(a: int, b: int): int { if a >= b then a else b }
  function Min(a: int, b: int): int { if a >= b then b else a }

  /**
   * `saveMatchWithNames`: an error without an endpoint, nothing for an
   * unfinished match; on a draw team A takes the winner slots and the score
   * is "a-b", otherwise the side that scored more takes them and the score is
   * "max-min".
   */
  function SaveMatchWithNames(configured: bool, m: Match, players: seq<Player>): (r: SaveResult)
    ensures !configured <==> r.NotConfigured?
    ensures configured && !m.isFinished <==> r.Skipped?
    ensures r.Sent? && m.scoreA == m.scoreB ==>
      r.payload.score == IntToString(m.scoreA) + "-" + IntToString(m.scoreB)
    ensures r.Sent? && m.scoreA != m.scoreB ==>
      r.payload.score == IntToString(Max(m.scoreA, m.scoreB)) + "-" + IntToString(Min(m.scoreA, m.scoreB))
    ensures r.Sent? && m.scoreA >= m.scoreB ==>
      r.payload.winner1 == DisplayName(players, m.teamA.player1Id) &&
      r.payload.loser1 == DisplayName(players, m.teamB.player1Id)
    ensures r.Sent? && m.scoreA < m.scoreB ==>
      r.payload.winner1 == DisplayName(players, m.teamB.player1Id) &&
      r.payload.loser1 == DisplayName(players, m.teamA.player1Id)
    ensures r.Sent? ==> r.payload.location == []
  {
    if !configured then NotConfigured
    else if !m.isFinished then Skipped
    else
      var a1, a2 := DisplayName(players, m.teamA.player1Id), DisplayName(players, m.teamA.player2Id);
      var b1, b2 := DisplayName(players, m.teamB.player1Id), DisplayName(players, m.teamB.player2Id);
      var teamAWins := m.scoreA > m.scoreB;
      var isDraw := m.scoreA == m.scoreB;
      Sent(Payload(
        if isDraw || teamAWins then a1 else b1,
        if isDraw || teamAWins then a2 else b2,
        if isDraw || teamAWins then b1 else a1,
        if isDraw || teamAWins then b2 else a2,
        if isDraw then IntToString(m.scoreA) + "-" + IntToString(m.scoreB)
        else IntToString(Max(m.scoreA, m.scoreB)) + "-" + IntToString(Min(m.scoreA, m.scoreB)),
        ""))
  }

  /** The row the sheet appends for a payload; the first three cells come from the clock. */
  function PayloadRow(p: Payload, timestamp: Cell, date: Cell, duration: Cell): (row: seq<Cell>)
    ensures |row| == 9
  {
    [timestamp, date, duration, Str(p.winner1), Str(p.winner2), Str(p.loser1), Str(p.loser2), Str(p.score), Str(p.location)]
  }

  /** The written score of a finished match with non-negative scores reads back as (larger, smaller). */
  lemma SavedScore(m: Match, players: seq<Player>)
    requires m.isFinished && m.scoreA >= 0 && m.scoreB >= 0
    ensures SaveMatchWithNames(true, m, players).Sent?
    ensures ScorePair(Str(SaveMatchWithNames(true, m, players).payload.score)) ==
      Some((Max(m.scoreA, m.scoreB), Min(m.scoreA, m.scoreB)))
  {
    var t := SaveMatchWithNames(true, m, players).payload.score;
    if m.scoreA >= m.scoreB {
      ScoreText(m.scoreA, m.scoreB);
      assert t == NatToString(m.scoreA) + "-" + NatToString(m.scoreB);
    } else {
      ScoreText(m.scoreB, m.scoreA);
      assert t == NatToString(m.scoreB) + "-" + NatToString(m.scoreA);
    }
    assert t != [];
  }

  /** A single readable row parses to exactly the match `ParseRow` builds from it. */
  lemma ReadOneRow(row: seq<Cell>, now: int, dateOf: Cell -> int)
    requires ScorePair(CellAt(row, 7)).Some?
    ensures
      var back := ParseRows([row], 1, now, dateOf).matches;
      |back| == 1 && back[0].isFinished && (back[0].scoreA, back[0].scoreB) == ScorePair(CellAt(row, 7)).value &&
      back[0].teamA == Team(SlugOf(CellAt(row, 3)), SlugOf(CellAt(row, 4))) &&
      back[0].teamB == Team(SlugOf(CellAt(row, 5)), SlugOf(CellAt(row, 6)))
  {
    ParseRowsStep([row], 1, now, dateOf);
    assert ParseRows([row], 0, now, dateOf) == Sheet([], []);
  }

  /**
   * Reading back a written row: the match is finished, its score is the larger
   * then the smaller of the two, and team A holds the ids of the written winners.
   */
  lemma {:induction false} RoundTrip(m: Match, players: seq<Player>, timestamp: Cell, date: Cell, duration: Cell, now: int, dateOf: Cell -> int)
    requires m.isFinished && m.scoreA >= 0 && m.scoreB >= 0
    ensures SaveMatchWithNames(true, m, players).Sent?
    ensures
      var p := SaveMatchWithNames(true, m, players).payload;
      var back := ParseRows([PayloadRow(p, timestamp, date, duration)], 1, now, dateOf).matches;
      |back| == 1 && back[0].isFinished &&
      back[0].scoreA == Max(m.scoreA, m.scoreB) && back[0].scoreB == Min(m.scoreA, m.scoreB) &&
      back[0].teamA == Team(SlugOf(Str(p.winner1)), SlugOf(Str(p.winner2))) &&
      back[0].teamB == Team(SlugOf(Str(p.loser1)), SlugOf(Str(p.loser2)))
  {
    SavedScore(m, players);
    var p := SaveMatchWithNames(true, m, players).payload;
    var row := PayloadRow(p, timestamp, date, duration);
    assert CellAt(row, 7) == Str(p.score);
    assert CellAt(row, 3) == Str(p.winner1) && CellAt(row, 4) == Str(p.winner2);
    assert CellAt(row, 5) == Str(p.loser1) && CellAt(row, 6) == Str(p.loser2);
    ReadOneRow(row, now, dateOf);
  }
}
