/**
 * The statistics screen's text exports: the plain-text leaderboard that is
 * copied to the clipboard, and the length warning on the share link.
 */
module StatsView {

  import opened Wrappers
  import opened Text
  import opened Domain
  import PlayerUtils

  // ---------------------------------------------------------------------
  // Share link

  /** Past this many characters a link is flagged as too large for a URL. */
  const LinkLimit: nat := 2000

  datatype Copied = Copied(warned: bool, clipboard: string)

  /** `copyShareLink`: an over-long link draws a warning and is still copied whole. */
  function CopyShareLink(link: string): (r: Copied)
    ensures r.clipboard == link
    ensures r.warned <==> |link| > LinkLimit
  {
    Copied(|link| > LinkLimit, link)
  }

  // ---------------------------------------------------------------------
  // One leaderboard row

  /**
   * The name column: a name longer than 6 characters is cut to its first 5
   * and a dot, and the result is padded with spaces to 6.
   */
  function NameField(name: string): (r: string)
    ensures |r| == 6
    ensures |name| <= 6 ==> r[..|name|] == name && forall i :: |name| <= i < 6 ==> r[i] == ' '
    ensures |name| > 6 ==> r[..5] == name[..5] && r[5] == '.'
  {
    var cut := if |name| > 6 then name[..5] + "." else name;
    assert |name| > 6 ==> cut[..5] == name[..5];
    PadEnd(cut, 6)
  }

  /** Two different names of at most 6 characters that do not end in a space get different columns. */
  lemma ShortNamesDistinct(a: string, b: string)
    requires |a| <= 6 && |b| <= 6 && a != b
    requires |a| == 0 || a[|a| - 1] != ' '
    requires |b| == 0 || b[|b| - 1] != ' '
    ensures NameField(a) != NameField(b)
  {
    var fa, fb := NameField(a), NameField(b);
    if |a| == |b| {
      assert fa[..|a|] == a && fb[..|b|] == b;
    } else if |a| < |b| {
      assert fb[|b| - 1] == b[|b| - 1] by { assert fb[..|b|][|b| - 1] == fb[|b| - 1]; }
      assert fa[|b| - 1] == ' ';
    } else {
      assert fa[|a| - 1] == a[|a| - 1] by { assert fa[..|a|][|a| - 1] == fa[|a| - 1]; }
      assert fb[|a| - 1] == ' ';
    }
  }

  /** The game-difference column: "+ d " when positive, the plain number and a space otherwise. */
  function DiffText(d: int): (r: string)
    ensures |r| >= 2 && r[|r| - 1] == ' '
    ensures r[0] == '+' <==> d > 0
    ensures r[0] == '-' <==> d < 0
    ensures r == "0 " <==> d == 0
  {
    if d > 0 then "+ " + NatToString(d) + " " else IntToString(d) + " "
  }

  /** A rendered natural number with a space behind it reads back as itself. */
  lemma NatReadsBack(n: nat)
    ensures ParseIntPrefix(NatToString(n) + " ") == Some(n)
  {
    ParseNatToString(n, " ");
  }

  /** A minus sign, a rendered positive number and a space read back as the negative number. */
  lemma NegativeReadsBack(k: nat)
    requires k > 0
    ensures ParseIntPrefix("-" + NatToString(k) + " ") == Some(-(k as int))
  {
    var digits := NatToString(k);
    var u := digits + " ";
    var r := "-" + u;
    assert "-" + digits + " " == r;
    TrimStartKeepsNonSpace(r);
    assert r[1..] == u;
    DigitRunOfDigitsThen(digits, " ");
    assert u[..|digits|] == digits;
    DigitsValueOfNatToString(k);
  }

  /** The number in the difference column reads back: after the "+ " marker, or from the start. */
  lemma DiffReadsBack(d: int)
    ensures d > 0 ==> ParseIntPrefix(DiffText(d)[2..]) == Some(d)
    ensures d <= 0 ==> ParseIntPrefix(DiffText(d)) == Some(d)
  {
    if d > 0 {
      assert DiffText(d)[2..] == NatToString(d) + " ";
      NatReadsBack(d);
    } else if d == 0 {
      NatReadsBack(0);
    } else {
      NegativeReadsBack(-d);
    }
  }

  /** The figure columns of a row: matches, wins, draws, losses, game difference. */
  function Cells(s: Stats): (r: seq<string>)
    ensures |r| == 5
  {
    [IntToString(s.matchesPlayed), IntToString(s.wins), IntToString(s.draws),
     IntToString(s.losses), DiffText(s.gamesWon - s.gamesLost)]
  }

  /** Each cell behind a " | ", and one space after the last. */
  function Bar(cells: seq<string>): (r: string)
    ensures |r| > 0 && r[0] == ' '

  {
    if cells == [] then " "
    else
      " | " + cells[0] + Bar(cells[1..])
  }

  /** A player's line: the name column, then the figures. */
  function Row(p: Player): (r: string)
    ensures |r| >= 9 && r[..6] == NameField(p.name) && r[6..9] == " | "
    ensures r[6..] == Bar(Cells(p.stats))
  {
    var n := NameField(p.name);
    var f := Bar(Cells(p.stats));
    assert (n + f)[6..] == f;
    n + f
  }

  /** Where the " | " in front of cell `k` starts within `Bar(cells)`. */
  function BarOffset(cells: seq<string>, k: nat): (r: nat)
    requires k <= |cells|
    ensures k < |cells| ==> r + 3 + |cells[k]| <= |Bar(cells)|
  {
    if k == 0 then 0 else 3 + |cells[0]| + BarOffset(cells[1..], k - 1)
  }

  /** Cell `k` of a bar follows its " | ", and the rest of the bar follows the cell. */
  lemma {:induction false} BarCell(cells: seq<string>, k: nat)
    requires k < |cells|
    ensures Bar(cells)[BarOffset(cells, k)..][..3] == " | "
    ensures Bar(cells)[BarOffset(cells, k) + 3..] == cells[k] + Bar(cells[k + 1..])
  {
    var tail := Bar(cells[1..]);
    var front := " | " + cells[0];
    assert Bar(cells) == front + tail;
    if k == 0 {
      assert Bar(cells) == " | " + (cells[0] + tail);
      DropFront(Bar(cells), " | ", cells[0] + tail, 0);
      assert Bar(cells)[0..][..3] == " | ";
    } else {
      var o := BarOffset(cells[1..], k - 1);
      var at := BarOffset(cells, k);
      BarCell(cells[1..], k - 1);
      assert tail[o..][..3] == " | ";
      assert tail[o + 3..] == cells[1..][k - 1] + Bar(cells[1..][k..]);
      assert cells[1..][k - 1] == cells[k] && cells[1..][k..] == cells[k + 1..];
      assert at == |front| + o;
      DropFront(Bar(cells), front, tail, o);
      DropFront(Bar(cells), front, tail, o + 3);
      assert Bar(cells)[at..] == tail[o..];
      assert Bar(cells)[at + 3..] == tail[o + 3..];
    }
  }

  /** Dropping past a known front leaves the same suffix of the rest. */
  lemma DropFront(whole: string, front: string, rest: string, o: nat)
    requires whole == front + rest
    requires o <= |rest|
    ensures whole[|front| + o..] == rest[o..]
  {
  }

  /** A rendered integer followed by anything but a digit reads back as itself. */
  lemma IntReadsBack(i: int, rest: string)
    requires |rest| == 0 || !IsDigit(rest[0])
    ensures ParseIntPrefix(IntToString(i) + rest) == Some(i)
  {
    if i >= 0 {
      ParseNatToString(i, rest);
    } else {
      NegativeThenReadsBack(-i, rest);
    }
  }

  lemma NegativeThenReadsBack(k: nat, rest: string)
    requires k > 0
    requires |rest| == 0 || !IsDigit(rest[0])
    ensures ParseIntPrefix("-" + NatToString(k) + rest) == Some(-(k as int))
  {
    var digits := NatToString(k);
    var u := digits + rest;
    var r := "-" + u;
    assert "-" + digits + rest == r;
    TrimStartKeepsNonSpace(r);
    assert r[1..] == u;
    DigitRunOfDigitsThen(digits, rest);
    assert u[..|digits|] == digits;
    DigitsValueOfNatToString(k);
  }

  /** The text of the figure columns after the " | " in front of column `k`. */
  function AfterBar(s: Stats, k: nat): string
    requires k < 5
  {
    Bar(Cells(s))[BarOffset(Cells(s), k) + 3..]
  }

  /** Column `k` of the figures holds its cell, then the rest of the bar. */
  lemma AfterBarIsCell(s: Stats, k: nat)
    requires k < 5
    ensures AfterBar(s, k) == Cells(s)[k] + Bar(Cells(s)[k + 1..])
  {
    BarCell(Cells(s), k);
  }

  /** Matches played, wins, draws and losses, in the order the row shows them. */
  function Counter(s: Stats, k: nat): int
    requires k < 4
  {
    [s.matchesPlayed, s.wins, s.draws, s.losses][k]
  }

  /** Each of the first four figure columns reads back as its counter. */
  lemma CounterReadsBack(s: Stats, k: nat)
    requires k < 4
    ensures ParseIntPrefix(AfterBar(s, k)) == Some(Counter(s, k))
  {
    AfterBarIsCell(s, k);
    assert Cells(s)[k] == IntToString(Counter(s, k));
    IntReadsBack(Counter(s, k), Bar(Cells(s)[k + 1..]));
  }

  /** The last figure column reads back as the game difference. */
  lemma DiffColumnReadsBack(s: Stats)
    ensures s.gamesWon > s.gamesLost ==>
      AfterBar(s, 4)[..2] == "+ " && ParseIntPrefix(AfterBar(s, 4)[2..]) == Some(s.gamesWon - s.gamesLost)
    ensures s.gamesWon <= s.gamesLost ==>
      ParseIntPrefix(AfterBar(s, 4)) == Some(s.gamesWon - s.gamesLost)
  {
    var d := s.gamesWon - s.gamesLost;
    var t := AfterBar(s, 4);
    assert t == DiffText(d) + " " by {
      AfterBarIsCell(s, 4);
      assert Cells(s)[4] == DiffText(d) && Cells(s)[5..] == [];
    }
    if d > 0 {
      var digits := NatToString(d);
      assert t == "+ " + (digits + "  ");
      assert t[..2] == "+ " && t[2..] == digits + "  ";
      ParseNatToString(d, "  ");
    } else {
      assert t == IntToString(d) + "  ";
      IntReadsBack(d, "  ");
    }
  }

  /** The figures read back, in order, as the four counters and the game difference. */
  lemma FiguresReadBack(s: Stats)
    ensures forall k :: 0 <= k < 5 ==> Bar(Cells(s))[BarOffset(Cells(s), k)..][..3] == " | "
    ensures ParseIntPrefix(AfterBar(s, 0)) == Some(s.matchesPlayed)
    ensures ParseIntPrefix(AfterBar(s, 1)) == Some(s.wins)
    ensures ParseIntPrefix(AfterBar(s, 2)) == Some(s.draws)
    ensures ParseIntPrefix(AfterBar(s, 3)) == Some(s.losses)
    ensures s.gamesWon > s.gamesLost ==>
      AfterBar(s, 4)[..2] == "+ " && ParseIntPrefix(AfterBar(s, 4)[2..]) == Some(s.gamesWon - s.gamesLost)
    ensures s.gamesWon <= s.gamesLost ==>
      ParseIntPrefix(AfterBar(s, 4)) == Some(s.gamesWon - s.gamesLost)
  {
    forall k | 0 <= k < 5
      ensures Bar(Cells(s))[BarOffset(Cells(s), k)..][..3] == " | "
    {
      BarCell(Cells(s), k);
    }
    CounterReadsBack(s, 0);
    CounterReadsBack(s, 1);
    CounterReadsBack(s, 2);
    CounterReadsBack(s, 3);
    DiffColumnReadsBack(s);
  }

  /**
   * After the six-character name, a row's figure columns read back, in order,
   * as matches played, wins, draws, losses and the game difference (after its
   * "+ " when positive).
   */
  lemma RowReadsBack(p: Player)
    ensures Row(p)[6..] == Bar(Cells(p.stats))
    ensures ParseIntPrefix(AfterBar(p.stats, 0)) == Some(p.stats.matchesPlayed)
    ensures ParseIntPrefix(AfterBar(p.stats, 1)) == Some(p.stats.wins)
    ensures ParseIntPrefix(AfterBar(p.stats, 2)) == Some(p.stats.draws)
    ensures ParseIntPrefix(AfterBar(p.stats, 3)) == Some(p.stats.losses)
    ensures p.stats.gamesWon > p.stats.gamesLost ==>
      ParseIntPrefix(AfterBar(p.stats, 4)[2..]) == Some(p.stats.gamesWon - p.stats.gamesLost)
    ensures p.stats.gamesWon <= p.stats.gamesLost ==>
      ParseIntPrefix(AfterBar(p.stats, 4)) == Some(p.stats.gamesWon - p.stats.gamesLost)
  {
    FiguresReadBack(p.stats);
  }

  /** No character of the text is `c`. */
  predicate Free(s: string, c: char) {
    forall i :: 0 <= i < |s| ==> s[i] != c
  }

  lemma FreeConcat(a: string, b: string, c: char)
    requires Free(a, c) && Free(b, c)
    ensures Free(a + b, c)
  {
    forall i | 0 <= i < |a + b|
      ensures (a + b)[i] != c
    {
      if i >= |a| {
        assert (a + b)[i] == b[i - |a|];
      }
    }
  }

  lemma NumberIsFree(i: int)
    ensures Free(IntToString(i), '\n')
  {
    var n: nat := if i >= 0 then i else -i;
    var d := NatToString(n);
    assert Free(d, '\n');
    if i < 0 {
      FreeConcat("-", d, '\n');
    }
  }

  lemma NameIsFree(name: string)
    requires '\n' !in name
    ensures Free(NameField(name), '\n')
  {
    var f := NameField(name);
    forall k | 0 <= k < 6
      ensures f[k] != '\n'
    {
      if |name| <= 6 && k < |name| {
        assert f[..|name|][k] == f[k];
      } else if |name| > 6 && k < 5 {
        assert f[..5][k] == f[k];
      }
    }
  }

  lemma DiffIsFree(d: int)
    ensures Free(DiffText(d), '\n')
  {
    if d > 0 {
      var t := NatToString(d);
      assert Free(t, '\n');
      FreeConcat("+ ", t, '\n');
      FreeConcat("+ " + t, " ", '\n');
    } else {
      NumberIsFree(d);
      FreeConcat(IntToString(d), " ", '\n');
    }
  }

  lemma {:induction false} BarIsFree(cells: seq<string>)
    requires forall i :: 0 <= i < |cells| ==> Free(cells[i], '\n')
    ensures Free(Bar(cells), '\n')
  {
    if cells != [] {
      BarIsFree(cells[1..]);
      FreeConcat(cells[0], Bar(cells[1..]), '\n');
      FreeConcat(" | ", cells[0] + Bar(cells[1..]), '\n');
    }
  }

  /** A name without a line break gives a row without one. */
  lemma RowIsFree(p: Player)
    requires '\n' !in p.name
    ensures Free(Row(p), '\n')
  {
    var s := p.stats;
    NumberIsFree(s.matchesPlayed);
    NumberIsFree(s.wins);
    NumberIsFree(s.draws);
    NumberIsFree(s.losses);
    DiffIsFree(s.gamesWon - s.gamesLost);
    BarIsFree(Cells(s));
    NameIsFree(p.name);
    FreeConcat(NameField(p.name), Bar(Cells(s)), '\n');
  }

  // ---------------------------------------------------------------------
  // The whole leaderboard

  const Title := "[Leaderboard]"
  const Columns := "Name   | M | W | D | L | Game+/-"
  const Rule := "--------------------------------"

  /** The three heading lines. */
  const Headings: seq<string> := [Title, Columns, Rule]

  /** One row per player, in the given order. */
  function Rows(ranked: seq<Player>): (r: seq<string>)
    ensures |r| == |ranked|
    ensures forall k :: 0 <= k < |r| ==> r[k] == Row(ranked[k])
  {
    seq(|ranked|, k requires 0 <= k < |ranked| => Row(ranked[k]))
  }

  /** The lines of the leaderboard: the headings, then one row per player in ranking order. */
  function Lines(players: seq<Player>): (r: seq<string>)
    ensures |r| == |players| + 3
  {
    var ranked := PlayerUtils.SortPlayers(players);
    assert |multiset(ranked)| == |multiset(players)|;
    Headings + Rows(ranked)
  }

  lemma HeadingsAreFree()
    ensures forall k :: 0 <= k < |Headings| ==> Free(Headings[k], '\n')
  {
    assert Free(Title, '\n') && Free(Columns, '\n') && Free(Rule, '\n');
  }

  /** A ranked player's row is free of line breaks when every name is. */
  lemma RankedRowIsFree(players: seq<Player>, k: nat)
    requires forall i :: 0 <= i < |players| ==> '\n' !in players[i].name
    requires k < |PlayerUtils.SortPlayers(players)|
    ensures Free(Row(PlayerUtils.SortPlayers(players)[k]), '\n')
  {
    var p := PlayerUtils.SortPlayers(players)[k];
    assert p in multiset(players);
    var j :| 0 <= j < |players| && players[j] == p;
    RowIsFree(p);
  }

  /** Every line of the leaderboard is free of line breaks when the names are. */
  lemma {:induction false} LinesAreFree(players: seq<Player>)
    requires forall i :: 0 <= i < |players| ==> '\n' !in players[i].name
    ensures forall i :: 0 <= i < |Lines(players)| ==> Free(Lines(players)[i], '\n')
  {
    var rows := Rows(PlayerUtils.SortPlayers(players));
    var lines := Lines(players);
    assert lines == Headings + rows;
    HeadingsAreFree();
    forall i | 0 <= i < |lines|
      ensures Free(lines[i], '\n')
    {
      if i < 3 {
        assert lines[i] == Headings[i];
      } else {
        assert lines[i] == rows[i - 3];
        RankedRowIsFree(players, i - 3);
      }
    }
  }

  /** Each line followed by a line break, as `text +=` builds it. */
  function Terminated(lines: seq<string>): (r: string)
    ensures |r| >= |lines|
  {
    if lines == [] then [] else lines[0] + "\n" + Terminated(lines[1..])
  }

  /** `copyStatsText`. */
  function CopyStatsText(players: seq<Player>): (r: string)
    ensures |r| >= |players| + 3
  {
    Terminated(Lines(players))
  }

  /** The first separator after a separator-free head is the one right behind it. */
  lemma {:induction false} FirstIndexAfter(a: string, c: char, t: string)
    requires Free(a, c)
    ensures c in a + [c] + t && FirstIndex(a + [c] + t, c) == |a|
  {
    var s := a + [c] + t;
    assert s[|a|] == c;
    if a != [] {
      assert s[1..] == a[1..] + [c] + t;
      FirstIndexAfter(a[1..], c, t);
    }
  }

  /** Splitting at the first separator cuts off the head. */
  lemma SplitStep(a: string, c: char, t: string)
    requires Free(a, c)
    ensures SplitOn(a + [c] + t, c) == [a] + SplitOn(t, c)
  {
    var s := a + [c] + t;
    FirstIndexAfter(a, c, t);
    assert s[..|a|] == a && s[|a| + 1..] == t;
  }

  /** Splitting terminated lines at line breaks gives the lines back, and one empty piece. */
  lemma {:induction false} SplitTerminated(lines: seq<string>)
    requires forall i :: 0 <= i < |lines| ==> Free(lines[i], '\n')
    ensures SplitOn(Terminated(lines), '\n') == lines + [""]
    decreases |lines|
  {
    if lines == [] {
      assert '\n' !in Terminated(lines);
    } else {
      var a, rest := lines[0], Terminated(lines[1..]);
      assert Terminated(lines) == a + ['\n'] + rest;
      SplitStep(a, '\n', rest);
      SplitTerminated(lines[1..]);
      assert lines == [a] + lines[1..];
    }
  }

  /**
   * Read back line by line, the copied text is the three heading lines, then
   * one row per player in `sortPlayers` order, then the empty piece after the
   * last line break.
   */
  lemma {:induction false} LeaderboardLines(players: seq<Player>)
    requires forall i :: 0 <= i < |players| ==> '\n' !in players[i].name
    ensures var ls := SplitOn(CopyStatsText(players), '\n');
      var ranked := PlayerUtils.SortPlayers(players);
      |ls| == |players| + 4 && |ranked| == |players| &&
      ls[..3] == Headings && ls[|players| + 3] == "" &&
      forall i :: 0 <= i < |players| ==> ls[i + 3] == Row(ranked[i])
  {
    var ranked := PlayerUtils.SortPlayers(players);
    var lines := Lines(players);
    LinesAreFree(players);
    SplitTerminated(lines);
    var ls := lines + [""];
    assert ls[..3] == lines[..3];
    forall i | 0 <= i < |players|
      ensures ls[i + 3] == Row(ranked[i])
    {
      assert ls[i + 3] == lines[i + 3];
    }
  }
}
