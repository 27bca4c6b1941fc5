/**
 * Today's games on the home page and the lineup deadline on the fantasy
 * predictions page.
 *
 * Times are whole minutes since 1970-01-01 00:00. A parsed `Heure` value
 * is either naive (a wall clock with no zone) or zone-aware (a wall clock
 * with its zone's offset from UTC). The Paris zone is a parameter giving,
 * for each UTC instant, Paris' offset from UTC in minutes; "now" is a
 * parameter too. A calendar date is a day number: the wall clock divided
 * by the minutes of a day, rounded down.
 */
module Schedule {
  import opened Wrappers
  import opened Sequences
  import ClockText

  /** A parsed `Heure` value. */
  datatype Stamp =
    | Naive(wall: int)
    | Aware(wall: int, offset: int)

  /**
   * A schedule row: the parsed `Date` (a day number, None for a missing
   * date), the parsed `Heure` (None for a missing time), the teams and
   * the arena.
   */
  datatype Game = Game(date: Option<int>, heure: Option<Stamp>, away: string, home: string, arena: string)

  /** Paris' offset from UTC, in minutes, at each UTC instant. */
  type Zone = int -> int

  /** A moment shown on Paris' clock: the `Heure_paris` column. */
  datatype ParisTime = ParisTime(instant: int, offset: int) {
    function Wall(): int {
      instant + offset
    }
  }

  /** A row of today's games: the schedule row with its `Heure_paris`. */
  datatype TodayGame = TodayGame(game: Game, paris: ParisTime)

  /**
   * The UTC instant of a parsed time: a naive time is read as UTC
   * (localized to UTC); an aware one is the moment it denotes.
   */
  function Instant(s: Stamp): int {
    match s
    case Naive(w) => w
    case Aware(w, o) => w - o
  }

  /** Conversion to the Paris zone: the same instant, with Paris' offset attached. */
  function InParis(instant: int, paris: Zone): (p: ParisTime)
    ensures p.instant == instant
    ensures p.Wall() - p.offset == instant && p.offset == paris(instant)
  {
    ParisTime(instant, paris(instant))
  }

  /** The calendar date of a wall clock. */
  function Day(wall: int): int {
    wall / ClockText.MinutesPerDay
  }

  /** Today's date in Paris at the instant `now`. */
  function Today(now: int, paris: Zone): int {
    Day(InParis(now, paris).Wall())
  }

  /**
   * The `Heure` column holds both naive and aware values, which
   * the datetime parser refuses with an exception.
   */
  predicate ZonesMixed(games: seq<Game>) {
    (exists i :: 0 <= i < |games| && games[i].heure.Some? && games[i].heure.value.Naive?) &&
    (exists i :: 0 <= i < |games| && games[i].heure.Some? && games[i].heure.value.Aware?)
  }

  /** The raw `Date` is Paris' today or tomorrow. */
  predicate InWindow(g: Game, today: int) {
    g.date == Some(today) || g.date == Some(today + 1)
  }

  /** The game has a time, and that time falls on `today` on Paris' clock. */
  predicate OnParisDay(g: Game, today: int, paris: Zone) {
    g.heure.Some? && Day(InParis(Instant(g.heure.value), paris).Wall()) == today
  }

  /** Adds the `Heure_paris` column to rows that all have a time. */
  function Attach(games: seq<Game>, paris: Zone): (r: seq<TodayGame>)
    requires forall i :: 0 <= i < |games| ==> games[i].heure.Some?
    ensures |r| == |games|
    ensures forall i :: 0 <= i < |r| ==>
      r[i].game == games[i] && r[i].paris == InParis(Instant(games[i].heure.value), paris)
  {
    seq(|games|, i requires 0 <= i < |games| => TodayGame(games[i], InParis(Instant(games[i].heure.value), paris)))
  }

  /**
   * The Paris clock shown for a parsed time. A naive time is read as UTC,
   * so Paris' wall clock is that time moved by Paris' offset. An aware time
   * is first taken back to UTC with its own offset, so one already written
   * in Paris' offset keeps its wall clock. Either way the instant is kept.
   */
  lemma ParisWallShift(s: Stamp, paris: Zone)
    ensures InParis(Instant(s), paris).instant == Instant(s)
    ensures s.Naive? ==> InParis(Instant(s), paris).Wall() == s.wall + paris(s.wall)
    ensures s.Aware? ==>
      InParis(Instant(s), paris).Wall() == s.wall - s.offset + paris(s.wall - s.offset)
    ensures s.Aware? && s.offset == paris(s.wall - s.offset) ==>
      InParis(Instant(s), paris).Wall() == s.wall
  {
  }

  /** The schedule rows behind rows of today's games. */
  function Games(r: seq<TodayGame>): seq<Game> {
    seq(|r|, i requires 0 <= i < |r| => r[i].game)
  }

  /**
   * Adding the `Heure_paris` column changes no schedule row and keeps their
   * order: dropping the column again gives back the rows.
   */
  lemma AttachKeepsRows(games: seq<Game>, paris: Zone)
    requires forall i :: 0 <= i < |games| ==> games[i].heure.Some?
    ensures Games(Attach(games, paris)) == games
  {
  }

  ghost predicate SortedByInstant(s: seq<TodayGame>) {
    forall i, j :: 0 <= i < j < |s| ==> s[i].paris.instant <= s[j].paris.instant
  }

  function InsertByInstant(x: TodayGame, s: seq<TodayGame>): (r: seq<TodayGame>)
    ensures multiset(r) == multiset(s) + multiset{x}
  {
    if s == [] then [x]
    else if x.paris.instant <= s[0].paris.instant then [x] + s
    else
      assert s == [s[0]] + s[1..];
      [s[0]] + InsertByInstant(x, s[1..])
  }

  /** Inserting keeps every lower bound shared by `x` and the rows of `s`. */
  lemma {:induction false} InsertByInstantBound(x: TodayGame, s: seq<TodayGame>, bound: int)
    requires bound <= x.paris.instant
    requires forall k :: 0 <= k < |s| ==> bound <= s[k].paris.instant
    ensures forall k :: 0 <= k < |InsertByInstant(x, s)| ==> bound <= InsertByInstant(x, s)[k].paris.instant
  {
    if s != [] && x.paris.instant > s[0].paris.instant {
      InsertByInstantBound(x, s[1..], bound);
    }
  }

  lemma {:induction false} InsertByInstantSorted(x: TodayGame, s: seq<TodayGame>)
    requires SortedByInstant(s)
    ensures SortedByInstant(InsertByInstant(x, s))
  {
    if s != [] && x.paris.instant > s[0].paris.instant {
      InsertByInstantSorted(x, s[1..]);
      InsertByInstantBound(x, s[1..], s[0].paris.instant);
      var rest := InsertByInstant(x, s[1..]);
      var r := [s[0]] + rest;
      forall i, j | 0 <= i < j < |r| ensures r[i].paris.instant <= r[j].paris.instant {
        assert r[j] == rest[j - 1];
        if i > 0 {
          assert r[i] == rest[i - 1];
        }
      }
    }
  }

  /**
   * Sorting on `Heure_paris` rearranges the rows: the result is a
   * permutation of them.
   */
  function SortByInstant(s: seq<TodayGame>): (r: seq<TodayGame>)
    ensures multiset(r) == multiset(s)
  {
    if s == [] then []
    else
      assert s == [s[0]] + s[1..];
      InsertByInstant(s[0], SortByInstant(s[1..]))
  }

  /**
   * The sorted rows are in non-decreasing order of instant. The default
   * sort is not stable, so nothing is promised about the order of rows at
   * the same instant.
   */
  lemma {:induction false} SortByInstantSorted(s: seq<TodayGame>)
    ensures SortedByInstant(SortByInstant(s))
  {
    if s != [] {
      SortByInstantSorted(s[1..]);
      InsertByInstantSorted(s[0], SortByInstant(s[1..]));
    }
  }

  /**
   * `get_today_games`: the games of Paris' today, ordered by time. A load
   * failure (`loaded` is None) or an unparseable `Heure` column is caught
   * and gives no games.
   */
  function TodayGames(loaded: Option<seq<Game>>, now: int, paris: Zone): seq<TodayGame> {
    match loaded
    case None => []
    case Some(games) =>
      if ZonesMixed(games) then []
      else
        var today := Today(now, paris);
        var window := Filter(games, (g: Game) => InWindow(g, today));
        var sameDay := Filter(window, (g: Game) => OnParisDay(g, today, paris));
        SortByInstant(Attach(sameDay, paris))
  }

  /** A schedule row counts as today's game. */
  predicate Qualifies(g: Game, today: int, paris: Zone) {
    InWindow(g, today) && OnParisDay(g, today, paris)
  }

  /**
   * Today's games are the schedule rows whose raw date is Paris' today or
   * tomorrow and whose time falls on Paris' today, each once per time it
   * is scheduled, with its time shown on Paris' clock, in order of time.
   */
  lemma TodayGamesSpec(games: seq<Game>, now: int, paris: Zone)
    requires !ZonesMixed(games)
    ensures var today := Today(now, paris);
      var qualifying := Filter(games, (g: Game) => Qualifies(g, today, paris));
      multiset(TodayGames(Some(games), now, paris)) == multiset(Attach(qualifying, paris)) &&
      SortedByInstant(TodayGames(Some(games), now, paris))
  {
    var today := Today(now, paris);
    var window := Filter(games, (g: Game) => InWindow(g, today));
    var sameDay := Filter(window, (g: Game) => OnParisDay(g, today, paris));
    SortByInstantSorted(Attach(sameDay, paris));
    FilterThenFilter(games, (g: Game) => InWindow(g, today), (g: Game) => OnParisDay(g, today, paris),
      (g: Game) => Qualifies(g, today, paris));
  }

  /**
   * Every game shown is a schedule row whose raw date is today or tomorrow,
   * whose Paris date is today, and whose `Heure_paris` is its own instant
   * with Paris' offset at that instant.
   */
  lemma TodayGamesSound(loaded: Option<seq<Game>>, now: int, paris: Zone)
    ensures forall r :: r in TodayGames(loaded, now, paris) ==>
      loaded.Some? && r.game in loaded.value &&
      Qualifies(r.game, Today(now, paris), paris) &&
      r.paris == InParis(Instant(r.game.heure.value), paris) &&
      Day(r.paris.Wall()) == Today(now, paris)
  {
    if loaded.Some? && !ZonesMixed(loaded.value) {
      var games := loaded.value;
      var today := Today(now, paris);
      var window := Filter(games, (g: Game) => InWindow(g, today));
      var sameDay := Filter(window, (g: Game) => OnParisDay(g, today, paris));
      var attached := Attach(sameDay, paris);
      forall r | r in TodayGames(loaded, now, paris)
        ensures r.game in games && Qualifies(r.game, today, paris)
        ensures r.paris == InParis(Instant(r.game.heure.value), paris)
      {
        assert r in multiset(attached);
        var i :| 0 <= i < |attached| && attached[i] == r;
        assert sameDay[i] in window;
      }
    }
  }

  /**
   * Every schedule row that qualifies is shown. A row whose time falls on
   * Paris' today but whose raw date is yesterday is not: the raw date
   * pre-selection runs first.
   */
  lemma TodayGamesComplete(games: seq<Game>, now: int, paris: Zone, g: Game)
    requires !ZonesMixed(games) && g in games
    ensures (exists r :: r in TodayGames(Some(games), now, paris) && r.game == g)
      <==> Qualifies(g, Today(now, paris), paris)
  {
    var today := Today(now, paris);
    TodayGamesSound(Some(games), now, paris);
    if Qualifies(g, today, paris) {
      var qualifying := Filter(games, (x: Game) => Qualifies(x, today, paris));
      TodayGamesSpec(games, now, paris);
      var i :| 0 <= i < |games| && games[i] == g;
      var j :| 0 <= j < |qualifying| && qualifying[j] == g;
      var attached := Attach(qualifying, paris);
      assert attached[j] in multiset(attached);
      assert attached[j] in TodayGames(Some(games), now, paris);
    }
  }

  /** A game whose raw date is yesterday is never shown, whatever its time. */
  lemma RawDateYesterdayExcluded(loaded: Option<seq<Game>>, now: int, paris: Zone, g: Game)
    requires g.date == Some(Today(now, paris) - 1)
    ensures forall r :: r in TodayGames(loaded, now, paris) ==> r.game != g
  {
    TodayGamesSound(loaded, now, paris);
  }

  /** The calendar date of a game's time on Paris' clock. */
  function ParisDay(s: Stamp, paris: Zone): int {
    Day(InParis(Instant(s), paris).Wall())
  }

  /**
   * On whatever day it is looked at, a game is shown only if its raw date
   * equals its Paris date or the day after it. A game whose Paris date is
   * the day after its raw date (an evening game in the Americas) is never
   * shown.
   */
  lemma ShownOnlyIfRawDateNotBehind(loaded: Option<seq<Game>>, now: int, paris: Zone, r: TodayGame)
    requires r in TodayGames(loaded, now, paris)
    ensures r.game.heure.Some?
    ensures var d := ParisDay(r.game.heure.value, paris);
      r.game.date == Some(d) || r.game.date == Some(d + 1)
  {
    TodayGamesSound(loaded, now, paris);
    QualifiesOnParisDay(r.game, Today(now, paris), paris);
  }

  lemma QualifiesOnParisDay(g: Game, today: int, paris: Zone)
    requires Qualifies(g, today, paris)
    ensures g.heure.Some? && ParisDay(g.heure.value, paris) == today
    ensures g.date == Some(today) || g.date == Some(today + 1)
  {
  }

  /**
   * A game at 23:30 US Eastern daylight time (UTC-4) on day 20000, with
   * Paris at UTC+2, is at 05:30 on day 20001 in Paris: it is not among the
   * games of day 20000, nor, its raw date then being yesterday, of day 20001.
   */
  lemma LateEasternGameExample()
    ensures var paris := (i: int) => 120;
      var g := Game(Some(20000), Some(Aware(20000 * 1440 + 23 * 60 + 30, -240)), "Lakers", "Knicks", "Madison Square Garden");
      ParisDay(g.heure.value, paris) == 20001 &&
      TodayGames(Some([g]), 20000 * 1440 + 600, paris) == [] &&
      TodayGames(Some([g]), 20001 * 1440 + 600, paris) == []
  {
    var paris := (i: int) => 120;
    var g := Game(Some(20000), Some(Aware(20000 * 1440 + 23 * 60 + 30, -240)), "Lakers", "Knicks", "Madison Square Garden");
    assert Day(20000 * 1440 + 23 * 60 + 30 + 240 + 120) == 20001;
    assert ParisDay(g.heure.value, paris) == 20001;
    assert !ZonesMixed([g]);
    NothingQualifies([g], 20000 * 1440 + 600, paris);
    NothingQualifies([g], 20001 * 1440 + 600, paris);
  }

  /** With no qualifying row there is no game today. */
  lemma NothingQualifies(games: seq<Game>, now: int, paris: Zone)
    requires !ZonesMixed(games)
    requires forall i :: 0 <= i < |games| ==> !Qualifies(games[i], Today(now, paris), paris)
    ensures TodayGames(Some(games), now, paris) == []
  {
    var today := Today(now, paris);
    TodayGamesSpec(games, now, paris);
    FilterKeepsNone(games, (g: Game) => Qualifies(g, today, paris));
    assert |multiset(TodayGames(Some(games), now, paris))| == 0;
  }

  /** `get_first_game_time`: the Paris `HH:MM` of the first of today's games. */
  function FirstGameTime(loaded: Option<seq<Game>>, now: int, paris: Zone): Option<string> {
    var today := TodayGames(loaded, now, paris);
    if today == [] then None else Some(ClockText.Format(today[0].paris.Wall()))
  }

  /**
   * The deadline is absent exactly when there is no game today (a failed
   * load included); otherwise it is the Paris clock time of a game at the
   * earliest instant among today's games.
   */
  lemma FirstGameTimeSpec(loaded: Option<seq<Game>>, now: int, paris: Zone)
    ensures FirstGameTime(loaded, now, paris).None? <==> TodayGames(loaded, now, paris) == []
    ensures loaded.None? ==> FirstGameTime(loaded, now, paris).None?
    ensures FirstGameTime(loaded, now, paris).Some? ==>
      var games := TodayGames(loaded, now, paris);
      exists r :: r in games &&
        FirstGameTime(loaded, now, paris).value == ClockText.Format(r.paris.Wall()) &&
        ClockText.Parse(FirstGameTime(loaded, now, paris).value) == Some(r.paris.Wall() % ClockText.MinutesPerDay) &&
        forall q :: q in games ==> r.paris.instant <= q.paris.instant
  {
    var games := TodayGames(loaded, now, paris);
    if games != [] {
      TodayGamesSpec(loaded.value, now, paris);
      var r := games[0];
      forall q | q in games ensures r.paris.instant <= q.paris.instant {
        var j :| 0 <= j < |games| && games[j] == q;
      }
      ClockText.ParseFormat(r.paris.Wall());
      assert r in games;
    }
  }

  /** Every game of Paris' today is an instant no earlier than the start of that day. */
  lemma DeadlineWithinToday(loaded: Option<seq<Game>>, now: int, paris: Zone)
    requires FirstGameTime(loaded, now, paris).Some?
    ensures var first := TodayGames(loaded, now, paris)[0];
      Today(now, paris) * ClockText.MinutesPerDay <= first.paris.Wall() < (Today(now, paris) + 1) * ClockText.MinutesPerDay
  {
    TodayGamesSound(loaded, now, paris);
    var first := TodayGames(loaded, now, paris)[0];
    assert first in TodayGames(loaded, now, paris);
  }

  /**
   * `format_game_display`: "HH:MM - away @ home - arena", the time taken
   * from `Heure_paris` when the row has it and otherwise from the raw
   * `Heure` on its own clock. A row without either time makes the
   * formatting raise (None).
   */
  function GameCard(g: Game, paris: Option<ParisTime>): Option<string> {
    var time :=
      match paris
      case Some(p) => Some(ClockText.Format(p.Wall()))
      case None =>
        match g.heure
        case Some(s) => Some(ClockText.Format(s.wall))
        case None => None;
    match time
    case None => None
    case Some(t) => Some(t + " - " + g.away + " @ " + g.home + " - " + g.arena)
  }

  /**
   * A row that has `Heure_paris` shows it: the card begins with that time
   * on Paris' clock, read back as that minute of the day, followed by
   * " - " and the away team.
   */
  lemma CardShowsParisTime(g: Game, p: ParisTime)
    ensures GameCard(g, Some(p)).Some?
    ensures var card := GameCard(g, Some(p)).value;
      |card| >= 8 + |g.away| &&
      ClockText.Parse(card[..5]) == Some(p.Wall() % ClockText.MinutesPerDay) &&
      card[5..8 + |g.away|] == " - " + g.away
  {
    var t := ClockText.Format(p.Wall());
    ClockText.ParseFormat(p.Wall());
    var card := GameCard(g, Some(p)).value;
    var head := t + " - " + g.away;
    assert card == head + (" @ " + g.home + " - " + g.arena);
    assert card[..|head|] == head;
    assert head[..5] == t && head[5..] == " - " + g.away;
  }

  /** Without `Heure_paris` a card can be drawn exactly when the raw time is present. */
  lemma CardWithoutParisTime(g: Game)
    ensures GameCard(g, None).Some? <==> g.heure.Some?
    ensures g.heure.Some? ==>
      ClockText.Parse(GameCard(g, None).value[..5]) == Some(g.heure.value.wall % ClockText.MinutesPerDay)
  {
    if g.heure.Some? {
      ClockText.ParseFormat(g.heure.value.wall);
      assert GameCard(g, None).value[..5] == ClockText.Format(g.heure.value.wall);
    }
  }
}
