/**
 * The rows of the ladder and the effect of one predicted result on one row.
 *
 * A row holds the columns Club, P, W, D, L, GF, GA, GD, PTS and the form
 * history. Every cell update of update_ladder selects rows by club name, so a
 * row's new value depends only on its own old value and on the result; this
 * module gives that per-row effect (UpdateRow) and what it promises.
 */
module Records {

  /** One entry of a club's form history, from that club's point of view. */
  datatype Outcome = Win | Draw | Loss

  /** A scheduled match: round number, match number, home club, away club. */
  datatype Fixture = Fixture(round: int, matchNumber: int, home: string, away: string)

  /** A predicted result (home club, away club, home score, away score). */
  datatype MatchResult = MatchResult(home: string, away: string, homeScore: int, awayScore: int)

  /** One ladder row; `form` is the append-only history of outcomes. */
  datatype Team = Team(
    club: string,
    played: int, won: int, drawn: int, lost: int,
    goalsFor: int, goalsAgainst: int, goalDiff: int,
    points: int,
    form: seq<Outcome>)

  /** A row as the ladder is created: every counter zero, empty form. */
  function NewTeam(club: string): Team
  {
    Team(club, 0, 0, 0, 0, 0, 0, 0, 0, [])
  }

  /** Strict comparison of the two scores, from the side that scored `scored`. */
  function OutcomeOf(scored: int, conceded: int): Outcome
  {
    if scored > conceded then Win else if scored < conceded then Loss else Draw
  }

  /** Points a club earns for an outcome. */
  function PointsFor(o: Outcome): nat
  {
    match o
    case Win => 3
    case Draw => 1
    case Loss => 0
  }

  /** The cells one side of a match changes: P, GF, GA, one of W/D/L, PTS and the form. */
  function Credit(t: Team, scored: int, conceded: int): Team
  {
    var o := OutcomeOf(scored, conceded);
    var u := t.(played := t.played + 1,
                goalsFor := t.goalsFor + scored,
                goalsAgainst := t.goalsAgainst + conceded,
                points := t.points + PointsFor(o),
                form := t.form + [o]);
    match o
    case Win => u.(won := u.won + 1)
    case Draw => u.(drawn := u.drawn + 1)
    case Loss => u.(lost := u.lost + 1)
  }

  /**
   * The new value of one row after one result: the row is credited as the
   * home side when its club is the home club, then as the away side when its
   * club is the away club (both, when the two names coincide), and finally
   * its goal difference is recomputed, as it is for every row.
   */
  function UpdateRow(t: Team, m: MatchResult): Team
  {
    var asHome := if t.club == m.home then Credit(t, m.homeScore, m.awayScore) else t;
    var asAway := if t.club == m.away then Credit(asHome, m.awayScore, m.homeScore) else asHome;
    asAway.(goalDiff := asAway.goalsFor - asAway.goalsAgainst)
  }

  /**
   * The ladder's arithmetic invariant for one row: P = W + D + L,
   * PTS = 3W + D, GD = GF - GA, and the form holds exactly W wins,
   * D draws and L losses.
   */
  predicate Consistent(t: Team)
  {
    Tallied(t) && t.goalDiff == t.goalsFor - t.goalsAgainst
  }

  /** The part of the invariant that does not involve the goal difference. */
  predicate Tallied(t: Team)
  {
    && t.played == t.won + t.drawn + t.lost
    && t.points == 3 * t.won + t.drawn
    && multiset(t.form)[Win] == t.won
    && multiset(t.form)[Draw] == t.drawn
    && multiset(t.form)[Loss] == t.lost
  }

  /** Counters that cannot go negative when no score is negative. */
  predicate NonNegative(t: Team)
  {
    t.played >= 0 && t.won >= 0 && t.drawn >= 0 && t.lost >= 0 &&
    t.goalsFor >= 0 && t.goalsAgainst >= 0 && t.points >= 0
  }

  /** The Club column, in row order. */
  function Clubs(rows: seq<Team>): seq<string>
  {
    seq(|rows|, i requires 0 <= i < |rows| => rows[i].club)
  }

  predicate Distinct<T(==)>(s: seq<T>)
  {
    forall i, j :: 0 <= i < j < |s| ==> s[i] != s[j]
  }

  /** Every club named as home or away side in the fixture list. */
  function FixtureClubs(fixtures: seq<Fixture>): set<string>
  {
    if fixtures == [] then {}
    else
      var f := fixtures[|fixtures| - 1];
      FixtureClubs(fixtures[..|fixtures| - 1]) + {f.home, f.away}
  }

  /** A fresh row satisfies the invariant and has no negative counter. */
  lemma NewTeamConsistent(club: string)
    ensures Consistent(NewTeam(club)) && NonNegative(NewTeam(club))
    ensures NewTeam(club).club == club && NewTeam(club).form == []
  {
  }

  /** The form of a consistent row has one entry per match played. */
  lemma {:induction false} FormLength(t: Team)
    requires Consistent(t)
    ensures |t.form| == t.played
  {
    OutcomeCounts(t.form);
  }

  /** Every entry of a form history is a win, a draw or a loss. */
  lemma {:induction false} OutcomeCounts(s: seq<Outcome>)
    ensures |s| == multiset(s)[Win] + multiset(s)[Draw] + multiset(s)[Loss]
  {
    if s != [] {
      OutcomeCounts(s[1..]);
      assert s == [s[0]] + s[1..];
      assert multiset(s) == multiset{s[0]} + multiset(s[1..]);
      match s[0]
      case Win =>
      case Draw =>
      case Loss =>
    }
  }

  /** The home club of a result between two different clubs. */
  lemma HomeRow(t: Team, m: MatchResult)
    requires t.club == m.home && m.home != m.away
    ensures var u := UpdateRow(t, m);
      && u.club == t.club
      && u.played == t.played + 1
      && u.goalsFor == t.goalsFor + m.homeScore
      && u.goalsAgainst == t.goalsAgainst + m.awayScore
      && u.goalDiff == u.goalsFor - u.goalsAgainst
      && (m.homeScore > m.awayScore ==>
            u.won == t.won + 1 && u.drawn == t.drawn && u.lost == t.lost &&
            u.points == t.points + 3 && u.form == t.form + [Win])
      && (m.homeScore < m.awayScore ==>
            u.won == t.won && u.drawn == t.drawn && u.lost == t.lost + 1 &&
            u.points == t.points && u.form == t.form + [Loss])
      && (m.homeScore == m.awayScore ==>
            u.won == t.won && u.drawn == t.drawn + 1 && u.lost == t.lost &&
            u.points == t.points + 1 && u.form == t.form + [Draw])
  {
  }

  /** The away club of a result between two different clubs: the mirror image. */
  lemma AwayRow(t: Team, m: MatchResult)
    requires t.club == m.away && m.home != m.away
    ensures var u := UpdateRow(t, m);
      && u.club == t.club
      && u.played == t.played + 1
      && u.goalsFor == t.goalsFor + m.awayScore
      && u.goalsAgainst == t.goalsAgainst + m.homeScore
      && u.goalDiff == u.goalsFor - u.goalsAgainst
      && (m.homeScore < m.awayScore ==>
            u.won == t.won + 1 && u.drawn == t.drawn && u.lost == t.lost &&
            u.points == t.points + 3 && u.form == t.form + [Win])
      && (m.homeScore > m.awayScore ==>
            u.won == t.won && u.drawn == t.drawn && u.lost == t.lost + 1 &&
            u.points == t.points && u.form == t.form + [Loss])
      && (m.homeScore == m.awayScore ==>
            u.won == t.won && u.drawn == t.drawn + 1 && u.lost == t.lost &&
            u.points == t.points + 1 && u.form == t.form + [Draw])
  {
  }

  /** A row whose club is on neither side keeps every cell, its GD included, once it is consistent. */
  lemma UninvolvedRow(t: Team, m: MatchResult)
    requires t.club != m.home && t.club != m.away
    ensures UpdateRow(t, m) == t.(goalDiff := t.goalsFor - t.goalsAgainst)
    ensures Consistent(t) ==> UpdateRow(t, m) == t
  {
  }

  /**
   * A result naming the same club on both sides updates that one row twice:
   * it plays two matches, scores and concedes both scores, and gets a win and
   * a loss (3 points) or two draws (2 points).
   */
  lemma SameClubRow(t: Team, m: MatchResult)
    requires t.club == m.home && m.home == m.away
    ensures var u := UpdateRow(t, m);
      && u.club == t.club
      && u.played == t.played + 2
      && u.goalsFor == t.goalsFor + m.homeScore + m.awayScore
      && u.goalsAgainst == t.goalsAgainst + m.homeScore + m.awayScore
      && u.goalDiff == u.goalsFor - u.goalsAgainst
      && (m.homeScore > m.awayScore ==>
            u.won == t.won + 1 && u.lost == t.lost + 1 && u.drawn == t.drawn &&
            u.points == t.points + 3 && u.form == t.form + [Win, Loss])
      && (m.homeScore < m.awayScore ==>
            u.won == t.won + 1 && u.lost == t.lost + 1 && u.drawn == t.drawn &&
            u.points == t.points + 3 && u.form == t.form + [Loss, Win])
      && (m.homeScore == m.awayScore ==>
            u.drawn == t.drawn + 2 && u.won == t.won && u.lost == t.lost &&
            u.points == t.points + 2 && u.form == t.form + [Draw, Draw])
  {
  }

  /** One result keeps the arithmetic invariant of every row, whatever the names and scores. */
  lemma UpdateRowConsistent(t: Team, m: MatchResult)
    requires Consistent(t)
    ensures Consistent(UpdateRow(t, m))
    ensures UpdateRow(t, m).club == t.club
  {
    var asHome := if t.club == m.home then Credit(t, m.homeScore, m.awayScore) else t;
    CreditTallied(t, m.homeScore, m.awayScore);
    CreditTallied(asHome, m.awayScore, m.homeScore);
  }

  /** Crediting one side of a match keeps P = W + D + L, PTS = 3W + D and the form counts. */
  lemma CreditTallied(t: Team, scored: int, conceded: int)
    requires Tallied(t)
    ensures Tallied(Credit(t, scored, conceded)) && Credit(t, scored, conceded).club == t.club
  {
    var o := OutcomeOf(scored, conceded);
    assert multiset(t.form + [o]) == multiset(t.form) + multiset{o};
  }

  /** With scores that are not negative, no counter of a row goes negative. */
  lemma UpdateRowNonNegative(t: Team, m: MatchResult)
    requires NonNegative(t) && m.homeScore >= 0 && m.awayScore >= 0
    ensures NonNegative(UpdateRow(t, m))
  {
  }

  /** An element occurs at most once in a duplicate-free sequence. */
  lemma {:induction false} DistinctMultiplicity<T>(s: seq<T>, x: T)
    requires Distinct(s)
    ensures multiset(s)[x] <= 1
  {
    if s != [] {
      assert s == [s[0]] + s[1..];
      DistinctMultiplicity(s[1..], x);
      assert x == s[0] ==> x !in s[1..];
    }
  }

  /** A permutation of a duplicate-free sequence is duplicate-free. */
  lemma DistinctPermutation<T>(a: seq<T>, b: seq<T>)
    requires Distinct(a) && multiset(a) == multiset(b)
    ensures Distinct(b)
  {
    forall i, j | 0 <= i < j < |b|
      ensures b[i] != b[j]
    {
      assert b == b[..i] + [b[i]] + b[i + 1..j] + [b[j]] + b[j + 1..];
      DistinctMultiplicity(a, b[i]);
    }
  }
}
