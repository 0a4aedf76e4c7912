/**
 * The whole ladder as a sequence of rows: its creation from a list of clubs,
 * the effect of one result on every row, the fold over an ordered list of
 * results, and what these keep invariant.
 */
module Table {
  import opened Records

  predicate AllConsistent(rows: seq<Team>)
  {
    forall i :: 0 <= i < |rows| ==> Consistent(rows[i])
  }

  predicate AllNonNegative(rows: seq<Team>)
  {
    forall i :: 0 <= i < |rows| ==> NonNegative(rows[i])
  }

  /** A result whose two clubs both have a row (they may be the same club). */
  predicate Known(clubs: seq<string>, m: MatchResult)
  {
    m.home in clubs && m.away in clubs
  }

  /** The ladder as created: one all-zero row per club, in the given order. */
  function InitialLadder(clubs: seq<string>): (rows: seq<Team>)
    ensures Clubs(rows) == clubs
    ensures AllConsistent(rows) && AllNonNegative(rows)
    ensures forall i :: 0 <= i < |rows| ==>
      rows[i].played == 0 && rows[i].points == 0 && rows[i].goalsFor == 0 &&
      rows[i].goalsAgainst == 0 && rows[i].form == []
  {
    seq(|clubs|, i requires 0 <= i < |clubs| => NewTeam(clubs[i]))
  }

  /** Every row after one result. */
  function Apply(rows: seq<Team>, m: MatchResult): seq<Team>
  {
    seq(|rows|, i requires 0 <= i < |rows| => UpdateRow(rows[i], m))
  }

  /** The ladder after the results, applied in the order given. */
  function ApplyAll(rows: seq<Team>, results: seq<MatchResult>): seq<Team>
    decreases |results|
  {
    if results == [] then rows else ApplyAll(Apply(rows, results[0]), results[1..])
  }

  /** Points handed out by one result: 3 for a decisive result, 2 for a draw. */
  function ResultPoints(m: MatchResult): nat
  {
    if m.homeScore == m.awayScore then 2 else 3
  }

  /** Points handed out by a list of results. */
  function MatchPoints(results: seq<MatchResult>): nat
  {
    if results == [] then 0 else ResultPoints(results[0]) + MatchPoints(results[1..])
  }

  function TotalPoints(rows: seq<Team>): int
  {
    if rows == [] then 0 else rows[0].points + TotalPoints(rows[1..])
  }

  function TotalPlayed(rows: seq<Team>): int
  {
    if rows == [] then 0 else rows[0].played + TotalPlayed(rows[1..])
  }

  function TotalGoalDiff(rows: seq<Team>): int
  {
    if rows == [] then 0 else rows[0].goalDiff + TotalGoalDiff(rows[1..])
  }

  /**
   * The outcomes club `c` collects from the results, in order: its outcome as
   * home side, then as away side, for every result that names it.
   */
  function FormOf(c: string, results: seq<MatchResult>): seq<Outcome>
  {
    if results == [] then []
    else
      var m := results[0];
      (if c == m.home then [OutcomeOf(m.homeScore, m.awayScore)] else []) +
      (if c == m.away then [OutcomeOf(m.awayScore, m.homeScore)] else []) +
      FormOf(c, results[1..])
  }

  /** One result renames no club, adds and removes no row, and keeps every row consistent. */
  lemma ApplyKeeps(rows: seq<Team>, m: MatchResult)
    ensures Clubs(Apply(rows, m)) == Clubs(rows)
    ensures AllConsistent(rows) ==> AllConsistent(Apply(rows, m))
    ensures AllNonNegative(rows) && m.homeScore >= 0 && m.awayScore >= 0 ==>
      AllNonNegative(Apply(rows, m))
  {
    forall i | 0 <= i < |rows|
      ensures Consistent(rows[i]) ==> Consistent(Apply(rows, m)[i])
      ensures NonNegative(rows[i]) && m.homeScore >= 0 && m.awayScore >= 0 ==>
        NonNegative(Apply(rows, m)[i])
    {
      if Consistent(rows[i]) {
        UpdateRowConsistent(rows[i], m);
      }
      if NonNegative(rows[i]) && m.homeScore >= 0 && m.awayScore >= 0 {
        UpdateRowNonNegative(rows[i], m);
      }
    }
  }

  /** Rows of clubs on neither side of the result are unchanged. */
  lemma ApplyLeavesOthers(rows: seq<Team>, m: MatchResult, i: int)
    requires 0 <= i < |rows| && Consistent(rows[i])
    requires rows[i].club != m.home && rows[i].club != m.away
    ensures |Apply(rows, m)| == |rows| && Apply(rows, m)[i] == rows[i]
  {
    UninvolvedRow(rows[i], m);
  }

  /**
   * Starting from any consistent ladder, any ordered list of results keeps
   * the clubs and P = W + D + L, PTS = 3W + D, GD = GF - GA in every row.
   */
  lemma {:induction false} ApplyAllConsistent(rows: seq<Team>, results: seq<MatchResult>)
    decreases |results|
    requires AllConsistent(rows)
    ensures Clubs(ApplyAll(rows, results)) == Clubs(rows)
    ensures AllConsistent(ApplyAll(rows, results))
  {
    if results != [] {
      ApplyKeeps(rows, results[0]);
      ApplyAllConsistent(Apply(rows, results[0]), results[1..]);
    }
  }

  /** With scores that are not negative, no counter of any row goes negative. */
  lemma {:induction false} ApplyAllNonNegative(rows: seq<Team>, results: seq<MatchResult>)
    decreases |results|
    requires AllNonNegative(rows)
    requires forall k :: 0 <= k < |results| ==> results[k].homeScore >= 0 && results[k].awayScore >= 0
    ensures AllNonNegative(ApplyAll(rows, results))
  {
    if results != [] {
      ApplyKeeps(rows, results[0]);
      ApplyAllNonNegative(Apply(rows, results[0]), results[1..]);
    }
  }

  /** The fresh ladder, after any list of results, satisfies the invariant in every row. */
  lemma LadderInvariant(clubs: seq<string>, results: seq<MatchResult>)
    ensures Clubs(ApplyAll(InitialLadder(clubs), results)) == clubs
    ensures AllConsistent(ApplyAll(InitialLadder(clubs), results))
  {
    ApplyAllConsistent(InitialLadder(clubs), results);
  }

  /**
   * Row i ends with its form extended, in order, by the outcomes its club
   * collected, and with P grown by their number.
   */
  lemma {:induction false} RowHistory(rows: seq<Team>, results: seq<MatchResult>, i: int)
    decreases |results|
    requires 0 <= i < |rows|
    ensures |ApplyAll(rows, results)| == |rows|
    ensures ApplyAll(rows, results)[i].club == rows[i].club
    ensures ApplyAll(rows, results)[i].form == rows[i].form + FormOf(rows[i].club, results)
    ensures ApplyAll(rows, results)[i].played == rows[i].played + |FormOf(rows[i].club, results)|
  {
    if results != [] {
      var m := results[0];
      var next := Apply(rows, m);
      RowHistory(next, results[1..], i);
      var t := rows[i];
      var c := t.club;
      var here := (if c == m.home then [OutcomeOf(m.homeScore, m.awayScore)] else []) +
                  (if c == m.away then [OutcomeOf(m.awayScore, m.homeScore)] else []);
      assert next[i].form == t.form + here && next[i].played == t.played + |here|;
      assert FormOf(c, results) == here + FormOf(c, results[1..]);
    }
  }

  /**
   * Totals of one result over the whole ladder: each club that has a row
   * gets its side's points, one match played, and its side's goal balance.
   * A club without a row is simply not updated; a club named on both sides
   * gets both sides' shares in its one row.
   */
  lemma {:induction false} ApplySums(rows: seq<Team>, m: MatchResult)
    requires Distinct(Clubs(rows)) && AllConsistent(rows)
    ensures TotalPoints(Apply(rows, m)) == TotalPoints(rows)
      + (if m.home in Clubs(rows) then PointsFor(OutcomeOf(m.homeScore, m.awayScore)) else 0)
      + (if m.away in Clubs(rows) then PointsFor(OutcomeOf(m.awayScore, m.homeScore)) else 0)
    ensures TotalPlayed(Apply(rows, m)) == TotalPlayed(rows)
      + (if m.home in Clubs(rows) then 1 else 0) + (if m.away in Clubs(rows) then 1 else 0)
    ensures TotalGoalDiff(Apply(rows, m)) == TotalGoalDiff(rows)
      + (if m.home in Clubs(rows) then m.homeScore - m.awayScore else 0)
      + (if m.away in Clubs(rows) then m.awayScore - m.homeScore else 0)
  {
    if rows != [] {
      var tail := rows[1..];
      assert Apply(rows, m)[1..] == Apply(tail, m);
      assert Clubs(rows) == [rows[0].club] + Clubs(tail);
      assert Clubs(tail) == Clubs(rows)[1..];
      ApplySums(tail, m);
      var t := rows[0];
      if t.club == m.home && m.home == m.away {
        SameClubRow(t, m);
      } else if t.club == m.home {
        HomeRow(t, m);
      } else if t.club == m.away {
        AwayRow(t, m);
      } else {
        UninvolvedRow(t, m);
      }
    }
  }

  /**
   * A result between two clubs of the ladder hands out 3 points (decisive)
   * or 2 (draw), adds two matches played and leaves total goal difference
   * unchanged.
   */
  lemma ResultSums(rows: seq<Team>, m: MatchResult)
    requires Distinct(Clubs(rows)) && AllConsistent(rows) && Known(Clubs(rows), m)
    ensures TotalPoints(Apply(rows, m)) == TotalPoints(rows) + ResultPoints(m)
    ensures TotalPlayed(Apply(rows, m)) == TotalPlayed(rows) + 2
    ensures TotalGoalDiff(Apply(rows, m)) == TotalGoalDiff(rows)
  {
    ApplySums(rows, m);
  }

  /**
   * Over an ordered list of results between clubs of the ladder, the league
   * gains exactly the points the results hand out, two matches played per
   * result, and no goal difference.
   */
  lemma {:induction false} LeagueSums(rows: seq<Team>, results: seq<MatchResult>)
    decreases |results|
    requires Distinct(Clubs(rows)) && AllConsistent(rows)
    requires forall k :: 0 <= k < |results| ==> Known(Clubs(rows), results[k])
    ensures TotalPoints(ApplyAll(rows, results)) == TotalPoints(rows) + MatchPoints(results)
    ensures TotalPlayed(ApplyAll(rows, results)) == TotalPlayed(rows) + 2 * |results|
    ensures TotalGoalDiff(ApplyAll(rows, results)) == TotalGoalDiff(rows)
  {
    if results != [] {
      var next := Apply(rows, results[0]);
      ResultSums(rows, results[0]);
      ApplyKeeps(rows, results[0]);
      LeagueSums(next, results[1..]);
    }
  }

  /** The sums of a freshly created ladder are zero. */
  lemma {:induction false} InitialSums(clubs: seq<string>)
    ensures TotalPoints(InitialLadder(clubs)) == 0
    ensures TotalPlayed(InitialLadder(clubs)) == 0
    ensures TotalGoalDiff(InitialLadder(clubs)) == 0
  {
    if clubs != [] {
      assert InitialLadder(clubs)[1..] == InitialLadder(clubs[1..]);
      InitialSums(clubs[1..]);
    }
  }

  /**
   * From the fresh ladder of distinct clubs, after results between clubs of
   * the ladder: total points are 3 per decisive result and 2 per draw, total
   * matches played are twice the number of results, and the goal
   * differences sum to zero.
   */
  lemma FreshLeagueSums(clubs: seq<string>, results: seq<MatchResult>)
    requires Distinct(clubs)
    requires forall k :: 0 <= k < |results| ==> Known(clubs, results[k])
    ensures TotalPoints(ApplyAll(InitialLadder(clubs), results)) == MatchPoints(results)
    ensures TotalPlayed(ApplyAll(InitialLadder(clubs), results)) == 2 * |results|
    ensures TotalGoalDiff(ApplyAll(InitialLadder(clubs), results)) == 0
  {
    InitialSums(clubs);
    LeagueSums(InitialLadder(clubs), results);
  }
}
