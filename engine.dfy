/**
 * The ladder engine: a table of rows created once from the fixture list and
 * updated in place, one predicted result at a time.
 */
module Engine {
  import opened Records
  import opened Table
  import opened Ranking

  /**
   * The distinct clubs of the fixture list, each once. Which order they come
   * in is not promised: the ladder takes its clubs from an unordered set.
   */
  method DistinctClubs(fixtures: seq<Fixture>) returns (clubs: seq<string>)
    ensures Distinct(clubs)
    ensures forall c :: c in clubs <==> c in FixtureClubs(fixtures)
  {
    clubs := [];
    for i := 0 to |fixtures|
      invariant Distinct(clubs)
      invariant forall c :: c in clubs <==> c in FixtureClubs(fixtures[..i])
    {
      var f := fixtures[i];
      assert fixtures[..i + 1][..i] == fixtures[..i];
      if f.home !in clubs {
        clubs := clubs + [f.home];
      }
      if f.away !in clubs {
        clubs := clubs + [f.away];
      }
    }
    assert fixtures[..|fixtures|] == fixtures;
  }

  /** The ladder table: one row per club, updated in place. */
  class Ladder {
    const table: array<Team>

    /** Clubs are unique and every row keeps the ladder's arithmetic invariant. */
    ghost predicate Valid()
      reads table
    {
      Distinct(Clubs(table[..])) && AllConsistent(table[..])
    }

    /** One all-zero row for every club of the fixture list, each club once. */
    constructor (fixtures: seq<Fixture>)
      ensures Valid() && fresh(table)
      ensures forall c :: c in Clubs(table[..]) <==> c in FixtureClubs(fixtures)
      ensures table[..] == InitialLadder(Clubs(table[..]))
    {
      var clubs := DistinctClubs(fixtures);
      table := new Team[|clubs|](i requires 0 <= i < |clubs| => NewTeam(clubs[i]));
      new;
      assert table[..] == InitialLadder(clubs);
    }

    /** Folds one result into every row. */
    method ApplyResult(m: MatchResult)
      requires Valid()
      modifies table
      ensures Valid()
      ensures table[..] == Apply(old(table[..]), m)
    {
      var i := 0;
      while i < table.Length
        invariant 0 <= i <= table.Length
        invariant forall k :: 0 <= k < i ==> table[k] == UpdateRow(old(table[k]), m)
        invariant forall k :: i <= k < table.Length ==> table[k] == old(table[k])
      {
        table[i] := UpdateRow(table[i], m);
        i := i + 1;
      }
      assert table[..] == Apply(old(table[..]), m);
      ApplyKeeps(old(table[..]), m);
    }

    /** Folds the results into the table, in the order given. */
    method UpdateLadder(results: seq<MatchResult>)
      requires Valid()
      modifies table
      ensures Valid()
      ensures table[..] == ApplyAll(old(table[..]), results)
    {
      for i := 0 to |results|
        invariant Valid()
        invariant ApplyAll(table[..], results[i..]) == ApplyAll(old(table[..]), results)
      {
        assert results[i..][1..] == results[i + 1..];
        ApplyResult(results[i]);
      }
    }
  }

  /**
   * A fresh ladder for the fixture list, the results folded in, then the
   * standings: exactly one row per club of the fixture list, each keeping the
   * ladder's invariant, ordered on (PTS, GD, GF, W) with positions 1..n.
   * `clubs` is the ladder's club column in its (unpromised) creation order;
   * the standings are the sort of that fresh ladder after all the results.
   */
  method Recompute(fixtures: seq<Fixture>, results: seq<MatchResult>)
    returns (standings: seq<Standing>, ghost clubs: seq<string>)
    ensures Distinct(clubs) && forall c :: c in clubs <==> c in FixtureClubs(fixtures)
    ensures standings == SortLadder(ApplyAll(InitialLadder(clubs), results))
    ensures forall c :: c in Clubs(Teams(standings)) <==> c in FixtureClubs(fixtures)
    ensures Distinct(Clubs(Teams(standings)))
    ensures forall i :: 0 <= i < |standings| ==>
      standings[i].position == i + 1 && Consistent(standings[i].team)
    ensures Ordered(Teams(standings))
  {
    var ladder := new Ladder(fixtures);
    clubs := Clubs(ladder.table[..]);
    ghost var initial := ladder.table[..];
    ladder.UpdateLadder(results);
    var rows := ladder.table[..];
    ApplyAllConsistent(initial, results);
    assert Clubs(rows) == Clubs(initial);
    standings := SortLadder(rows);
    StandingsOfValidLadder(rows);
    forall i | 0 <= i < |standings|
      ensures Consistent(standings[i].team)
    {
      assert Teams(standings)[i] == standings[i].team;
    }
  }

  /** The standings of a table of unique, consistent rows list each club once, every row consistent. */
  lemma StandingsOfValidLadder(rows: seq<Team>)
    requires Distinct(Clubs(rows)) && AllConsistent(rows)
    ensures var ranked := Teams(SortLadder(rows));
      && Distinct(Clubs(ranked))
      && (forall c :: c in Clubs(ranked) <==> c in Clubs(rows))
      && AllConsistent(ranked)
  {
    var ranked := Teams(SortLadder(rows));
    DistinctPermutation(Clubs(rows), Clubs(ranked));
    forall c
      ensures c in Clubs(ranked) <==> c in Clubs(rows)
    {
      assert c in Clubs(ranked) <==> c in multiset(Clubs(ranked));
      assert c in Clubs(rows) <==> c in multiset(Clubs(rows));
    }
    forall i | 0 <= i < |ranked|
      ensures Consistent(ranked[i])
    {
      assert ranked[i] in multiset(rows);
    }
  }
}
