/**
 * The standings: the ladder's rows sorted in descending order on the key
 * (PTS, GD, GF, W), each annotated with its 1-based position. The sort is
 * stable: rows equal on all four keys keep their order in the ladder.
 */
module Ranking {
  import opened Records

  /** A row of the standings: its position and the ladder row. */
  datatype Standing = Standing(position: nat, team: Team)

  /** `a` ranks no lower than `b`: (PTS, GD, GF, W) of `a` is lexicographically at least that of `b`. */
  predicate AtLeast(a: Team, b: Team)
  {
    a.points > b.points || (a.points == b.points &&
    (a.goalDiff > b.goalDiff || (a.goalDiff == b.goalDiff &&
    (a.goalsFor > b.goalsFor || (a.goalsFor == b.goalsFor &&
    a.won >= b.won)))))
  }

  /** `a` and `b` are equal on all four sort keys. */
  predicate Level(a: Team, b: Team)
  {
    a.points == b.points && a.goalDiff == b.goalDiff && a.goalsFor == b.goalsFor && a.won == b.won
  }

  /** Non-increasing in the sort key. */
  predicate Ordered(s: seq<Team>)
  {
    forall i, j :: 0 <= i < j < |s| ==> AtLeast(s[i], s[j])
  }

  /** The rows of `s` level with `x` on all four keys, in their order in `s`. */
  function Ties(s: seq<Team>, x: Team): seq<Team>
  {
    if s == [] then [] else (if Level(s[0], x) then [s[0]] else []) + Ties(s[1..], x)
  }

  /** The rows of the standings, without their positions. */
  function Teams(r: seq<Standing>): seq<Team>
  {
    seq(|r|, i requires 0 <= i < |r| => r[i].team)
  }

  /**
   * Places `x` in front of the first row it ranks no lower than: after every
   * row that strictly outranks it, before every row level with it.
   */
  function Insert(x: Team, s: seq<Team>): (r: seq<Team>)
    requires Ordered(s)
    ensures Ordered(r)
    ensures multiset(r) == multiset(s) + multiset{x}
    ensures multiset(Clubs(r)) == multiset(Clubs(s)) + multiset{x.club}
    ensures forall y :: Ties(r, y) == (if Level(x, y) then [x] else []) + Ties(s, y)
  {
    if s == [] || AtLeast(x, s[0]) then
      InsertInFront(x, s);
      [x] + s
    else
      var rest := Insert(x, s[1..]);
      assert s == [s[0]] + s[1..];
      BehindOrdered(x, s, rest);
      BehindClubs(x, s, rest);
      BehindTies(x, s, rest);
      [s[0]] + rest
  }

  /** The first case of Insert: `x` ranks no lower than the current top row. */
  lemma InsertInFront(x: Team, s: seq<Team>)
    requires Ordered(s) && (s == [] || AtLeast(x, s[0]))
    ensures Ordered([x] + s)
    ensures multiset(Clubs([x] + s)) == multiset(Clubs(s)) + multiset{x.club}
    ensures forall y :: Ties([x] + s, y) == (if Level(x, y) then [x] else []) + Ties(s, y)
  {
    var r := [x] + s;
    assert r[1..] == s;
    assert Clubs(r) == [x.club] + Clubs(s);
  }

  /** The second case of Insert, for the sort key: the top row strictly outranks `x`, so ties are unaffected. */
  lemma BehindTies(x: Team, s: seq<Team>, rest: seq<Team>)
    requires s != [] && !AtLeast(x, s[0])
    requires forall y :: Ties(rest, y) == (if Level(x, y) then [x] else []) + Ties(s[1..], y)
    ensures forall y :: Ties([s[0]] + rest, y) == (if Level(x, y) then [x] else []) + Ties(s, y)
  {
    forall y
      ensures Ties([s[0]] + rest, y) == (if Level(x, y) then [x] else []) + Ties(s, y)
    {
      BehindTiesAt(x, s, rest, y);
    }
  }

  /** BehindTies for one row `y`. */
  lemma BehindTiesAt(x: Team, s: seq<Team>, rest: seq<Team>, y: Team)
    requires s != [] && !AtLeast(x, s[0])
    requires Ties(rest, y) == (if Level(x, y) then [x] else []) + Ties(s[1..], y)
    ensures Ties([s[0]] + rest, y) == (if Level(x, y) then [x] else []) + Ties(s, y)
  {
    var r := [s[0]] + rest;
    assert r[1..] == rest;
    var top := if Level(s[0], y) then [s[0]] else [];
    assert Ties(r, y) == top + Ties(rest, y);
    assert Ties(s, y) == top + Ties(s[1..], y);
    assert !(Level(x, y) && Level(s[0], y));
  }

  /** The second case of Insert, for the Club column. */
  lemma BehindClubs(x: Team, s: seq<Team>, rest: seq<Team>)
    requires s != []
    requires multiset(Clubs(rest)) == multiset(Clubs(s[1..])) + multiset{x.club}
    ensures multiset(Clubs([s[0]] + rest)) == multiset(Clubs(s)) + multiset{x.club}
  {
    assert Clubs(s) == [s[0].club] + Clubs(s[1..]);
    assert Clubs([s[0]] + rest) == [s[0].club] + Clubs(rest);
  }

  /** Prepending the top row of `s` to an ordered rearrangement of the rest of `s` and `x` keeps the order. */
  lemma BehindOrdered(x: Team, s: seq<Team>, rest: seq<Team>)
    requires Ordered(s) && s != [] && !AtLeast(x, s[0])
    requires Ordered(rest)
    requires multiset(rest) == multiset(s[1..]) + multiset{x}
    ensures Ordered([s[0]] + rest)
  {
    forall k | 0 <= k < |rest|
      ensures AtLeast(s[0], rest[k])
    {
      assert rest[k] in multiset(rest);
      if rest[k] != x {
        assert rest[k] in s[1..];
        var j :| 0 <= j < |s[1..]| && s[1..][j] == rest[k];
        assert s[j + 1] == rest[k];
      }
    }
    var r := [s[0]] + rest;
    forall i, j | 0 <= i < j < |r|
      ensures AtLeast(r[i], r[j])
    {
      if i > 0 {
        assert r[i] == rest[i - 1] && r[j] == rest[j - 1];
      } else {
        assert r[j] == rest[j - 1];
      }
    }
  }

  /** Stable insertion sort on the key (PTS, GD, GF, W), descending. */
  function SortByKey(s: seq<Team>): (r: seq<Team>)
    ensures Ordered(r)
    ensures multiset(r) == multiset(s)
    ensures multiset(Clubs(r)) == multiset(Clubs(s))
    ensures forall y :: Ties(r, y) == Ties(s, y)
  {
    if s == [] then []
    else
      assert s == [s[0]] + s[1..];
      assert Clubs(s) == [s[0].club] + Clubs(s[1..]);
      Insert(s[0], SortByKey(s[1..]))
  }

  /**
   * The standings of a ladder: every row exactly once, in non-increasing
   * order of (PTS, GD, GF, W), rows level on all four keys in ladder order,
   * positions 1, 2, ..., n from the top.
   */
  function SortLadder(rows: seq<Team>): (r: seq<Standing>)
    ensures |r| == |rows|
    ensures forall i :: 0 <= i < |r| ==> r[i].position == i + 1
    ensures Ordered(Teams(r))
    ensures multiset(Teams(r)) == multiset(rows)
    ensures multiset(Clubs(Teams(r))) == multiset(Clubs(rows))
    ensures forall y :: Ties(Teams(r), y) == Ties(rows, y)
  {
    var sorted := SortByKey(rows);
    var r := seq(|sorted|, i requires 0 <= i < |sorted| => Standing(i + 1, sorted[i]));
    assert Teams(r) == sorted;
    assert |multiset(sorted)| == |multiset(rows)|;
    r
  }

  /**
   * The contract of the sort determines its result: two orderings of the same
   * rows that are both non-increasing in (PTS, GD, GF, W) and both keep rows
   * level on all four keys in the same relative order are equal. So any
   * stable sort on these keys yields the same standings as SortByKey.
   */
  lemma {:induction false} OrderingDetermined(a: seq<Team>, b: seq<Team>)
    requires Ordered(a) && Ordered(b)
    requires multiset(a) == multiset(b)
    requires forall y :: Ties(a, y) == Ties(b, y)
    ensures a == b
    decreases |a|
  {
    assert |a| == |multiset(a)| == |multiset(b)| == |b|;
    if a != [] {
      SameTop(a, b);
      SameRest(a, b);
      OrderingDetermined(a[1..], b[1..]);
      assert a == [a[0]] + a[1..] && b == [b[0]] + b[1..];
    }
  }

  /** Two such orderings start with the same row: both tops are maximal, hence level, and ties agree. */
  lemma SameTop(a: seq<Team>, b: seq<Team>)
    requires Ordered(a) && Ordered(b) && a != []
    requires multiset(a) == multiset(b)
    requires Ties(a, a[0]) == Ties(b, a[0])
    ensures b != [] && a[0] == b[0]
  {
    assert a[0] in multiset(b);
    TopIsMaximal(b, a[0]);
    TopIsMaximal(a, b[0]);
    var y := a[0];
    assert a == [a[0]] + a[1..] && b == [b[0]] + b[1..];
    assert Level(a[0], y) && Level(b[0], y);
    assert Ties(a, y) == [a[0]] + Ties(a[1..], y);
    assert Ties(b, y) == [b[0]] + Ties(b[1..], y);
  }

  /** With the same top row removed, the rest are still the same rows with the same ties. */
  lemma SameRest(a: seq<Team>, b: seq<Team>)
    requires a != [] && b != [] && a[0] == b[0]
    requires multiset(a) == multiset(b)
    requires forall y :: Ties(a, y) == Ties(b, y)
    ensures multiset(a[1..]) == multiset(b[1..])
    ensures forall z :: Ties(a[1..], z) == Ties(b[1..], z)
  {
    assert a == [a[0]] + a[1..] && b == [b[0]] + b[1..];
    assert multiset(a[1..]) == multiset(a) - multiset{a[0]};
    assert multiset(b[1..]) == multiset(b) - multiset{b[0]};
    forall z
      ensures Ties(a[1..], z) == Ties(b[1..], z)
    {
      SameRestAt(a, b, z);
    }
  }

  /** SameRest for the ties of one row `z`. */
  lemma SameRestAt(a: seq<Team>, b: seq<Team>, z: Team)
    requires a != [] && b != [] && a[0] == b[0]
    requires Ties(a, z) == Ties(b, z)
    ensures Ties(a[1..], z) == Ties(b[1..], z)
  {
    var top := if Level(a[0], z) then [a[0]] else [];
    assert Ties(a, z) == top + Ties(a[1..], z);
    assert Ties(b, z) == top + Ties(b[1..], z);
    assert Ties(a[1..], z) == Ties(a, z)[|top|..];
  }

  /** The top row of an ordered sequence ranks no lower than any of its rows. */
  lemma TopIsMaximal(s: seq<Team>, x: Team)
    requires Ordered(s) && x in multiset(s)
    ensures s != [] && AtLeast(s[0], x)
  {
    assert x in s;
    var k :| 0 <= k < |s| && s[k] == x;
    if k > 0 {
      assert AtLeast(s[0], s[k]);
    }
  }
}
