/** `nlargest(top_n, 'similarity')` with `keep='first'`: the rows with the
    highest scores, highest first, where a tie goes to the row that comes
    first in the catalog. */
module Ranking {
  import opened Catalog

  /** `a` is ranked ahead of `b`: a higher score, or the same score and an
      earlier catalog row. On rows with distinct positions this is a strict
      total order. */
  predicate Ahead(a: Row, b: Row) {
    a.similarity > b.similarity || (a.similarity == b.similarity && a.pos < b.pos)
  }

  /** Every row is ahead of every later row: scores never increase, and
      equal scores keep catalog order. */
  predicate Ranked(rows: seq<Row>) {
    forall i, j :: 0 <= i < j < |rows| ==> Ahead(rows[i], rows[j])
  }

  /** Places `x` in a ranked sequence that does not hold its position. */
  function Insert(x: Row, rows: seq<Row>): (r: seq<Row>)
    requires Ranked(rows)
    requires forall y | y in multiset(rows) :: y.pos != x.pos
    ensures Ranked(r)
    ensures |r| == |rows| + 1
    ensures multiset(r) == multiset(rows) + multiset{x}
  {
    if rows == [] || Ahead(x, rows[0]) then
      InsertFront(x, rows);
      [x] + rows
    else
      InsertBehind(x, rows);
      var rest := Insert(x, rows[1..]);
      InsertBehindHead(x, rows, rest);
      [rows[0]] + rest
  }

  lemma InsertFront(x: Row, rows: seq<Row>)
    requires Ranked(rows)
    requires rows == [] || Ahead(x, rows[0])
    ensures Ranked([x] + rows)
  {
    forall z | z in rows
      ensures Ahead(x, z)
    {
      var j :| 0 <= j < |rows| && rows[j] == z;
      if j > 0 {
        assert Ahead(rows[0], rows[j]);
      }
    }
    RankedCons(x, rows);
  }

  lemma InsertBehind(x: Row, rows: seq<Row>)
    requires Ranked(rows) && rows != []
    requires forall y | y in multiset(rows) :: y.pos != x.pos
    requires !Ahead(x, rows[0])
    ensures Ranked(rows[1..])
    ensures forall y | y in multiset(rows[1..]) :: y.pos != x.pos
    ensures Ahead(rows[0], x)
    ensures multiset(rows) == multiset{rows[0]} + multiset(rows[1..])
  {
    assert rows == [rows[0]] + rows[1..];
    assert rows[0] in multiset(rows);
    forall i, j | 0 <= i < j < |rows[1..]|
      ensures Ahead(rows[1..][i], rows[1..][j])
    {
      assert rows[1..][i] == rows[i + 1] && rows[1..][j] == rows[j + 1];
    }
  }

  lemma InsertBehindHead(x: Row, rows: seq<Row>, rest: seq<Row>)
    requires Ranked(rows) && rows != [] && Ahead(rows[0], x)
    requires Ranked(rest) && multiset(rest) == multiset(rows[1..]) + multiset{x}
    ensures Ranked([rows[0]] + rest)
  {
    forall y | y in rest
      ensures Ahead(rows[0], y)
    {
      assert y in multiset(rest);
      if y != x {
        var j :| 0 <= j < |rows[1..]| && rows[1..][j] == y;
        assert rows[j + 1] == y;
      }
    }
    RankedCons(rows[0], rest);
  }

  lemma RankedCons(y: Row, rows: seq<Row>)
    requires Ranked(rows)
    requires forall z | z in rows :: Ahead(y, z)
    ensures Ranked([y] + rows)
  {
    var r := [y] + rows;
    forall i, j | 0 <= i < j < |r|
      ensures Ahead(r[i], r[j])
    {
      assert r[j] == rows[j - 1];
      if i > 0 {
        assert r[i] == rows[i - 1];
      }
    }
  }

  /** Orders rows with distinct positions: the result is a ranked
      rearrangement of the input. */
  function Sort(rows: seq<Row>): (r: seq<Row>)
    requires DistinctPositions(rows)
    ensures Ranked(r)
    ensures |r| == |rows|
    ensures multiset(r) == multiset(rows)
  {
    if rows == [] then
      []
    else
      var tail := rows[1..];
      TailOfDistinct(rows);
      var rest := Sort(tail);
      assert rows == [rows[0]] + tail;
      Insert(rows[0], rest)
  }

  /** Dropping the first row keeps positions distinct, and the first row's
      position occurs nowhere in the rest. */
  lemma TailOfDistinct(rows: seq<Row>)
    requires DistinctPositions(rows) && rows != []
    ensures DistinctPositions(rows[1..])
    ensures forall y | y in multiset(rows[1..]) :: y.pos != rows[0].pos
  {
    var tail := rows[1..];
    assert forall i :: 0 <= i < |tail| ==> tail[i] == rows[i + 1];
  }

  function Min(a: int, b: int): int {
    if a < b then a else b
  }

  /** `nlargest(n)`: the first `n` rows of the ranking; none when `n` is
      not positive, all of them when `n` is at least their number. */
  function NLargest(rows: seq<Row>, n: int): (r: seq<Row>)
    requires DistinctPositions(rows)
    ensures |r| == if n <= 0 then 0 else Min(n, |rows|)
    ensures Ranked(r)
    ensures multiset(r) <= multiset(rows)
  {
    var sorted := Sort(rows);
    var k := if n <= 0 then 0 else Min(n, |rows|);
    assert sorted == sorted[..k] + sorted[k..];
    sorted[..k]
  }

  /** Top-N maximality: every row left out is ranked behind every row
      kept, so in particular its score is no higher than any kept score. */
  lemma NLargestMaximal(rows: seq<Row>, n: int, x: Row)
    requires DistinctPositions(rows)
    requires x in rows && x !in NLargest(rows, n)
    ensures forall y | y in NLargest(rows, n) :: Ahead(y, x) && y.similarity >= x.similarity
  {
    var sorted := Sort(rows);
    var k := if n <= 0 then 0 else Min(n, |rows|);
    assert x in multiset(sorted);
    var j :| 0 <= j < |sorted| && sorted[j] == x;
    assert j >= k;
    forall y | y in NLargest(rows, n)
      ensures Ahead(y, x)
    {
      var i :| 0 <= i < k && sorted[..k][i] == y;
      assert sorted[i] == y;
    }
  }

  /** When `n` covers all rows, every row is kept. */
  lemma NLargestAll(rows: seq<Row>, n: int)
    requires DistinctPositions(rows)
    requires n >= |rows|
    ensures multiset(NLargest(rows, n)) == multiset(rows)
  {
    var sorted := Sort(rows);
    assert sorted[..|rows|] == sorted;
  }

  /** A ranked sequence is fully determined by its rows: any two ranked
      arrangements of the same rows are equal. So the result of `Sort`,
      and hence of `NLargest`, does not depend on how it is computed. */
  lemma {:induction false} RankedUnique(a: seq<Row>, b: seq<Row>)
    requires Ranked(a) && Ranked(b)
    requires multiset(a) == multiset(b)
    ensures a == b
  {
    assert |a| == |multiset(a)| == |multiset(b)| == |b|;
    if a != [] {
      if a[0] != b[0] {
        assert a[0] in multiset(b) && b[0] in multiset(a);
        HeadIsAhead(b, a[0]);
        HeadIsAhead(a, b[0]);
        assert false;
      }
      assert a == [a[0]] + a[1..];
      assert b == [b[0]] + b[1..];
      assert multiset(a[1..]) == multiset(a) - multiset{a[0]};
      assert multiset(b[1..]) == multiset(b) - multiset{b[0]};
      RankedUnique(a[1..], b[1..]);
    }
  }

  /** The head of a ranked sequence is ahead of every other row in it. */
  lemma HeadIsAhead(rows: seq<Row>, x: Row)
    requires Ranked(rows) && x in rows && x != rows[0]
    ensures Ahead(rows[0], x)
  {
    var j :| 0 <= j < |rows| && rows[j] == x;
  }
}
