/**
 * The aggregates the dashboard computes: the two-dimensional tallies behind
 * the heatmaps (`groupby([a, b]).size().unstack().fillna(0)`) and the
 * male/female counts with the shares derived from them.
 */
module Aggregation {
  import opened Wrappers
  import opened Keys
  import opened Records
  import opened Filtering

  // ---------------------------------------------------------------------
  // Grouped counts

  /** The (row key, column key) pair of every record, in row order: the
      MultiIndex that `groupby([rowBy, colBy])` groups on. */
  function Pairs(rows: seq<Record>, rowBy: Column, colBy: Column): (ps: seq<(string, string)>)
    ensures |ps| == |rows|
    ensures forall i :: 0 <= i < |rows| ==> ps[i] == (Field(rows[i], rowBy), Field(rows[i], colBy))
  {
    seq(|rows|, i requires 0 <= i < |rows| => (Field(rows[i], rowBy), Field(rows[i], colBy)))
  }

  /** An unstacked tally: sorted row keys, sorted column keys, and one row of
      cells per row key with one cell per column key. */
  datatype Pivot = Pivot(rowKeys: seq<string>, colKeys: seq<string>, cells: seq<seq<nat>>)

  /** One row of the tally: the size of group (x, y) for each column key y,
      0 where the group is empty. */
  function RowCells(ps: seq<(string, string)>, x: string, ys: seq<string>): (cells: seq<nat>)
    ensures |cells| == |ys|
    ensures forall j :: 0 <= j < |ys| ==> cells[j] == Occurrences(ps, (x, ys[j]))
  {
    if ys == [] then []
    else RowCells(ps, x, ys[..|ys| - 1]) + [Occurrences(ps, (x, ys[|ys| - 1]))]
  }

  /** All rows of the tally, one per row key. */
  function Grid(ps: seq<(string, string)>, xs: seq<string>, ys: seq<string>): (cells: seq<seq<nat>>)
    ensures |cells| == |xs|
    ensures forall i :: 0 <= i < |xs| ==> |cells[i]| == |ys|
    ensures forall i, j :: 0 <= i < |xs| && 0 <= j < |ys| ==> cells[i][j] == Occurrences(ps, (xs[i], ys[j]))
  {
    if xs == [] then []
    else Grid(ps, xs[..|xs| - 1], ys) + [RowCells(ps, xs[|xs| - 1], ys)]
  }

  /** `data.groupby([rowBy, colBy]).size().unstack().fillna(0)`: rows are the
      sorted distinct values of rowBy, columns the sorted distinct values of
      colBy, and every cell the number of records with that pair of values,
      0 for a combination that never occurs. */
  function GroupCounts(rows: seq<Record>, rowBy: Column, colBy: Column): (p: Pivot)
    ensures StrictlyIncreasing(p.rowKeys) && StrictlyIncreasing(p.colKeys)
    ensures forall x :: x in p.rowKeys <==> x in Values(rows, rowBy)
    ensures forall y :: y in p.colKeys <==> y in Values(rows, colBy)
    ensures |p.cells| == |p.rowKeys|
    ensures forall i :: 0 <= i < |p.rowKeys| ==> |p.cells[i]| == |p.colKeys|
    ensures forall i, j :: 0 <= i < |p.rowKeys| && 0 <= j < |p.colKeys| ==>
      p.cells[i][j] == Occurrences(Pairs(rows, rowBy, colBy), (p.rowKeys[i], p.colKeys[j]))
  {
    var xs := SortedKeys(Values(rows, rowBy));
    var ys := SortedKeys(Values(rows, colBy));
    Pivot(xs, ys, Grid(Pairs(rows, rowBy, colBy), xs, ys))
  }

  /** The key pair of a record is one group; a group's size is the number of
      records having both of its keys. */
  lemma {:induction false} GroupSizeCountsRecords(rows: seq<Record>, rowBy: Column, colBy: Column, x: string, y: string)
    ensures Occurrences(Pairs(rows, rowBy, colBy), (x, y))
         == Count(rows, (r: Record) => Field(r, rowBy) == x && Field(r, colBy) == y)
  {
    if rows != [] {
      var n := |rows| - 1;
      GroupSizeCountsRecords(rows[..n], rowBy, colBy, x, y);
      assert Pairs(rows, rowBy, colBy)[..n] == Pairs(rows[..n], rowBy, colBy);
    }
  }

  /** No record has value x in column rowBy together with value y in colBy. */
  predicate NoRecordHas(rows: seq<Record>, rowBy: Column, colBy: Column, x: string, y: string) {
    forall r :: r in rows ==> !(Field(r, rowBy) == x && Field(r, colBy) == y)
  }

  /** A group is empty exactly when no record has both of its values. */
  lemma GroupEmptyIff(rows: seq<Record>, rowBy: Column, colBy: Column, x: string, y: string)
    ensures Occurrences(Pairs(rows, rowBy, colBy), (x, y)) == 0 <==> NoRecordHas(rows, rowBy, colBy, x, y)
  {
    var ps := Pairs(rows, rowBy, colBy);
    if Occurrences(ps, (x, y)) != 0 {
      var k :| 0 <= k < |ps| && ps[k] == (x, y);
      assert rows[k] in rows;
    } else {
      forall r | r in rows
        ensures !(Field(r, rowBy) == x && Field(r, colBy) == y)
      {
        var k :| 0 <= k < |rows| && rows[k] == r;
        assert ps[k] in ps;
      }
    }
  }

  /** A cell is 0 exactly when no record has that combination of values. */
  lemma UnseenCombinationIsZero(rows: seq<Record>, rowBy: Column, colBy: Column)
    ensures var p := GroupCounts(rows, rowBy, colBy);
      forall i, j :: 0 <= i < |p.rowKeys| && 0 <= j < |p.colKeys| ==>
        (p.cells[i][j] == 0 <==> NoRecordHas(rows, rowBy, colBy, p.rowKeys[i], p.colKeys[j]))
  {
    var p := GroupCounts(rows, rowBy, colBy);
    forall i, j | 0 <= i < |p.rowKeys| && 0 <= j < |p.colKeys|
      ensures p.cells[i][j] == 0 <==> NoRecordHas(rows, rowBy, colBy, p.rowKeys[i], p.colKeys[j])
    {
      GroupEmptyIff(rows, rowBy, colBy, p.rowKeys[i], p.colKeys[j]);
    }
  }

  /** The sum of a row of cells. */
  function Sum(s: seq<nat>): nat {
    if s == [] then 0 else Sum(s[..|s| - 1]) + s[|s| - 1]
  }

  /** The sum of all cells of a tally. */
  function Total(cells: seq<seq<nat>>): nat {
    if cells == [] then 0 else Total(cells[..|cells| - 1]) + Sum(cells[|cells| - 1])
  }

  lemma OccurrencesSnoc<T>(s: seq<T>, p: T, v: T)
    ensures Occurrences(s + [p], v) == Occurrences(s, v) + (if p == v then 1 else 0)
  {
    assert (s + [p])[..|s|] == s;
  }

  /** Adding a record adds one to its own group's cell in row x, if its column
      key is among ys. */
  lemma {:induction false} RowSumSnoc(ps: seq<(string, string)>, p: (string, string), x: string, ys: seq<string>)
    ensures Sum(RowCells(ps + [p], x, ys)) == Sum(RowCells(ps, x, ys)) + (if p.0 == x then Occurrences(ys, p.1) else 0)
  {
    if ys != [] {
      var m := |ys| - 1;
      RowSumSnoc(ps, p, x, ys[..m]);
      OccurrencesSnoc(ps, p, (x, ys[m]));
      assert ys == ys[..m] + [ys[m]];
      OccurrencesSnoc(ys[..m], ys[m], p.1);
      assert RowCells(ps + [p], x, ys)[..m] == RowCells(ps + [p], x, ys[..m]);
      assert RowCells(ps, x, ys)[..m] == RowCells(ps, x, ys[..m]);
    }
  }

  /** Adding a record adds one to the grand total when its keys are among the
      (distinct) row keys and the column keys. */
  lemma {:induction false} TotalSnoc(ps: seq<(string, string)>, p: (string, string), xs: seq<string>, ys: seq<string>)
    requires Distinct(xs)
    ensures Total(Grid(ps + [p], xs, ys)) == Total(Grid(ps, xs, ys)) + (if p.0 in xs then Occurrences(ys, p.1) else 0)
  {
    if xs != [] {
      var m := |xs| - 1;
      assert Distinct(xs[..m]);
      TotalSnoc(ps, p, xs[..m], ys);
      RowSumSnoc(ps, p, xs[m], ys);
      assert xs == xs[..m] + [xs[m]];
      assert Grid(ps + [p], xs, ys)[..m] == Grid(ps + [p], xs[..m], ys);
      assert Grid(ps, xs, ys)[..m] == Grid(ps, xs[..m], ys);
      if p.0 == xs[m] {
        assert p.0 !in xs[..m];
      }
    }
  }

  lemma {:induction false} RowOfNothing(x: string, ys: seq<string>)
    ensures Sum(RowCells([], x, ys)) == 0
  {
    if ys != [] {
      var m := |ys| - 1;
      RowOfNothing(x, ys[..m]);
      assert RowCells([], x, ys)[..m] == RowCells([], x, ys[..m]);
    }
  }

  lemma {:induction false} GridOfNothing(xs: seq<string>, ys: seq<string>)
    ensures Total(Grid([], xs, ys)) == 0
  {
    if xs != [] {
      var m := |xs| - 1;
      GridOfNothing(xs[..m], ys);
      RowOfNothing(xs[m], ys);
      assert Grid([], xs, ys)[..m] == Grid([], xs[..m], ys);
    }
  }

  /** When the row and column keys are distinct and cover every pair, the
      cells add up to the number of pairs. */
  lemma {:induction false} GridTotalCovers(ps: seq<(string, string)>, xs: seq<string>, ys: seq<string>)
    requires Distinct(xs) && Distinct(ys)
    requires forall q :: q in ps ==> q.0 in xs && q.1 in ys
    ensures Total(Grid(ps, xs, ys)) == |ps|
  {
    if ps == [] {
      GridOfNothing(xs, ys);
    } else {
      var n := |ps| - 1;
      assert ps == ps[..n] + [ps[n]];
      GridTotalCovers(ps[..n], xs, ys);
      TotalSnoc(ps[..n], ps[n], xs, ys);
      OccurrencesInDistinct(ys, ps[n].1);
    }
  }

  /** The cells of a grouped-count tally add up to the number of records. */
  lemma GroupCountsTotal(rows: seq<Record>, rowBy: Column, colBy: Column)
    ensures Total(GroupCounts(rows, rowBy, colBy).cells) == |rows|
  {
    var p := GroupCounts(rows, rowBy, colBy);
    var ps := Pairs(rows, rowBy, colBy);
    StrictlyIncreasingIsDistinct(p.rowKeys);
    StrictlyIncreasingIsDistinct(p.colKeys);
    forall q | q in ps
      ensures q.0 in p.rowKeys && q.1 in p.colKeys
    {
      var k :| 0 <= k < |ps| && ps[k] == q;
      assert Values(rows, rowBy)[k] == q.0;
      assert Values(rows, colBy)[k] == q.1;
    }
    GridTotalCovers(ps, p.rowKeys, p.colKeys);
  }

  /** The tally's keys depend only on which values occur, not on the order of
      the records: reordering the frame gives the same row and column keys. */
  lemma GroupCountKeysIgnoreOrder(rows: seq<Record>, other: seq<Record>, rowBy: Column, colBy: Column)
    requires forall r :: r in rows <==> r in other
    ensures GroupCounts(rows, rowBy, colBy).rowKeys == GroupCounts(other, rowBy, colBy).rowKeys
    ensures GroupCounts(rows, rowBy, colBy).colKeys == GroupCounts(other, rowBy, colBy).colKeys
  {
    forall col: Column, v: string
      ensures v in Values(rows, col) <==> v in Values(other, col)
    {
      if v in Values(rows, col) {
        var k :| 0 <= k < |rows| && Values(rows, col)[k] == v;
        assert rows[k] in rows;
        var k' :| 0 <= k' < |other| && other[k'] == rows[k];
        assert Values(other, col)[k'] == v;
      }
      if v in Values(other, col) {
        var k :| 0 <= k < |other| && Values(other, col)[k] == v;
        assert other[k] in other;
        var k' :| 0 <= k' < |rows| && rows[k'] == other[k];
        assert Values(rows, col)[k'] == v;
      }
    }
    StrictlyIncreasingUnique(GroupCounts(rows, rowBy, colBy).rowKeys, GroupCounts(other, rowBy, colBy).rowKeys);
    StrictlyIncreasingUnique(GroupCounts(rows, rowBy, colBy).colKeys, GroupCounts(other, rowBy, colBy).colKeys);
  }

  // ---------------------------------------------------------------------
  // Gender tally

  datatype GenderTally = GenderTally(male: nat, female: nat)

  /** `value_counts().get(g, 0)` over the gender column is the number of rows
      the mask `gender == g` keeps. */
  lemma {:induction false} GenderCountIsMaskCount(rows: seq<Record>, g: string)
    ensures Occurrences(Values(rows, Gender), g) == Count(rows, GenderMask(g))
  {
    if rows != [] {
      var n := |rows| - 1;
      GenderCountIsMaskCount(rows[..n], g);
      assert Values(rows, Gender)[..n] == Values(rows[..n], Gender);
    }
  }

  /** `value_counts().get('male', 0)` and `value_counts().get('female', 0)`
      over the gender column of the shown rows: the number of shown rows of
      each gender, 0 when there is none. */
  function TallyGenders(filtered: seq<Record>): (t: GenderTally)
    ensures t.male == Count(filtered, GenderMask(Male))
    ensures t.female == Count(filtered, GenderMask(Female))
    ensures t.male > 0 <==> exists r :: r in filtered && r.gender == Male
    ensures t.female > 0 <==> exists r :: r in filtered && r.gender == Female
  {
    var genders := Values(filtered, Gender);
    assert forall r :: r in filtered ==> r.gender in genders by {
      forall r | r in filtered ensures r.gender in genders {
        var k :| 0 <= k < |filtered| && filtered[k] == r;
        assert genders[k] == r.gender;
      }
    }
    GenderCountIsMaskCount(filtered, Male);
    GenderCountIsMaskCount(filtered, Female);
    GenderTally(Occurrences(genders, Male), Occurrences(genders, Female))
  }

  /** Two distinct values occur at most as often together as there are
      entries, and exactly that often when no other value occurs. */
  lemma {:induction false} OccurrencesOfTwo(s: seq<string>, a: string, b: string)
    requires a != b
    ensures Occurrences(s, a) + Occurrences(s, b) <= |s|
    ensures Occurrences(s, a) + Occurrences(s, b) == |s| <==> forall x :: x in s ==> x == a || x == b
  {
    if s != [] {
      var n := |s| - 1;
      assert s == s[..n] + [s[n]];
      OccurrencesOfTwo(s[..n], a, b);
      assert forall x :: x in s <==> x in s[..n] || x == s[n];
      if s[n] != a && s[n] != b {
        assert s[n] in s;
      }
    }
  }

  /** `total_count` is at most the number of shown rows, and equals it
      exactly when every shown row is 'male' or 'female'. */
  lemma GenderTotalBounds(filtered: seq<Record>)
    ensures var t := TallyGenders(filtered);
      && t.male + t.female <= |filtered|
      && (t.male + t.female == |filtered| <==>
           forall r :: r in filtered ==> r.gender == Male || r.gender == Female)
  {
    var genders := Values(filtered, Gender);
    OccurrencesOfTwo(genders, Male, Female);
    if forall x :: x in genders ==> x == Male || x == Female {
      forall r | r in filtered ensures r.gender == Male || r.gender == Female {
        var k :| 0 <= k < |filtered| && filtered[k] == r;
        assert genders[k] == r.gender && genders[k] in genders;
      }
    } else {
      var x :| x in genders && x != Male && x != Female;
      var k :| 0 <= k < |genders| && genders[k] == x;
      assert filtered[k] in filtered;
    }
  }

  /** Dividing two non-negative amounts by their positive sum gives fractions
      in [0, 1] that add up to 1, and the first times the sum gives it back. */
  lemma FractionsOfTotal(m: real, f: real)
    requires 0.0 <= m && 0.0 <= f && m + f > 0.0
    ensures 0.0 <= m / (m + f) <= 1.0 && 0.0 <= f / (m + f) <= 1.0
    ensures m / (m + f) + f / (m + f) == 1.0
    ensures m / (m + f) * (m + f) == m
  {
    var n := m + f;
    assert m / n + f / n == (m + f) / n;
  }

  /** `male_count/total_count` and `female_count/total_count`. When neither
      count is found both fall back to the integer 0 and the division raises. */
  function Shares(t: GenderTally): (r: Result<(real, real), DashboardError>)
    ensures r.Err? <==> t.male + t.female == 0
    ensures r.Err? ==> r.error == ZeroDivision
    ensures r.Ok? ==> 0.0 <= r.value.0 <= 1.0 && 0.0 <= r.value.1 <= 1.0
    ensures r.Ok? ==> r.value.0 + r.value.1 == 1.0
    ensures r.Ok? ==> r.value.0 * (t.male + t.female) as real == t.male as real
  {
    var total := t.male + t.female;
    if total == 0 then Err(ZeroDivision)
    else
      assert total as real == t.male as real + t.female as real;
      FractionsOfTotal(t.male as real, t.female as real);
      Ok((t.male as real / total as real, t.female as real / total as real))
  }

  /** The shares are undefined exactly when no shown row is 'male' or
      'female', in particular when nothing is shown. */
  lemma SharesUndefinedIff(filtered: seq<Record>)
    ensures Shares(TallyGenders(filtered)).Err? <==>
      forall r :: r in filtered ==> r.gender != Male && r.gender != Female
  {
  }
}
