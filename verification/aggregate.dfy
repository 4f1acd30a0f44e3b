/** Group-by-make aggregation: one record per distinct make, holding the
    means of the numeric columns over that make's rows. */
module Aggregate {
  import opened Cars

  // ---------------------------------------------------------------------
  // Distinct values in first-occurrence order (a spread insertion-ordered set)
  // ---------------------------------------------------------------------

  /** Position of the first occurrence of `x` in `s`. */
  function FirstIndex<T(==)>(s: seq<T>, x: T): (i: nat)
    requires x in s
    ensures i < |s| && s[i] == x && x !in s[..i]
  {
    if s[0] == x then 0 else 1 + FirstIndex(s[1..], x)
  }

  predicate NoDuplicates<T(==)>(s: seq<T>)
  {
    forall i, j :: 0 <= i < j < |s| ==> s[i] != s[j]
  }

  lemma FirstIndexPrefix<T>(s: seq<T>, n: nat)
    requires n <= |s|
    ensures forall x :: x in s[..n] ==> FirstIndex(s, x) == FirstIndex(s[..n], x)
  {
    forall x | x in s[..n]
      ensures FirstIndex(s, x) == FirstIndex(s[..n], x)
    {
      var i, j := FirstIndex(s, x), FirstIndex(s[..n], x);
      assert s[j] == x && x !in s[..j];
    }
  }

  /** The values of `s` without repetition, each kept where it first occurs:
      inserting the elements one by one into a set that remembers insertion
      order and then listing the set. */
  function Distinct(s: seq<string>): (r: seq<string>)
    ensures NoDuplicates(r)
    ensures forall x :: x in r <==> x in s
  {
    if |s| == 0 then []
    else
      var init, last := s[..|s| - 1], s[|s| - 1];
      assert s == init + [last];
      var d := Distinct(init);
      if last in d then d else d + [last]
  }

  /** The distinct values come in the order of their first occurrence. */
  lemma {:induction false} DistinctOrder(s: seq<string>)
    ensures forall i, j :: 0 <= i < j < |Distinct(s)| ==>
      FirstIndex(s, Distinct(s)[i]) < FirstIndex(s, Distinct(s)[j])
    decreases |s|
  {
    if |s| > 0 {
      var init, last := s[..|s| - 1], s[|s| - 1];
      assert s == init + [last];
      DistinctOrder(init);
      FirstIndexPrefix(s, |s| - 1);
    }
  }

  // ---------------------------------------------------------------------
  // Sums, extremes and means of one column
  // ---------------------------------------------------------------------

  function Sum(rows: seq<Row>, f: Field): real
  {
    if |rows| == 0 then 0.0 else Get(rows[0], f) + Sum(rows[1..], f)
  }

  lemma {:induction false} SumAppend(a: seq<Row>, b: seq<Row>, f: Field)
    ensures Sum(a + b, f) == Sum(a, f) + Sum(b, f)
  {
    if |a| == 0 {
      assert a + b == b;
    } else {
      assert (a + b)[1..] == a[1..] + b;
      SumAppend(a[1..], b, f);
    }
  }

  /** Reordering the rows does not change a column's sum. */
  lemma {:induction false} SumPermutation(a: seq<Row>, b: seq<Row>, f: Field)
    requires multiset(a) == multiset(b)
    ensures Sum(a, f) == Sum(b, f)
  {
    if |a| == 0 {
      assert |multiset(b)| == 0;
    } else {
      assert a[0] in multiset(b);
      var k :| 0 <= k < |b| && b[k] == a[0];
      RemoveMatching(a, b, k);
      SumPermutation(a[1..], b[..k] + b[k + 1..], f);
      SumRemoveAt(b, k, f);
    }
  }

  /** Taking the same row out of two equal multisets leaves them equal. */
  lemma RemoveMatching(a: seq<Row>, b: seq<Row>, k: nat)
    requires multiset(a) == multiset(b)
    requires 0 < |a| && k < |b| && b[k] == a[0]
    ensures multiset(a[1..]) == multiset(b[..k] + b[k + 1..])
  {
    assert a == [a[0]] + a[1..];
    RemoveAt(b, k);
  }

  lemma RemoveAt(b: seq<Row>, k: nat)
    requires k < |b|
    ensures multiset(b[..k] + b[k + 1..]) == multiset(b) - multiset{b[k]}
  {
    assert b == b[..k] + [b[k]] + b[k + 1..];
  }

  lemma SumRemoveAt(b: seq<Row>, k: nat, f: Field)
    requires k < |b|
    ensures Sum(b, f) == Get(b[k], f) + Sum(b[..k] + b[k + 1..], f)
  {
    assert b == b[..k] + ([b[k]] + b[k + 1..]);
    SumAppend(b[..k], [b[k]] + b[k + 1..], f);
    assert ([b[k]] + b[k + 1..])[1..] == b[k + 1..];
    SumAppend(b[..k], b[k + 1..], f);
  }

  lemma {:induction false} SumAtLeast(rows: seq<Row>, f: Field, lo: real)
    requires forall k :: 0 <= k < |rows| ==> lo <= Get(rows[k], f)
    ensures (|rows| as real) * lo <= Sum(rows, f)
  {
    if |rows| > 0 {
      SumAtLeast(rows[1..], f, lo);
    }
  }

  lemma {:induction false} SumAtMost(rows: seq<Row>, f: Field, hi: real)
    requires forall k :: 0 <= k < |rows| ==> Get(rows[k], f) <= hi
    ensures Sum(rows, f) <= (|rows| as real) * hi
  {
    if |rows| > 0 {
      SumAtMost(rows[1..], f, hi);
    }
  }

  /** Smallest value of column `f` over a non-empty group. */
  function MinOf(rows: seq<Row>, f: Field): (r: real)
    requires |rows| > 0
    ensures exists k :: 0 <= k < |rows| && r == Get(rows[k], f)
    ensures forall k :: 0 <= k < |rows| ==> r <= Get(rows[k], f)
  {
    if |rows| == 1 then Get(rows[0], f)
    else
      var m := MinOf(rows[1..], f);
      if Get(rows[0], f) <= m then Get(rows[0], f)
      else
        assert exists k :: 1 <= k < |rows| && m == Get(rows[k], f) by {
          var k :| 0 <= k < |rows[1..]| && m == Get(rows[1..][k], f);
          assert rows[1..][k] == rows[k + 1];
        }
        m
  }

  /** Largest value of column `f` over a non-empty group. */
  function MaxOf(rows: seq<Row>, f: Field): (r: real)
    requires |rows| > 0
    ensures exists k :: 0 <= k < |rows| && r == Get(rows[k], f)
    ensures forall k :: 0 <= k < |rows| ==> Get(rows[k], f) <= r
  {
    if |rows| == 1 then Get(rows[0], f)
    else
      var m := MaxOf(rows[1..], f);
      if m <= Get(rows[0], f) then Get(rows[0], f)
      else
        assert exists k :: 1 <= k < |rows| && m == Get(rows[k], f) by {
          var k :| 0 <= k < |rows[1..]| && m == Get(rows[1..][k], f);
          assert rows[1..][k] == rows[k + 1];
        }
        m
  }

  /** Arithmetic mean (sum over count) of column `f` over a non-empty
      group: it lies between the column's extremes. */
  function Mean(rows: seq<Row>, f: Field): (r: real)
    requires |rows| > 0
    ensures MinOf(rows, f) <= r <= MaxOf(rows, f)
  {
    MeanBetween(rows, f);
    Sum(rows, f) / (|rows| as real)
  }

  lemma MeanBetween(rows: seq<Row>, f: Field)
    requires |rows| > 0
    ensures MinOf(rows, f) <= Sum(rows, f) / (|rows| as real) <= MaxOf(rows, f)
  {
    MeanAtLeastMin(rows, f);
    MeanAtMostMax(rows, f);
  }

  lemma MeanAtLeastMin(rows: seq<Row>, f: Field)
    requires |rows| > 0
    ensures MinOf(rows, f) <= Sum(rows, f) / (|rows| as real)
  {
    MeanAtLeast(rows, f, MinOf(rows, f));
  }

  lemma MeanAtMostMax(rows: seq<Row>, f: Field)
    requires |rows| > 0
    ensures Sum(rows, f) / (|rows| as real) <= MaxOf(rows, f)
  {
    MeanAtMost(rows, f, MaxOf(rows, f));
  }

  lemma MeanAtLeast(rows: seq<Row>, f: Field, lo: real)
    requires |rows| > 0
    requires forall k :: 0 <= k < |rows| ==> lo <= Get(rows[k], f)
    ensures lo <= Sum(rows, f) / (|rows| as real)
  {
    SumAtLeast(rows, f, lo);
    QuotientAtLeast(Sum(rows, f), |rows| as real, lo);
  }

  lemma MeanAtMost(rows: seq<Row>, f: Field, hi: real)
    requires |rows| > 0
    requires forall k :: 0 <= k < |rows| ==> Get(rows[k], f) <= hi
    ensures Sum(rows, f) / (|rows| as real) <= hi
  {
    SumAtMost(rows, f, hi);
    QuotientAtMost(Sum(rows, f), |rows| as real, hi);
  }

  lemma QuotientAtLeast(sum: real, n: real, lo: real)
    requires n > 0.0 && n * lo <= sum
    ensures lo <= sum / n
  {
    assert (sum / n) * n == sum;
  }

  lemma QuotientAtMost(sum: real, n: real, hi: real)
    requires n > 0.0 && sum <= n * hi
    ensures sum / n <= hi
  {
    assert (sum / n) * n == sum;
  }

  // ---------------------------------------------------------------------
  // Grouping by make
  // ---------------------------------------------------------------------

  /** The make of every row, in row order. */
  function MakeColumn(rows: seq<Row>): seq<string>
  {
    seq(|rows|, k requires 0 <= k < |rows| => rows[k].make)
  }

  /** Some row has make `m`. */
  predicate HasMake(rows: seq<Row>, m: string)
  {
    exists k :: 0 <= k < |rows| && rows[k].make == m
  }

  /** Some record is for make `m`. */
  predicate HasRecord(r: seq<MakeAverage>, m: string)
  {
    exists i :: 0 <= i < |r| && r[i].make == m
  }

  /** The distinct makes, in the order each first appears. */
  function Makes(rows: seq<Row>): seq<string>
  {
    Distinct(MakeColumn(rows))
  }

  /** The rows of one make: exactly the rows with that make, each as often
      as it occurs. */
  function Select(rows: seq<Row>, make: string): (r: seq<Row>)
    ensures forall k :: 0 <= k < |r| ==> r[k].make == make
    ensures forall x :: multiset(r)[x] == if x.make == make then multiset(rows)[x] else 0
  {
    if |rows| == 0 then []
    else
      assert rows == [rows[0]] + rows[1..];
      var tail := Select(rows[1..], make);
      if rows[0].make == make then [rows[0]] + tail else tail
  }

  /** The mean a record holds for column `f`. */
  function Averaged(d: MakeAverage, f: Field): real
  {
    match f
    case Cylinders => d.engineCylinders
    case City => d.averageCityMpg
    case Highway => d.averageHighwayMpg
  }

  /** The record for one make, from its non-empty group of rows: the make,
      the mean of each column over the group, and as combined figure the
      mean of the two averaged mileages. */
  function Summarize(make: string, group: seq<Row>): (r: MakeAverage)
    requires |group| > 0
    ensures r.make == make
    ensures forall f :: Averaged(r, f) == Mean(group, f)
    ensures r.averageCombinedMpg == (r.averageCityMpg + r.averageHighwayMpg) / 2.0
  {
    var city := Mean(group, City);
    var highway := Mean(group, Highway);
    MakeAverage(make, Mean(group, Cylinders), city, highway, (city + highway) / 2.0)
  }

  lemma SelectNonEmpty(rows: seq<Row>, make: string)
    requires make in MakeColumn(rows)
    ensures |Select(rows, make)| > 0
  {
    var k :| 0 <= k < |rows| && MakeColumn(rows)[k] == make;
    assert rows[k] in multiset(rows);
    assert rows[k] in multiset(Select(rows, make));
  }

  /** Every make taken from the rows has a non-empty group. */
  lemma MakesHaveRows(rows: seq<Row>)
    ensures forall m :: m in Makes(rows) ==> |Select(rows, m)| > 0
  {
    forall m | m in Makes(rows) ensures |Select(rows, m)| > 0 {
      SelectNonEmpty(rows, m);
    }
  }

  /** Group the rows by make and summarise each group. */
  function Average(rows: seq<Row>): (r: seq<MakeAverage>)
    ensures |r| == |Makes(rows)|
    ensures forall i :: 0 <= i < |r| ==> r[i].make == Makes(rows)[i]
    ensures forall i :: 0 <= i < |r| ==>
      |Select(rows, r[i].make)| > 0 && r[i] == Summarize(r[i].make, Select(rows, r[i].make))
  {
    var makes := Makes(rows);
    MakesHaveRows(rows);
    seq(|makes|, i requires 0 <= i < |makes| => Summarize(makes[i], Select(rows, makes[i])))
  }

  // ---------------------------------------------------------------------
  // What the aggregate promises
  // ---------------------------------------------------------------------

  /** Exactly one record per make: no make twice, every make of the input
      present, no make that is not in the input. */
  lemma OneRecordPerMake(rows: seq<Row>)
    ensures forall i, j :: 0 <= i < j < |Average(rows)| ==> Average(rows)[i].make != Average(rows)[j].make
    ensures forall m :: HasRecord(Average(rows), m) <==> HasMake(rows, m)
  {
    forall m ensures HasRecord(Average(rows), m) <==> HasMake(rows, m) {
      MakeHasRecord(rows, m);
      RecordHasMake(rows, m);
    }
  }

  lemma MakeHasRecord(rows: seq<Row>, m: string)
    ensures HasMake(rows, m) ==> HasRecord(Average(rows), m)
  {
    if HasMake(rows, m) {
      var r, makes, column := Average(rows), Makes(rows), MakeColumn(rows);
      var k :| 0 <= k < |rows| && rows[k].make == m;
      assert column[k] == m;
      assert m in column;
      assert m in makes;
      var i :| 0 <= i < |makes| && makes[i] == m;
      assert r[i].make == m;
    }
  }

  lemma RecordHasMake(rows: seq<Row>, m: string)
    ensures HasRecord(Average(rows), m) ==> HasMake(rows, m)
  {
    if HasRecord(Average(rows), m) {
      var r, makes, column := Average(rows), Makes(rows), MakeColumn(rows);
      var i :| 0 <= i < |r| && r[i].make == m;
      assert makes[i] in column;
    }
  }

  /** Records come in the order their makes first appear: the make of an
      earlier record occurs in some row before any row of a later record's make. */
  lemma FirstAppearanceOrder(rows: seq<Row>, i: nat, j: nat)
    requires i < j < |Average(rows)|
    ensures exists k :: (0 <= k < |rows| && rows[k].make == Average(rows)[i].make &&
      forall l :: 0 <= l <= k ==> rows[l].make != Average(rows)[j].make)
  {
    var r, makes, column := Average(rows), Makes(rows), MakeColumn(rows);
    DistinctOrder(column);
    var ki, kj := FirstIndex(column, makes[i]), FirstIndex(column, makes[j]);
    assert ki < kj;
    forall l | 0 <= l <= ki ensures rows[l].make != r[j].make {
      assert column[..kj][l] == column[l];
    }
    assert rows[ki].make == column[ki];
  }

  /** Each record's group is exactly the input rows of its make, so no mean
      is taken over an empty set; every mean equals the group's sum divided
      by its size, and lies between values that occur among those rows and
      bound them all. */
  lemma GroupOfRecord(rows: seq<Row>, i: nat, f: Field)
    requires i < |Average(rows)|
    ensures var d := Average(rows)[i];
      var g := Select(rows, d.make);
      && |g| > 0
      && (forall x :: x in g <==> x in rows && x.make == d.make)
      && Averaged(d, f) == Sum(g, f) / (|g| as real)
      && (exists k :: 0 <= k < |rows| && rows[k].make == d.make && Get(rows[k], f) <= Averaged(d, f))
      && (exists k :: 0 <= k < |rows| && rows[k].make == d.make && Averaged(d, f) <= Get(rows[k], f))
      && (forall k :: 0 <= k < |rows| && rows[k].make == d.make ==> MinOf(g, f) <= Get(rows[k], f) <= MaxOf(g, f))
  {
    var d := Average(rows)[i];
    assert Averaged(d, f) == Mean(Select(rows, d.make), f);
    SelectMembers(rows, d.make);
    MeanAboveSomeRow(rows, d.make, f);
    MeanBelowSomeRow(rows, d.make, f);
    GroupWithinExtremes(rows, d.make, f);
  }

  /** The rows of a make are exactly the input rows with that make. */
  lemma SelectMembers(rows: seq<Row>, m: string)
    ensures forall x :: x in Select(rows, m) <==> x in rows && x.make == m
  {
    var g := Select(rows, m);
    forall x ensures x in g <==> x in rows && x.make == m {
      assert x in g <==> multiset(g)[x] > 0;
    }
  }

  lemma MeanAboveSomeRow(rows: seq<Row>, m: string, f: Field)
    requires |Select(rows, m)| > 0
    ensures exists k :: 0 <= k < |rows| && rows[k].make == m && Get(rows[k], f) <= Mean(Select(rows, m), f)
  {
    var g := Select(rows, m);
    var lo :| 0 <= lo < |g| && MinOf(g, f) == Get(g[lo], f);
    assert g[lo] in multiset(rows);
    var k :| 0 <= k < |rows| && rows[k] == g[lo];
  }

  lemma MeanBelowSomeRow(rows: seq<Row>, m: string, f: Field)
    requires |Select(rows, m)| > 0
    ensures exists k :: 0 <= k < |rows| && rows[k].make == m && Mean(Select(rows, m), f) <= Get(rows[k], f)
  {
    var g := Select(rows, m);
    var hi :| 0 <= hi < |g| && MaxOf(g, f) == Get(g[hi], f);
    assert g[hi] in multiset(rows);
    var k :| 0 <= k < |rows| && rows[k] == g[hi];
  }

  lemma GroupWithinExtremes(rows: seq<Row>, m: string, f: Field)
    requires |Select(rows, m)| > 0
    ensures forall k :: 0 <= k < |rows| && rows[k].make == m ==>
      MinOf(Select(rows, m), f) <= Get(rows[k], f) <= MaxOf(Select(rows, m), f)
  {
    var g := Select(rows, m);
    forall k | 0 <= k < |rows| && rows[k].make == m
      ensures MinOf(g, f) <= Get(rows[k], f) <= MaxOf(g, f)
    {
      assert rows[k] in multiset(g);
    }
  }

  /** The combined figure of every record is the mean of its city and
      highway means, not a per-row average. */
  lemma CombinedIsMeanOfMeans(rows: seq<Row>)
    ensures forall d :: d in Average(rows) ==>
      d.averageCombinedMpg == (d.averageCityMpg + d.averageHighwayMpg) / 2.0
  {
  }

  /** Shuffling the rows changes at most the order of the records, never
      a record's contents. */
  lemma {:induction false} AverageShuffle(a: seq<Row>, b: seq<Row>)
    requires multiset(a) == multiset(b)
    ensures forall d :: d in Average(a) <==> d in Average(b)
  {
    forall d | d in Average(a) ensures d in Average(b) {
      AverageShuffleOne(a, b, d);
    }
    forall d | d in Average(b) ensures d in Average(a) {
      AverageShuffleOne(b, a, d);
    }
  }

  lemma AverageShuffleOne(a: seq<Row>, b: seq<Row>, d: MakeAverage)
    requires multiset(a) == multiset(b)
    requires d in Average(a)
    ensures d in Average(b)
  {
    var i :| 0 <= i < |Average(a)| && Average(a)[i] == d;
    var m := d.make;
    assert HasRecord(Average(a), m);
    RecordHasMake(a, m);
    var k :| 0 <= k < |a| && a[k].make == m;
    assert a[k] in multiset(b);
    var kb :| 0 <= kb < |b| && b[kb] == a[k];
    assert HasMake(b, m);
    MakeHasRecord(b, m);
    var j :| 0 <= j < |Average(b)| && Average(b)[j].make == m;
    SameGroupSameSummary(a, b, m);
    assert Average(b)[j] == d;
  }

  /** Rows with equal multisets give every make the same summary. */
  lemma SameGroupSameSummary(a: seq<Row>, b: seq<Row>, m: string)
    requires multiset(a) == multiset(b)
    requires |Select(a, m)| > 0
    ensures |Select(b, m)| > 0 && Summarize(m, Select(a, m)) == Summarize(m, Select(b, m))
  {
    var ga, gb := Select(a, m), Select(b, m);
    SelectPermutation(a, b, m);
    MeanPermutation(ga, gb, Cylinders);
    MeanPermutation(ga, gb, City);
    MeanPermutation(ga, gb, Highway);
  }

  lemma SelectPermutation(a: seq<Row>, b: seq<Row>, m: string)
    requires multiset(a) == multiset(b)
    ensures multiset(Select(a, m)) == multiset(Select(b, m))
  {
    var ga, gb := Select(a, m), Select(b, m);
    forall x ensures multiset(ga)[x] == multiset(gb)[x] {
    }
  }

  /** Reordering a group does not change any of its means. */
  lemma MeanPermutation(a: seq<Row>, b: seq<Row>, f: Field)
    requires multiset(a) == multiset(b)
    requires |a| > 0
    ensures |b| > 0 && Mean(a, f) == Mean(b, f)
  {
    assert |a| == |multiset(a)| == |multiset(b)| == |b|;
    SumPermutation(a, b, f);
  }
}
