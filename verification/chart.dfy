/** The data side of the chart: the measure the bars show, its axis label,
    and the per-make records ordered by that measure. */
module Chart {
  import opened Cars
  import opened Aggregate
  import opened Label

  /** The record fields a chart can be drawn by. */
  datatype Measure = AverageCityMPG | AverageHighwayMPG | AverageCombinedMPG

  /** The measure the chart is drawn by. */
  const Chosen: Measure := AverageCityMPG

  /** The field name of a measure, as it appears in the records. */
  function Name(m: Measure): string
  {
    match m
    case AverageCityMPG => "AverageCityMPG"
    case AverageHighwayMPG => "AverageHighwayMPG"
    case AverageCombinedMPG => "AverageCombinedMPG"
  }

  /** The value of a measure in a record: the city and highway measures
      are the record's means of those columns. */
  function Value(d: MakeAverage, m: Measure): real
  {
    match m
    case AverageCityMPG => Averaged(d, City)
    case AverageHighwayMPG => Averaged(d, Highway)
    case AverageCombinedMPG => d.averageCombinedMpg
  }

  /** The x-axis label of the chosen measure. */
  lemma ChosenLabel()
    ensures MeasureLabel(Name(Chosen)) == "Average City MPG"
  {
    AverageCityLabel();
  }

  predicate SortedBy(s: seq<MakeAverage>, m: Measure)
  {
    forall i, j :: 0 <= i < j < |s| ==> Value(s[i], m) <= Value(s[j], m)
  }

  /** Exchanges two records of the array. */
  method Swap(a: array<MakeAverage>, i: nat, j: nat)
    requires i < a.Length && j < a.Length
    modifies a
    ensures a[i] == old(a[j]) && a[j] == old(a[i])
    ensures forall k :: 0 <= k < a.Length && k != i && k != j ==> a[k] == old(a[k])
    ensures multiset(a[..]) == old(multiset(a[..]))
  {
    a[i], a[j] := a[j], a[i];
  }

  /** Sorts the records in place, ascending by the measure. */
  method SortByMeasure(a: array<MakeAverage>, m: Measure)
    modifies a
    ensures SortedBy(a[..], m)
    ensures multiset(a[..]) == old(multiset(a[..]))
  {
    var i := 0;
    while i < a.Length
      invariant 0 <= i <= a.Length
      invariant forall k, l :: 0 <= k < l < i ==> Value(a[k], m) <= Value(a[l], m)
      invariant multiset(a[..]) == old(multiset(a[..]))
    {
      // insert a[i] into the sorted prefix a[..i]
      var j := i;
      while j > 0 && Value(a[j - 1], m) > Value(a[j], m)
        invariant 0 <= j <= i
        invariant forall k, l :: 0 <= k < l <= i && k != j && l != j ==> Value(a[k], m) <= Value(a[l], m)
        invariant forall k, l :: 0 <= k < j < l <= i ==> Value(a[k], m) <= Value(a[l], m)
        invariant forall l :: j < l <= i ==> Value(a[j], m) <= Value(a[l], m)
        invariant multiset(a[..]) == old(multiset(a[..]))
      {
        Swap(a, j - 1, j);
        j := j - 1;
      }
      i := i + 1;
    }
  }

  /** The records the bars are drawn from: the per-make averages of the
      rows, in ascending order of the measure. */
  method ChartData(rows: seq<Row>, m: Measure) returns (data: seq<MakeAverage>)
    ensures multiset(data) == multiset(Average(rows))
    ensures SortedBy(data, m)
  {
    var averages := Average(rows);
    var a := new MakeAverage[|averages|](k requires 0 <= k < |averages| => averages[k]);
    assert a[..] == averages;
    SortByMeasure(a, m);
    data := a[..];
  }
}
