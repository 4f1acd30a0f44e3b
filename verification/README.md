# Fuel-economy bar chart: aggregation, label and ordering

This project models the data logic behind a horizontal bar chart of vehicle
fuel economy. The chart is drawn from a table of vehicle rows, each giving
a make (manufacturer), an engine-cylinder count and average city and highway
mileages. Everything else the script does is drawing and is not modelled.
Three pieces of logic are modelled:

- `average` groups the rows by make. It emits one record per distinct make,
  in the order each make first appears. Each record holds the mean
  cylinder count, the mean city mileage and the mean highway mileage of
  that make's rows. It also holds a combined mileage, which is the mean of
  the two mileage means.
- The axis label is made from the measure's field name by a global regular
  expression replacement. A space goes between every lowercase ASCII letter
  and an uppercase ASCII letter right after it, so `AverageCityMPG` becomes
  `Average City MPG`.
- The aggregated records are sorted in place, ascending by the chosen measure.

Files:

- `cars.dfy` (module `Cars`): the vehicle row and the per-make record.
- `aggregate.dfy` (module `Aggregate`): distinct makes in first-occurrence
  order, the rows of one make, column sums, extremes and means, the
  aggregation, and lemmas about it.
- `label.dfy` (module `Label`): the replacement as the matcher performs it,
  a position-by-position reference definition, and lemmas relating them.
- `chart.dfy` (module `Chart`): the measures, their field names and values,
  the in-place insertion sort, and the chart data.

Numbers are exact `real`s. `d3.mean` is modelled as sum divided by count
over a non-empty group.

`average` takes its keys from the rows themselves and applies no filter,
so every group is non-empty and no mean of an empty group is taken.

## Model

| member | source | states |
|---|---|---|
| `Aggregate.Distinct` | visualization.js:2 | The result has no duplicates. It holds exactly the values of the input. `Aggregate.Makes` applies it to the make column, as line 2 spreads a `Set` of the rows' makes. |
| `Aggregate.DistinctOrder` | visualization.js:2 | The distinct values come in the order of their first occurrence in the input. This is what spreading an insertion-ordered `Set` gives. |
| `Aggregate.Select` | visualization.js:5 | The filtered group holds only rows of the given make. Every row of that make appears in it exactly as often as in the input. |
| `Aggregate.SelectMembers` | visualization.js:5 | A row is in a make's group if and only if it is an input row of that make. |
| `Aggregate.Mean` | visualization.js:6-11 | The mean of a column over a non-empty group lies between the column's smallest and largest value in that group. |
| `Aggregate.Summarize` | visualization.js:9-15 | The record carries the make. Each of its three means is the mean of that column over the group. The combined figure is (city mean + highway mean) / 2. |
| `Aggregate.Average` | visualization.js:1-19 | There is one record per distinct make, in the distinct-makes order. Each record's group of rows is non-empty. Each record is the summary of exactly that make's rows. |
| `Aggregate.OneRecordPerMake` | visualization.js:2-16 | No two records share a make. A make has a record if and only if some input row has that make. |
| `Aggregate.FirstAppearanceOrder` | visualization.js:2-4 | For an earlier and a later record, some row of the earlier record's make comes before every row of the later record's make. |
| `Aggregate.GroupOfRecord` | visualization.js:5-13 | Each record's group is non-empty and is exactly the input rows of its make. Each of the three means equals the group's column sum divided by the group's size. Each mean is at least the value of some row of that make and at most the value of some row of that make. Every row of that make lies between the group's extremes. |
| `Aggregate.CombinedIsMeanOfMeans` | visualization.js:12-14 | Every record's combined mileage is (city mean + highway mean) / 2. It comes from the two means, not from a per-row average. |
| `Aggregate.SumPermutation` | visualization.js:6-7 | Two row sequences with the same multiset have equal column sums. |
| `Aggregate.MeanPermutation` | visualization.js:11 | Two non-empty groups with the same multiset have equal means. |
| `Aggregate.AverageShuffle` | visualization.js:4-16 | Reordering the input rows changes at most the order of the records. The set of records stays the same. |
| `Label.MeasureLabel` | visualization.js:25 | The label is longer than the name by the number of lowercase-then-uppercase boundaries. It starts with the name's first character. |
| `Label.MeasureLabelIsSpaced` | visualization.js:25 | The left-to-right global replacement equals the reference definition. The reference puts a space after each character that starts a boundary. So resuming the scan after a match misses no boundary. |
| `Label.MeasureLabelLayout` | visualization.js:25 | Character i of the name appears at position i plus the number of boundaries before it. The next character of the label is a space exactly when i starts a boundary or the name already has a space there. The length grows by the number of boundaries. |
| `Label.MeasureLabelIdentity` | visualization.js:25 | A name with no lowercase-then-uppercase boundary is its own label. |
| `Label.MeasureLabelNoBoundary` | visualization.js:25 | The label has no lowercase-then-uppercase boundary left. |
| `Label.MeasureLabelIdempotent` | visualization.js:25 | Labelling a label changes nothing. |
| `Label.UnlabelMeasureLabel` | visualization.js:25 | Deleting every space between a lowercase and an uppercase letter gives the name back. This holds when the name had no such space of its own. |
| `Label.ThreeWordLabel` | visualization.js:25 | A name made of three words without an inner boundary, where each word ends in a lowercase letter and the next starts with an uppercase one, is labelled with one space between consecutive words. |
| `Label.AverageCityLabel` | visualization.js:22-25 | `AverageCityMPG` is labelled `Average City MPG`. |
| `Chart.ChosenLabel` | visualization.js:22-25 | The chart's chosen measure is city mileage, and its axis label is `Average City MPG`. |
| `Chart.SortByMeasure` | visualization.js:44 | The in-place sort leaves the array ascending in the measure. The array is a permutation of its old contents. |
| `Chart.ChartData` | visualization.js:43-44 | The chart's records are a permutation of the aggregate of the rows. They are in non-decreasing order of the chosen measure. |

## Left out

- Fetching and parsing the CSV file (visualization.js:42). This is an asynchronous network read done by the charting library. The rows are a parameter instead.
- The SVG drawing (visualization.js:28-39, 46-131): scales, axes, bar geometry, the colour scale, the legend, the annotation, and the margin arithmetic. These are presentation code in a library that is not part of this model.
- IEEE floating-point rounding in the means and in the division by 2.0. Values are exact reals.
- The string-to-number coercion that `d3.mean` performs, and its skipping of null and NaN values. Rows are assumed to hold numbers.
- NaN behaviour of the subtracting comparator. Sort stability is not proved either. The insertion sort is stable, but no contract says so.
- Which fields a measure can name. `d[measure]` can index any field, but the model offers only the three measures the source names (visualization.js:22-24). Only the label of the chosen one, `AverageCityMPG`, is proved.
- `Label.UnlabelMeasureLabel`: this round trip requires that the name has no space of its own between a lowercase and an uppercase letter. Without that condition the round trip is false, since such a space would also be deleted. `Label.MeasureLabelLayout` states the exact placement of the inserted spaces for every name.
- `Aggregate.Select`: the contract does not say that the group keeps the rows' order, although the filter at visualization.js:5 does. Only the group's multiset is stated, because sums and means over exact reals do not depend on order.
- The `Fuel` column and the fuel-type and cylinder-range filters. `visualization.js` does not use them.
