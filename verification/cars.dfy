/** The records the chart works on: one row per vehicle model as read from
    the fuel-economy table, and one aggregate per manufacturer. Numeric
    fields are exact reals: floating-point rounding is not modelled. */
module Cars {

  /** A vehicle row; only the columns the aggregation reads are kept. */
  datatype Row = Row(
    make: string,
    engineCylinders: real,
    averageCityMpg: real,
    averageHighwayMpg: real)

  /** The numeric columns of a row that are averaged per make. */
  datatype Field = Cylinders | City | Highway

  function Get(row: Row, f: Field): real
  {
    match f
    case Cylinders => row.engineCylinders
    case City => row.averageCityMpg
    case Highway => row.averageHighwayMpg
  }

  /** The record emitted for one make. */
  datatype MakeAverage = MakeAverage(
    make: string,
    engineCylinders: real,
    averageCityMpg: real,
    averageHighwayMpg: real,
    averageCombinedMpg: real)
}
