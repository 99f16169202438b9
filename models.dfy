/**
 * The `air_quality` table: one row per observation, nine columns, `id` the
 * primary key and `unique_id` the externally supplied key that must be unique.
 */
module Models {
  import opened Wrappers
  import opened Text

  /**
   * One stored observation. Every column is declared non-null, so every field
   * holds a value. `id` is assigned by the store. The two numeric columns
   * `indicator_id` (Integer) and `data_value` (Float) are never computed with
   * and are kept as the text they were ingested from.
   */
  datatype Record = Record(
    id: nat,
    uniqueId: string,
    indicatorId: string,
    name: string,
    measure: string,
    geoPlaceName: string,
    timePeriod: string,
    startDate: string,
    dataValue: string)

  /** The columns of the table, in declaration order. */
  datatype Column =
    | Id | UniqueId | IndicatorId | Name | Measure
    | GeoPlaceName | TimePeriod | StartDate | DataValue

  /** The column key a caller names a column by. */
  function ColumnKey(c: Column): string
  {
    match c
    case Id => "id"
    case UniqueId => "unique_id"
    case IndicatorId => "indicator_id"
    case Name => "name"
    case Measure => "measure"
    case GeoPlaceName => "geo_place_name"
    case TimePeriod => "time_period"
    case StartDate => "start_date"
    case DataValue => "data_value"
  }

  /** The set of column keys: the allow-list of filterable names. */
  const ColumnNames: set<string> :=
    {"id", "unique_id", "indicator_id", "name", "measure",
     "geo_place_name", "time_period", "start_date", "data_value"}

  /** Looks a caller-supplied key up among the columns, as the column-metadata map does. */
  function ColumnOf(key: string): (c: Option<Column>)
    ensures c.Some? <==> key in ColumnNames
    ensures c.Some? ==> ColumnKey(c.value) == key
  {
    match key
    case "id" => Some(Id)
    case "unique_id" => Some(UniqueId)
    case "indicator_id" => Some(IndicatorId)
    case "name" => Some(Name)
    case "measure" => Some(Measure)
    case "geo_place_name" => Some(GeoPlaceName)
    case "time_period" => Some(TimePeriod)
    case "start_date" => Some(StartDate)
    case "data_value" => Some(DataValue)
    case _ => None
  }

  /** Every column is found under its own key, and the column keys are all in the allow-list. */
  lemma ColumnKeysExact(c: Column)
    ensures ColumnOf(ColumnKey(c)) == Some(c)
    ensures ColumnKey(c) in ColumnNames
  {
  }

  /** The allow-list holds nine distinct names, one per column. */
  lemma ColumnNamesCount()
    ensures |ColumnNames| == 9
  {
    var s: set<string> := {};
    s := s + {"id"};
    assert "unique_id" !in s; s := s + {"unique_id"};
    assert "indicator_id" !in s; s := s + {"indicator_id"};
    assert "name" !in s; s := s + {"name"};
    assert "measure" !in s; s := s + {"measure"};
    assert "geo_place_name" !in s; s := s + {"geo_place_name"};
    assert "time_period" !in s; s := s + {"time_period"};
    assert "start_date" !in s; s := s + {"start_date"};
    assert "data_value" !in s; s := s + {"data_value"};
    assert |s| == 9;
    assert s == ColumnNames;
  }

  /** The text a column holds for a record, as a `LIKE` comparison sees it. */
  function Field(r: Record, c: Column): string
  {
    match c
    case Id => NatToString(r.id)
    case UniqueId => r.uniqueId
    case IndicatorId => r.indicatorId
    case Name => r.name
    case Measure => r.measure
    case GeoPlaceName => r.geoPlaceName
    case TimePeriod => r.timePeriod
    case StartDate => r.startDate
    case DataValue => r.dataValue
  }

  /** The `__repr__` of a record. */
  function Describe(r: Record): (text: string)
    ensures |text| == |"<AirQuality "| + |r.uniqueId| + 1
    ensures text[..|"<AirQuality "|] == "<AirQuality " && text[|text| - 1] == '>'
    ensures text[|"<AirQuality "|..|text| - 1] == r.uniqueId
  {
    "<AirQuality " + r.uniqueId + ">"
  }

  /** Two records are described alike exactly when they share their unique key. */
  lemma DescribeIdentifies(a: Record, b: Record)
    ensures Describe(a) == Describe(b) <==> a.uniqueId == b.uniqueId
  {
    if Describe(a) == Describe(b) {
      var n := |Describe(a)|;
      assert Describe(a)[|"<AirQuality "|..n - 1] == Describe(b)[|"<AirQuality "|..n - 1];
    }
  }

  /** The `unique=True` constraint on `unique_id`. */
  ghost predicate UniqueKeys(table: seq<Record>)
  {
    forall i, j :: 0 <= i < j < |table| ==> table[i].uniqueId != table[j].uniqueId
  }

  /** The unique keys present in a table. */
  function UniqueIdSet(table: seq<Record>): set<string>
  {
    set r | r in table :: r.uniqueId
  }

  /**
   * The primary-key discipline of an auto-incremented `id`: ids grow in
   * insertion order and stay below the next id to be issued.
   */
  ghost predicate IdsAscending(table: seq<Record>, nextId: nat)
  {
    && (forall i, j :: 0 <= i < j < |table| ==> table[i].id < table[j].id)
    && (forall i :: 0 <= i < |table| ==> table[i].id < nextId)
  }

  /** The table invariant: both keys are unique. */
  ghost predicate WellFormed(table: seq<Record>, nextId: nat)
  {
    UniqueKeys(table) && IdsAscending(table, nextId)
  }

  /** In a well-formed table no two records share a primary key or a unique key. */
  lemma WellFormedKeys(table: seq<Record>, nextId: nat, i: nat, j: nat)
    requires WellFormed(table, nextId)
    requires i < |table| && j < |table| && i != j
    ensures table[i].id != table[j].id
    ensures table[i].uniqueId != table[j].uniqueId
  {
  }
}
