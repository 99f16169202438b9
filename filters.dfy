/**
 * Query construction from a caller's filter map: each entry whose key is a
 * column name and whose value is non-empty narrows the result to the records
 * whose column contains the value; all such conditions hold together. A query
 * is modelled by the sequence of records it selects, in table order.
 */
module Filters {
  import opened Wrappers
  import opened Text
  import opened Models
  import opened Sequences

  /** What one filter entry demands of a record: unknown keys and empty values demand nothing. */
  predicate Accepts(r: Record, key: string, value: string)
  {
    match ColumnOf(key)
    case None => true
    case Some(c) => value == "" || Contains(Field(r, c), value)
  }

  /** A record satisfies every entry of the filter map. */
  predicate MatchesAll(r: Record, filters: map<string, string>)
  {
    forall key :: key in filters ==> Accepts(r, key, filters[key])
  }

  /**
   * The records of `table` that satisfy the filter map, in table order: the
   * result keeps the table's order and invents nothing.
   */
  function FilterRecords(table: seq<Record>, filters: map<string, string>): (result: seq<Record>)
    ensures |result| <= |table|
    ensures IsSubsequence(result, table)
    decreases |table|
  {
    if table == [] then []
    else
      var rest := FilterRecords(table[1..], filters);
      var head := if MatchesAll(table[0], filters) then [table[0]] else [];
      assert IsSubsequence(head + rest, table) by {
        if head == [] {
          assert head + rest == rest;
        } else {
          assert (head + rest)[0] == table[0] && (head + rest)[1..] == rest;
        }
      }
      head + rest
  }

  /** One `column LIKE '%value%'` condition added to a query. */
  function Where(query: seq<Record>, c: Column, value: string): (result: seq<Record>)
    ensures |result| <= |query|
    ensures forall r :: r in result <==> r in query && Contains(Field(r, c), value)
    decreases |query|
  {
    if query == [] then []
    else
      assert query == [query[0]] + query[1..];
      (if Contains(Field(query[0], c), value) then [query[0]] else []) + Where(query[1..], c, value)
  }

  /** A record is kept exactly when it is in the table and satisfies every entry. */
  lemma {:induction false} FilterMembership(table: seq<Record>, filters: map<string, string>, r: Record)
    ensures r in FilterRecords(table, filters) <==> r in table && MatchesAll(r, filters)
    decreases |table|
  {
    if table != [] {
      FilterMembership(table[1..], filters, r);
      assert table == [table[0]] + table[1..];
    }
  }

  /** A subsequence of a table with unique keys has unique keys. */
  lemma {:induction false} SubsequenceUniqueKeys(sub: seq<Record>, s: seq<Record>)
    requires IsSubsequence(sub, s) && UniqueKeys(s)
    ensures UniqueKeys(sub)
    ensures forall r :: r in sub ==> r in s
    decreases |s|
  {
    if s != [] {
      assert UniqueKeys(s[1..]);
      if IsSubsequence(sub, s[1..]) {
        SubsequenceUniqueKeys(sub, s[1..]);
      } else {
        SubsequenceUniqueKeys(sub[1..], s[1..]);
        assert sub == [s[0]] + sub[1..];
        forall i, j | 0 <= i < j < |sub| ensures sub[i].uniqueId != sub[j].uniqueId {
          if i == 0 {
            assert sub[j] in s[1..];
            var k :| 0 <= k < |s[1..]| && s[1..][k] == sub[j];
            assert s[0].uniqueId != s[k + 1].uniqueId;
          } else {
            assert sub[i] == sub[1..][i - 1] && sub[j] == sub[1..][j - 1];
          }
        }
      }
    }
  }

  /** An empty filter map keeps the whole table. */
  lemma {:induction false} FilterEmpty(table: seq<Record>)
    ensures FilterRecords(table, map[]) == table
    decreases |table|
  {
    if table != [] {
      FilterEmpty(table[1..]);
    }
  }

  /** Filtering depends only on which records each map lets through. */
  lemma {:induction false} FilterCongruent(table: seq<Record>, f: map<string, string>, g: map<string, string>)
    requires forall r :: r in table ==> (MatchesAll(r, f) <==> MatchesAll(r, g))
    ensures FilterRecords(table, f) == FilterRecords(table, g)
    decreases |table|
  {
    if table != [] {
      assert table[0] in table;
      forall r | r in table[1..] ensures MatchesAll(r, f) <==> MatchesAll(r, g) {
        assert r in table;
      }
      FilterCongruent(table[1..], f, g);
    }
  }

  lemma MatchesAllExtend(r: Record, m: map<string, string>, key: string, value: string)
    requires key !in m
    ensures MatchesAll(r, m[key := value]) <==> MatchesAll(r, m) && Accepts(r, key, value)
  {
    if MatchesAll(r, m[key := value]) {
      assert key in m[key := value];
      forall k | k in m ensures Accepts(r, k, m[k]) {
        assert k in m[key := value] && m[key := value][k] == m[k];
      }
    }
  }

  /** Accepts of an entry that imposes nothing. */
  lemma InertAccepts(r: Record, key: string, value: string)
    requires ColumnOf(key).None? || value == ""
    ensures Accepts(r, key, value)
  {
  }

  /**
   * Adding one more entry to a filter map narrows the result by exactly that
   * entry's condition, or leaves it alone when the entry imposes nothing.
   */
  lemma {:induction false} FilterExtend(table: seq<Record>, m: map<string, string>, key: string, value: string)
    requires key !in m
    ensures FilterRecords(table, m[key := value]) ==
      if ColumnOf(key).Some? && value != "" then Where(FilterRecords(table, m), ColumnOf(key).value, value)
      else FilterRecords(table, m)
    decreases |table|
  {
    if table != [] {
      FilterExtend(table[1..], m, key, value);
      MatchesAllExtend(table[0], m, key, value);
      var rest := FilterRecords(table[1..], m);
      if ColumnOf(key).Some? && value != "" {
        var c := ColumnOf(key).value;
        if MatchesAll(table[0], m) {
          assert ([table[0]] + rest)[0] == table[0] && ([table[0]] + rest)[1..] == rest;
        } else {
          assert [] + rest == rest;
        }
      } else {
        InertAccepts(table[0], key, value);
      }
    }
  }

  /** Entries that name no column or carry an empty value have no effect: adding one changes nothing. */
  lemma IgnoresInertEntry(table: seq<Record>, filters: map<string, string>, key: string, value: string)
    requires ColumnOf(key).None? || value == ""
    ensures FilterRecords(table, filters[key := value]) == FilterRecords(table, filters - {key})
  {
    var m := filters - {key};
    assert filters[key := value] == m[key := value];
    FilterExtend(table, m, key, value);
  }

  /** The entries of a filter map that impose a condition. */
  function Effective(filters: map<string, string>): (m: map<string, string>)
    ensures forall k :: k in m <==> k in filters && k in ColumnNames && filters[k] != ""
    ensures forall k :: k in m ==> m[k] == filters[k]
  {
    map k | k in filters && k in ColumnNames && filters[k] != "" :: filters[k]
  }

  /** Filtering by a map is filtering by its effective entries alone. */
  lemma FilterOnlyEffective(table: seq<Record>, filters: map<string, string>)
    ensures FilterRecords(table, filters) == FilterRecords(table, Effective(filters))
  {
    var e := Effective(filters);
    forall r | r in table ensures MatchesAll(r, filters) <==> MatchesAll(r, e) {
      if MatchesAll(r, e) {
        forall k | k in filters ensures Accepts(r, k, filters[k]) {
          if k in e {
            assert Accepts(r, k, e[k]);
          }
        }
      }
      if MatchesAll(r, filters) {
        forall k | k in e ensures Accepts(r, k, e[k]) {
          assert Accepts(r, k, filters[k]);
        }
      }
    }
    FilterCongruent(table, filters, e);
  }

  /**
   * `apply_dynamic_filters`: visits the entries of the filter map one at a
   * time, in an order the caller does not control, and adds a condition for
   * each entry that names a column and has a non-empty value.
   */
  method ApplyDynamicFilters(table: seq<Record>, filters: map<string, string>) returns (query: seq<Record>)
    ensures query == FilterRecords(table, filters)
  {
    query := table;
    FilterEmpty(table);
    var pending := filters.Keys;
    assert filters - pending == map[];
    while pending != {}
      invariant pending <= filters.Keys
      invariant query == FilterRecords(table, filters - pending)
      decreases pending
    {
      var key :| key in pending;
      var value := filters[key];
      var column := ColumnOf(key);
      if column.Some? && value != "" {
        query := Where(query, column.value, value);
      }
      FilterExtend(table, filters - pending, key, value);
      assert (filters - pending)[key := value] == filters - (pending - {key});
      pending := pending - {key};
    }
    assert filters - pending == filters;
  }

  /** The three keys the hand-written `apply_filters` knows about. */
  const FixedKeys: set<string> := {"name", "geo_place_name", "time_period"}

  /** Applies one entry of `apply_filters` when the key is present with a non-empty value. */
  function FilterIfGiven(query: seq<Record>, filters: map<string, string>, key: string, c: Column): (result: seq<Record>)
    ensures forall r :: r in result <==> r in query && (Given(filters, key) ==> Contains(Field(r, c), filters[key]))
  {
    if Given(filters, key) then Where(query, c, filters[key]) else query
  }

  /** The request gives `key` a non-empty value. */
  predicate Given(filters: map<string, string>, key: string)
  {
    key in filters && filters[key] != ""
  }

  /**
   * `apply_filters`: the fixed name / geo_place_name / time_period
   * conditions, in that order. A record is kept exactly when each of the
   * three keys given a non-empty value occurs in its column.
   */
  function ApplyFilters(table: seq<Record>, filters: map<string, string>): (result: seq<Record>)
    ensures forall r :: r in result <==>
      && r in table
      && (Given(filters, "name") ==> Contains(r.name, filters["name"]))
      && (Given(filters, "geo_place_name") ==> Contains(r.geoPlaceName, filters["geo_place_name"]))
      && (Given(filters, "time_period") ==> Contains(r.timePeriod, filters["time_period"]))
  {
    var byName := FilterIfGiven(table, filters, "name", Name);
    var byPlace := FilterIfGiven(byName, filters, "geo_place_name", GeoPlaceName);
    FilterIfGiven(byPlace, filters, "time_period", TimePeriod)
  }

  function Restrict(filters: map<string, string>, keys: set<string>): (m: map<string, string>)
    ensures m.Keys == filters.Keys * keys
    ensures forall k :: k in m ==> m[k] == filters[k]
  {
    map k | k in filters && k in keys :: filters[k]
  }

  /** A step of building a filter map one fixed key at a time, ending in the map's restriction to those keys. */
  function AddIfGiven(m: map<string, string>, filters: map<string, string>, key: string): map<string, string>
  {
    if key in filters then m[key := filters[key]] else m
  }

  lemma StepAgrees(table: seq<Record>, m: map<string, string>, filters: map<string, string>, key: string, c: Column, q: seq<Record>)
    requires key !in m && ColumnOf(key) == Some(c)
    requires q == FilterRecords(table, m)
    ensures FilterRecords(table, AddIfGiven(m, filters, key)) == FilterIfGiven(q, filters, key, c)
  {
    if key in filters {
      FilterExtend(table, m, key, filters[key]);
    }
  }

  /** The hand-written filter is the dynamic filter applied to the entries under its three keys. */
  lemma ApplyFiltersAgrees(table: seq<Record>, filters: map<string, string>)
    ensures ApplyFilters(table, filters) == FilterRecords(table, Restrict(filters, FixedKeys))
  {
    var m0: map<string, string> := map[];
    var m1 := AddIfGiven(m0, filters, "name");
    var m2 := AddIfGiven(m1, filters, "geo_place_name");
    var m3 := AddIfGiven(m2, filters, "time_period");
    var byName := FilterIfGiven(table, filters, "name", Name);
    var byPlace := FilterIfGiven(byName, filters, "geo_place_name", GeoPlaceName);
    assert FilterRecords(table, m1) == byName by {
      FilterEmpty(table);
      StepAgrees(table, m0, filters, "name", Name, table);
    }
    assert FilterRecords(table, m2) == byPlace by {
      StepAgrees(table, m1, filters, "geo_place_name", GeoPlaceName, byName);
    }
    assert FilterRecords(table, m3) == ApplyFilters(table, filters) by {
      StepAgrees(table, m2, filters, "time_period", TimePeriod, byPlace);
    }
    BuildsRestriction(filters);
  }

  /** Adding the three fixed keys one at a time builds the restriction to them. */
  lemma BuildsRestriction(filters: map<string, string>)
    ensures AddIfGiven(AddIfGiven(AddIfGiven(map[], filters, "name"), filters, "geo_place_name"), filters, "time_period")
      == Restrict(filters, FixedKeys)
  {
    var m := AddIfGiven(AddIfGiven(AddIfGiven(map[], filters, "name"), filters, "geo_place_name"), filters, "time_period");
    assert m.Keys == Restrict(filters, FixedKeys).Keys;
  }

  /** On a filter map that uses only those three keys, both filters give the same records. */
  lemma ApplyFiltersMatchesDynamic(table: seq<Record>, filters: map<string, string>)
    requires filters.Keys <= FixedKeys
    ensures ApplyFilters(table, filters) == FilterRecords(table, filters)
  {
    ApplyFiltersAgrees(table, filters);
    assert Restrict(filters, FixedKeys) == filters;
  }
}
