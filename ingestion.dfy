/**
 * `fetch_data`: a batch of rows from the open-data service is cleaned of rows
 * that lack a required field, and each remaining row whose `unique_id` the
 * store does not know yet is staged as a new record; the staged records are
 * committed together at the end.
 */
module Ingestion {
  import opened Wrappers
  import opened Text
  import opened Models
  import opened Sequences

  /** A row as the remote service delivers it: field name to value, None where the value is null. */
  type Row = map<string, Option<string>>

  /** The most rows one fetch asks the remote service for. */
  const FetchLimit: nat := 18098

  /** The fields a row must carry to be kept, in the order the cleaning step names them. */
  const RequiredFields: seq<string> :=
    ["unique_id", "indicator_id", "name", "measure_info", "geo_place_name", "time_period", "start_date", "data_value"]

  /** The row has a non-null value for `field`. */
  predicate Present(row: Row, field: string)
  {
    field in row && row[field].Some?
  }

  /** The row has a value for each of the eight required fields. */
  predicate Complete(row: Row)
  {
    && Present(row, "unique_id") && Present(row, "indicator_id") && Present(row, "name")
    && Present(row, "measure_info") && Present(row, "geo_place_name") && Present(row, "time_period")
    && Present(row, "start_date") && Present(row, "data_value")
  }

  /** Complete means: no required field is missing. */
  lemma CompleteExactly(row: Row)
    ensures Complete(row) <==> forall i :: 0 <= i < |RequiredFields| ==> Present(row, RequiredFields[i])
  {
    if forall i :: 0 <= i < |RequiredFields| ==> Present(row, RequiredFields[i]) {
      assert Present(row, RequiredFields[0]) && Present(row, RequiredFields[1]);
      assert Present(row, RequiredFields[2]) && Present(row, RequiredFields[3]);
      assert Present(row, RequiredFields[4]) && Present(row, RequiredFields[5]);
      assert Present(row, RequiredFields[6]) && Present(row, RequiredFields[7]);
    }
  }

  ghost predicate AllComplete(rows: seq<Row>)
  {
    forall i :: 0 <= i < |rows| ==> Complete(rows[i])
  }

  /** Some row of the batch has `field` among its keys, so the data frame has that column. */
  predicate HasColumn(batch: seq<Row>, field: string)
  {
    exists i :: 0 <= i < |batch| && field in batch[i]
  }

  /** The fields of `fields` that form no column of the batch, in order. */
  function AbsentColumns(batch: seq<Row>, fields: seq<string>): (absent: seq<string>)
    ensures forall f :: f in absent <==> f in fields && !HasColumn(batch, f)
    decreases |fields|
  {
    if fields == [] then []
    else (if HasColumn(batch, fields[0]) then [] else [fields[0]]) + AbsentColumns(batch, fields[1..])
  }

  /**
   * The text of the `KeyError` raised for absent columns: a bracketed
   * Python list of the quoted names, so it names every absent column.
   */
  function KeyErrorText(names: seq<string>): (text: string)
    ensures |text| >= 2 && text[0] == '[' && text[|text| - 1] == ']'
    ensures forall i :: 0 <= i < |names| ==> Contains(text, names[i])
  {
    var quoted := QuotedNames(names);
    forall i | 0 <= i < |names| ensures Contains("[" + quoted + "]", names[i]) {
      QuotedNamesMention(names, i);
      ContainsExtend("[", quoted, "]", names[i]);
    }
    "[" + quoted + "]"
  }

  function QuotedNames(names: seq<string>): string
    decreases |names|
  {
    if names == [] then ""
    else if |names| == 1 then "'" + names[0] + "'"
    else "'" + names[0] + "', " + QuotedNames(names[1..])
  }

  /** Each name appears in the quoted list. */
  lemma {:induction false} QuotedNamesMention(names: seq<string>, i: nat)
    requires i < |names|
    ensures Contains(QuotedNames(names), names[i])
    decreases |names|
  {
    if i == 0 {
      ContainsSelf(names[0]);
      if |names| == 1 {
        ContainsExtend("'", names[0], "'", names[0]);
      } else {
        ContainsExtend("'", names[0], "', " + QuotedNames(names[1..]), names[0]);
        assert "'" + names[0] + ("', " + QuotedNames(names[1..])) == QuotedNames(names);
      }
    } else {
      QuotedNamesMention(names[1..], i - 1);
      ContainsExtend("'" + names[0] + "', ", QuotedNames(names[1..]), "", names[i]);
      assert "'" + names[0] + "', " + QuotedNames(names[1..]) + "" == QuotedNames(names);
    }
  }

  /** The rows of the batch that are complete, in batch order. */
  function KeepComplete(batch: seq<Row>): (kept: seq<Row>)
    ensures AllComplete(kept)
    ensures |kept| <= |batch|
    decreases |batch|
  {
    if batch == [] then []
    else (if Complete(batch[0]) then [batch[0]] else []) + KeepComplete(batch[1..])
  }

  /** Cleaning keeps the batch order. */
  lemma {:induction false} KeepCompleteSubsequence(batch: seq<Row>)
    ensures IsSubsequence(KeepComplete(batch), batch)
    decreases |batch|
  {
    if batch != [] {
      KeepCompleteSubsequence(batch[1..]);
      var rest := KeepComplete(batch[1..]);
      if Complete(batch[0]) {
        assert ([batch[0]] + rest)[1..] == rest;
      } else {
        assert [] + rest == rest;
      }
    }
  }

  /** Cleaning keeps every copy of a complete row and drops every copy of an incomplete one. */
  lemma {:induction false} KeepCompleteCounts(batch: seq<Row>)
    ensures forall row :: multiset(KeepComplete(batch))[row] == if Complete(row) then multiset(batch)[row] else 0
    decreases |batch|
  {
    if batch != [] {
      KeepCompleteCounts(batch[1..]);
      var head := if Complete(batch[0]) then [batch[0]] else [];
      assert batch == [batch[0]] + batch[1..];
      assert multiset(batch) == multiset([batch[0]]) + multiset(batch[1..]);
      assert multiset(KeepComplete(batch)) == multiset(head) + multiset(KeepComplete(batch[1..]));
    }
  }

  /** A row survives cleaning exactly when it is in the batch and complete. */
  lemma {:induction false} KeepCompleteMembership(batch: seq<Row>, row: Row)
    ensures row in KeepComplete(batch) <==> row in batch && Complete(row)
    decreases |batch|
  {
    if batch != [] {
      KeepCompleteMembership(batch[1..], row);
      assert batch == [batch[0]] + batch[1..];
    }
  }

  /**
   * The cleaning step (`dropna` over the required fields). It raises a
   * `KeyError` when a required field is a key of no row at all, which
   * includes an empty batch.
   */
  function DropIncomplete(batch: seq<Row>): (r: Result<seq<Row>, string>)
    ensures r.Failure? <==> exists f :: f in RequiredFields && !HasColumn(batch, f)
    ensures r.Failure? ==> r.error == KeyErrorText(AbsentColumns(batch, RequiredFields))
    ensures r.Success? ==> AllComplete(r.value)
    ensures r.Success? ==> forall row :: row in r.value <==> row in batch && Complete(row)
    ensures r.Success? ==> IsSubsequence(r.value, batch)
    ensures r.Success? ==> forall row :: multiset(r.value)[row] == if Complete(row) then multiset(batch)[row] else 0
  {
    var absent := AbsentColumns(batch, RequiredFields);
    if absent != [] then
      assert absent[0] in absent;
      Failure(KeyErrorText(absent))
    else
      forall row ensures row in KeepComplete(batch) <==> row in batch && Complete(row) {
        KeepCompleteMembership(batch, row);
      }
      KeepCompleteSubsequence(batch);
      KeepCompleteCounts(batch);
      Success(KeepComplete(batch))
  }

  /** An empty batch has no columns, so cleaning it fails. */
  lemma EmptyBatchFails()
    ensures DropIncomplete([]).Failure?
  {
    assert !HasColumn([], RequiredFields[0]);
  }

  function UniqueIdOf(row: Row): string
    requires Present(row, "unique_id")
  {
    row["unique_id"].value
  }

  /** The record built from a cleaned row: `measure` from `measure_info`, every other field by its own name. */
  function FromRow(row: Row, id: nat): (r: Record)
    requires Complete(row)
    ensures r.id == id && r.uniqueId == UniqueIdOf(row)
    ensures r.indicatorId == row["indicator_id"].value && r.name == row["name"].value
    ensures r.measure == row["measure_info"].value && r.geoPlaceName == row["geo_place_name"].value
    ensures r.timePeriod == row["time_period"].value && r.startDate == row["start_date"].value
    ensures r.dataValue == row["data_value"].value
  {
    Record(
      id := id,
      uniqueId := row["unique_id"].value,
      indicatorId := row["indicator_id"].value,
      name := row["name"].value,
      measure := row["measure_info"].value,
      geoPlaceName := row["geo_place_name"].value,
      timePeriod := row["time_period"].value,
      startDate := row["start_date"].value,
      dataValue := row["data_value"].value)
  }

  /** `filter_by(unique_id=u).first()`: the first record with that key, if any. */
  function FindByUniqueId(table: seq<Record>, u: string): (found: Option<Record>)
    ensures found.Some? <==> u in UniqueIdSet(table)
    ensures found.Some? ==> found.value in table && found.value.uniqueId == u
    decreases |table|
  {
    if table == [] then None
    else if table[0].uniqueId == u then Some(table[0])
    else
      assert table == [table[0]] + table[1..];
      FindByUniqueId(table[1..], u)
  }

  /**
   * The records staged for `rows`, given the stored `table` and the next id
   * to issue: each row is checked against the table and against the rows
   * staged before it, and staged only if its key is new.
   */
  function Admitted(table: seq<Record>, rows: seq<Row>, nextId: nat): (admitted: seq<Record>)
    requires AllComplete(rows)
    ensures |admitted| <= |rows|
    ensures forall r :: r in admitted ==> r.uniqueId !in UniqueIdSet(table)
    decreases |rows|
  {
    if rows == [] then []
    else
      var staged := Admitted(table, rows[..|rows| - 1], nextId);
      var row := rows[|rows| - 1];
      if UniqueIdOf(row) in UniqueIdSet(table + staged) then staged
      else staged + [FromRow(row, nextId + |staged|)]
  }

  /**
   * Staging one more row of the batch, the loop body of `fetch_data`: the
   * row is staged exactly when its key is neither stored nor staged already.
   */
  lemma AdmittedStep(table: seq<Record>, rows: seq<Row>, i: nat, nextId: nat, staged: seq<Record>, known: bool)
    requires AllComplete(rows) && i < |rows|
    requires staged == Admitted(table, rows[..i], nextId)
    requires known <==> UniqueIdOf(rows[i]) in UniqueIdSet(table + staged)
    ensures Admitted(table, rows[..i + 1], nextId) ==
      if known then staged else staged + [FromRow(rows[i], nextId + |staged|)]
  {
    assert rows[..i + 1][..i] == rows[..i];
  }

  /** Every staged record is built from one of the rows and takes the next id in turn. */
  lemma {:induction false} AdmittedFromRows(table: seq<Record>, rows: seq<Row>, nextId: nat)
    requires AllComplete(rows)
    ensures |Admitted(table, rows, nextId)| <= |rows|
    ensures forall j :: 0 <= j < |Admitted(table, rows, nextId)| ==>
      exists i :: 0 <= i < |rows| && Admitted(table, rows, nextId)[j] == FromRow(rows[i], nextId + j)
    decreases |rows|
  {
    if rows != [] {
      var prefix := rows[..|rows| - 1];
      AdmittedFromRows(table, prefix, nextId);
      var staged := Admitted(table, prefix, nextId);
      var all := Admitted(table, rows, nextId);
      forall j | 0 <= j < |all|
        ensures exists i :: 0 <= i < |rows| && all[j] == FromRow(rows[i], nextId + j)
      {
        if j < |staged| {
          var i :| 0 <= i < |prefix| && staged[j] == FromRow(prefix[i], nextId + j);
          assert all[j] == staged[j] && prefix[i] == rows[i];
        } else {
          assert all[j] == FromRow(rows[|rows| - 1], nextId + j);
        }
      }
    }
  }

  /** Appending a record with a new key and a fresh id keeps both keys unique. */
  lemma AppendFresh(table: seq<Record>, nextId: nat, r: Record)
    requires WellFormed(table, nextId)
    requires r.uniqueId !in UniqueIdSet(table) && r.id >= nextId
    ensures WellFormed(table + [r], r.id + 1)
  {
    var t := table + [r];
    forall i, j | 0 <= i < j < |t| ensures t[i].uniqueId != t[j].uniqueId {
      if j == |table| {
        assert t[i] in table;
      }
    }
  }

  /** Ingestion keeps the table well formed: no two records share `unique_id` or `id`. */
  lemma {:induction false} AdmittedKeepsWellFormed(table: seq<Record>, rows: seq<Row>, nextId: nat)
    requires AllComplete(rows) && WellFormed(table, nextId)
    ensures WellFormed(table + Admitted(table, rows, nextId), nextId + |Admitted(table, rows, nextId)|)
    decreases |rows|
  {
    if rows != [] {
      var prefix := rows[..|rows| - 1];
      AdmittedKeepsWellFormed(table, prefix, nextId);
      var staged := Admitted(table, prefix, nextId);
      var row := rows[|rows| - 1];
      if UniqueIdOf(row) !in UniqueIdSet(table + staged) {
        var r := FromRow(row, nextId + |staged|);
        AppendFresh(table + staged, nextId + |staged|, r);
        assert (table + staged) + [r] == table + (staged + [r]);
      }
    }
  }

  /** After ingestion every key of the cleaned rows is in the store. */
  lemma {:induction false} AdmittedCovers(table: seq<Record>, rows: seq<Row>, nextId: nat)
    requires AllComplete(rows)
    ensures forall i :: 0 <= i < |rows| ==> UniqueIdOf(rows[i]) in UniqueIdSet(table + Admitted(table, rows, nextId))
    decreases |rows|
  {
    if rows != [] {
      var prefix := rows[..|rows| - 1];
      AdmittedCovers(table, prefix, nextId);
      var staged := Admitted(table, prefix, nextId);
      var all := Admitted(table, rows, nextId);
      var row := rows[|rows| - 1];
      assert UniqueIdSet(table + staged) <= UniqueIdSet(table + all) by {
        forall u | u in UniqueIdSet(table + staged) ensures u in UniqueIdSet(table + all) {
          var r :| r in table + staged && r.uniqueId == u;
          assert r in table + all;
        }
      }
      if UniqueIdOf(row) !in UniqueIdSet(table + staged) {
        var r := FromRow(row, nextId + |staged|);
        assert r in table + all;
      }
      forall i | 0 <= i < |rows| ensures UniqueIdOf(rows[i]) in UniqueIdSet(table + all) {
        if i < |prefix| {
          assert rows[i] == prefix[i];
        }
      }
    }
  }

  /** Rows whose keys the store already holds stage nothing. */
  lemma {:induction false} AdmittedNothingWhenKnown(table: seq<Record>, rows: seq<Row>, nextId: nat)
    requires AllComplete(rows)
    requires forall i :: 0 <= i < |rows| ==> UniqueIdOf(rows[i]) in UniqueIdSet(table)
    ensures Admitted(table, rows, nextId) == []
    decreases |rows|
  {
    if rows != [] {
      var prefix := rows[..|rows| - 1];
      forall i | 0 <= i < |prefix| ensures UniqueIdOf(prefix[i]) in UniqueIdSet(table) {
        assert prefix[i] == rows[i];
      }
      AdmittedNothingWhenKnown(table, prefix, nextId);
      assert table + [] == table;
    }
  }

  /** Running ingestion a second time on the same rows stages nothing. */
  lemma SecondRunInsertsNothing(table: seq<Record>, rows: seq<Row>, nextId: nat, laterId: nat)
    requires AllComplete(rows)
    ensures Admitted(table + Admitted(table, rows, nextId), rows, laterId) == []
  {
    AdmittedCovers(table, rows, nextId);
    AdmittedNothingWhenKnown(table + Admitted(table, rows, nextId), rows, laterId);
  }

  /** Of two rows that share a key the store lacks, the first is stored and the second is dropped. */
  lemma FirstRowWins(table: seq<Record>, a: Row, b: Row, nextId: nat)
    requires Complete(a) && Complete(b) && UniqueIdOf(a) == UniqueIdOf(b)
    requires UniqueIdOf(a) !in UniqueIdSet(table)
    ensures Admitted(table, [a, b], nextId) == [FromRow(a, nextId)]
  {
    assert [a, b][..1] == [a];
    assert [a][..0] == [];
    var first := FromRow(a, nextId);
    assert first in table + [first];
  }

  /**
   * The row loop of `fetch_data`: each row is looked up by key among the
   * committed records and those staged so far (the session flushes staged
   * records before a query), and staged with the next id if absent.
   */
  method Stage(table: seq<Record>, rows: seq<Row>, firstId: nat) returns (staged: seq<Record>)
    requires AllComplete(rows)
    ensures staged == Admitted(table, rows, firstId)
  {
    staged := [];
    var i := 0;
    while i < |rows|
      invariant 0 <= i <= |rows|
      invariant staged == Admitted(table, rows[..i], firstId)
    {
      var row := rows[i];
      var existing := FindByUniqueId(table + staged, UniqueIdOf(row));
      AdmittedStep(table, rows, i, firstId, staged, existing.Some?);
      if existing.None? {
        staged := staged + [FromRow(row, firstId + |staged|)];
      }
      i := i + 1;
    }
    assert rows[..i] == rows;
  }

  /** The stored table: committed records and the next primary key the store will issue. */
  class Store {
    var records: seq<Record>
    var nextId: nat

    ghost predicate Valid()
      reads this
    {
      WellFormed(records, nextId)
    }

    /** An empty table whose auto-incremented ids start at 1. */
    constructor ()
      ensures Valid() && records == [] && nextId == 1
    {
      records := [];
      nextId := 1;
    }

    /**
     * Ingests a fetched batch, or the failure that fetching it raised. A
     * failure, of the fetch or of the cleaning step, commits nothing.
     */
    method FetchData(fetched: Result<seq<Row>, string>) returns (outcome: Outcome<string>)
      requires Valid()
      requires fetched.Success? ==> |fetched.value| <= FetchLimit
      modifies this
      ensures Valid()
      ensures outcome.Pass? <==> fetched.Success? && DropIncomplete(fetched.value).Success?
      ensures fetched.Failure? ==> outcome == Fail(fetched.error)
      ensures fetched.Success? && DropIncomplete(fetched.value).Failure? ==>
        outcome == Fail(KeyErrorText(AbsentColumns(fetched.value, RequiredFields)))
      ensures outcome.Fail? ==> records == old(records) && nextId == old(nextId)
      ensures outcome.Pass? ==>
        var cleaned := DropIncomplete(fetched.value).value;
        && records == old(records) + Admitted(old(records), cleaned, old(nextId))
        && nextId == old(nextId) + |Admitted(old(records), cleaned, old(nextId))|
        && forall i :: 0 <= i < |cleaned| ==> UniqueIdOf(cleaned[i]) in UniqueIdSet(records)
    {
      if fetched.Failure? {
        return Fail(fetched.error);
      }
      var cleaning := DropIncomplete(fetched.value);
      if cleaning.Failure? {
        return Fail(cleaning.error);
      }
      StageAndCommit(cleaning.value);
      outcome := Pass;
    }

    /** The row loop of `fetch_data` and its final commit of everything staged after the existing records. */
    method StageAndCommit(rows: seq<Row>)
      requires Valid() && AllComplete(rows)
      modifies this
      ensures Valid()
      ensures records == old(records) + Admitted(old(records), rows, old(nextId))
      ensures nextId == old(nextId) + |Admitted(old(records), rows, old(nextId))|
      ensures forall i :: 0 <= i < |rows| ==> UniqueIdOf(rows[i]) in UniqueIdSet(records)
    {
      var table, firstId := records, nextId;
      var staged := Stage(table, rows, firstId);
      AdmittedKeepsWellFormed(table, rows, firstId);
      AdmittedCovers(table, rows, firstId);
      records := table + staged;
      nextId := firstId + |staged|;
    }
  }
}
