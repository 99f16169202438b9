# Air-quality REST API: a Dafny model

This project models the core of a small REST API over one table of
air-quality observations (`air_quality`). It covers four parts:

- **Record store.** Nine columns per record. `id` is the primary key and
  `unique_id` must be unique.
- **Query builder.** An arbitrary map of request arguments becomes
  substring conditions on known columns, combined with AND, then a page of
  the result.
- **Ingestion task.** It fetches a batch of rows, drops incomplete rows and
  inserts only rows whose `unique_id` the store does not hold yet.
- **Endpoints.** Argument parsing, response shaping, and turning any
  failure into a 500 reply.

Modules, one per component:

- `Wrappers`: `Option`, `Result`, `Outcome`.
- `Sequences`: the order-preserving subsequence relation.
- `Text`: substring containment, the lexicographic order of `ORDER BY` on
  text, and decimal digits (`isdigit`, `int()` and the text of an integer
  column).
- `Models` (`app/models.py`): the `Record` datatype, the `Column` type and
  its allow-list of keys, the text each column shows to a `LIKE`, and the
  key-uniqueness invariant `WellFormed`.
- `Filters` (`app/services.py`, `apply_dynamic_filters` and
  `apply_filters`): a query is modelled by the records it selects, in table
  order. `FilterRecords` is the reference definition. `ApplyDynamicFilters`
  is the loop over the filter map, proved equal to it.
- `Pagination` (`get_paginated_data` and `paginate(error_out=False)`).
- `GeoNames` (`get_distinct_geo_place_names`).
- `Ingestion` (`fetch_data`): the cleaning step, the insert-if-absent
  specification `Admitted`, the row loop `Stage`, and the `Store` class.
  Its `FetchData` and `StageAndCommit` methods run the loop and commit.
- `Controllers` (`app/controllers.py`): the three data endpoints.

Inputs that the code gets from outside become parameters:

- The remote fetch gives a `Result<seq<Row>, string>`: a batch, or the
  error it raised.
- An error raised inside a read endpoint's `try` other than by the
  modelled steps (a database failure, for instance) is
  `fault: Option<string>`, carrying the text of the raised error.
- The table a read sees is a `seq<Record>` in insertion order. SQL
  promises no row order without `ORDER BY`; the model assumes that the
  unordered query returns rows in insertion order, and pagination follows
  that order.

## Model

| member | source | states |
|---|---|---|
| Models.ColumnKeysExact | app/models.py:6-14 | every one of the nine columns is found under its own key, and that key is in the allow-list |
| Models.ColumnNamesCount | app/models.py:6-14 | the allow-list of filterable keys has exactly nine names |
| Models.ColumnOf | app/services.py:80 | a key names a column exactly when it is in the allow-list, and then it is that column's own key |
| Models.Describe | app/models.py:16-17 | the `__repr__` text is `<AirQuality ` and `>` around the record's `unique_id`, which sits at a fixed position |
| Models.DescribeIdentifies | app/models.py:16-17 | two records have the same `__repr__` exactly when they share `unique_id` |
| Models.WellFormedKeys | app/models.py:6-7 | in a well-formed table no two records share an `id` or a `unique_id` |
| Filters.FilterMembership | app/services.py:82-84 | a record is kept exactly when it is in the table and every allowed, non-empty entry's column contains the entry's value |
| Filters.FilterRecords | app/services.py:78-86 | the reference filter: its result is an order-preserving subsequence of the table, never longer than it |
| Filters.Where | app/services.py:84 | one `LIKE '%value%'` condition keeps exactly the records of the query whose column contains the value, and never lengthens the query |
| Filters.FilterIfGiven | app/services.py:66-73 | one step of the hand-written filter narrows by its column's `LIKE` only when the key has a non-empty value, and otherwise keeps the query |
| Filters.ApplyFilters | app/services.py:64-75 | a record is kept exactly when it is in the table and, for each of name, geo_place_name and time_period given a non-empty value, that value occurs in its column |
| Filters.FilterExtend | app/services.py:82-84 | one more entry narrows the result by exactly its `LIKE` condition, or changes nothing when it names no column or is empty |
| Filters.IgnoresInertEntry | app/services.py:83 | with an entry whose key is no column or whose value is empty, added or overwriting another, the result is that of filtering without that key |
| Filters.FilterOnlyEffective | app/services.py:80-84 | filtering by a map equals filtering by its allowed, non-empty entries alone |
| Filters.ApplyDynamicFilters | app/services.py:78-86 | the loop over the entries, visited in any order, selects exactly the records the reference filter keeps |
| Filters.ApplyFiltersAgrees | app/services.py:64-75 | the hand-written filter equals the dynamic filter on the entries under name, geo_place_name and time_period |
| Filters.ApplyFiltersMatchesDynamic | app/services.py:64-86 | for a filter map whose keys are drawn from those three, both filters give the same records |
| Pagination.PageCount | app/services.py:50 | the page count is `ceil(total / per_page)`: 0 exactly for an empty result, otherwise the least n with n * per_page >= total |
| Pagination.Paginate | app/services.py:50 | a page has at most per_page records. They are the consecutive records after (page-1)*per_page. An out-of-range page is empty. The metadata is the total, the page count, the page and per_page. |
| Pagination.PastLastPageEmpty | app/services.py:50 | a page number past the last page yields an empty list, not an error |
| Pagination.PageDrawsFromResult | app/services.py:50 | every record on a page comes from the paginated result |
| Pagination.AllPagesCoverResult | app/services.py:50 | concatenating pages 1 to `pages` gives back exactly the whole result |
| Pagination.PagesHaveNoDuplicates | app/services.py:43-51 | with unique keys in the table, the concatenated pages of a filtered result hold no record twice |
| Pagination.GetPaginatedData | app/services.py:43-51 | a page exists exactly for page >= 1 and per_page >= 1. Its total is the size of the filtered result. It echoes page and per_page and holds at most per_page records. |
| Pagination.PageRecordsMatch | app/services.py:43-51 | every record on a returned page is in the table and satisfies the filter map |
| GeoNames.DistinctGeoPlaceNames | app/services.py:54-61 | the list is strictly ascending and holds exactly the geo_place_name values of the table |
| GeoNames.AscendingUnique | app/services.py:56-57 | two strictly ascending lists with the same elements are equal, so the list is determined by the set of names |
| GeoNames.DistinctDependsOnSetOnly | app/services.py:54-61 | tables with the same set of place names give the same list |
| Ingestion.CompleteExactly | app/services.py:20-22 | a row is complete exactly when none of the eight required fields is missing or null |
| Ingestion.AbsentColumns | app/services.py:20-22 | the labels `dropna` reports missing are exactly the required fields that are a key of no row of the batch |
| Ingestion.KeyErrorText | app/services.py:20-22 | the `KeyError` text is a bracketed list that mentions every absent column |
| Ingestion.QuotedNamesMention | app/services.py:20-22 | every name of the list appears in its quoted rendering |
| Ingestion.KeepComplete | app/services.py:20-22 | every kept row is complete, and no more rows are kept than the batch holds |
| Ingestion.KeepCompleteSubsequence | app/services.py:20-22 | cleaning keeps the batch order |
| Ingestion.KeepCompleteCounts | app/services.py:20-22 | cleaning keeps every copy of a complete row and drops every copy of an incomplete one |
| Ingestion.DropIncomplete | app/services.py:19-22 | cleaning fails (KeyError) exactly when a required field is a key of no row, and the error names the absent fields. Otherwise it keeps exactly the complete rows of the batch, in batch order and with every copy of a repeated row. |
| Ingestion.KeepCompleteMembership | app/services.py:20-22 | a row survives cleaning exactly when it is in the batch and complete |
| Ingestion.EmptyBatchFails | app/services.py:19-22 | an empty batch has no columns, so cleaning it raises |
| Ingestion.FromRow | app/services.py:28-37 | a new record takes `measure` from `measure_info` and every other field from the field of the same name |
| Ingestion.FindByUniqueId | app/services.py:25 | the lookup finds a record exactly when the key is present, and what it finds is in the table with that key |
| Ingestion.Admitted | app/services.py:24-38 | no more records are staged than rows are given, and every staged record has a key the store does not hold |
| Ingestion.AdmittedStep | app/services.py:24-38 | one loop step stages the row exactly when its key is absent from the store and from the rows staged before it |
| Ingestion.AdmittedFromRows | app/services.py:24-38 | every staged record is built from one of the cleaned rows and takes the next id in turn |
| Ingestion.AdmittedKeepsWellFormed | app/services.py:24-40 | after ingestion no two records share `unique_id` or `id`, even when the batch repeats a key |
| Ingestion.AdmittedCovers | app/services.py:24-40 | after ingestion every key of the cleaned batch is in the store |
| Ingestion.AdmittedNothingWhenKnown | app/services.py:24-27 | rows whose keys the store already holds stage nothing |
| Ingestion.SecondRunInsertsNothing | app/services.py:24-40 | a second run on the same batch inserts nothing |
| Ingestion.FirstRowWins | app/services.py:24-38 | of two rows sharing a key the store lacks, the first is stored and the second dropped |
| Ingestion.Stage | app/services.py:24-38 | the row loop stages exactly the admitted records |
| Ingestion.Store.constructor | app/models.py:3-14 | a new store holds no records and is well formed |
| Ingestion.Store.FetchData | app/services.py:11-40 | Success exactly when the fetch and the cleaning succeed; the store then grows by exactly the admitted records. On failure nothing changes, and a failed cleaning reports the `KeyError` text of the absent fields. Uniqueness is kept, and every cleaned key ends up stored. |
| Ingestion.Store.StageAndCommit | app/services.py:24-40 | the commit appends the admitted records after the existing records, unchanged, and advances the next id past them, keeping uniqueness |
| Controllers.ErrorResponse | app/controllers.py:44-45 | the `except` reply has status 500 and an error body carrying the raised text |
| Controllers.Guard | app/controllers.py:44-45 | a raised error becomes a 500 reply carrying its text; otherwise the success reply is returned |
| Controllers.ArgOr | app/controllers.py:25-26 | an argument is its value when given, otherwise the fallback |
| Controllers.ParseIntOrDefault | app/controllers.py:27-28 | text of ASCII digits gives its decimal value; any other text, including the empty text, gives the default |
| Controllers.ParseRendered | app/controllers.py:27 | the decimal text of any number parses back to that number |
| Controllers.ParseExamples | app/controllers.py:27-28 | "", "abc" and "-1" give the default; "0" gives 0; "007" gives 7 |
| Controllers.PageArg | app/controllers.py:25-27 | page is 1 when missing or not all digits, otherwise the value of its digits |
| Controllers.PerPageArg | app/controllers.py:26-28 | per_page is 10 when missing or not all digits, otherwise the value of its digits |
| Controllers.FilterArgs | app/controllers.py:30-32 | the filter map is the argument map with exactly `page` and `per_page` removed, other entries unchanged |
| Controllers.GetAirQuality | app/controllers.py:24-45 | a fault gives the 500 error reply. Otherwise there is a reply exactly when page and per_page are at least 1, with status 200 and a page body. |
| Controllers.AirQualityReply | app/controllers.py:35-43 | the reply's data, total, pages, current_page and per_page are those of the page of the filtered table. The data holds at most per_page records, each matching every filter argument. |
| Controllers.OzoneExample | app/controllers.py:24-43 | `name=Ozone&page=1&per_page=5` yields at most five records, each with "Ozone" in its name, as page 1 |
| Controllers.MalformedPageIsFirst | app/controllers.py:25-28 | `page=abc` is read as page 1, and a missing per_page as 10 |
| Controllers.GetDistinctGeoPlaceNames | app/controllers.py:47-54 | a fault gives the 500 error reply. Otherwise the reply is 200 with the strictly ascending list of the table's place names. |
| Controllers.FailuresAre500 | app/controllers.py:44-54 | for any arguments and table, a failing service call yields status 500 with an error body and never a success payload |
| Controllers.FetchAirQuality | app/controllers.py:56-63 | 200 with the success message exactly when fetching and cleaning succeed; otherwise 500 with the error (the fetch's own, or the `KeyError` text of the absent fields), with neither the records nor the next id changed |

## Left out

- The remote open-data client (`Socrata(...).get`, app/services.py:16-17) is network I/O. The batch it returns, or its error, is an input. The 18098-row limit is a precondition on the batch length.
- Building the pandas data frame is library behaviour (app/services.py:19). The model says a row lacks a field when the key is absent or its value is None. A required field that is a key of no row at all is a missing column, so `dropna` raises `KeyError`. This includes an empty batch. Empty strings are not dropped.
- Values are kept as the text received. `indicator_id` (Integer) and `data_value` (Float) are not converted. Whether a value the database cannot convert, or a value longer than 255 characters, raises at flush or commit depends on the database (some accept it, some truncate it). Neither is modelled.
- `LIKE` is modelled as plain, case-sensitive substring containment on each column's text. The `id` column's text is its canonical decimal rendering. Case folding depends on the database. `%` and `_` inside a value act as wildcards because they are not escaped. Numeric columns are compared through a text conversion done by the database. None of these is modelled.
- `ORDER BY geo_place_name` is modelled as code-point lexicographic order. Database collations are not modelled.
- The pagination library's handling of a page or page size below 1 is not shown in the source. `GetPaginatedData` and `GetAirQuality` return `None` for that case. This is reachable: the arguments "0" and "00" parse to 0.
- Transactions are not modelled: no rollback after a mid-batch failure, no failure of the final commit, no concurrent ingestion runs racing on `unique_id`. `id` values come from a counter kept in the store, standing in for the database's auto-increment.
- Controllers.ParseIntOrDefault: does not model the 4300-digit limit of `int()` in Python releases since 3.11 and the September 2022 security releases (3.10.7, 3.9.14, 3.8.14, 3.7.14). Past it, `int()` raises `ValueError`, which app/controllers.py:44-45 turns into a 500; the model reads the digits as their value and replies with a page.
- Pagination.GetPaginatedData: does not model the database's 64-bit range for `OFFSET` and `LIMIT`. Depending on the database driver, an offset or page size beyond it may raise, which then becomes a 500. With unbounded integers the model gives an empty page.
- Controllers.ParseIntOrDefault: reads only ASCII digits. For any text holding a non-ASCII digit, the model gives the default. Python gives the digit's value for decimal digits such as "３" or "٣". For digits such as "²", which `isdigit` accepts and `int()` rejects, Python replies 500.
- Multi-valued query arguments are left to the web framework; `to_dict()` keeps the first value. The framework also supplies routing, `jsonify`, the blueprint, CORS and migrations (app/__init__.py).
- The home route (app/controllers.py:8-11) returns a fixed text and calls no service; it is left with the routing.
- The schema serialisation (app/schemas.py) is left out. A reply's `data` is the page's records themselves.
