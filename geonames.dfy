/**
 * `get_distinct_geo_place_names`: the values of the `geo_place_name` column,
 * each once, in ascending order (`SELECT DISTINCT ... ORDER BY`), projected
 * out of their one-element rows.
 */
module GeoNames {
  import opened Text
  import opened Models

  /** Every element is below every later one: sorted and duplicate-free. */
  ghost predicate StrictlyAscending(names: seq<string>)
  {
    forall i, j :: 0 <= i < j < |names| ==> Below(names[i], names[j])
  }

  /** The place names occurring in a table. */
  function PlaceNameSet(table: seq<Record>): set<string>
  {
    set r | r in table :: r.geoPlaceName
  }

  /** Inserts `x` into an ascending list unless it is already there. */
  function Insert(names: seq<string>, x: string): (r: seq<string>)
    requires StrictlyAscending(names)
    ensures StrictlyAscending(r)
    ensures forall n :: n in r <==> n in names || n == x
    decreases |names|
  {
    if names == [] then [x]
    else if x == names[0] then names
    else if Below(x, names[0]) then
      BelowChain(x, names);
      [x] + names
    else
      BelowTotal(x, names[0]);
      var tail := Insert(names[1..], x);
      assert forall n :: n in tail ==> Below(names[0], n);
      [names[0]] + tail
  }

  lemma BelowChain(x: string, names: seq<string>)
    requires StrictlyAscending(names) && names != [] && Below(x, names[0])
    ensures StrictlyAscending([x] + names)
  {
    forall j | 0 < j < |names| ensures Below(x, names[j]) {
      BelowTransitive(x, names[0], names[j]);
    }
  }

  /** The distinct place names of a table, ascending. */
  function DistinctGeoPlaceNames(table: seq<Record>): (names: seq<string>)
    ensures StrictlyAscending(names)
    ensures forall n :: n in names <==> n in PlaceNameSet(table)
    decreases |table|
  {
    if table == [] then []
    else
      var names := Insert(DistinctGeoPlaceNames(table[..|table| - 1]), table[|table| - 1].geoPlaceName);
      assert table == table[..|table| - 1] + [table[|table| - 1]];
      names
  }

  /** Two ascending lists with the same elements are the same list. */
  lemma {:induction false} AscendingUnique(a: seq<string>, b: seq<string>)
    requires StrictlyAscending(a) && StrictlyAscending(b)
    requires forall n :: n in a <==> n in b
    ensures a == b
    decreases |a|
  {
    if a != [] {
      assert a[0] in b;
    }
    if b != [] {
      assert b[0] in a;
    }
    if a != [] && b != [] {
      if a[0] != b[0] {
        assert a[0] in b;
        var j :| 0 <= j < |b| && b[j] == a[0];
        assert b[0] in a;
        var i :| 0 <= i < |a| && a[i] == b[0];
        assert Below(b[0], a[0]);
        assert Below(a[0], b[0]);
        BelowAsymmetric(a[0], b[0]);
      }
      assert a == [a[0]] + a[1..] && b == [b[0]] + b[1..];
      forall n ensures n in a[1..] <==> n in b[1..] {
        if n in a[1..] {
          TailMember(a, b, n);
        }
        if n in b[1..] {
          TailMember(b, a, n);
        }
      }
      AscendingUnique(a[1..], b[1..]);
    }
  }

  lemma TailMember(a: seq<string>, b: seq<string>, n: string)
    requires StrictlyAscending(a) && StrictlyAscending(b)
    requires forall m :: m in a <==> m in b
    requires a != [] && b != [] && a[0] == b[0]
    requires n in a[1..]
    ensures n in b[1..]
  {
    var i :| 0 <= i < |a[1..]| && a[1..][i] == n;
    assert a[i + 1] == n;
    assert Below(a[0], n);
    BelowIrreflexive(n);
    assert n in b;
    var k :| 0 <= k < |b| && b[k] == n;
    assert k != 0;
    assert b[1..][k - 1] == n;
  }

  /** The result depends only on the set of place names, not on the order or repetition of records. */
  lemma DistinctDependsOnSetOnly(t: seq<Record>, u: seq<Record>)
    requires PlaceNameSet(t) == PlaceNameSet(u)
    ensures DistinctGeoPlaceNames(t) == DistinctGeoPlaceNames(u)
  {
    AscendingUnique(DistinctGeoPlaceNames(t), DistinctGeoPlaceNames(u));
  }
}
