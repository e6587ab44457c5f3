/**
 * The gazetteer the parser reads: the country and region suffix indices
 * (last lowercase word of a name -> rows whose name ends in it), the city
 * query backed by the database, and the two configuration values.
 *
 * The indices are built outside the parser and are inputs here; so is the
 * city query, an uninterpreted function. Coordinates and identifiers are
 * only copied, so they are abstract types.
 */
module Gazetteer {
  import opened Chars
  import opened Optional

  type Coord(!new)
  type GeonameId(!new)

  datatype CountryRow = CountryRow(
    country: string, countryCode: string, lat: Coord, lon: Coord, geonameid: GeonameId)

  datatype RegionRow = RegionRow(
    region: string, regionCode: string, countryCode: string,
    lat: Coord, lon: Coord, geonameid: GeonameId)

  datatype CityRow = CityRow(lat: Coord, lon: Coord, geonameid: GeonameId)

  /** `get_cities(pulled_word, current_word, country_code, region_code)`:
      lowercase full names of the candidate cities, each with its row. */
  type CityQuery = (string, string, Option<string>, Option<string>) -> map<string, CityRow>

  datatype Gazetteer = Gazetteer(
    countries: map<string, seq<CountryRow>>,
    regions: map<string, seq<RegionRow>>,
    cities: CityQuery,
    wordMax: nat,
    locationWords: set<string>)

  function CountryName(r: CountryRow): string { r.country }

  function RegionName(r: RegionRow): string { r.region }

  /** The `name_map` a matcher builds from its candidate rows: each row is
      stored under its lowercased name, a later row overwriting an earlier
      one with the same key. */
  function NameMap<R>(rows: seq<R>, name: R -> string): (m: map<string, R>)
    ensures forall k :: k in m ==> Lower(name(m[k])) == k
  {
    if rows == [] then map[]
    else NameMap(rows[..|rows| - 1], name)[Lower(name(rows[|rows| - 1])) := rows[|rows| - 1]]
  }

  /** Keys of the name map are exactly the lowercased names of the rows,
      and among rows with the same lowercased name the last one wins. */
  lemma {:induction false} NameMapLastWins<R>(rows: seq<R>, name: R -> string, key: string)
    ensures key in NameMap(rows, name) <==>
      exists i :: 0 <= i < |rows| && Lower(name(rows[i])) == key
    ensures key in NameMap(rows, name) ==>
      exists i :: 0 <= i < |rows| && Lower(name(rows[i])) == key && NameMap(rows, name)[key] == rows[i]
        && forall j :: i < j < |rows| ==> Lower(name(rows[j])) != key
    decreases |rows|
  {
    if rows != [] {
      var init, last := rows[..|rows| - 1], rows[|rows| - 1];
      NameMapLastWins(init, name, key);
      if Lower(name(last)) == key {
        assert rows[|rows| - 1] == last;
      } else {
        assert NameMap(rows, name) == NameMap(init, name)[Lower(name(last)) := last];
        if key in NameMap(init, name) {
          var i :| 0 <= i < |init| && Lower(name(init[i])) == key && NameMap(init, name)[key] == init[i]
            && forall j :: i < j < |init| ==> Lower(name(init[j])) != key;
          assert rows[i] == init[i] && NameMap(rows, name)[key] == rows[i];
          forall j | i < j < |rows| ensures Lower(name(rows[j])) != key {
            if j < |init| {
              assert rows[j] == init[j];
            }
          }
        }
        if exists i :: 0 <= i < |rows| && Lower(name(rows[i])) == key {
          var i :| 0 <= i < |rows| && Lower(name(rows[i])) == key;
          assert init[i] == rows[i];
        }
      }
    }
  }

  /** Every entry of the name map is one of the rows, filed under its own
      lowercased name. */
  lemma {:induction false} NameMapEntries<R>(rows: seq<R>, name: R -> string)
    ensures forall k :: k in NameMap(rows, name) ==>
      NameMap(rows, name)[k] in rows && Lower(name(NameMap(rows, name)[k])) == k
    decreases |rows|
  {
    if rows != [] {
      var init := rows[..|rows| - 1];
      NameMapEntries(init, name);
      forall k | k in NameMap(init, name) ensures NameMap(init, name)[k] in rows {
        assert NameMap(init, name)[k] in init;
      }
    }
  }

  /** The loop of `is_country` and `is_region` that fills `name_map`. */
  method BuildNameMap<R>(rows: seq<R>, name: R -> string) returns (nameMap: map<string, R>)
    ensures nameMap == NameMap(rows, name)
  {
    nameMap := map[];
    for i := 0 to |rows|
      invariant nameMap == NameMap(rows[..i], name)
    {
      assert rows[..i + 1][..i] == rows[..i];
      nameMap := nameMap[Lower(name(rows[i])) := rows[i]];
    }
    assert rows[..|rows|] == rows;
  }

  /** The rows `is_region` keeps when a country is known: those whose
      country code equals it case-insensitively, in their original order. */
  function InCountry(rows: seq<RegionRow>, countryCode: string): (kept: seq<RegionRow>)
    ensures |kept| <= |rows|
    ensures forall i :: 0 <= i < |kept| ==> Lower(kept[i].countryCode) == Lower(countryCode)
  {
    if rows == [] then []
    else
      var last := rows[|rows| - 1];
      InCountry(rows[..|rows| - 1], countryCode)
        + (if Lower(last.countryCode) == Lower(countryCode) then [last] else [])
  }

  lemma {:induction false} InCountryMembers(rows: seq<RegionRow>, countryCode: string, r: RegionRow)
    ensures r in InCountry(rows, countryCode) <==>
      r in rows && Lower(r.countryCode) == Lower(countryCode)
    decreases |rows|
  {
    if rows != [] {
      var init := rows[..|rows| - 1];
      InCountryMembers(init, countryCode, r);
      assert rows == init + [rows[|rows| - 1]];
    }
  }

  /** `ix` lists, in increasing order, the positions in `rows` of the
      entries of `kept`, and those are exactly the positions of the rows
      whose country code equals `countryCode` ignoring case. */
  ghost predicate PicksInOrder(rows: seq<RegionRow>, kept: seq<RegionRow>, countryCode: string, ix: seq<int>)
  {
    && |ix| == |kept|
    && (forall k :: 0 <= k < |ix| ==> 0 <= ix[k] < |rows| && kept[k] == rows[ix[k]])
    && (forall k, l :: 0 <= k < l < |ix| ==> ix[k] < ix[l])
    && (forall i :: 0 <= i < |rows| ==> (i in ix <==> Lower(rows[i].countryCode) == Lower(countryCode)))
  }

  /** The filter keeps the matching rows in their original order, so the
      last-wins rule of `name_map` sees them as the unfiltered rows do. */
  lemma InCountryInOrder(rows: seq<RegionRow>, countryCode: string)
    ensures exists ix :: PicksInOrder(rows, InCountry(rows, countryCode), countryCode, ix)
  {
    var ix := InCountryIndices(rows, countryCode);
  }

  /** The indices of the rows `InCountry` keeps, built alongside it. */
  lemma {:induction false} InCountryIndices(rows: seq<RegionRow>, countryCode: string) returns (ix: seq<int>)
    ensures PicksInOrder(rows, InCountry(rows, countryCode), countryCode, ix)
    decreases |rows|
  {
    if rows == [] {
      ix := [];
    } else {
      var n := |rows| - 1;
      var kept := InCountry(rows[..n], countryCode);
      var prior := InCountryIndices(rows[..n], countryCode);
      if Lower(rows[n].countryCode) == Lower(countryCode) {
        assert InCountry(rows, countryCode) == kept + [rows[n]];
        PicksSnoc(rows, kept, countryCode, prior);
        ix := prior + [n];
      } else {
        assert InCountry(rows, countryCode) == kept;
        PicksSkip(rows, kept, countryCode, prior);
        ix := prior;
      }
    }
  }

  lemma PicksSnoc(rows: seq<RegionRow>, kept: seq<RegionRow>, countryCode: string, ix: seq<int>)
    requires rows != [] && Lower(rows[|rows| - 1].countryCode) == Lower(countryCode)
    requires PicksInOrder(rows[..|rows| - 1], kept, countryCode, ix)
    ensures PicksInOrder(rows, kept + [rows[|rows| - 1]], countryCode, ix + [|rows| - 1])
  {
    var n := |rows| - 1;
    var ix', kept' := ix + [n], kept + [rows[n]];
    forall k | 0 <= k < |ix'| ensures 0 <= ix'[k] < |rows| && kept'[k] == rows[ix'[k]] {
      if k < |ix| {
        assert ix'[k] == ix[k] && kept'[k] == kept[k];
        assert rows[..n][ix[k]] == rows[ix[k]];
      }
    }
    forall i | 0 <= i < |rows| ensures (i in ix' <==> Lower(rows[i].countryCode) == Lower(countryCode)) {
      if i < n {
        assert rows[..n][i] == rows[i];
        assert i in ix' <==> i in ix;
      }
    }
  }

  lemma PicksSkip(rows: seq<RegionRow>, kept: seq<RegionRow>, countryCode: string, ix: seq<int>)
    requires rows != [] && Lower(rows[|rows| - 1].countryCode) != Lower(countryCode)
    requires PicksInOrder(rows[..|rows| - 1], kept, countryCode, ix)
    ensures PicksInOrder(rows, kept, countryCode, ix)
  {
    var n := |rows| - 1;
    forall k | 0 <= k < |ix| ensures 0 <= ix[k] < |rows| && kept[k] == rows[ix[k]] {
      assert rows[..n][ix[k]] == rows[ix[k]];
    }
    forall i | 0 <= i < |rows| ensures (i in ix <==> Lower(rows[i].countryCode) == Lower(countryCode)) {
      if i < n {
        assert rows[..n][i] == rows[i];
      }
    }
  }

  /** The filtering loop of `is_region`. */
  method FilterByCountry(rows: seq<RegionRow>, countryCode: string) returns (kept: seq<RegionRow>)
    ensures kept == InCountry(rows, countryCode)
  {
    kept := [];
    for i := 0 to |rows|
      invariant kept == InCountry(rows[..i], countryCode)
    {
      assert rows[..i + 1][..i] == rows[..i];
      if Lower(rows[i].countryCode) == Lower(countryCode) {
        kept := kept + [rows[i]];
      }
    }
    assert rows[..|rows|] == rows;
  }
}
