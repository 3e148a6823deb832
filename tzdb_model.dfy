/**
 * Rows of the three tables of the timezone store, the records the remote API
 * returns, and the catalog refresh as a function of the old catalog and the
 * response of the zone-list call.
 */
module TzdbModel {
  import opened Wrappers

  /** A wall-clock epoch value. The job only stores it, so it stays opaque. */
  type Timestamp = real

  /** Source of the per-row timestamps of one pass: the value taken for the row written at loop position i. */
  type Clock = nat -> Timestamp

  /** The natural key of a zone: the pair (zoneName, countryCode). */
  datatype Key = Key(zoneName: string, countryCode: string)

  /** The three relations the schema declares. */
  datatype TableName = TzdbTimezones | TzdbZoneDetails | TzdbErrorLog

  /** A row of TZDB_TIMEZONES (its auto-assigned id is not modelled). */
  datatype CatalogRow = CatalogRow(zoneName: string, countryCode: string, timestamp: Timestamp)

  /** A row of TZDB_ZONE_DETAILS, and of the staging table shaped like it. */
  datatype DetailRow = DetailRow(zoneName: string, countryName: string, countryCode: string, timestamp: Timestamp)

  /** A row of TZDB_ERROR_LOG; the job never writes one. */
  datatype ErrorRow = ErrorRow(error: string, timestamp: string)

  /** One entry of the `zones` list in the zone-list response. */
  datatype ListedZone = ListedZone(zoneName: string, countryCode: string)

  /** The fields of a zone-detail response that the job stores. */
  datatype ZoneInfo = ZoneInfo(zoneName: string, countryName: string, countryCode: string)

  /** The detail call: given the query parameters `zone` and `country`, a parsed body or nothing. */
  type DetailOracle = Key -> Option<ZoneInfo>

  function CatalogKey(row: CatalogRow): Key
  {
    Key(row.zoneName, row.countryCode)
  }

  /**
   * The result of `SELECT zoneName, countryCode FROM TZDB_TIMEZONES`: one pair
   * per catalog row, in row order.
   */
  function CatalogKeys(catalog: seq<CatalogRow>): (r: seq<Key>)
    ensures |r| == |catalog|
    ensures forall i :: 0 <= i < |catalog| ==> r[i].zoneName == catalog[i].zoneName && r[i].countryCode == catalog[i].countryCode
  {
    seq(|catalog|, i requires 0 <= i < |catalog| => CatalogKey(catalog[i]))
  }

  /** The (zoneName, countryCode) pairs of a zone-list response, in response order. */
  function ListedKeys(zones: seq<ListedZone>): seq<Key>
  {
    seq(|zones|, i requires 0 <= i < |zones| => Key(zones[i].zoneName, zones[i].countryCode))
  }

  /**
   * The rows inserted one by one for the listed zones; the row at position i
   * is stamped clock(i). One row per listed zone, each naming a listed zone.
   */
  function CatalogRows(zones: seq<ListedZone>, clock: Clock): (r: seq<CatalogRow>)
    ensures |r| == |zones|
    ensures forall row :: row in r ==> ListedZone(row.zoneName, row.countryCode) in zones
    decreases |zones|
  {
    if zones == [] then []
    else
      var n := |zones| - 1;
      CatalogRows(zones[..n], clock) + [CatalogRow(zones[n].zoneName, zones[n].countryCode, clock(n))]
  }

  /** The inserted catalog mirrors the listing: one row per listed zone, same pairs, same order. */
  lemma {:induction false} CatalogRowsMirror(zones: seq<ListedZone>, clock: Clock)
    ensures |CatalogRows(zones, clock)| == |zones|
    ensures CatalogKeys(CatalogRows(zones, clock)) == ListedKeys(zones)
    ensures forall i :: 0 <= i < |zones| ==> CatalogRows(zones, clock)[i].timestamp == clock(i)
  {
    CatalogRowsAt(zones, clock);
    var rows := CatalogRows(zones, clock);
    assert forall i :: 0 <= i < |zones| ==> CatalogKeys(rows)[i] == ListedKeys(zones)[i];
  }

  /** The row inserted for listed position i carries that zone's pair and is stamped clock(i). */
  lemma {:induction false} CatalogRowsAt(zones: seq<ListedZone>, clock: Clock)
    ensures forall i :: 0 <= i < |zones| ==>
      CatalogRows(zones, clock)[i] == CatalogRow(zones[i].zoneName, zones[i].countryCode, clock(i))
  {
    if zones != [] {
      var n := |zones| - 1;
      CatalogRowsAt(zones[..n], clock);
      var rows := CatalogRows(zones, clock);
      var front := CatalogRows(zones[..n], clock);
      assert rows == front + [CatalogRow(zones[n].zoneName, zones[n].countryCode, clock(n))];
      forall i | 0 <= i < n
        ensures rows[i] == CatalogRow(zones[i].zoneName, zones[i].countryCode, clock(i))
      {
        assert rows[i] == front[i] && zones[..n][i] == zones[i];
      }
    }
  }

  /**
   * The catalog after the refresh: all or nothing. A missing (falsy) listing
   * leaves the old catalog; a listing replaces every old row by exactly the
   * listed pairs, in response order.
   */
  function ReplaceCatalog(catalog: seq<CatalogRow>, listing: Option<seq<ListedZone>>, clock: Clock): (r: seq<CatalogRow>)
    ensures listing.None? ==> r == catalog
    ensures listing.Some? ==> CatalogKeys(r) == ListedKeys(listing.value)
    ensures listing.Some? ==> forall i :: 0 <= i < |r| ==> r[i].timestamp == clock(i)
  {
    match listing
    case None => catalog
    case Some(zones) =>
      CatalogRowsMirror(zones, clock);
      CatalogRows(zones, clock)
  }

  // ---------- the details relation ----------

  /** The natural key of a detail row, on which TZDB_ZONE_DETAILS is UNIQUE. */
  function KeyOf(row: DetailRow): Key
  {
    Key(row.zoneName, row.countryCode)
  }

  /** The keys of a sequence of detail rows, position by position. */
  function Keys(rows: seq<DetailRow>): seq<Key>
  {
    seq(|rows|, i requires 0 <= i < |rows| => KeyOf(rows[i]))
  }

  /** The UNIQUE(zoneName, countryCode) constraint. */
  ghost predicate UniqueKeys(rows: seq<DetailRow>)
  {
    forall i, j :: 0 <= i < j < |rows| ==> KeyOf(rows[i]) != KeyOf(rows[j])
  }

  /** The pair a detail response names. */
  function ResponseKey(info: ZoneInfo): Key
  {
    Key(info.zoneName, info.countryCode)
  }

  /** The row a successful detail call stages: the RESPONSE's own fields, stamped with the current time. */
  function StagedRow(info: ZoneInfo, at: Timestamp): (row: DetailRow)
    ensures KeyOf(row) == ResponseKey(info)
    ensures row.countryName == info.countryName && row.timestamp == at
  {
    DetailRow(info.zoneName, info.countryName, info.countryCode, at)
  }
}
