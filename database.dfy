/**
 * The batch job over the SQLite file, as a class whose fields are the tables.
 * Each method body is one transaction: it either commits all its changes or,
 * when SQLite reports a missing table, leaves every table as it was.
 */
module TzdbJob {
  import opened Wrappers
  import opened TzdbModel
  import opened Enrichment

  /** How one step ends: it completes, or SQLite raises "no such table" and nothing is committed. */
  datatype Outcome = Completed | NoSuchTable(table: TableName)

  /** The relations `create_tables` declares. */
  const AllTables: set<TableName> := {TzdbTimezones, TzdbZoneDetails, TzdbErrorLog}

  class Database {
    /** The tables that exist in the file. */
    var schema: set<TableName>
    /** TZDB_TIMEZONES, in row order. */
    var timezones: seq<CatalogRow>
    /** TZDB_ZONE_DETAILS, in row order. */
    var details: seq<DetailRow>
    /** TZDB_ERROR_LOG. */
    var errorLog: seq<ErrorRow>
    /** The temporary TZDB_ZONE_DETAILS_STAGE; it lives only inside PopulateZoneDetails. */
    var stage: seq<DetailRow>

    /** A table that does not exist holds no rows, details obeys its UNIQUE constraint, and no stage is left over. */
    ghost predicate Valid()
      reads this
    {
      && (TzdbTimezones !in schema ==> timezones == [])
      && (TzdbZoneDetails !in schema ==> details == [])
      && (TzdbErrorLog !in schema ==> errorLog == [])
      && UniqueKeys(details)
      && stage == []
    }

    /** A database file that does not exist yet: no tables at all. */
    constructor ()
      ensures Valid() && schema == {}
    {
      schema, stage := {}, [];
      timezones, details, errorLog := [], [], [];
    }

    /** `CREATE TABLE IF NOT EXISTS` for one table: an absent table starts empty, an existing one is left alone. */
    method CreateTableIfAbsent(t: TableName)
      requires Valid()
      modifies this
      ensures Valid()
      ensures schema == old(schema) + {t}
      ensures timezones == if t == TzdbTimezones && t !in old(schema) then [] else old(timezones)
      ensures details == if t == TzdbZoneDetails && t !in old(schema) then [] else old(details)
      ensures errorLog == if t == TzdbErrorLog && t !in old(schema) then [] else old(errorLog)
    {
      if t !in schema {
        schema := schema + {t};
        match t
        case TzdbTimezones => timezones := [];
        case TzdbZoneDetails => details := [];
        case TzdbErrorLog => errorLog := [];
      }
    }

    /**
     * `create_tables`: the three tables exist afterwards; every table that
     * already existed keeps its rows, every one that did not starts empty.
     */
    method CreateTables()
      requires Valid()
      modifies this
      ensures Valid()
      ensures schema == old(schema) + AllTables
      ensures TzdbTimezones in old(schema) ==> timezones == old(timezones)
      ensures TzdbZoneDetails in old(schema) ==> details == old(details)
      ensures TzdbErrorLog in old(schema) ==> errorLog == old(errorLog)
      ensures TzdbTimezones !in old(schema) ==> timezones == []
      ensures TzdbZoneDetails !in old(schema) ==> details == []
      ensures TzdbErrorLog !in old(schema) ==> errorLog == []
    {
      CreateTableIfAbsent(TzdbTimezones);
      CreateTableIfAbsent(TzdbZoneDetails);
      CreateTableIfAbsent(TzdbErrorLog);
    }

    /**
     * `populate_timezones_table`, given the response of the zone-list call.
     * No data: nothing changes. Data: the catalog is deleted and refilled with
     * exactly the listed zones, in order, in one commit.
     */
    method PopulateTimezones(listing: Option<seq<ListedZone>>, clock: Clock) returns (outcome: Outcome)
      requires Valid()
      modifies this
      ensures Valid()
      ensures outcome == if listing.Some? && TzdbTimezones !in old(schema) then NoSuchTable(TzdbTimezones) else Completed
      ensures outcome == Completed ==> timezones == ReplaceCatalog(old(timezones), listing, clock)
      ensures outcome != Completed ==> timezones == old(timezones)
      ensures schema == old(schema) && details == old(details) && errorLog == old(errorLog)
    {
      match listing
      case None =>
        outcome := Completed;
      case Some(zones) =>
        if TzdbTimezones !in schema {
          return NoSuchTable(TzdbTimezones);
        }
        timezones := [];
        for i := 0 to |zones|
          invariant timezones == CatalogRows(zones[..i], clock)
          invariant schema == old(schema) && details == old(details) && errorLog == old(errorLog) && stage == []
        {
          assert zones[..i + 1][..i] == zones[..i];
          timezones := timezones + [CatalogRow(zones[i].zoneName, zones[i].countryCode, clock(i))];
        }
        assert zones[..|zones|] == zones;
        outcome := Completed;
    }

    /** `SELECT * FROM TZDB_ZONE_DETAILS WHERE zoneName = ? AND countryCode = ?` followed by `fetchone()`. */
    method FindDetail(k: Key) returns (found: Option<DetailRow>)
      ensures found.Some? ==> found.value in details && KeyOf(found.value) == k
      ensures found.None? <==> k !in Keys(details)
    {
      var i := 0;
      while i < |details|
        invariant 0 <= i <= |details|
        invariant forall j :: 0 <= j < i ==> KeyOf(details[j]) != k
      {
        if KeyOf(details[i]) == k {
          assert Keys(details)[i] == k;
          return Some(details[i]);
        }
        i := i + 1;
      }
      assert forall j :: 0 <= j < |details| ==> Keys(details)[j] != k;
      found := None;
    }

    /**
     * The loop of `populate_zone_details_table` over the catalog pairs: a pair
     * already in details is skipped, any other is queried and a successful
     * response is appended to the stage. Returns the queries issued, in order.
     */
    method StageCatalog(pairs: seq<Key>, fetch: DetailOracle, clock: Clock) returns (queried: seq<Key>)
      requires stage == []
      modifies this
      ensures stage == StageOf(pairs, details, fetch, clock)
      ensures queried == Calls(pairs, details)
      ensures schema == old(schema) && timezones == old(timezones) && errorLog == old(errorLog)
      ensures details == old(details)
    {
      queried := [];
      for i := 0 to |pairs|
        invariant stage == StageOf(pairs[..i], details, fetch, clock)
        invariant queried == Calls(pairs[..i], details)
        invariant schema == old(schema) && timezones == old(timezones) && errorLog == old(errorLog)
        invariant details == old(details)
      {
        StageStep(pairs, details, fetch, clock, i);
        var existing := FindDetail(pairs[i]);
        if existing.None? {
          queried := queried + [pairs[i]];
          var response := fetch(pairs[i]);
          if response.Some? {
            stage := stage + [StagedRow(response.value, clock(i))];
          }
        }
      }
      assert pairs[..|pairs|] == pairs;
    }

    /**
     * `populate_zone_details_table`, with the detail call as `fetch`. Returns
     * the detail queries it issued, in order. Every catalog pair absent from
     * details is queried, and only those; each successful response is staged;
     * the stage is merged with INSERT OR IGNORE and dropped.
     */
    method PopulateZoneDetails(fetch: DetailOracle, clock: Clock) returns (outcome: Outcome, queried: seq<Key>)
      requires Valid()
      modifies this
      ensures Valid()
      ensures outcome == if TzdbZoneDetails !in old(schema) then NoSuchTable(TzdbZoneDetails)
                         else if TzdbTimezones !in old(schema) then NoSuchTable(TzdbTimezones)
                         else Completed
      ensures outcome == Completed ==> queried == Calls(CatalogKeys(timezones), old(details))
      ensures outcome == Completed ==> details == Enrich(CatalogKeys(timezones), old(details), fetch, clock)
      ensures outcome != Completed ==> queried == [] && details == old(details)
      ensures schema == old(schema) && timezones == old(timezones) && errorLog == old(errorLog)
    {
      queried := [];
      if TzdbZoneDetails !in schema {
        // CREATE TEMP TABLE ... AS SELECT * FROM TZDB_ZONE_DETAILS fails
        return NoSuchTable(TzdbZoneDetails), queried;
      }
      // the stage copies the columns of details but not its UNIQUE constraint
      stage := [];
      if TzdbTimezones !in schema {
        // the catalog SELECT fails; the temporary stage goes with the connection
        return NoSuchTable(TzdbTimezones), queried;
      }
      var pairs := CatalogKeys(timezones);
      queried := StageCatalog(pairs, fetch, clock);
      MergePreservesUnique(details, stage);
      details := MergeIgnore(details, stage);
      stage := [];
      outcome := Completed;
    }

    /**
     * `main`: schema, then catalog refresh from the zone-list response, then
     * enrichment. After CreateTables no step can meet a missing table.
     */
    method RunJob(listing: Option<seq<ListedZone>>, fetch: DetailOracle, catalogClock: Clock, detailClock: Clock)
      returns (queried: seq<Key>)
      requires Valid()
      modifies this
      ensures Valid()
      ensures schema == old(schema) + AllTables
      ensures timezones == ReplaceCatalog(old(timezones), listing, catalogClock)
      ensures queried == Calls(CatalogKeys(timezones), old(details))
      ensures details == Enrich(CatalogKeys(timezones), old(details), fetch, detailClock)
      ensures errorLog == old(errorLog)
    {
      CreateTables();
      var catalogOutcome := PopulateTimezones(listing, catalogClock);
      var detailOutcome;
      detailOutcome, queried := PopulateZoneDetails(fetch, detailClock);
    }
  }

  /**
   * Running the whole job a second time with the remote data unchanged keeps
   * the catalog's pairs and leaves the details relation exactly as the first
   * run left it.
   */
  lemma JobRerunKeepsDetails(catalog: seq<CatalogRow>, details: seq<DetailRow>, listing: Option<seq<ListedZone>>,
                             fetch: DetailOracle, catalogClock1: Clock, detailClock1: Clock,
                             catalogClock2: Clock, detailClock2: Clock)
    ensures var c1 := ReplaceCatalog(catalog, listing, catalogClock1);
            var d1 := Enrich(CatalogKeys(c1), details, fetch, detailClock1);
            var c2 := ReplaceCatalog(c1, listing, catalogClock2);
            CatalogKeys(c2) == CatalogKeys(c1) && Enrich(CatalogKeys(c2), d1, fetch, detailClock2) == d1
  {
    var c1 := ReplaceCatalog(catalog, listing, catalogClock1);
    var c2 := ReplaceCatalog(c1, listing, catalogClock2);
    assert CatalogKeys(c2) == CatalogKeys(c1);
    EnrichIdempotent(CatalogKeys(c1), details, fetch, detailClock1, detailClock2);
  }
}
