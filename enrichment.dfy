/**
 * The incremental enrichment pass as functions of the catalog pairs, the
 * details relation before the pass, the detail oracle and the clock:
 * which pairs are queried, which rows are staged, and how the stage is
 * merged with INSERT OR IGNORE. The lemmas state the laws the pass keeps.
 */
module Enrichment {
  import opened Wrappers
  import opened TzdbModel

  /**
   * What loop iteration `at`, visiting pair k, adds to the stage: one row
   * exactly when k has no detail row and its call succeeds, and that row is
   * the response stamped with the iteration's time.
   */
  function Attempt(k: Key, at: nat, details: seq<DetailRow>, fetch: DetailOracle, clock: Clock): (r: seq<DetailRow>)
    ensures |r| <= 1
    ensures |r| == 1 <==> k !in Keys(details) && fetch(k).Some?
    ensures |r| == 1 ==> r[0] == StagedRow(fetch(k).value, clock(at))
  {
    if k in Keys(details) then []
    else
      match fetch(k)
      case None => []
      case Some(info) => [StagedRow(info, clock(at))]
  }

  /**
   * The staging table after the loop has visited `pairs` (catalog positions
   * 0 .. |pairs|-1): at most one row per catalog position.
   */
  function StageOf(pairs: seq<Key>, details: seq<DetailRow>, fetch: DetailOracle, clock: Clock): (r: seq<DetailRow>)
    ensures |r| <= |pairs|
    decreases |pairs|
  {
    if pairs == [] then []
    else
      var n := |pairs| - 1;
      StageOf(pairs[..n], details, fetch, clock) + Attempt(pairs[n], n, details, fetch, clock)
  }

  /**
   * The detail calls issued while visiting `pairs`, in order. The skip law:
   * a pair is queried exactly when it is a catalog pair absent from details.
   */
  function Calls(pairs: seq<Key>, details: seq<DetailRow>): (r: seq<Key>)
    ensures forall k :: k in r <==> k in pairs && k !in Keys(details)
    ensures |r| <= |pairs|
    decreases |pairs|
  {
    if pairs == [] then []
    else
      var n := |pairs| - 1;
      assert pairs == pairs[..n] + [pairs[n]];
      Calls(pairs[..n], details) + (if pairs[n] in Keys(details) then [] else [pairs[n]])
  }

  /**
   * One INSERT OR IGNORE: afterwards the row's key is present; the old rows
   * are kept as they were, and one row is added exactly when the key was
   * absent, namely the given row itself.
   */
  function InsertOrIgnore(rows: seq<DetailRow>, row: DetailRow): (r: seq<DetailRow>)
    ensures KeyOf(row) in Keys(r)
    ensures |rows| <= |r| && r[..|rows|] == rows
    ensures |r| == (if KeyOf(row) in Keys(rows) then |rows| else |rows| + 1)
    ensures KeyOf(row) !in Keys(rows) ==> r[|rows|] == row
  {
    KeysAppend(rows, row);
    if KeyOf(row) in Keys(rows) then rows else rows + [row]
  }

  /**
   * `INSERT OR IGNORE INTO details SELECT * FROM stage`, the staged rows taken
   * in stage order: it adds at most one row per staged row and removes none.
   */
  function MergeIgnore(details: seq<DetailRow>, stage: seq<DetailRow>): (r: seq<DetailRow>)
    ensures |details| <= |r| <= |details| + |stage|
    decreases |stage|
  {
    if stage == [] then details
    else MergeIgnore(InsertOrIgnore(details, stage[0]), stage[1..])
  }

  /** The details relation after one enrichment pass: at most one new row per catalog position. */
  function Enrich(pairs: seq<Key>, details: seq<DetailRow>, fetch: DetailOracle, clock: Clock): (r: seq<DetailRow>)
    ensures |details| <= |r| <= |details| + |pairs|
  {
    MergeIgnore(details, StageOf(pairs, details, fetch, clock))
  }

  /** A detail call answers for the pair it was asked about. */
  ghost predicate FaithfulOracle(fetch: DetailOracle)
  {
    forall k :: fetch(k).Some? ==> ResponseKey(fetch(k).value) == k
  }

  // ---------- helpers ----------

  /** One more loop iteration extends the stage by its Attempt and the calls by its query, if any. */
  lemma StageStep(pairs: seq<Key>, details: seq<DetailRow>, fetch: DetailOracle, clock: Clock, i: nat)
    requires i < |pairs|
    ensures StageOf(pairs[..i + 1], details, fetch, clock) ==
      StageOf(pairs[..i], details, fetch, clock) + Attempt(pairs[i], i, details, fetch, clock)
    ensures Calls(pairs[..i + 1], details) ==
      Calls(pairs[..i], details) + (if pairs[i] in Keys(details) then [] else [pairs[i]])
  {
    assert pairs[..i + 1][..i] == pairs[..i];
  }

  lemma KeysAppend(rows: seq<DetailRow>, row: DetailRow)
    ensures Keys(rows + [row]) == Keys(rows) + [KeyOf(row)]
  {
    assert forall i :: 0 <= i < |rows| ==> Keys(rows + [row])[i] == Keys(rows)[i];
  }

  lemma MemberKey(rows: seq<DetailRow>, x: DetailRow)
    requires x in rows
    ensures KeyOf(x) in Keys(rows)
  {
    var m :| 0 <= m < |rows| && rows[m] == x;
    assert Keys(rows)[m] == KeyOf(x);
  }

  // ---------- the staging loop ----------

  /** A failed or skipped pair stages nothing: every staged row is the response for some queried, successful pair. */
  lemma {:induction false} StageSound(pairs: seq<Key>, details: seq<DetailRow>, fetch: DetailOracle, clock: Clock)
    ensures forall x :: x in StageOf(pairs, details, fetch, clock) ==>
      exists i :: (0 <= i < |pairs| && pairs[i] !in Keys(details) && fetch(pairs[i]).Some? &&
                   x == StagedRow(fetch(pairs[i]).value, clock(i)))
    decreases |pairs|
  {
    if pairs != [] {
      var n := |pairs| - 1;
      StageSound(pairs[..n], details, fetch, clock);
      forall x | x in StageOf(pairs, details, fetch, clock)
        ensures exists i :: (0 <= i < |pairs| && pairs[i] !in Keys(details) && fetch(pairs[i]).Some? &&
                             x == StagedRow(fetch(pairs[i]).value, clock(i)))
      {
        if x in StageOf(pairs[..n], details, fetch, clock) {
          var i :| 0 <= i < n && pairs[..n][i] !in Keys(details) && fetch(pairs[..n][i]).Some? &&
            x == StagedRow(fetch(pairs[..n][i]).value, clock(i));
          assert pairs[i] == pairs[..n][i];
        } else {
          assert x in Attempt(pairs[n], n, details, fetch, clock);
        }
      }
    }
  }

  /** A failure never stops the loop: every queried pair whose call succeeds has its response staged. */
  lemma {:induction false} StageComplete(pairs: seq<Key>, details: seq<DetailRow>, fetch: DetailOracle, clock: Clock, i: nat)
    requires i < |pairs| && pairs[i] !in Keys(details) && fetch(pairs[i]).Some?
    ensures StagedRow(fetch(pairs[i]).value, clock(i)) in StageOf(pairs, details, fetch, clock)
    decreases |pairs|
  {
    var n := |pairs| - 1;
    if i < n {
      assert pairs[..n][i] == pairs[i];
      StageComplete(pairs[..n], details, fetch, clock, i);
    } else {
      assert Attempt(pairs[n], n, details, fetch, clock) == [StagedRow(fetch(pairs[i]).value, clock(i))];
    }
  }

  // ---------- the merge ----------

  /**
   * The merge is insert-if-absent: every row present before it is still there,
   * at the same place and with the same fields, and every added row is a staged row.
   */
  lemma {:induction false} MergeKeepsExisting(details: seq<DetailRow>, stage: seq<DetailRow>)
    ensures |details| <= |MergeIgnore(details, stage)|
    ensures MergeIgnore(details, stage)[..|details|] == details
    ensures forall x :: x in MergeIgnore(details, stage)[|details|..] ==> x in stage
    decreases |stage|
  {
    if stage != [] {
      var next := InsertOrIgnore(details, stage[0]);
      MergeKeepsExisting(next, stage[1..]);
      var r := MergeIgnore(details, stage);
      assert r[..|next|][..|details|] == r[..|details|];
      forall x | x in r[|details|..] ensures x in stage {
        var m :| |details| <= m < |r| && r[m] == x;
        if m < |next| {
          assert x == next[m] == stage[0];
        } else {
          assert x in r[|next|..];
        }
      }
    }
  }

  /** The keys after the merge are those of details plus those of the stage. */
  lemma {:induction false} MergeKeys(details: seq<DetailRow>, stage: seq<DetailRow>)
    ensures forall k :: k in Keys(MergeIgnore(details, stage)) <==> k in Keys(details) || k in Keys(stage)
    decreases |stage|
  {
    if stage != [] {
      var next := InsertOrIgnore(details, stage[0]);
      MergeKeys(next, stage[1..]);
      KeysAppend(details, stage[0]);
      assert Keys(stage) == [KeyOf(stage[0])] + Keys(stage[1..]);
    }
  }

  /** The merge keeps UNIQUE(zoneName, countryCode). */
  lemma {:induction false} MergePreservesUnique(details: seq<DetailRow>, stage: seq<DetailRow>)
    requires UniqueKeys(details)
    ensures UniqueKeys(MergeIgnore(details, stage))
    decreases |stage|
  {
    if stage != [] {
      var next := InsertOrIgnore(details, stage[0]);
      if KeyOf(stage[0]) !in Keys(details) {
        forall i, j | 0 <= i < j < |next| ensures KeyOf(next[i]) != KeyOf(next[j]) {
          if j == |details| {
            assert KeyOf(next[i]) == Keys(details)[i];
          }
        }
      }
      MergePreservesUnique(next, stage[1..]);
    }
  }

  /**
   * For a staged key absent from details, exactly the FIRST staged row with
   * that key is added: it is present after the merge, and it is the only row
   * with that key.
   */
  lemma {:induction false} MergeFirstWins(details: seq<DetailRow>, stage: seq<DetailRow>, j: nat)
    requires UniqueKeys(details)
    requires j < |stage| && KeyOf(stage[j]) !in Keys(details)
    requires forall i :: 0 <= i < j ==> KeyOf(stage[i]) != KeyOf(stage[j])
    ensures |details| <= |MergeIgnore(details, stage)|
    ensures stage[j] in MergeIgnore(details, stage)[|details|..]
    ensures forall x :: x in MergeIgnore(details, stage) && KeyOf(x) == KeyOf(stage[j]) ==> x == stage[j]
    decreases |stage|
  {
    var next := InsertOrIgnore(details, stage[0]);
    var r := MergeIgnore(details, stage);
    MergeKeepsExisting(details, stage);
    MergeKeepsExisting(next, stage[1..]);
    MergePreservesUnique(details, stage);
    if j == 0 {
      assert next == details + [stage[0]];
      assert r[|details|] == next[|details|] == stage[0];
    } else {
      KeysAppend(details, stage[0]);
      assert KeyOf(stage[1..][j - 1]) !in Keys(next);
      MergePreservesUnique(details, [stage[0]]);
      assert MergeIgnore(details, [stage[0]]) == next;
      MergeFirstWins(next, stage[1..], j - 1);
      assert r[|next|..] == r[|details|..][|next| - |details|..];
    }
    OnlyRowWithKey(r, stage[j]);
  }

  /** In a unique relation, a row is the only one with its key. */
  lemma OnlyRowWithKey(rows: seq<DetailRow>, y: DetailRow)
    requires UniqueKeys(rows) && y in rows
    ensures forall x :: x in rows && KeyOf(x) == KeyOf(y) ==> x == y
  {
    var b :| 0 <= b < |rows| && rows[b] == y;
    assert forall a :: 0 <= a < |rows| && a != b ==> KeyOf(rows[a]) != KeyOf(rows[b]);
  }

  /** A staged row never overwrites: the row of details with a given key is the only one with that key afterwards. */
  lemma MergeNeverOverwrites(details: seq<DetailRow>, stage: seq<DetailRow>, x: DetailRow)
    requires UniqueKeys(details) && x in details
    ensures x in MergeIgnore(details, stage)
    ensures forall y :: y in MergeIgnore(details, stage) && KeyOf(y) == KeyOf(x) ==> y == x
  {
    var r := MergeIgnore(details, stage);
    MergeKeepsExisting(details, stage);
    MergePreservesUnique(details, stage);
    var a :| 0 <= a < |details| && details[a] == x;
    assert r[a] == x;
    OnlyRowWithKey(r, x);
  }

  /** A stage whose keys are all present already changes nothing. */
  lemma {:induction false} MergeOfPresentKeys(details: seq<DetailRow>, stage: seq<DetailRow>)
    requires forall x :: x in stage ==> KeyOf(x) in Keys(details)
    ensures MergeIgnore(details, stage) == details
    decreases |stage|
  {
    if stage != [] {
      assert stage[0] in stage;
      MergeOfPresentKeys(details, stage[1..]);
    }
  }

  // ---------- whole passes ----------

  /** The pass never removes or alters a detail row and keeps the details relation UNIQUE. */
  lemma EnrichKeepsDetails(pairs: seq<Key>, details: seq<DetailRow>, fetch: DetailOracle, clock: Clock)
    requires UniqueKeys(details)
    ensures UniqueKeys(Enrich(pairs, details, fetch, clock))
    ensures |details| <= |Enrich(pairs, details, fetch, clock)|
    ensures Enrich(pairs, details, fetch, clock)[..|details|] == details
  {
    MergeKeepsExisting(details, StageOf(pairs, details, fetch, clock));
    MergePreservesUnique(details, StageOf(pairs, details, fetch, clock));
  }

  /**
   * Under a faithful oracle, a pair absent from details whose call fails gets
   * no row in this pass (and later pairs are still processed: see StageComplete).
   */
  lemma FailedPairGetsNoRow(pairs: seq<Key>, details: seq<DetailRow>, fetch: DetailOracle, clock: Clock, k: Key)
    requires FaithfulOracle(fetch)
    requires k !in Keys(details) && fetch(k).None?
    ensures k !in Keys(Enrich(pairs, details, fetch, clock))
  {
    var stage := StageOf(pairs, details, fetch, clock);
    MergeKeys(details, stage);
    StageSound(pairs, details, fetch, clock);
    forall m | 0 <= m < |stage| ensures Keys(stage)[m] != k {
      assert stage[m] in stage;
      var i :| 0 <= i < |pairs| && pairs[i] !in Keys(details) && fetch(pairs[i]).Some? &&
        stage[m] == StagedRow(fetch(pairs[i]).value, clock(i));
      assert ResponseKey(fetch(pairs[i]).value) == pairs[i];
    }
  }

  /** The key of every successful response of the pass is present in details afterwards. */
  lemma StagedKeyEnriched(pairs: seq<Key>, details: seq<DetailRow>, fetch: DetailOracle, clock: Clock, i: nat)
    requires i < |pairs| && pairs[i] !in Keys(details) && fetch(pairs[i]).Some?
    ensures KeyOf(StagedRow(fetch(pairs[i]).value, clock(i))) in Keys(Enrich(pairs, details, fetch, clock))
  {
    var stage := StageOf(pairs, details, fetch, clock);
    MergeKeys(details, stage);
    StageComplete(pairs, details, fetch, clock, i);
    MemberKey(stage, StagedRow(fetch(pairs[i]).value, clock(i)));
  }

  /**
   * Idempotence: a second pass over the same pairs with the same oracle adds
   * nothing, whatever the clock; no assumption on the oracle's answers is needed.
   */
  lemma EnrichIdempotent(pairs: seq<Key>, details: seq<DetailRow>, fetch: DetailOracle, clock1: Clock, clock2: Clock)
    ensures Enrich(pairs, Enrich(pairs, details, fetch, clock1), fetch, clock2) == Enrich(pairs, details, fetch, clock1)
  {
    var stage1 := StageOf(pairs, details, fetch, clock1);
    var d1 := MergeIgnore(details, stage1);
    var stage2 := StageOf(pairs, d1, fetch, clock2);
    MergeKeys(details, stage1);
    StageSound(pairs, d1, fetch, clock2);
    forall x | x in stage2 ensures KeyOf(x) in Keys(d1) {
      var i :| 0 <= i < |pairs| && pairs[i] !in Keys(d1) && fetch(pairs[i]).Some? &&
        x == StagedRow(fetch(pairs[i]).value, clock2(i));
      StagedKeyEnriched(pairs, details, fetch, clock1, i);
    }
    MergeOfPresentKeys(d1, stage2);
  }

  /**
   * Under a faithful oracle, the second pass re-queries only pairs whose call
   * failed in the first: no pair enriched by the first pass is queried again.
   */
  lemma SecondPassRetriesOnlyFailures(pairs: seq<Key>, details: seq<DetailRow>, fetch: DetailOracle, clock: Clock)
    requires FaithfulOracle(fetch)
    ensures forall k :: k in Calls(pairs, Enrich(pairs, details, fetch, clock)) ==>
      k in Calls(pairs, details) && fetch(k).None?
  {
    var d1 := Enrich(pairs, details, fetch, clock);
    MergeKeys(details, StageOf(pairs, details, fetch, clock));
    forall k | k in Calls(pairs, d1) ensures k in Calls(pairs, details) && fetch(k).None? {
      var i :| 0 <= i < |pairs| && pairs[i] == k;
      if fetch(k).Some? {
        StagedKeyEnriched(pairs, details, fetch, clock, i);
        assert false;
      }
    }
  }

  /** The rows staged for the first i catalog positions come first in the stage, followed by position i's row, if any. */
  lemma {:induction false} StagePrefix(pairs: seq<Key>, details: seq<DetailRow>, fetch: DetailOracle, clock: Clock, i: nat)
    requires i < |pairs|
    ensures var before := StageOf(pairs[..i], details, fetch, clock);
            var upTo := before + Attempt(pairs[i], i, details, fetch, clock);
            |upTo| <= |StageOf(pairs, details, fetch, clock)| &&
            StageOf(pairs, details, fetch, clock)[..|upTo|] == upTo
  {
    StageStep(pairs, details, fetch, clock, i);
    StageIsPrefix(pairs, details, fetch, clock, i + 1);
  }

  /** A sequence that starts with `part + extra` starts with `part`. */
  lemma PrefixOfPrefix<T>(whole: seq<T>, part: seq<T>, extra: seq<T>)
    requires |part + extra| <= |whole| && whole[..|part + extra|] == part + extra
    ensures |part| <= |whole| && whole[..|part|] == part
  {
    assert whole[..|part|] == whole[..|part + extra|][..|part|];
  }

  /** The stage for the first j catalog positions is a prefix of the whole stage. */
  lemma {:induction false} StageIsPrefix(pairs: seq<Key>, details: seq<DetailRow>, fetch: DetailOracle, clock: Clock, j: nat)
    requires j <= |pairs|
    ensures var part := StageOf(pairs[..j], details, fetch, clock);
            |part| <= |StageOf(pairs, details, fetch, clock)| &&
            StageOf(pairs, details, fetch, clock)[..|part|] == part
    decreases |pairs| - j
  {
    if j < |pairs| {
      StageIsPrefix(pairs, details, fetch, clock, j + 1);
      StageStep(pairs, details, fetch, clock, j);
      PrefixOfPrefix(StageOf(pairs, details, fetch, clock), StageOf(pairs[..j], details, fetch, clock),
                     Attempt(pairs[j], j, details, fetch, clock));
    } else {
      assert pairs[..j] == pairs;
    }
  }

  /**
   * Position i's staged row sits right after the rows staged for positions
   * before i, and every row ahead of it answers an earlier position.
   */
  lemma StagedAt(pairs: seq<Key>, details: seq<DetailRow>, fetch: DetailOracle, clock: Clock, i: nat) returns (a: nat)
    requires i < |pairs| && pairs[i] !in Keys(details) && fetch(pairs[i]).Some?
    ensures a == |StageOf(pairs[..i], details, fetch, clock)| && a < |StageOf(pairs, details, fetch, clock)|
    ensures StageOf(pairs, details, fetch, clock)[a] == StagedRow(fetch(pairs[i]).value, clock(i))
    ensures forall m :: 0 <= m < a ==> exists p :: (0 <= p < i && fetch(pairs[p]).Some? &&
      StageOf(pairs, details, fetch, clock)[m] == StagedRow(fetch(pairs[p]).value, clock(p)))
  {
    var stage := StageOf(pairs, details, fetch, clock);
    var before := StageOf(pairs[..i], details, fetch, clock);
    StagePrefix(pairs, details, fetch, clock, i);
    a := |before|;
    assert stage[..a + 1] == before + [StagedRow(fetch(pairs[i]).value, clock(i))];
    assert stage[a] == stage[..a + 1][a];
    StageSound(pairs[..i], details, fetch, clock);
    forall m | 0 <= m < a ensures exists p :: (0 <= p < i && fetch(pairs[p]).Some? &&
      stage[m] == StagedRow(fetch(pairs[p]).value, clock(p)))
    {
      assert stage[m] == stage[..a + 1][m] == before[m];
      assert before[m] in before;
      var p :| 0 <= p < i && pairs[..i][p] !in Keys(details) && fetch(pairs[..i][p]).Some? &&
        before[m] == StagedRow(fetch(pairs[..i][p]).value, clock(p));
      assert pairs[..i][p] == pairs[p];
    }
  }

  /** The stage only grows as the loop moves along the catalog. */
  lemma {:induction false} StageGrows(pairs: seq<Key>, details: seq<DetailRow>, fetch: DetailOracle, clock: Clock, i: nat, j: nat)
    requires i <= j <= |pairs|
    ensures |StageOf(pairs[..i], details, fetch, clock)| <= |StageOf(pairs[..j], details, fetch, clock)|
    decreases j
  {
    if i < j {
      StageGrows(pairs, details, fetch, clock, i, j - 1);
      assert pairs[..j][..j - 1] == pairs[..j - 1];
    }
  }

  /**
   * The stage has no uniqueness constraint: a pair listed at positions i < j,
   * absent from details and answered, is staged twice, position i's row
   * before position j's, whatever the answer names.
   */
  lemma DuplicatePairStagedTwice(pairs: seq<Key>, details: seq<DetailRow>, fetch: DetailOracle, clock: Clock,
                                 i: nat, j: nat)
    requires i < j < |pairs| && pairs[i] == pairs[j]
    requires pairs[i] !in Keys(details) && fetch(pairs[i]).Some?
    ensures var stage := StageOf(pairs, details, fetch, clock);
            exists a, b :: 0 <= a < b < |stage| &&
              stage[a] == StagedRow(fetch(pairs[i]).value, clock(i)) &&
              stage[b] == StagedRow(fetch(pairs[i]).value, clock(j))
  {
    var a := StagedAt(pairs, details, fetch, clock, i);
    var b := StagedAt(pairs, details, fetch, clock, j);
    StageStep(pairs, details, fetch, clock, i);
    StageGrows(pairs, details, fetch, clock, i + 1, j);
    assert a < b;
  }

  /**
   * Of a pair's staged rows, the one from its first catalog position is the
   * one the merge keeps: when the pair has no detail row, its call succeeds
   * and every answer names the pair asked about, that row is added and is the
   * only row with the pair's key.
   */
  lemma DuplicatePairKeepsFirst(pairs: seq<Key>, details: seq<DetailRow>, fetch: DetailOracle, clock: Clock, i: nat)
    requires FaithfulOracle(fetch) && UniqueKeys(details)
    requires i < |pairs| && forall m :: 0 <= m < i ==> pairs[m] != pairs[i]
    requires pairs[i] !in Keys(details) && fetch(pairs[i]).Some?
    ensures StagedRow(fetch(pairs[i]).value, clock(i)) in Enrich(pairs, details, fetch, clock)
    ensures forall x :: x in Enrich(pairs, details, fetch, clock) && KeyOf(x) == pairs[i] ==>
      x == StagedRow(fetch(pairs[i]).value, clock(i))
  {
    var stage := StageOf(pairs, details, fetch, clock);
    var a := StagedAt(pairs, details, fetch, clock, i);
    forall m | 0 <= m < a ensures KeyOf(stage[m]) != KeyOf(stage[a]) {
      var p :| 0 <= p < i && fetch(pairs[p]).Some? && stage[m] == StagedRow(fetch(pairs[p]).value, clock(p));
    }
    MergeFirstWins(details, stage, a);
  }

  /**
   * The staged key is the response's, not the queried pair's: when no answer
   * of the pass names a pair (so, by the second premise, not its own answer
   * either), the pair stays without detail and is queried again on the next
   * pass.
   */
  lemma ResponseKeyDecidesRow(pairs: seq<Key>, details: seq<DetailRow>, fetch: DetailOracle, clock: Clock, k: Key)
    requires k in pairs && k !in Keys(details) && fetch(k).Some?
    requires forall p :: p in pairs && p !in Keys(details) && fetch(p).Some? ==> ResponseKey(fetch(p).value) != k
    ensures k !in Keys(Enrich(pairs, details, fetch, clock))
    ensures k in Calls(pairs, Enrich(pairs, details, fetch, clock))
  {
    var stage := StageOf(pairs, details, fetch, clock);
    MergeKeys(details, stage);
    StageSound(pairs, details, fetch, clock);
    forall m | 0 <= m < |stage| ensures Keys(stage)[m] != k {
      assert stage[m] in stage;
      var i :| 0 <= i < |pairs| && pairs[i] !in Keys(details) && fetch(pairs[i]).Some? &&
        stage[m] == StagedRow(fetch(pairs[i]).value, clock(i));
      assert pairs[i] in pairs;
    }
  }

  /**
   * Two catalog zones, empty details, both calls succeed: one pass stores both
   * with the returned country names, and a second pass issues no call.
   */
  lemma TwoZoneScenario(fetch: DetailOracle, clock: Clock)
    requires fetch(Key("America/New_York", "US")) == Some(ZoneInfo("America/New_York", "United States", "US"))
    requires fetch(Key("Europe/London", "GB")) == Some(ZoneInfo("Europe/London", "United Kingdom", "GB"))
    ensures var pairs := [Key("America/New_York", "US"), Key("Europe/London", "GB")];
            var d1 := Enrich(pairs, [], fetch, clock);
            && d1 == [DetailRow("America/New_York", "United States", "US", clock(0)),
                      DetailRow("Europe/London", "United Kingdom", "GB", clock(1))]
            && Calls(pairs, d1) == []
            && Enrich(pairs, d1, fetch, clock) == d1
  {
    var ny, london := Key("America/New_York", "US"), Key("Europe/London", "GB");
    var pairs := [ny, london];
    var r0 := DetailRow("America/New_York", "United States", "US", clock(0));
    var r1 := DetailRow("Europe/London", "United Kingdom", "GB", clock(1));
    assert pairs[..1] == [ny] && [ny][..0] == [];
    assert Keys([]) == [];
    assert Attempt(ny, 0, [], fetch, clock) == [r0];
    assert StageOf([ny], [], fetch, clock) == [r0];
    assert Attempt(london, 1, [], fetch, clock) == [r1];
    assert StageOf(pairs, [], fetch, clock) == [r0, r1];
    assert Keys([r0]) == [ny];
    assert MergeIgnore([r0], [r1]) == [r0, r1];
    var d1 := Enrich(pairs, [], fetch, clock);
    assert Keys(d1) == pairs;
    assert Calls(pairs, d1) == [];
    EnrichIdempotent(pairs, [], fetch, clock, clock);
  }
}
