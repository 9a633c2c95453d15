/**
 * The Cdc facade apart from the change query: enabling and disabling CDC for the database and for
 * a table, the default capture-instance name, the changed-column and binary-column lookups, and
 * the listings of source names (deduplicated ignoring case) and capture instances (grouped by
 * source table ignoring case).
 */
module Cdc {
  import opened Wrappers
  import opened Strings
  import opened CiMaps
  import opened Exceptions
  import opened Extensions
  import opened SqlFunctions
  import opened Db
  import opened CdcUtility
  import Enums
  import Consts

  // ---------------------------------------------------------------- database

  /** EnableDbAsync: enable CDC unless already enabled (then 0), and in both cases install the helper functions. */
  method EnableDb(db: Database) returns (result: Enums.int32)
    modifies db`queries, db`procs, db`cdcEnabled, db`functions, db`catalog
    ensures result == if old(db.cdcEnabled) then 0 else db.server.returnCodeOf(EnableDbProc)
    ensures db.procs == old(db.procs) + if old(db.cdcEnabled) then [] else [EnableDbProc]
    ensures db.cdcEnabled
    ensures db.functions == old(db.functions) + HelperNames
    ensures db.catalog == old(db.catalog) + CreateFnsSteps(old(db.functions))
    ensures db.queries == old(db.queries) + [CdcEnabledQuery]
  {
    var enabled := HasDbCdcEnabled(db);
    if enabled {
      result := 0;
    } else {
      result := db.Exec(EnableDbProc);
    }
    CreateFns(db);
  }

  /** DisableDbAsync: drop the helper functions, then disable CDC if it is enabled (else 0). */
  method DisableDb(db: Database) returns (result: Enums.int32)
    modifies db`queries, db`procs, db`cdcEnabled, db`functions, db`catalog
    ensures result == if old(db.cdcEnabled) then db.server.returnCodeOf(DisableDbProc) else 0
    ensures db.procs == old(db.procs) + if old(db.cdcEnabled) then [DisableDbProc] else []
    ensures !db.cdcEnabled
    ensures db.functions == old(db.functions) - HelperNames
    ensures db.catalog == old(db.catalog) + DropFnsSteps(old(db.functions))
    ensures db.queries == old(db.queries) + [CdcEnabledQuery]
  {
    DropFns(db);
    var enabled := HasDbCdcEnabled(db);
    if !enabled {
      result := 0;
    } else {
      result := db.Exec(DisableDbProc);
    }
  }

  // ---------------------------------------------------------------- tables

  /** How C# string interpolation renders a string: null as the empty string. */
  function Interpolated(s: Option<string>): string {
    match s
    case None => ""
    case Some(v) => v
  }

  /** The capture instance EnableTableAsync names when none is given: schema_name, plus _Net with net changes. */
  function DefaultCaptureInstance(schema: string, sourceName: Option<string>, supportsNetChanges: bool): string {
    schema + "_" + Interpolated(sourceName) + if supportsNetChanges then "_Net" else ""
  }

  /**
   * The default names of the two modes differ exactly by the "_Net" suffix, and a default name is
   * never blank and never the "all" sentinel, so it always designates one instance.
   */
  lemma DefaultCaptureInstanceMeaning(schema: string, sourceName: Option<string>, net: bool)
    ensures DefaultCaptureInstance(schema, sourceName, true) == DefaultCaptureInstance(schema, sourceName, false) + "_Net"
    ensures DefaultCaptureInstance(schema, sourceName, net)[..|schema| + 1] == schema + "_"
    ensures !IsForAllInstances(Some(DefaultCaptureInstance(schema, sourceName, net)))
  {
    var r := DefaultCaptureInstance(schema, sourceName, net);
    var k := |schema|;
    assert r[k] == '_';
    assert !IsWhiteSpace(r[k]);
    var f := Fold(r);
    FoldAt(r);
    FoldAt(Consts.All);
    assert f[k] == '_';
    var all := Fold(Consts.All);
    assert |all| == 3 && all[0] == 'A' && all[1] == 'L' && all[2] == 'L';
    if |r| == 3 {
      assert f[k] != all[k];
    }
  }

  /** The instance EnableTableAsync uses: the one given, or the default name when it is blank. */
  function ChosenInstance(schema: string, sourceName: Option<string>, ci: Option<string>, net: bool): string {
    if IsNullOrWhiteSpace(ci) then DefaultCaptureInstance(schema, sourceName, net) else ci.value
  }

  /** CdcApi.EnableTableAsync: blank schema or table names are rejected, else sys.sp_cdc_enable_table runs. */
  method ApiEnableTable(db: Database, schema: Option<string>, sourceName: Option<string>, ci: string, net: bool, options: EnableTableOptions)
    returns (r: Result<Enums.int32, ExceptionType>)
    modifies db`procs, db`cdcEnabled
    ensures CheckNull(schema).Fail? || CheckNull(sourceName).Fail? ==> r == Failure(ArgumentNullException) && db.procs == old(db.procs)
    ensures CheckNull(schema).Pass? && CheckNull(sourceName).Pass? ==>
      var p := EnableTableProc(schema.value, sourceName.value, ci, net, options);
      r == Success(db.server.returnCodeOf(p)) && db.procs == old(db.procs) + [p]
    ensures db.cdcEnabled == old(db.cdcEnabled)
  {
    if CheckNull(schema).Fail? || CheckNull(sourceName).Fail? {
      return Failure(ArgumentNullException);
    }
    var code := db.Exec(EnableTableProc(schema.value, sourceName.value, ci, net, options));
    r := Success(code);
  }

  /** CdcApi.DisableTableAsync: blank schema, table or instance names are rejected, else sys.sp_cdc_disable_table runs. */
  method ApiDisableTable(db: Database, schema: Option<string>, sourceName: Option<string>, ci: Option<string>)
    returns (r: Result<Enums.int32, ExceptionType>)
    modifies db`procs, db`cdcEnabled
    ensures CheckNull(schema).Fail? || CheckNull(sourceName).Fail? || CheckNull(ci).Fail? ==>
      r == Failure(ArgumentNullException) && db.procs == old(db.procs)
    ensures CheckNull(schema).Pass? && CheckNull(sourceName).Pass? && CheckNull(ci).Pass? ==>
      var p := DisableTableProc(schema.value, sourceName.value, ci.value);
      r == Success(db.server.returnCodeOf(p)) && db.procs == old(db.procs) + [p]
    ensures db.cdcEnabled == old(db.cdcEnabled)
  {
    if CheckNull(schema).Fail? || CheckNull(sourceName).Fail? || CheckNull(ci).Fail? {
      return Failure(ArgumentNullException);
    }
    var code := db.Exec(DisableTableProc(schema.value, sourceName.value, ci.value));
    r := Success(code);
  }

  /**
   * EnableTableAsync: a blank schema is rejected first. Otherwise CDC is enabled on the database,
   * and the table is enabled under the chosen instance name unless HasTableCdcEnabled already
   * says so; the chosen name is returned.
   */
  method EnableTable(db: Database, sourceName: Option<string>, schema: Option<string>, ci: Option<string>,
                     net: bool, options: EnableTableOptions) returns (r: Result<string, ExceptionType>)
    modifies db`queries, db`procs, db`cdcEnabled, db`functions, db`catalog
    ensures CheckNull(schema).Fail? ==>
      r == Failure(ArgumentNullException) && db.procs == old(db.procs) && db.queries == old(db.queries)
      && db.functions == old(db.functions) && db.catalog == old(db.catalog) && db.cdcEnabled == old(db.cdcEnabled)
    ensures CheckNull(schema).Pass? ==>
      var name := ChosenInstance(schema.value, sourceName, ci, net);
      var objectName := schema.value + "." + Interpolated(sourceName);
      var already := TableCdcEnabled(db.server.instancesOf(objectName), Some(name));
      var enableDb: seq<Proc> := if old(db.cdcEnabled) then [] else [EnableDbProc];
      && db.cdcEnabled && db.functions == old(db.functions) + HelperNames
      && db.queries == old(db.queries) + [CdcEnabledQuery, InstancesQuery(objectName)]
      && (already ==> r == Success(name) && db.procs == old(db.procs) + enableDb)
      && (!already && CheckNull(sourceName).Fail? ==> r == Failure(ArgumentNullException) && db.procs == old(db.procs) + enableDb)
      && (!already && CheckNull(sourceName).Pass? ==>
            r == Success(name) && db.procs == old(db.procs) + enableDb + [EnableTableProc(schema.value, sourceName.value, name, net, options)])
  {
    var check := CheckNull(schema);
    if check.Fail? {
      return Failure(check.error);
    }
    var name := ChosenInstance(schema.value, sourceName, ci, net);
    var _ := EnableDb(db);
    var objectName := schema.value + "." + Interpolated(sourceName);
    assert objectName[|schema.value|] == '.';
    var already := HasTableCdcEnabled(db, Some(objectName), Some(name));
    if !already.value {
      var enabled := ApiEnableTable(db, schema, sourceName, name, net, options);
      if enabled.Failure? {
        return Failure(enabled.error);
      }
    }
    r := Success(name);
  }

  /**
   * DisableTableAsync: 0 when CDC is off for the database or HasTableCdcEnabled says the table is
   * not enabled for the instance; otherwise sys.sp_cdc_disable_table's return code. The table
   * check uses the bare source name, without the schema.
   */
  method DisableTable(db: Database, sourceName: Option<string>, ci: Option<string>, schema: Option<string>)
    returns (r: Result<Enums.int32, ExceptionType>)
    modifies db`queries, db`procs, db`cdcEnabled
    ensures db.cdcEnabled == old(db.cdcEnabled)
    ensures !old(db.cdcEnabled) ==> r == Success(0) && db.procs == old(db.procs) && db.queries == old(db.queries) + [CdcEnabledQuery]
    ensures old(db.cdcEnabled) && CheckNull(sourceName).Fail? ==>
      r == Failure(ArgumentNullException) && db.procs == old(db.procs) && db.queries == old(db.queries) + [CdcEnabledQuery]
    ensures old(db.cdcEnabled) && CheckNull(sourceName).Pass? ==>
      var enabled := TableCdcEnabled(db.server.instancesOf(sourceName.value), ci);
      && db.queries == old(db.queries) + [CdcEnabledQuery, InstancesQuery(sourceName.value)]
      && (!enabled ==> r == Success(0) && db.procs == old(db.procs))
      && (enabled && (CheckNull(schema).Fail? || CheckNull(ci).Fail?) ==> r == Failure(ArgumentNullException) && db.procs == old(db.procs))
      && (enabled && CheckNull(schema).Pass? && CheckNull(ci).Pass? ==>
            var p := DisableTableProc(schema.value, sourceName.value, ci.value);
            r == Success(db.server.returnCodeOf(p)) && db.procs == old(db.procs) + [p])
  {
    var dbEnabled := HasDbCdcEnabled(db);
    if !dbEnabled {
      return Success(0);
    }
    var tableEnabled := HasTableCdcEnabled(db, sourceName, ci);
    if tableEnabled.Failure? {
      return Failure(tableEnabled.error);
    }
    if !tableEnabled.value {
      return Success(0);
    }
    r := ApiDisableTable(db, schema, sourceName, ci);
  }

  /**
   * A blank instance name asks to disable every instance, yet CdcApi rejects it: on a table with
   * capture instances, DisableTableAsync with a null instance ends in ArgumentNullException.
   */
  lemma BlankInstanceDisablesNothing(instances: seq<string>, ci: Option<string>)
    requires |instances| > 0 && CheckNull(ci).Fail?
    ensures TableCdcEnabled(instances, ci)
    ensures IsForAllInstances(ci)
  {
  }

  // ---------------------------------------------------------------- column lookups

  /**
   * GetChangedColumnsAsync: a blank instance is rejected; a null, empty or all-zero mask gives no
   * columns without touching the server; otherwise the two functions are installed if missing and
   * dbo.fn_cdc_GetChangedColumns is queried.
   */
  method GetChangedColumns(db: Database, ci: Option<string>, mask: Option<ByteArray>) returns (r: Result<seq<string>, ExceptionType>)
    modifies db`functions, db`catalog, db`queries
    ensures CheckNull(ci).Fail? ==> r == Failure(ArgumentNullException)
    ensures CheckNull(ci).Fail? || IsNullEmptyOrZero(mask) ==>
      db.functions == old(db.functions) && db.catalog == old(db.catalog) && db.queries == old(db.queries)
    ensures CheckNull(ci).Pass? && IsNullEmptyOrZero(mask) ==> r == Success([])
    ensures CheckNull(ci).Pass? && !IsNullEmptyOrZero(mask) ==>
      && r == Success(ChangedColumnsFn(db.server.capturedColumnsOf(ci.value), Some(db.server.maskValue(mask.value.bytes))))
      && db.functions == old(db.functions) + {Consts.FnGetBit1FromHex, Consts.FnGetChangedColumns}
      && db.catalog == old(db.catalog) + CreateSteps(Bit1FromHex, old(db.functions)) + CreateSteps(ChangedColumns, old(db.functions))
      && db.queries == old(db.queries) + [ChangedColumnsQuery(ci.value, mask.value)]
  {
    var check := CheckNull(ci);
    if check.Fail? {
      return Failure(check.error);
    }
    if IsNullEmptyOrZero(mask) {
      return Success([]);
    }
    Consts.HelperNamesDistinct();
    CreateFn(db, Bit1FromHex);
    CreateFn(db, ChangedColumns);
    // The reader always yields a list, so the `?? []` fallback never applies.
    var names := db.ChangedColumns(ci.value, mask.value);
    r := Success(names);
  }

  /** GetBinaryColumnsAsync: a blank instance is rejected; otherwise the function is installed if missing and queried. */
  method GetBinaryColumns(db: Database, ci: Option<string>) returns (r: Result<seq<string>, ExceptionType>)
    modifies db`functions, db`catalog, db`queries
    ensures CheckNull(ci).Fail? ==>
      r == Failure(ArgumentNullException) && db.functions == old(db.functions) && db.catalog == old(db.catalog) && db.queries == old(db.queries)
    ensures CheckNull(ci).Pass? ==>
      && r == Success(BinaryColumnsFn(db.server.capturedColumnsOf(ci.value)))
      && db.functions == old(db.functions) + {Consts.FnGetBinaryColumns}
      && db.catalog == old(db.catalog) + CreateSteps(BinaryColumns, old(db.functions))
      && db.queries == old(db.queries) + [BinaryColumnsQuery(ci.value)]
  {
    var check := CheckNull(ci);
    if check.Fail? {
      return Failure(check.error);
    }
    CreateFn(db, BinaryColumns);
    var names := db.BinaryColumns(ci.value);
    r := Success(names);
  }

  // ---------------------------------------------------------------- listings

  /** Some element of d equals x ignoring case. */
  function ContainsIgnoreCase(d: seq<string>, x: string): (b: bool)
    ensures b <==> exists j :: 0 <= j < |d| && EqualsIgnoreCase(d[j], x)
  {
    if |d| == 0 then false
    else
      assert forall j :: 1 <= j < |d| ==> d[j] == d[1..][j - 1];
      EqualsIgnoreCase(d[0], x) || ContainsIgnoreCase(d[1..], x)
  }

  /** Enumerable.Distinct(StringComparer.OrdinalIgnoreCase): in order, keeping the first spelling met. */
  function DistinctIgnoreCase(s: seq<string>): seq<string>
    decreases |s|
  {
    if |s| == 0 then []
    else
      var d := DistinctIgnoreCase(s[..|s| - 1]);
      if ContainsIgnoreCase(d, s[|s| - 1]) then d else d + [s[|s| - 1]]
  }

  /** x occurs in s, and nothing before that occurrence equals it ignoring case. */
  ghost predicate FirstOfItsKind(s: seq<string>, x: string) {
    exists i :: 0 <= i < |s| && s[i] == x && forall j :: 0 <= j < i ==> !EqualsIgnoreCase(s[j], x)
  }

  /** Every input name is represented in the case-insensitive Distinct. */
  lemma {:induction false} DistinctIgnoreCaseCovers(s: seq<string>)
    ensures forall i :: 0 <= i < |s| ==> ContainsIgnoreCase(DistinctIgnoreCase(s), s[i])
    decreases |s|
  {
    if |s| > 0 {
      var n := |s| - 1;
      var p := s[..n];
      var d := DistinctIgnoreCase(p);
      var r := DistinctIgnoreCase(s);
      DistinctIgnoreCaseCovers(p);
      forall i | 0 <= i < |s| ensures ContainsIgnoreCase(r, s[i]) {
        if i < n {
          assert p[i] == s[i];
          var m :| 0 <= m < |d| && EqualsIgnoreCase(d[m], p[i]);
          assert r[m] == d[m];
        } else if !ContainsIgnoreCase(d, s[n]) {
          assert r[|d|] == s[n];
        }
      }
    }
  }

  /** No two names of the case-insensitive Distinct are equal ignoring case. */
  lemma {:induction false} DistinctIgnoreCasePairwise(s: seq<string>)
    ensures forall a, b :: 0 <= a < b < |DistinctIgnoreCase(s)| ==>
      !EqualsIgnoreCase(DistinctIgnoreCase(s)[a], DistinctIgnoreCase(s)[b])
    decreases |s|
  {
    if |s| > 0 {
      var n := |s| - 1;
      var d := DistinctIgnoreCase(s[..n]);
      DistinctIgnoreCasePairwise(s[..n]);
      assert forall a, b :: 0 <= a < b < |d| ==> !EqualsIgnoreCase(d[a], d[b]);
      if !ContainsIgnoreCase(d, s[n]) {
        var r := d + [s[n]];
        assert r == DistinctIgnoreCase(s);
        forall a, b | 0 <= a < b < |r| ensures !EqualsIgnoreCase(r[a], r[b]) {
          assert r[a] == d[a];
          if b == |d| {
            assert r[b] == s[n];
            assert !EqualsIgnoreCase(d[a], s[n]);
          } else {
            assert r[b] == d[b];
          }
        }
      } else {
        assert d == DistinctIgnoreCase(s);
      }
    }
  }

  /** A name the Distinct of the prefix does not contain differs from every earlier name. */
  lemma NewNameIsFirst(s: seq<string>)
    requires |s| > 0 && !ContainsIgnoreCase(DistinctIgnoreCase(s[..|s| - 1]), s[|s| - 1])
    ensures FirstOfItsKind(s, s[|s| - 1])
  {
    var n := |s| - 1;
    var p := s[..n];
    var d := DistinctIgnoreCase(p);
    DistinctIgnoreCaseCovers(p);
    forall j | 0 <= j < n ensures !EqualsIgnoreCase(s[j], s[n]) {
      assert p[j] == s[j];
      assert ContainsIgnoreCase(d, p[j]);
    }
  }

  /** A first occurrence in a prefix stays one in the whole. */
  lemma FirstOfItsKindPrefix(s: seq<string>, n: nat, x: string)
    requires n <= |s| && FirstOfItsKind(s[..n], x)
    ensures FirstOfItsKind(s, x)
  {
    var p := s[..n];
    var i :| 0 <= i < |p| && p[i] == x && forall j :: 0 <= j < i ==> !EqualsIgnoreCase(p[j], x);
    assert s[i] == x;
    assert forall j :: 0 <= j < i ==> s[j] == p[j];
  }

  /** Each name of the case-insensitive Distinct is spelled as at its first occurrence in the input. */
  lemma {:induction false} DistinctIgnoreCaseFirst(s: seq<string>)
    ensures forall k :: 0 <= k < |DistinctIgnoreCase(s)| ==> FirstOfItsKind(s, DistinctIgnoreCase(s)[k])
    decreases |s|
  {
    if |s| > 0 {
      var n := |s| - 1;
      var p := s[..n];
      var d := DistinctIgnoreCase(p);
      DistinctIgnoreCaseFirst(p);
      forall k | 0 <= k < |d| ensures FirstOfItsKind(s, d[k]) {
        FirstOfItsKindPrefix(s, n, d[k]);
      }
      if !ContainsIgnoreCase(d, s[n]) {
        NewNameIsFirst(s);
        var r := d + [s[n]];
        assert forall k :: 0 <= k < |d| ==> r[k] == d[k];
        assert r[|d|] == s[n];
      }
    }
  }

  /**
   * The result of the case-insensitive Distinct has no two names equal ignoring case, keeps each
   * name in the spelling of its first occurrence, and represents every input name.
   */
  lemma DistinctIgnoreCaseMeaning(s: seq<string>)
    ensures var r := DistinctIgnoreCase(s);
      && (forall a, b :: 0 <= a < b < |r| ==> !EqualsIgnoreCase(r[a], r[b]))
      && (forall k :: 0 <= k < |r| ==> FirstOfItsKind(s, r[k]))
      && (forall i :: 0 <= i < |s| ==> ContainsIgnoreCase(r, s[i]))
  {
    DistinctIgnoreCaseCovers(s);
    DistinctIgnoreCasePairwise(s);
    DistinctIgnoreCaseFirst(s);
  }

  /**
   * GetSourceNamesAsync: the source names of the capture instances (of one instance when a
   * non-blank name is given), deduplicated ignoring case.
   */
  method GetSourceNames(db: Database, ci: Option<string>) returns (names: seq<string>)
    modifies db`queries
    ensures var filter := if CheckNull(ci).Fail? then None else ci;
      names == DistinctIgnoreCase(db.server.sourceNamesOf(filter)) && db.queries == old(db.queries) + [SourceNamesQuery(filter)]
  {
    var filter := if IsNullOrWhiteSpace(ci) then None else ci;
    var listed := db.SourceNames(filter);
    names := DistinctIgnoreCase(listed);
  }

  function SourceNamesOf(rows: seq<ChangeTable>): (r: seq<string>)
    ensures |r| == |rows| && forall i :: 0 <= i < |rows| ==> r[i] == rows[i].sourceName
  {
    seq(|rows|, i requires 0 <= i < |rows| => rows[i].sourceName)
  }

  /** The rows whose source name equals k ignoring case, in order. */
  function RowsOf(rows: seq<ChangeTable>, k: string): seq<ChangeTable>
    decreases |rows|
  {
    if |rows| == 0 then []
    else RowsOf(rows[..|rows| - 1], k) + if EqualsIgnoreCase(rows[|rows| - 1].sourceName, k) then [rows[|rows| - 1]] else []
  }

  /** The group a lookup of k should find: the rows named k ignoring case, if there are any. */
  function Grouped(rows: seq<ChangeTable>, k: string): Option<seq<ChangeTable>> {
    if ContainsIgnoreCase(SourceNamesOf(rows), k) then Some(RowsOf(rows, k)) else None
  }

  /**
   * GroupBy(SourceName, OrdinalIgnoreCase).ToDictionary(key, group array, OrdinalIgnoreCase):
   * each row is appended to the group of its source name, a new group starting where a name is met first.
   */
  function GroupBySource(rows: seq<ChangeTable>): CiMap<seq<ChangeTable>>
    decreases |rows|
  {
    if |rows| == 0 then []
    else
      var g := GroupBySource(rows[..|rows| - 1]);
      var row := rows[|rows| - 1];
      Set(g, row.sourceName, GetOrDefault(g, row.sourceName, []) + [row])
  }

  /** A key is found exactly when its list of keys contains it. */
  lemma KeysContain<V>(m: CiMap<V>, k: string)
    ensures ContainsIgnoreCase(Keys(m), k) <==> IndexOf(m, k).Some?
  {
    if ContainsIgnoreCase(Keys(m), k) {
      var j :| 0 <= j < |Keys(m)| && EqualsIgnoreCase(Keys(m)[j], k);
      assert EqualsIgnoreCase(m[j].key, k);
    }
    if IndexOf(m, k).Some? {
      assert Keys(m)[IndexOf(m, k).value] == m[IndexOf(m, k).value].key;
    }
  }

  lemma ContainsSnoc(d: seq<string>, x: string, k: string)
    ensures ContainsIgnoreCase(d + [x], k) <==> ContainsIgnoreCase(d, k) || EqualsIgnoreCase(x, k)
  {
    var e := d + [x];
    assert e[|d|] == x;
    if ContainsIgnoreCase(d, k) {
      var j :| 0 <= j < |d| && EqualsIgnoreCase(d[j], k);
      assert e[j] == d[j];
    }
    if ContainsIgnoreCase(e, k) && !EqualsIgnoreCase(x, k) {
      var j :| 0 <= j < |e| && EqualsIgnoreCase(e[j], k);
      assert j < |d| && e[j] == d[j];
    }
  }

  /** What appending one row does to the expected group of k. */
  lemma GroupedSnoc(p: seq<ChangeTable>, row: ChangeTable, k: string)
    ensures Grouped(p + [row], k) ==
      if EqualsIgnoreCase(row.sourceName, k) then Some(RowsOf(p, k) + [row]) else Grouped(p, k)
  {
    var rows := p + [row];
    assert rows[..|rows| - 1] == p && rows[|rows| - 1] == row;
    assert RowsOf(rows, k) == RowsOf(p, k) + if EqualsIgnoreCase(row.sourceName, k) then [row] else [];
    assert SourceNamesOf(rows) == SourceNamesOf(p) + [row.sourceName];
    ContainsSnoc(SourceNamesOf(p), row.sourceName, k);
    if !ContainsIgnoreCase(SourceNamesOf(p), k) {
      RowsOfNone(p, k);
    }
    if EqualsIgnoreCase(row.sourceName, k) {
      assert ContainsIgnoreCase(SourceNamesOf(rows), k);
      assert Grouped(rows, k) == Some(RowsOf(p, k) + [row]);
    } else {
      assert RowsOf(rows, k) == RowsOf(p, k);
      assert Grouped(rows, k) == Grouped(p, k);
    }
  }

  /** A lookup in the grouping finds exactly the rows of the looked-up name. */
  lemma {:induction false} GroupBySourceGet(rows: seq<ChangeTable>, k: string)
    ensures Get(GroupBySource(rows), k) == Grouped(rows, k)
    decreases |rows|
  {
    if |rows| > 0 {
      var n := |rows| - 1;
      var p := rows[..n];
      assert rows == p + [rows[n]];
      var g := GroupBySource(p);
      var key := rows[n].sourceName;
      GroupBySourceGet(p, k);
      GroupedSnoc(p, rows[n], k);
      if EqualsIgnoreCase(key, k) {
        var v := GetOrDefault(g, key, []) + [rows[n]];
        IndexOfIgnoresCase(g, key, k);
        IndexOfIgnoresCase(Set(g, key, v), key, k);
        if Grouped(p, k).None? {
          RowsOfNone(p, k);
        }
      }
    }
  }

  /** The indexer keeps the key list, or appends a key it does not find. */
  lemma KeysAfterSet<V>(m: CiMap<V>, k: string, v: V)
    ensures Keys(Set(m, k, v)) == if ContainsIgnoreCase(Keys(m), k) then Keys(m) else Keys(m) + [k]
  {
    KeysContain(m, k);
    if IndexOf(m, k).None? {
      assert Keys(m + [Entry(k, v)]) == Keys(m) + [k];
    }
  }

  lemma DistinctSnoc(s: seq<string>, x: string)
    ensures DistinctIgnoreCase(s + [x]) ==
      if ContainsIgnoreCase(DistinctIgnoreCase(s), x) then DistinctIgnoreCase(s) else DistinctIgnoreCase(s) + [x]
  {
    assert (s + [x])[..|s|] == s;
  }

  lemma SourceNamesSnoc(p: seq<ChangeTable>, row: ChangeTable)
    ensures SourceNamesOf(p + [row]) == SourceNamesOf(p) + [row.sourceName]
  {
  }

  lemma GroupBySourceKeysSnoc(p: seq<ChangeTable>, row: ChangeTable)
    ensures Keys(GroupBySource(p + [row])) ==
      if ContainsIgnoreCase(Keys(GroupBySource(p)), row.sourceName) then Keys(GroupBySource(p))
      else Keys(GroupBySource(p)) + [row.sourceName]
  {
    var g := GroupBySource(p);
    assert (p + [row])[..|p|] == p;
    KeysAfterSet(g, row.sourceName, GetOrDefault(g, row.sourceName, []) + [row]);
  }

  /** The keys of the grouping are the distinct source names. */
  lemma {:induction false} GroupBySourceKeys(rows: seq<ChangeTable>)
    ensures Keys(GroupBySource(rows)) == DistinctIgnoreCase(SourceNamesOf(rows))
    decreases |rows|
  {
    if |rows| > 0 {
      var n := |rows| - 1;
      var p := rows[..n];
      assert rows == p + [rows[n]];
      GroupBySourceKeys(p);
      GroupBySourceKeysSnoc(p, rows[n]);
      SourceNamesSnoc(p, rows[n]);
      DistinctSnoc(SourceNamesOf(p), rows[n].sourceName);
    }
  }

  /** No two keys of the grouping are equal ignoring case. */
  lemma {:induction false} GroupBySourceUnique(rows: seq<ChangeTable>)
    ensures UniqueKeys(GroupBySource(rows))
    decreases |rows|
  {
    if |rows| > 0 {
      GroupBySourceUnique(rows[..|rows| - 1]);
    }
  }

  /**
   * The grouping has one key per source name ignoring case, spelled and ordered like the names'
   * first occurrences, and each name's group holds exactly its rows, in row order.
   */
  lemma GroupBySourceMeaning(rows: seq<ChangeTable>)
    ensures UniqueKeys(GroupBySource(rows))
    ensures Keys(GroupBySource(rows)) == DistinctIgnoreCase(SourceNamesOf(rows))
    ensures forall k :: Get(GroupBySource(rows), k) == Grouped(rows, k)
  {
    GroupBySourceKeys(rows);
    GroupBySourceUnique(rows);
    forall k ensures Get(GroupBySource(rows), k) == Grouped(rows, k) {
      GroupBySourceGet(rows, k);
    }
  }

  lemma {:induction false} RowsOfNone(rows: seq<ChangeTable>, k: string)
    requires !ContainsIgnoreCase(SourceNamesOf(rows), k)
    ensures RowsOf(rows, k) == []
    decreases |rows|
  {
    if |rows| > 0 {
      var n := |rows| - 1;
      assert SourceNamesOf(rows[..n]) == SourceNamesOf(rows)[..n];
      assert SourceNamesOf(rows)[n] == rows[n].sourceName;
      RowsOfNone(rows[..n], k);
    }
  }

  /**
   * GetCaptureInstancesAsync: the listing grouped by source name ignoring case. A non-blank source
   * name adds the `t.name` filter, which the server rejects, so only the unfiltered call succeeds.
   */
  method GetCaptureInstances(db: Database, sourceName: Option<string>) returns (r: Result<CiMap<seq<ChangeTable>>, ExceptionType>)
    modifies db`queries
    ensures var filter := if CheckNull(sourceName).Fail? then None else sourceName;
      db.queries == old(db.queries) + [CaptureTablesQuery(filter)]
    ensures CheckNull(sourceName).Fail? ==> r == Success(GroupBySource(db.server.captureTables))
    ensures CheckNull(sourceName).Pass? ==> r == Failure(SqlException)
  {
    var filter := if IsNullOrWhiteSpace(sourceName) then None else sourceName;
    var listed := db.CaptureTables(filter);
    if listed.Failure? {
      return Failure(listed.error);
    }
    r := Success(GroupBySource(listed.value));
  }
}
