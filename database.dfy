/**
 * The SQL Server database behind the connection, as the core sees it. What the server answers is
 * fixed by the oracle functions in `server` (catalog contents, LSNs, change rows, the CAST of a
 * mask to BIGINT, stored-procedure return codes). The state the core changes or observes is kept
 * in fields: the helper functions present in dbo, whether CDC is enabled, and one log per kind of
 * statement. Every byte[] the reader hands out is a fresh object; `heap` records its contents.
 */
module Db {
  import opened Wrappers
  import opened Strings
  import opened CiMaps
  import opened Exceptions
  import opened Extensions
  import opened SqlFunctions
  import Enums
  import Consts

  /** A column value as the server sends it, before SqlDataReader.GetValue boxes it. */
  datatype RawValue = SqlNull | Binary(bytes: seq<byte>) | SqlInt(n: Enums.int32) | SqlBit(b: bool) | SqlDateTime(ticks: int) | SqlText(s: string) | SqlOther(tag: nat)

  datatype RawField = RawField(name: string, value: RawValue)

  type RawRow = seq<RawField>

  /** The arguments of cdc.fn_cdc_get_<kind>_changes_<captureInstance>(@from_lsn, @to_lsn, @row_filter_option). */
  datatype ChangesArgs = ChangesArgs(kind: string, captureInstance: string, fromLsn: seq<byte>, toLsn: seq<byte>, rowFilterOption: string)

  /** A row of the capture-instance listing: source table name, capture instance, supports_net_changes. */
  datatype ChangeTable = ChangeTable(sourceName: string, captureInstance: string, supportsNetChanges: bool)

  /** The optional arguments EnableTableAsync passes through to sys.sp_cdc_enable_table unchanged. */
  datatype EnableTableOptions = EnableTableOptions(roleName: Option<string>, indexName: Option<string>,
    capturedColumnList: Option<string>, fileGroupName: Option<string>, allowPartitionSwitch: bool)

  /** The stored procedures the core executes. */
  datatype Proc =
    | EnableDbProc
    | DisableDbProc
    | EnableTableProc(schema: string, name: string, captureInstance: string, supportsNetChanges: bool, options: EnableTableOptions)
    | DisableTableProc(schema: string, name: string, captureInstance: string)

  /** What the server answers. */
  datatype Server = Server(
    instancesOf: string -> seq<string>,
    minLsnOf: string -> Option<seq<byte>>,
    maxLsnAt: nat -> Option<seq<byte>>,
    changesIn: ChangesArgs -> seq<RawRow>,
    capturedColumnsOf: string -> seq<CapturedColumn>,
    maskValue: seq<byte> -> bigint,
    sourceNamesOf: Option<string> -> seq<string>,
    captureTables: seq<ChangeTable>,
    returnCodeOf: Proc -> Enums.int32)

  /** OBJECT_ID lookups of the helper functions, and their creation and removal. */
  datatype CatalogStep = Lookup(name: string, found: bool) | Created(name: string) | Dropped(name: string)

  /** Read-only queries. */
  datatype Query =
    | CdcEnabledQuery
    | InstancesQuery(objectName: string)
    | MinLsnQuery(captureInstance: string)
    | MaxLsnQuery
    | ChangedColumnsQuery(captureInstance: string, mask: ByteArray)
    | BinaryColumnsQuery(captureInstance: string)
    | SourceNamesQuery(instanceFilter: Option<string>)
    | CaptureTablesQuery(sourceFilter: Option<string>)

  /** A change query and the rows it produced (or the exception the conversion raised). */
  datatype Fetch = Fetch(args: ChangesArgs, rows: Result<seq<CiMap<Value>>, ExceptionType>)

  /** The object GetValue returns for a raw value, once DBNull is normalised to null. */
  predicate Boxes(raw: RawValue, o: Value) {
    match raw
    case SqlNull => o == Null
    case Binary(b) => o.Bytes? && o.obj.bytes == b
    case SqlInt(n) => o == Int(n)
    case SqlBit(b) => o == Bool(b)
    case SqlDateTime(t) => o == Time(t)
    case SqlText(s) => o == Text(s)
    case SqlOther(tag) => o == Other(tag)
  }

  /** The field names of a raw row are distinct ignoring case. */
  ghost predicate DistinctRawNames(row: RawRow) {
    forall i, j :: 0 <= i < j < |row| ==> !EqualsIgnoreCase(row[i].name, row[j].name)
  }

  class Database {
    const server: Server
    var functions: set<string>
    var cdcEnabled: bool
    var catalog: seq<CatalogStep>
    var procs: seq<Proc>
    var queries: seq<Query>
    var fetches: seq<Fetch>
    var maxLsnReads: nat
    var nextRef: nat
    ghost var heap: map<nat, seq<byte>>

    ghost predicate Valid()
      reads this
    {
      forall r :: r in heap ==> r < nextRef
    }

    /** `a` is a byte[] this connection handed out, with the contents it was created with. */
    ghost predicate Owns(a: ByteArray)
      reads this
    {
      a.ref in heap && heap[a.ref] == a.bytes
    }

    ghost predicate OwnsValue(o: Value)
      reads this
    {
      o.Bytes? ==> Owns(o.obj)
    }

    /** Objects handed out earlier keep their contents. */
    twostate predicate HeapExtends()
      reads this
    {
      forall r :: r in old(heap) ==> r in heap && heap[r] == old(heap)[r]
    }

    /** The maps `rows` are the raw rows read as objects: one entry per field, DBNull read as null. */
    ghost predicate Materialises(raw: seq<RawRow>, rows: seq<CiMap<Value>>)
      reads this
    {
      |rows| == |raw|
      && forall i :: 0 <= i < |raw| ==>
        |rows[i]| == |raw[i]| && UniqueKeys(rows[i])
        && forall j :: 0 <= j < |raw[i]| ==>
          rows[i][j].key == raw[i][j].name && Boxes(raw[i][j].value, rows[i][j].value) && OwnsValue(rows[i][j].value)
    }

    constructor (server: Server, functions: set<string>, cdcEnabled: bool)
      ensures Valid()
      ensures this.server == server && this.functions == functions && this.cdcEnabled == cdcEnabled
      ensures catalog == [] && procs == [] && queries == [] && fetches == [] && maxLsnReads == 0
    {
      this.server := server;
      this.functions := functions;
      this.cdcEnabled := cdcEnabled;
      catalog, procs, queries, fetches := [], [], [], [];
      maxLsnReads, nextRef := 0, 0;
      heap := map[];
    }

    /** A new byte[] object with the given contents. */
    method NewArray(bytes: seq<byte>) returns (a: ByteArray)
      requires Valid()
      modifies this`nextRef, this`heap
      ensures Valid() && HeapExtends()
      ensures a.bytes == bytes && Owns(a) && a.ref !in old(heap)
    {
      a := ByteArray(nextRef, bytes);
      heap := heap[nextRef := bytes];
      nextRef := nextRef + 1;
    }

    /** SqlDataReader.GetValue followed by AsNullable. */
    method GetValueNullable(raw: RawValue) returns (o: Value)
      requires Valid()
      modifies this`nextRef, this`heap
      ensures Valid() && HeapExtends()
      ensures Boxes(raw, o) && OwnsValue(o)
    {
      var boxed: Value;
      match raw {
        case SqlNull => boxed := DbNull;
        case Binary(b) => var a := NewArray(b); boxed := Bytes(a);
        case SqlInt(n) => boxed := Int(n);
        case SqlBit(b) => boxed := Bool(b);
        case SqlDateTime(t) => boxed := Time(t);
        case SqlText(s) => boxed := Text(s);
        case SqlOther(tag) => boxed := Other(tag);
      }
      o := AsNullable(boxed);
    }

    /** The reader's rows as records of boxed objects (DBNull for SQL NULL, a fresh byte[] per binary value). */
    method ReadRecords(raw: seq<RawRow>) returns (records: seq<Record>)
      requires Valid()
      modifies this`nextRef, this`heap
      ensures Valid() && HeapExtends()
      ensures |records| == |raw|
      ensures forall i :: 0 <= i < |raw| ==> |records[i]| == |raw[i]| && forall j :: 0 <= j < |raw[i]| ==>
        records[i][j].name == raw[i][j].name && Boxes(raw[i][j].value, AsNullable(records[i][j].value))
        && OwnsValue(records[i][j].value)
    {
      records := [];
      var n := 0;
      while n < |raw|
        invariant 0 <= n <= |raw| && |records| == n
        invariant Valid() && HeapExtends()
        invariant forall i :: 0 <= i < n ==> |records[i]| == |raw[i]| && forall j :: 0 <= j < |raw[i]| ==>
          records[i][j].name == raw[i][j].name && Boxes(raw[i][j].value, AsNullable(records[i][j].value))
          && OwnsValue(records[i][j].value)
      {
        var record: Record := [];
        var k := 0;
        while k < |raw[n]|
          invariant 0 <= k <= |raw[n]| && |record| == k
          invariant Valid() && HeapExtends()
          invariant forall i :: 0 <= i < n ==> forall j :: 0 <= j < |raw[i]| ==> OwnsValue(records[i][j].value)
          invariant forall j :: 0 <= j < k ==>
            record[j].name == raw[n][j].name && Boxes(raw[n][j].value, AsNullable(record[j].value)) && OwnsValue(record[j].value)
        {
          var o := GetValueNullable(raw[n][k].value);
          record := record + [Field(raw[n][k].name, o)];
          k := k + 1;
        }
        records := records + [record];
        n := n + 1;
      }
    }

    /** OBJECT_ID(@object_name, @object_type) IS NOT NULL for one of the helper functions. */
    method ObjectExists(name: string) returns (found: bool)
      modifies this`catalog
      ensures found == (name in functions)
      ensures catalog == old(catalog) + [Lookup(name, found)]
    {
      found := name in functions;
      catalog := catalog + [Lookup(name, found)];
    }

    /** CREATE FUNCTION: an error if the name is taken. */
    method CreateFunction(name: string) returns (r: Outcome<ExceptionType>)
      modifies this`functions, this`catalog
      ensures r.Pass? <==> name !in old(functions)
      ensures r.Fail? ==> r.error == SqlException && functions == old(functions) && catalog == old(catalog)
      ensures r.Pass? ==> functions == old(functions) + {name} && catalog == old(catalog) + [Created(name)]
    {
      if name in functions {
        return Fail(SqlException);
      }
      functions := functions + {name};
      catalog := catalog + [Created(name)];
      r := Pass;
    }

    /** DROP FUNCTION: an error if there is no such function. */
    method DropFunction(name: string) returns (r: Outcome<ExceptionType>)
      modifies this`functions, this`catalog
      ensures r.Pass? <==> name in old(functions)
      ensures r.Fail? ==> r.error == SqlException && functions == old(functions) && catalog == old(catalog)
      ensures r.Pass? ==> functions == old(functions) - {name} && catalog == old(catalog) + [Dropped(name)]
    {
      if name !in functions {
        return Fail(SqlException);
      }
      functions := functions - {name};
      catalog := catalog + [Dropped(name)];
      r := Pass;
    }

    /** SELECT is_cdc_enabled FROM sys.databases WHERE database_id = DB_ID(). */
    method IsCdcEnabled() returns (enabled: Option<bool>)
      modifies this`queries
      ensures enabled == Some(cdcEnabled)
      ensures queries == old(queries) + [CdcEnabledQuery]
    {
      enabled := Some(cdcEnabled);
      queries := queries + [CdcEnabledQuery];
    }

    /** The capture instances of the table OBJECT_ID(@object_name, 'U'). */
    method Instances(objectName: string) returns (instances: seq<string>)
      modifies this`queries
      ensures instances == server.instancesOf(objectName)
      ensures queries == old(queries) + [InstancesQuery(objectName)]
    {
      instances := server.instancesOf(objectName);
      queries := queries + [InstancesQuery(objectName)];
    }

    /** A stored procedure with its @ReturnValue; enabling and disabling CDC on the database change that flag. */
    method Exec(p: Proc) returns (code: Enums.int32)
      modifies this`procs, this`cdcEnabled
      ensures code == server.returnCodeOf(p)
      ensures procs == old(procs) + [p]
      ensures cdcEnabled == (if p.EnableDbProc? then true else if p.DisableDbProc? then false else old(cdcEnabled))
    {
      code := server.returnCodeOf(p);
      procs := procs + [p];
      if p.EnableDbProc? {
        cdcEnabled := true;
      } else if p.DisableDbProc? {
        cdcEnabled := false;
      }
    }

    /** sys.fn_cdc_get_min_lsn(@capture_instance). */
    method MinLsn(ci: string) returns (lsn: Option<ByteArray>)
      requires Valid()
      modifies this`queries, this`nextRef, this`heap
      ensures Valid() && HeapExtends()
      ensures queries == old(queries) + [MinLsnQuery(ci)]
      ensures lsn.None? <==> server.minLsnOf(ci).None?
      ensures lsn.Some? ==> lsn.value.bytes == server.minLsnOf(ci).value && Owns(lsn.value)
    {
      queries := queries + [MinLsnQuery(ci)];
      lsn := None;
      if server.minLsnOf(ci).Some? {
        var a := NewArray(server.minLsnOf(ci).value);
        lsn := Some(a);
      }
    }

    /** sys.fn_cdc_get_max_lsn(): its value may move between two reads. */
    method MaxLsn() returns (lsn: Option<ByteArray>)
      requires Valid()
      modifies this`queries, this`maxLsnReads, this`nextRef, this`heap
      ensures Valid() && HeapExtends()
      ensures queries == old(queries) + [MaxLsnQuery] && maxLsnReads == old(maxLsnReads) + 1
      ensures lsn.None? <==> server.maxLsnAt(old(maxLsnReads)).None?
      ensures lsn.Some? ==> lsn.value.bytes == server.maxLsnAt(old(maxLsnReads)).value && Owns(lsn.value)
    {
      queries := queries + [MaxLsnQuery];
      lsn := None;
      var answer := server.maxLsnAt(maxLsnReads);
      maxLsnReads := maxLsnReads + 1;
      if answer.Some? {
        var a := NewArray(answer.value);
        lsn := Some(a);
      }
    }

    /**
     * CdcApi.GetChangesAsync: the change rows read with ToDictionaryListAsync. Its argument
     * checks (a non-blank instance, non-null LSNs and filter) are this method's precondition.
     */
    method Changes(args: ChangesArgs) returns (rows: Result<seq<CiMap<Value>>, ExceptionType>)
      requires Valid() && CheckNull(Some(args.captureInstance)).Pass?
      modifies this`fetches, this`nextRef, this`heap
      ensures Valid() && HeapExtends()
      ensures fetches == old(fetches) + [Fetch(args, rows)]
      ensures rows.Success? <==> forall i :: 0 <= i < |server.changesIn(args)| ==> DistinctRawNames(server.changesIn(args)[i])
      ensures rows.Failure? ==> rows.error == ArgumentException
      ensures rows.Success? ==> Materialises(server.changesIn(args), rows.value)
    {
      var raw := server.changesIn(args);
      var records := ReadRecords(raw);
      rows := ToDictionaryList(records);
      forall i | 0 <= i < |raw| ensures DistinctNames(records[i]) <==> DistinctRawNames(raw[i]) {
        assert forall j :: 0 <= j < |raw[i]| ==> records[i][j].name == raw[i][j].name;
      }
      if rows.Success? {
        forall i | 0 <= i < |raw|
          ensures |rows.value[i]| == |raw[i]| && UniqueKeys(rows.value[i])
          ensures forall j :: 0 <= j < |raw[i]| ==>
            rows.value[i][j].key == raw[i][j].name && Boxes(raw[i][j].value, rows.value[i][j].value) && OwnsValue(rows.value[i][j].value)
        {
          RowMapMeaning(records[i]);
        }
      }
      fetches := fetches + [Fetch(args, rows)];
    }

    /** SELECT * FROM dbo.fn_cdc_GetChangedColumns(@CaptureInstance, @UpdateMask); both functions must exist. */
    method ChangedColumns(ci: string, mask: ByteArray) returns (names: seq<string>)
      requires Consts.FnGetBit1FromHex in functions && Consts.FnGetChangedColumns in functions
      modifies this`queries
      ensures names == ChangedColumnsFn(server.capturedColumnsOf(ci), Some(server.maskValue(mask.bytes)))
      ensures queries == old(queries) + [ChangedColumnsQuery(ci, mask)]
    {
      names := ChangedColumnsFn(server.capturedColumnsOf(ci), Some(server.maskValue(mask.bytes)));
      queries := queries + [ChangedColumnsQuery(ci, mask)];
    }

    /** SELECT * FROM dbo.fn_cdc_GetBinaryColumns(@CaptureInstance); the function must exist. */
    method BinaryColumns(ci: string) returns (names: seq<string>)
      requires Consts.FnGetBinaryColumns in functions
      modifies this`queries
      ensures names == BinaryColumnsFn(server.capturedColumnsOf(ci))
      ensures queries == old(queries) + [BinaryColumnsQuery(ci)]
    {
      names := BinaryColumnsFn(server.capturedColumnsOf(ci));
      queries := queries + [BinaryColumnsQuery(ci)];
    }

    /** The names of the source tables with a capture instance (filtered by instance when one is given). */
    method SourceNames(ci: Option<string>) returns (names: seq<string>)
      modifies this`queries
      ensures names == server.sourceNamesOf(ci)
      ensures queries == old(queries) + [SourceNamesQuery(ci)]
    {
      names := server.sourceNamesOf(ci);
      queries := queries + [SourceNamesQuery(ci)];
    }

    /**
     * The (source name, capture instance, supports net changes) rows of the capture-instance listing.
     * The named form filters on `t.name`, a column cdc.change_tables does not have, so the server
     * rejects that statement; only the unfiltered listing answers.
     */
    method CaptureTables(sourceName: Option<string>) returns (r: Result<seq<ChangeTable>, ExceptionType>)
      modifies this`queries
      ensures r.Failure? <==> sourceName.Some?
      ensures r.Failure? ==> r.error == SqlException
      ensures r.Success? ==> r.value == server.captureTables
      ensures queries == old(queries) + [CaptureTablesQuery(sourceName)]
    {
      queries := queries + [CaptureTablesQuery(sourceName)];
      if sourceName.Some? {
        return Failure(SqlException);
      }
      r := Success(server.captureTables);
    }
  }
}
