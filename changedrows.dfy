/**
 * Turning one change-table row (a case-insensitive map from column name to value) into a
 * ChangedRow: the five CDC metadata columns go to typed properties, every other column to Row,
 * and for update rows the names of the changed columns are fetched (through a per-call cache
 * keyed by the mask's byte[] object) and paired with the row's values.
 */
module ChangedRows {
  import opened Wrappers
  import opened Strings
  import opened CiMaps
  import opened Exceptions
  import opened Extensions
  import opened SqlFunctions
  import opened Db
  import opened Consts
  import Enums
  import Cdc
  import CdcUtility

  /** ChangedColumnValue: the value before and after an update; HasOldValue once the old one is known. */
  datatype ChangedColumnValue = ChangedColumnValue(oldValue: Value, newValue: Value, hasOldValue: bool)

  /** ChangedRow. UpdateTime is a DateTime, kept as its ticks; ChangedColumns may be null. */
  datatype ChangedRow = ChangedRow(
    startLsn: Option<ByteArray>,
    seqVal: Option<ByteArray>,
    operation: Enums.CdcOperation,
    updateMask: Option<ByteArray>,
    updateTime: int,
    changedColumns: Option<CiMap<ChangedColumnValue>>,
    changedColumnsMerged: bool,
    row: CiMap<Value>)

  /** `new ChangedRow { Row = new Dictionary<string, object>(OrdinalIgnoreCase) }`. */
  const NewRow: ChangedRow := ChangedRow(None, None, Enums.CdcOperation.None, None, 0, None, false, [])

  // ---------------------------------------------------------------- the metadata columns

  /** The entry of the `mappings` dictionary a column name finds (the dictionary ignores case). */
  function ReservedColumn(key: string): Option<CdcColumnName> {
    var k := Fold(key);
    if k == StartLsn.Folded() then Some(StartLsn)
    else if k == SeqVal.Folded() then Some(SeqVal)
    else if k == Operation.Folded() then Some(Operation)
    else if k == UpdateMask.Folded() then Some(UpdateMask)
    else if k == UpdateTime.Folded() then Some(UpdateTime)
    else None
  }

  /** A column name selects exactly the metadata column whose name it equals ignoring case. */
  lemma ReservedColumnMeaning(key: string, c: CdcColumnName)
    ensures ReservedColumn(key) == Some(c) <==> EqualsIgnoreCase(c.Name(), key)
  {
    FoldedName(c);
  }

  /**
   * What the mapping's cast throws for a value, if anything: (byte[]) accepts null and byte
   * arrays; unboxing to int or DateTime throws NullReferenceException on null and
   * InvalidCastException on another type. DBNull has already been read as null.
   */
  function CastError(c: CdcColumnName, v: Value): Option<ExceptionType> {
    var unboxes := c == Operation || c == UpdateTime;
    match AsNullable(v)
    case Null => if unboxes then Some(NullReferenceException) else None
    case Bytes(_) => if unboxes then Some(InvalidCastException) else None
    case Int(_) => if c == Operation then None else Some(InvalidCastException)
    case Time(_) => if c == UpdateTime then None else Some(InvalidCastException)
    case _ => Some(InvalidCastException)
  }

  function BytesOf(v: Value): Option<ByteArray> {
    if v.Bytes? then Some(v.obj) else None
  }

  /** (CdcOperation)(int)v; the default operation for null, which only an absent column gives. */
  function OperationOf(v: Value): Enums.CdcOperation {
    if v.Int? then Enums.FromCode(v.n) else Enums.CdcOperation.None
  }

  function TimeOf(v: Value): int {
    if v.Time? then v.ticks else 0
  }

  /** The property assignment of the mapping for column c, with a value that casts. */
  function Stored(r: ChangedRow, c: CdcColumnName, v: Value): ChangedRow {
    match c
    case StartLsn => r.(startLsn := BytesOf(v))
    case SeqVal => r.(seqVal := BytesOf(v))
    case Operation => r.(operation := OperationOf(v))
    case UpdateMask => r.(updateMask := BytesOf(v))
    case UpdateTime => r.(updateTime := TimeOf(v))
  }

  /** One iteration of the foreach in ToChangedRowAsync: a mapped column is cast, any other goes to Row. */
  function Assign(r: ChangedRow, key: string, v: Value): Result<ChangedRow, ExceptionType> {
    match ReservedColumn(key)
    case None => Success(r.(row := Set(r.row, key, v)))
    case Some(c) =>
      if CastError(c, v).Some? then Failure(CastError(c, v).value) else Success(Stored(r, c, AsNullable(v)))
  }

  /** The foreach of ToChangedRowAsync over the source entries, from a fresh ChangedRow; the first throw ends it. */
  function MapAll(source: CiMap<Value>): Result<ChangedRow, ExceptionType>
    decreases |source|
  {
    if |source| == 0 then Success(NewRow)
    else
      match MapAll(source[..|source| - 1])
      case Failure(e) => Failure(e)
      case Success(r) => Assign(r, source[|source| - 1].key, source[|source| - 1].value)
  }

  /** The loop itself. */
  method MapFields(source: CiMap<Value>) returns (r: Result<ChangedRow, ExceptionType>)
    ensures r == MapAll(source)
  {
    var row := NewRow;
    var i := 0;
    while i < |source|
      invariant 0 <= i <= |source|
      invariant MapAll(source[..i]) == Success(row)
    {
      assert source[..i + 1][..i] == source[..i];
      var step := Assign(row, source[i].key, source[i].value);
      if step.Failure? {
        MapAllPrefixFails(source, i + 1);
        return step;
      }
      row := step.value;
      i := i + 1;
    }
    assert source[..i] == source;
    r := Success(row);
  }

  /** Once a prefix throws, the whole loop throws the same exception. */
  lemma {:induction false} MapAllPrefixFails(s: CiMap<Value>, k: nat)
    requires k <= |s| && MapAll(s[..k]).Failure?
    ensures MapAll(s) == MapAll(s[..k])
    decreases |s| - k
  {
    if k < |s| {
      assert s[..k + 1][..k] == s[..k];
      MapAllPrefixFails(s, k + 1);
    } else {
      assert s[..k] == s;
    }
  }

  // ---------------------------------------------------------------- reference mapping

  /** The entry's mapping throws. */
  predicate Fails(e: Entry<Value>) {
    ReservedColumn(e.key).Some? && CastError(ReservedColumn(e.key).value, e.value).Some?
  }

  function FieldError(e: Entry<Value>): ExceptionType
    requires Fails(e)
  {
    CastError(ReservedColumn(e.key).value, e.value).value
  }

  /** i is the first entry whose mapping throws. */
  predicate FirstFailure(s: CiMap<Value>, i: int) {
    0 <= i < |s| && Fails(s[i]) && forall j :: 0 <= j < i ==> !Fails(s[j])
  }

  /** The entries that are not metadata columns, in order. */
  function NonReserved(s: CiMap<Value>): CiMap<Value>
    decreases |s|
  {
    if |s| == 0 then []
    else NonReserved(s[..|s| - 1]) + if ReservedColumn(s[|s| - 1].key).None? then [s[|s| - 1]] else []
  }

  /** The value of a metadata column in the source, null when there is no such column. */
  function Column(s: CiMap<Value>, c: CdcColumnName): Value {
    AsNullable(GetOrDefault(s, c.Name(), Null))
  }

  /** The row described column by column: each property read from its column, the rest as Row. */
  function Mapped(s: CiMap<Value>): ChangedRow {
    ChangedRow(BytesOf(Column(s, StartLsn)), BytesOf(Column(s, SeqVal)), OperationOf(Column(s, Operation)),
               BytesOf(Column(s, UpdateMask)), TimeOf(Column(s, UpdateTime)), None, false, NonReserved(s))
  }

  /** A key unlike every source key is unlike every key kept in Row. */
  lemma {:induction false} NonReservedAvoids(s: CiMap<Value>, k: string)
    requires forall i :: 0 <= i < |s| ==> !EqualsIgnoreCase(s[i].key, k)
    ensures forall j :: 0 <= j < |NonReserved(s)| ==> !EqualsIgnoreCase(NonReserved(s)[j].key, k)
    decreases |s|
  {
    if |s| > 0 {
      var p := s[..|s| - 1];
      assert forall i :: 0 <= i < |p| ==> p[i] == s[i];
      NonReservedAvoids(p, k);
    }
  }

  /** The source keys before the last one all differ from it. */
  lemma LastKeyIsNew(p: CiMap<Value>, e: Entry<Value>)
    requires UniqueKeys(p + [e])
    ensures UniqueKeys(p)
    ensures forall i :: 0 <= i < |p| ==> !EqualsIgnoreCase(p[i].key, e.key)
  {
    var s := p + [e];
    assert s[..|s| - 1] == p && s[|s| - 1] == e;
    UniqueKeysSnoc(s);
    assert forall i :: 0 <= i < |p| ==> s[i] == p[i];
  }

  /** An ordinary column goes to Row and leaves every metadata column as it was. */
  lemma MapStepPlain(p: CiMap<Value>, e: Entry<Value>)
    requires UniqueKeys(p + [e]) && ReservedColumn(e.key).None?
    ensures Assign(Mapped(p), e.key, e.value) == Success(Mapped(p + [e]))
  {
    var s := p + [e];
    LastKeyIsNew(p, e);
    forall c: CdcColumnName ensures Column(s, c) == Column(p, c) {
      ReservedColumnMeaning(e.key, c);
      GetSnoc(p, e, c.Name());
    }
    NonReservedAvoids(p, e.key);
    assert s[..|s| - 1] == p && s[|s| - 1] == e;
    assert NonReserved(s) == NonReserved(p) + [e];
  }

  /** Storing column c's value into the row described by p gives the row described by s, when s differs from p only there. */
  lemma StoredMapped(p: CiMap<Value>, s: CiMap<Value>, c: CdcColumnName, v: Value)
    requires Column(s, c) == v && NonReserved(s) == NonReserved(p)
    requires forall c' :: c' != c ==> Column(s, c') == Column(p, c')
    ensures Stored(Mapped(p), c, v) == Mapped(s)
  {
    assert Column(s, StartLsn) == if c == StartLsn then v else Column(p, StartLsn);
    assert Column(s, SeqVal) == if c == SeqVal then v else Column(p, SeqVal);
    assert Column(s, Operation) == if c == Operation then v else Column(p, Operation);
    assert Column(s, UpdateMask) == if c == UpdateMask then v else Column(p, UpdateMask);
    assert Column(s, UpdateTime) == if c == UpdateTime then v else Column(p, UpdateTime);
  }

  /** A metadata column that casts sets its own property, and only that one. */
  lemma MapStepReserved(p: CiMap<Value>, e: Entry<Value>, c: CdcColumnName)
    requires UniqueKeys(p + [e]) && ReservedColumn(e.key) == Some(c) && !Fails(e)
    ensures Assign(Mapped(p), e.key, e.value) == Success(Mapped(p + [e]))
  {
    var s := p + [e];
    LastKeyIsNew(p, e);
    ReservedColumnMeaning(e.key, c);
    GetSnoc(p, e, c.Name());
    IndexOfIgnoresCase(p, e.key, c.Name());
    forall c' | c' != c ensures Column(s, c') == Column(p, c') {
      ReservedNamesDistinct(c, c');
      GetSnoc(p, e, c'.Name());
    }
    assert s[..|s| - 1] == p && s[|s| - 1] == e;
    assert NonReserved(s) == NonReserved(p);
    assert Column(s, c) == AsNullable(e.value);
    StoredMapped(p, s, c, AsNullable(e.value));
  }

  /** One step of the loop agrees with the column-by-column description, on a dictionary's unique keys. */
  lemma MapStep(p: CiMap<Value>, e: Entry<Value>)
    requires UniqueKeys(p + [e])
    ensures Assign(Mapped(p), e.key, e.value) == if Fails(e) then Failure(FieldError(e)) else Success(Mapped(p + [e]))
  {
    match ReservedColumn(e.key)
    case None => MapStepPlain(p, e);
    case Some(c) =>
      if !Fails(e) {
        MapStepReserved(p, e, c);
      } else {
        assert Assign(Mapped(p), e.key, e.value) == Failure(CastError(c, e.value).value);
      }
  }

  /** One step throws iff the entry's mapping throws, with that mapping's exception. */
  lemma AssignFails(r: ChangedRow, e: Entry<Value>)
    ensures Assign(r, e.key, e.value).Failure? <==> Fails(e)
    ensures Fails(e) ==> Assign(r, e.key, e.value) == Failure(FieldError(e))
  {
  }

  /** No entry's mapping throws. */
  predicate NoneFails(s: CiMap<Value>) {
    forall i :: 0 <= i < |s| ==> !Fails(s[i])
  }

  lemma NoneFailsSnoc(s: CiMap<Value>)
    requires |s| > 0
    ensures NoneFails(s) <==> NoneFails(s[..|s| - 1]) && !Fails(s[|s| - 1])
  {
    assert forall i :: 0 <= i < |s| - 1 ==> s[..|s| - 1][i] == s[i];
  }

  /** The loop throws iff some entry's mapping throws. */
  lemma {:induction false} MapAllSucceeds(s: CiMap<Value>)
    ensures MapAll(s).Success? <==> NoneFails(s)
    decreases |s|
  {
    if |s| > 0 {
      var n := |s| - 1;
      var p := s[..n];
      MapAllSucceeds(p);
      NoneFailsSnoc(s);
      if MapAll(p).Success? {
        AssignFails(MapAll(p).value, s[n]);
      }
    }
  }

  /** A throwing loop throws the first throwing entry's exception. */
  lemma {:induction false} MapAllFirstFailure(s: CiMap<Value>)
    requires MapAll(s).Failure?
    ensures exists i :: FirstFailure(s, i) && MapAll(s).error == FieldError(s[i])
    decreases |s|
  {
    var n := |s| - 1;
    var p := s[..n];
    assert forall i :: 0 <= i < n ==> p[i] == s[i];
    if MapAll(p).Failure? {
      MapAllFirstFailure(p);
      var i :| FirstFailure(p, i) && MapAll(p).error == FieldError(p[i]);
      assert FirstFailure(s, i);
    } else {
      MapAllSucceeds(p);
      assert MapAll(s) == Assign(MapAll(p).value, s[n].key, s[n].value);
      assert FirstFailure(s, n);
    }
  }

  /** On a dictionary (unique keys) a loop that does not throw yields the row described column by column. */
  lemma {:induction false} MapAllMapped(s: CiMap<Value>)
    requires MapAll(s).Success? && UniqueKeys(s)
    ensures MapAll(s).value == Mapped(s)
    decreases |s|
  {
    if |s| > 0 {
      var n := |s| - 1;
      var p := s[..n];
      assert MapAll(s) == Assign(MapAll(p).value, s[n].key, s[n].value);
      UniqueKeysSnoc(s);
      MapAllMapped(p);
      MapStepLast(s);
    }
  }

  /** MapStep for the last entry of a dictionary. */
  lemma MapStepLast(s: CiMap<Value>)
    requires |s| > 0 && UniqueKeys(s)
    ensures Assign(Mapped(s[..|s| - 1]), s[|s| - 1].key, s[|s| - 1].value)
      == if Fails(s[|s| - 1]) then Failure(FieldError(s[|s| - 1])) else Success(Mapped(s))
  {
    assert s == s[..|s| - 1] + [s[|s| - 1]];
    MapStep(s[..|s| - 1], s[|s| - 1]);
  }

  /**
   * The loop throws iff some metadata column's value does not cast, and then throws the first
   * such column's exception; on a dictionary (unique keys) it otherwise yields the row described
   * column by column, Row holding every other column in order.
   */
  lemma MapAllMeaning(s: CiMap<Value>)
    ensures MapAll(s).Success? <==> forall i :: 0 <= i < |s| ==> !Fails(s[i])
    ensures MapAll(s).Failure? ==> exists i :: FirstFailure(s, i) && MapAll(s).error == FieldError(s[i])
    ensures MapAll(s).Success? && UniqueKeys(s) ==> MapAll(s).value == Mapped(s)
  {
    MapAllSucceeds(s);
    if MapAll(s).Failure? {
      MapAllFirstFailure(s);
    } else if UniqueKeys(s) {
      MapAllMapped(s);
    }
  }

  /** A step that changes the update mask stores the entry's own byte array there. */
  lemma AssignedMask(r: ChangedRow, e: Entry<Value>)
    requires Assign(r, e.key, e.value).Success?
    requires Assign(r, e.key, e.value).value.updateMask.Some? && Assign(r, e.key, e.value).value.updateMask != r.updateMask
    ensures e.value == Bytes(Assign(r, e.key, e.value).value.updateMask.value)
  {
    assert ReservedColumn(e.key) == Some(UpdateMask);
  }

  /** The update mask of a mapped row is one of the source's own byte arrays. */
  lemma {:induction false} MaskFromSource(s: CiMap<Value>)
    requires MapAll(s).Success? && MapAll(s).value.updateMask.Some?
    ensures exists i :: 0 <= i < |s| && s[i].value == Bytes(MapAll(s).value.updateMask.value)
    decreases |s|
  {
    var n := |s| - 1;
    var p := s[..n];
    var r := MapAll(p).value;
    assert MapAll(s) == Assign(r, s[n].key, s[n].value);
    if MapAll(s).value.updateMask == r.updateMask {
      MaskFromSource(p);
      var i :| 0 <= i < |p| && p[i].value == Bytes(r.updateMask.value);
      assert s[i] == p[i];
    } else {
      AssignedMask(r, s[n]);
    }
  }

  // ---------------------------------------------------------------- changed columns

  /** The ChangedColumnValue ToDictionary builds for a name: the row's value as old (UpdateOld) or new value. */
  function ColumnValueFor(r: ChangedRow, name: string): ChangedColumnValue {
    var v := GetOrDefault(r.row, name, Null);
    if r.operation == Enums.CdcOperation.UpdateOld then ChangedColumnValue(v, Null, true) else ChangedColumnValue(Null, v, false)
  }

  function ColumnEntries(names: seq<string>, r: ChangedRow): (es: seq<Entry<ChangedColumnValue>>)
    ensures |es| == |names| && forall i :: 0 <= i < |names| ==> es[i] == Entry(names[i], ColumnValueFor(r, names[i]))
  {
    seq(|names|, i requires 0 <= i < |names| => Entry(names[i], ColumnValueFor(r, names[i])))
  }

  /** `row.ChangedColumns = columns.ToDictionary(...)`: ArgumentException on a name repeated ignoring case. */
  function WithColumns(r: ChangedRow, names: seq<string>): Result<ChangedRow, ExceptionType> {
    match AddAll(ColumnEntries(names, r))
    case None => Failure(ArgumentException)
    case Some(m) => Success(r.(changedColumns := Some(m)))
  }

  /**
   * The dictionary holds one entry per changed column, in the order listed, with the row's value
   * (null when Row lacks the column) as old value for UpdateOld and as new value otherwise; it
   * exists iff no two names are equal ignoring case. Nothing else of the row changes.
   */
  lemma WithColumnsMeaning(r: ChangedRow, names: seq<string>)
    ensures WithColumns(r, names).Success? <==> forall a, b :: 0 <= a < b < |names| ==> !EqualsIgnoreCase(names[a], names[b])
    ensures WithColumns(r, names).Failure? ==> WithColumns(r, names).error == ArgumentException
    ensures WithColumns(r, names).Success? ==>
      var m := WithColumns(r, names).value.changedColumns.value;
      && WithColumns(r, names).value == r.(changedColumns := Some(m))
      && Keys(m) == names && UniqueKeys(m)
      && (forall i :: 0 <= i < |m| ==> m[i].value.hasOldValue == (r.operation == Enums.CdcOperation.UpdateOld))
      && (forall i :: 0 <= i < |m| ==>
            (if r.operation == Enums.CdcOperation.UpdateOld then m[i].value.oldValue else m[i].value.newValue)
            == GetOrDefault(r.row, names[i], Null))
  {
    var es := ColumnEntries(names, r);
    AddAllMeaning(es);
    assert UniqueKeys(es) <==> forall a, b :: 0 <= a < b < |names| ==> !EqualsIgnoreCase(names[a], names[b]) by {
      assert forall i :: 0 <= i < |names| ==> es[i].key == names[i];
    }
    if UniqueKeys(es) {
      assert Keys(es) == names;
    }
  }

  /** The names fn_cdc_GetChangedColumns reports for a mask. */
  function MaskColumns(server: Server, ci: string, mask: seq<byte>): seq<string> {
    ChangedColumnsFn(server.capturedColumnsOf(ci), Some(server.maskValue(mask)))
  }

  /** RetrieveChangedColumnsAsync returns at once (cdc and the cache are never null where it is called). */
  predicate SkipsRetrieval(ci: Option<string>, r: ChangedRow) {
    IsNullOrWhiteSpace(ci) || IsNullEmptyOrZero(r.updateMask)
    || !(r.operation == Enums.CdcOperation.UpdateOld || r.operation == Enums.CdcOperation.Update)
  }

  /** What retrieval gives, read straight from the server. */
  function Retrieved(server: Server, ci: Option<string>, r: ChangedRow): Result<ChangedRow, ExceptionType> {
    if SkipsRetrieval(ci, r) then Success(r) else WithColumns(r, MaskColumns(server, ci.value, r.updateMask.value.bytes))
  }

  /** What ToChangedRowAsync gives for a source row, read straight from the server. */
  function Converted(server: Server, ci: Option<string>, source: CiMap<Value>): Result<ChangedRow, ExceptionType> {
    match MapAll(source)
    case Failure(e) => Failure(e)
    case Success(r) => Retrieved(server, ci, r)
  }

  /** Retrieval sets ChangedColumns of update rows with a mask and nothing else. */
  lemma RetrievedMeaning(server: Server, ci: Option<string>, r: ChangedRow)
    ensures SkipsRetrieval(ci, r) ==> Retrieved(server, ci, r) == Success(r)
    ensures Retrieved(server, ci, r).Success? && !SkipsRetrieval(ci, r) ==>
      var v := Retrieved(server, ci, r).value;
      v.changedColumns.Some? && v == r.(changedColumns := v.changedColumns)
      && Keys(v.changedColumns.value) == MaskColumns(server, ci.value, r.updateMask.value.bytes)
    ensures Retrieved(server, ci, r).Failure? ==> Retrieved(server, ci, r).error == ArgumentException
  {
    if !SkipsRetrieval(ci, r) {
      WithColumnsMeaning(r, MaskColumns(server, ci.value, r.updateMask.value.bytes));
    }
  }

  /** The Dictionary<byte[], List<string>> of one change query: keyed by the byte[] object, not its contents. */
  class MaskCache {
    var entries: map<nat, seq<string>>

    constructor ()
      ensures entries == map[]
    {
      entries := map[];
    }
  }

  /** Every cached list is what the server reports for the contents of the array it is keyed by. */
  ghost predicate Coherent(cache: MaskCache, db: Database, ci: string)
    reads cache, db
  {
    forall r :: r in cache.entries ==>
      r in db.heap && cache.entries[r] == MaskColumns(db.server, ci, db.heap[r])
  }

  /**
   * RetrieveChangedColumnsAsync: for an update row with a mask, the changed-column names come
   * from the cache when this very byte[] was seen before, else from GetChangedColumnsAsync, and
   * are cached. With a coherent cache and a mask read from this connection, the result is what
   * the server reports, hit or miss.
   */
  method RetrieveChangedColumns(row: ChangedRow, db: Database, ci: Option<string>, cache: MaskCache)
    returns (r: Result<ChangedRow, ExceptionType>)
    modifies cache, db`functions, db`catalog, db`queries
    ensures SkipsRetrieval(ci, row) ==>
      r == Success(row) && cache.entries == old(cache.entries) && db.queries == old(db.queries)
      && db.functions == old(db.functions) && db.catalog == old(db.catalog)
    ensures !SkipsRetrieval(ci, row) ==>
      var a := row.updateMask.value;
      var names := if a.ref in old(cache.entries) then old(cache.entries)[a.ref] else MaskColumns(db.server, ci.value, a.bytes);
      && r == WithColumns(row, names)
      && cache.entries == old(cache.entries)[a.ref := names]
      && db.queries == old(db.queries) + (if a.ref in old(cache.entries) then [] else [ChangedColumnsQuery(ci.value, a)])
      && (a.ref in old(cache.entries) ==> db.functions == old(db.functions) && db.catalog == old(db.catalog))
      && (a.ref !in old(cache.entries) ==>
            && db.functions == old(db.functions) + {Consts.FnGetBit1FromHex, Consts.FnGetChangedColumns}
            && db.catalog == old(db.catalog) + CdcUtility.CreateSteps(CdcUtility.Bit1FromHex, old(db.functions))
                 + CdcUtility.CreateSteps(CdcUtility.ChangedColumns, old(db.functions)))
    ensures ci.Some? && old(Coherent(cache, db, ci.value)) && (row.updateMask.Some? ==> db.Owns(row.updateMask.value)) ==>
      Coherent(cache, db, ci.value) && r == Retrieved(db.server, ci, row)
  {
    if IsNullOrWhiteSpace(ci) || IsNullEmptyOrZero(row.updateMask)
       || !(row.operation == Enums.CdcOperation.UpdateOld || row.operation == Enums.CdcOperation.Update) {
      return Success(row);
    }
    var mask := row.updateMask.value;
    var names: seq<string>;
    if mask.ref in cache.entries {
      names := cache.entries[mask.ref];
    } else {
      var fetched := Cdc.GetChangedColumns(db, ci, row.updateMask);
      names := fetched.value;
      cache.entries := cache.entries[mask.ref := names];
    }
    r := WithColumns(row, names);
  }

  /** The sources' byte arrays were all read from this connection. */
  ghost predicate SourceOwned(db: Database, source: CiMap<Value>)
    reads db
  {
    forall i :: 0 <= i < |source| ==> db.OwnsValue(source[i].value)
  }

  /**
   * ToChangedRowAsync: null for a null source; otherwise the mapped row with its changed columns
   * retrieved. With a coherent cache and a source read from this connection, it is Converted.
   */
  method ToChangedRow(source: Option<CiMap<Value>>, db: Database, ci: Option<string>, cache: MaskCache)
    returns (r: Result<Option<ChangedRow>, ExceptionType>)
    modifies cache, db`functions, db`catalog, db`queries
    ensures source.None? ==>
      r == Success(None) && cache.entries == old(cache.entries) && db.queries == old(db.queries)
      && db.functions == old(db.functions) && db.catalog == old(db.catalog)
    ensures source.Some? && r.Success? ==> r.value.Some?
    ensures source.Some? && ci.None? ==>
      cache.entries == old(cache.entries) && db.queries == old(db.queries)
      && db.functions == old(db.functions) && db.catalog == old(db.catalog)
      && match Converted(db.server, ci, source.value)
         case Failure(e) => r == Failure(e)
         case Success(v) => r == Success(Some(v))
    ensures source.Some? && ci.Some? && old(Coherent(cache, db, ci.value)) && SourceOwned(db, source.value) ==>
      Coherent(cache, db, ci.value)
      && match Converted(db.server, ci, source.value)
         case Failure(e) => r == Failure(e)
         case Success(v) => r == Success(Some(v))
  {
    if source.None? {
      return Success(None);
    }
    var mapped := MapFields(source.value);
    if mapped.Failure? {
      return Failure(mapped.error);
    }
    if mapped.value.updateMask.Some? {
      MaskFromSource(source.value);
    }
    var retrieved := RetrieveChangedColumns(mapped.value, db, ci, cache);
    if retrieved.Failure? {
      return Failure(retrieved.error);
    }
    r := Success(Some(retrieved.value));
  }
}
