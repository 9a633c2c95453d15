/**
 * The pure helpers of the library (mask emptiness, argument checks, the "all instances" test,
 * DBNull normalisation) and the accumulation of reader rows into lists and case-insensitive maps.
 */
module Extensions {
  import opened Wrappers
  import opened Strings
  import Enums
  import opened Exceptions
  import opened CiMaps
  import Consts

  newtype byte = x: int | 0 <= x < 256

  /**
   * A byte[] object: `ref` is its identity (what reference equality compares), `bytes` its contents.
   * A non-null byte[] is Some(ByteArray(..)), a null one None.
   */
  datatype ByteArray = ByteArray(ref: nat, bytes: seq<byte>)

  /**
   * A boxed column value as an `object`: Null is the null reference, DbNull is DBNull.Value.
   * Date-times are kept as their tick count; other CLR types as an opaque tag.
   */
  datatype Value = Null | DbNull | Bytes(obj: ByteArray) | Int(n: Enums.int32) | Bool(b: bool) | Time(ticks: int) | Text(s: string) | Other(tag: nat)

  /** Enumerable.All(a => a == 0). */
  function AllZero(s: seq<byte>): (r: bool)
    ensures r <==> forall i :: 0 <= i < |s| ==> s[i] == 0
  {
    if |s| == 0 then true
    else
      assert forall i :: 1 <= i < |s| ==> s[i] == s[1..][i - 1];
      s[0] == 0 && AllZero(s[1..])
  }

  /** IsNullEmptyOrZero(byte[]): null, length 0, or every byte 0. */
  function IsNullEmptyOrZero(a: Option<ByteArray>): (r: bool)
    ensures r <==> a.None? || forall i :: 0 <= i < |a.value.bytes| ==> a.value.bytes[i] == 0
    ensures !r ==> a.Some? && exists i :: 0 <= i < |a.value.bytes| && a.value.bytes[i] != 0
  {
    a.None? || |a.value.bytes| == 0 || AllZero(a.value.bytes)
  }

  /** CheckNull(string): ArgumentNullException iff null, empty or whitespace only. */
  function CheckNull(s: Option<string>): (r: Outcome<ExceptionType>)
    ensures r.Fail? <==> s.None? || forall i :: 0 <= i < |s.value| ==> IsWhiteSpace(s.value[i])
    ensures r.Fail? ==> r.error == ArgumentNullException
  {
    if IsNullOrWhiteSpace(s) then Fail(ArgumentNullException) else Pass
  }

  /** CheckNull(object): ArgumentNullException iff null. */
  function CheckNotNull<T>(o: Option<T>): (r: Outcome<ExceptionType>)
    ensures r.Fail? <==> o.None?
    ensures r.Fail? ==> r.error == ArgumentNullException
  {
    if o.None? then Fail(ArgumentNullException) else Pass
  }

  /** IsForAllInstances: a blank instance name, or "all" in any letter case. */
  function IsForAllInstances(ci: Option<string>): (r: bool)
    ensures r <==> CheckNull(ci).Fail? || (ci.Some? && EqualsIgnoreCase(Consts.All, ci.value))
  {
    IsNullOrWhiteSpace(ci) || EqualsIgnoreCase(Consts.All, ci.value)
  }

  /** Every spelling of the sentinel selects all instances; a named instance does not. */
  lemma {:induction false} ForAllInstancesSpellings(ci: string)
    requires |ci| == 3 && ci[0] in {'a', 'A'} && ci[1] in {'l', 'L'} && ci[2] in {'l', 'L'}
    ensures IsForAllInstances(Some(ci))
    ensures !IsForAllInstances(Some("dbo_" + ci))
  {
    var up := Fold(ci);
    FoldAt(ci);
    FoldAt(Consts.All);
    assert up == "ALL" by {
      assert |up| == 3 && up[0] == 'A' && up[1] == 'L' && up[2] == 'L';
    }
    assert Fold(Consts.All) == "ALL" by {
      var f := Fold(Consts.All);
      assert |f| == 3 && f[0] == 'A' && f[1] == 'L' && f[2] == 'L';
    }
    assert !IsWhiteSpace(ci[0]);
    var named := "dbo_" + ci;
    assert !IsWhiteSpace(named[0]);
    assert |Fold(named)| == 7;
  }

  /** AsNullable: DBNull becomes null, everything else is itself. */
  function AsNullable(o: Value): (r: Value)
    ensures r != DbNull
    ensures o != DbNull ==> r == o
  {
    if o == DbNull then Null else o
  }

  /** AsDBNull: null becomes DBNull, everything else is itself. */
  function AsDBNull(o: Value): (r: Value)
    ensures r != Null
    ensures o != Null ==> r == o
  {
    if o == Null then DbNull else o
  }

  /** The two conversions undo each other on the values they do not collapse. */
  lemma NullConversionsRoundTrip(o: Value)
    ensures o != DbNull ==> AsNullable(AsDBNull(o)) == o
    ensures o != Null ==> AsDBNull(AsNullable(o)) == o
    ensures AsNullable(DbNull) == AsNullable(Null) == Null
  {
  }

  /** One field of the current reader row: GetName(i) and GetValue(i) (DBNull for SQL NULL). */
  datatype Field = Field(name: string, value: Value)

  type Record = seq<Field>

  /** ToListAsync(reader, onReading): one element per row, in read order. */
  method ToList<R, T>(reader: seq<R>, onReading: R -> T) returns (rows: seq<T>)
    ensures |rows| == |reader|
    ensures forall i :: 0 <= i < |reader| ==> rows[i] == onReading(reader[i])
  {
    rows := [];
    var n := 0;
    while n < |reader|
      invariant 0 <= n <= |reader|
      invariant |rows| == n
      invariant forall i :: 0 <= i < n ==> rows[i] == onReading(reader[i])
    {
      rows := rows + [onReading(reader[n])];
      n := n + 1;
    }
  }

  /** No two fields of a row have names equal ignoring case. */
  ghost predicate DistinctNames(rec: Record) {
    forall i, j :: 0 <= i < j < |rec| ==> !EqualsIgnoreCase(rec[i].name, rec[j].name)
  }

  /** The entries a row's fields give: name and value, DBNull read as null. */
  function FieldEntries(rec: Record): (es: seq<Entry<Value>>)
    ensures |es| == |rec| && forall i :: 0 <= i < |rec| ==> es[i] == Entry(rec[i].name, AsNullable(rec[i].value))
  {
    seq(|rec|, i requires 0 <= i < |rec| => Entry(rec[i].name, AsNullable(rec[i].value)))
  }

  /** The row the ToDictionaryListAsync callback builds: Add of each field in order, DBNull normalised. */
  function RowMap(rec: Record): Option<CiMap<Value>> {
    AddAll(FieldEntries(rec))
  }

  /**
   * A row converts iff its field names are distinct ignoring case; the map then holds one entry
   * per field, in field order, keys unique, and no value is DBNull.
   */
  lemma RowMapMeaning(rec: Record)
    ensures RowMap(rec).Some? <==> DistinctNames(rec)
    ensures RowMap(rec).Some? ==>
      var m := RowMap(rec).value;
      |m| == |rec| && UniqueKeys(m)
      && (forall i :: 0 <= i < |rec| ==> m[i] == Entry(rec[i].name, AsNullable(rec[i].value)))
      && (forall i :: 0 <= i < |m| ==> m[i].value != DbNull)
  {
    AddAllMeaning(FieldEntries(rec));
    var es := FieldEntries(rec);
    assert UniqueKeys(es) <==> DistinctNames(rec) by {
      assert forall i :: 0 <= i < |rec| ==> es[i].key == rec[i].name;
    }
  }

  /** The callback of ToDictionaryListAsync: a case-insensitive map built field by field with Add. */
  method ReadRow(rec: Record) returns (row: Option<CiMap<Value>>)
    ensures row == RowMap(rec)
  {
    ghost var es := FieldEntries(rec);
    var m: CiMap<Value> := [];
    var i := 0;
    while i < |rec|
      invariant 0 <= i <= |rec|
      invariant AddAll(es[..i]) == Some(m)
    {
      assert es[..i + 1][..i] == es[..i];
      var added := Add(m, rec[i].name, AsNullable(rec[i].value));
      if added.None? {
        AddAllPrefixFails(es, i + 1);
        return None;
      }
      m := added.value;
      i := i + 1;
    }
    assert es[..i] == es;
    row := Some(m);
  }

  /**
   * ToDictionaryListAsync: one map per reader row, in read order; a row with two fields named
   * alike ignoring case raises ArgumentException from Dictionary.Add.
   */
  method ToDictionaryList(reader: seq<Record>) returns (r: Result<seq<CiMap<Value>>, ExceptionType>)
    ensures r.Success? <==> forall i :: 0 <= i < |reader| ==> DistinctNames(reader[i])
    ensures r.Success? ==> |r.value| == |reader| && forall i :: 0 <= i < |reader| ==> Some(r.value[i]) == RowMap(reader[i])
    ensures r.Failure? ==> r.error == ArgumentException
  {
    var rows: seq<CiMap<Value>> := [];
    var n := 0;
    while n < |reader|
      invariant 0 <= n <= |reader|
      invariant |rows| == n
      invariant forall i :: 0 <= i < n ==> Some(rows[i]) == RowMap(reader[i]) && DistinctNames(reader[i])
    {
      var row := ReadRow(reader[n]);
      RowMapMeaning(reader[n]);
      if row.None? {
        return Failure(ArgumentException);
      }
      rows := rows + [row.value];
      n := n + 1;
    }
    r := Success(rows);
  }
}
