/**
 * CdcUtility: the existence-guarded creation and removal of the helper functions, and the two
 * "is CDC enabled" tests (for the database and for one source table).
 */
module CdcUtility {
  import opened Wrappers
  import opened Strings
  import opened Exceptions
  import opened Extensions
  import opened Db
  import Consts

  /** The helper functions in dbo. */
  datatype HelperFunction = Bit1FromHex | ChangedColumns | BinaryColumns {
    function Name(): string {
      match this
      case Bit1FromHex => Consts.FnGetBit1FromHex
      case ChangedColumns => Consts.FnGetChangedColumns
      case BinaryColumns => Consts.FnGetBinaryColumns
    }
  }

  const HelperNames: set<string> := {Consts.FnGetBit1FromHex, Consts.FnGetChangedColumns, Consts.FnGetBinaryColumns}

  /** The catalog steps of one create-if-absent guard: the lookup, then CREATE only if it was not found. */
  function CreateSteps(f: HelperFunction, present: set<string>): seq<CatalogStep> {
    [Lookup(f.Name(), f.Name() in present)] + if f.Name() in present then [] else [Created(f.Name())]
  }

  /** The catalog steps of one drop-if-present guard: the lookup, then DROP only if it was found. */
  function DropSteps(f: HelperFunction, present: set<string>): seq<CatalogStep> {
    [Lookup(f.Name(), f.Name() in present)] + if f.Name() in present then [Dropped(f.Name())] else []
  }

  /** CreateFn_*Async: creates the function unless OBJECT_ID finds it; never fails on an existing one. */
  method CreateFn(db: Database, f: HelperFunction)
    modifies db`functions, db`catalog
    ensures db.functions == old(db.functions) + {f.Name()}
    ensures db.catalog == old(db.catalog) + CreateSteps(f, old(db.functions))
  {
    var found := db.ObjectExists(f.Name());
    if found {
      return;
    }
    var created := db.CreateFunction(f.Name());
    assert created.Pass?;
  }

  /** DropFn_*Async: drops the function only if OBJECT_ID finds it; never fails on a missing one. */
  method DropFn(db: Database, f: HelperFunction)
    modifies db`functions, db`catalog
    ensures db.functions == old(db.functions) - {f.Name()}
    ensures db.catalog == old(db.catalog) + DropSteps(f, old(db.functions))
  {
    var found := db.ObjectExists(f.Name());
    if !found {
      return;
    }
    var dropped := db.DropFunction(f.Name());
    assert dropped.Pass?;
  }

  /** The steps of CreateFnsAsync: the bit decoder first, then the function that calls it, then the binary-column one. */
  function CreateFnsSteps(present: set<string>): seq<CatalogStep> {
    CreateSteps(Bit1FromHex, present) + CreateSteps(ChangedColumns, present) + CreateSteps(BinaryColumns, present)
  }

  /** The steps of DropFnsAsync: the dependent function first, then the bit decoder, then the binary-column one. */
  function DropFnsSteps(present: set<string>): seq<CatalogStep> {
    DropSteps(ChangedColumns, present) + DropSteps(Bit1FromHex, present) + DropSteps(BinaryColumns, present)
  }

  method CreateFns(db: Database)
    modifies db`functions, db`catalog
    ensures db.functions == old(db.functions) + HelperNames
    ensures db.catalog == old(db.catalog) + CreateFnsSteps(old(db.functions))
  {
    Consts.HelperNamesDistinct();
    CreateFn(db, Bit1FromHex);
    CreateFn(db, ChangedColumns);
    CreateFn(db, BinaryColumns);
  }

  method DropFns(db: Database)
    modifies db`functions, db`catalog
    ensures db.functions == old(db.functions) - HelperNames
    ensures db.catalog == old(db.catalog) + DropFnsSteps(old(db.functions))
  {
    Consts.HelperNamesDistinct();
    DropFn(db, ChangedColumns);
    DropFn(db, Bit1FromHex);
    DropFn(db, BinaryColumns);
  }

  /** Position of a catalog step in a log. */
  function StepIndex(log: seq<CatalogStep>, s: CatalogStep): (r: Option<nat>)
    ensures r.Some? ==> r.value < |log| && log[r.value] == s && s !in log[..r.value]
    ensures r.None? <==> s !in log
  {
    if |log| == 0 then None
    else if log[0] == s then Some(0)
    else
      match StepIndex(log[1..], s)
      case None => None
      case Some(j) =>
        assert log[..j + 1] == [log[0]] + log[1..][..j];
        Some(j + 1)
  }

  /**
   * Dependency order: when both are created, dbo.fn_GetBit1FromHex is created before
   * dbo.fn_cdc_GetChangedColumns, which calls it; when both are dropped, it is dropped after.
   */
  lemma HelperDependencyOrder(present: set<string>)
    ensures var log := CreateFnsSteps(present);
      Created(Consts.FnGetChangedColumns) in log ==> Created(Consts.FnGetBit1FromHex) in log ==>
      StepIndex(log, Created(Consts.FnGetBit1FromHex)).value < StepIndex(log, Created(Consts.FnGetChangedColumns)).value
    ensures var log := DropFnsSteps(present);
      Dropped(Consts.FnGetChangedColumns) in log ==> Dropped(Consts.FnGetBit1FromHex) in log ==>
      StepIndex(log, Dropped(Consts.FnGetChangedColumns)).value < StepIndex(log, Dropped(Consts.FnGetBit1FromHex)).value
  {
    Consts.HelperNamesDistinct();
    var bit, changed := Consts.FnGetBit1FromHex, Consts.FnGetChangedColumns;
    var head := CreateSteps(Bit1FromHex, present);
    var log := CreateFnsSteps(present);
    assert log == head + (CreateSteps(ChangedColumns, present) + CreateSteps(BinaryColumns, present));
    if Created(bit) in log {
      OrderAcrossSplit(head, CreateSteps(ChangedColumns, present) + CreateSteps(BinaryColumns, present), Created(bit), Created(changed));
    }
    var dhead := DropSteps(ChangedColumns, present);
    var dlog := DropFnsSteps(present);
    assert dlog == dhead + (DropSteps(Bit1FromHex, present) + DropSteps(BinaryColumns, present));
    if Dropped(changed) in dlog {
      OrderAcrossSplit(dhead, DropSteps(Bit1FromHex, present) + DropSteps(BinaryColumns, present), Dropped(changed), Dropped(bit));
    }
  }

  /** A step in the first part of a log comes before every step that only the second part has. */
  lemma OrderAcrossSplit(head: seq<CatalogStep>, tail: seq<CatalogStep>, s: CatalogStep, t: CatalogStep)
    requires s in head && t !in head
    ensures t in head + tail ==> StepIndex(head + tail, s).value < StepIndex(head + tail, t).value
  {
    var log := head + tail;
    var x :| 0 <= x < |head| && head[x] == s;
    assert log[x] == s;
    var a := StepIndex(log, s).value;
    assert a <= x;
    if t in log {
      var b := StepIndex(log, t).value;
      assert b >= |head|;
    }
  }

  /** HasDbCdcEnabledAsync: is_cdc_enabled of the current database, false when absent. */
  method HasDbCdcEnabled(db: Database) returns (enabled: bool)
    modifies db`queries
    ensures enabled == db.cdcEnabled
    ensures db.queries == old(db.queries) + [CdcEnabledQuery]
  {
    var answer := db.IsCdcEnabled();
    enabled := match answer case Some(b) => b case None => false;
  }

  /**
   * The decision of HasTableCdcEnabledAsync over the table's capture instances: none means not
   * enabled; more than one means enabled whatever instance is asked for; a single one means
   * enabled iff the instance asked for is blank, "all", or that instance ignoring case.
   */
  function TableCdcEnabled(instances: seq<string>, ci: Option<string>): bool {
    |instances| > 0
    && (|instances| > 1 || IsForAllInstances(ci) || (ci.Some? && EqualsIgnoreCase(instances[0], ci.value)))
  }

  /** The instance asked for is one of the table's instances (or all of them). */
  ghost predicate Names(instances: seq<string>, ci: Option<string>) {
    (|instances| > 0 && IsForAllInstances(ci))
    || (ci.Some? && exists i :: 0 <= i < |instances| && EqualsIgnoreCase(instances[i], ci.value))
  }

  /**
   * The test is sound for what it is asked (a named or "all" instance of the table is reported
   * enabled), exact for tables with at most one instance, and for two or more instances it
   * answers true without looking at the name.
   */
  lemma TableCdcEnabledMeaning(instances: seq<string>, ci: Option<string>)
    ensures Names(instances, ci) ==> TableCdcEnabled(instances, ci)
    ensures |instances| <= 1 ==> (TableCdcEnabled(instances, ci) <==> Names(instances, ci))
    ensures |instances| > 1 ==> TableCdcEnabled(instances, ci)
    ensures |instances| == 0 ==> !TableCdcEnabled(instances, ci)
  {
    if Names(instances, ci) && |instances| == 1 && !IsForAllInstances(ci) {
      var i :| 0 <= i < |instances| && EqualsIgnoreCase(instances[i], ci.value);
      assert i == 0;
    }
  }

  /** HasTableCdcEnabledAsync: a blank source name is rejected before any query. */
  method HasTableCdcEnabled(db: Database, sourceName: Option<string>, ci: Option<string>) returns (r: Result<bool, ExceptionType>)
    modifies db`queries
    ensures CheckNull(sourceName).Fail? ==> r == Failure(ArgumentNullException) && db.queries == old(db.queries)
    ensures CheckNull(sourceName).Pass? ==>
      r == Success(TableCdcEnabled(db.server.instancesOf(sourceName.value), ci))
      && db.queries == old(db.queries) + [InstancesQuery(sourceName.value)]
  {
    var check := CheckNull(sourceName);
    if check.Fail? {
      return Failure(check.error);
    }
    var instances := db.Instances(sourceName.value);
    r := Success(TableCdcEnabled(instances, ci));
  }
}
