/** The library's constant names: the "all" sentinel, its helper SQL functions and the CDC metadata columns. */
module Consts {
  import opened Strings

  /** The capture-instance sentinel meaning every instance of a table. */
  const All: string := "all"

  /** The table-valued functions the library installs in the dbo schema. */
  const FnGetBit1FromHex: string := "fn_GetBit1FromHex"
  const FnGetChangedColumns: string := "fn_cdc_GetChangedColumns"
  const FnGetBinaryColumns: string := "fn_cdc_GetBinaryColumns"

  /** The reserved metadata columns of a change row (class CdcColumnName). */
  datatype CdcColumnName = StartLsn | SeqVal | Operation | UpdateMask | UpdateTime {
    function Name(): string {
      match this
      case StartLsn => "__$start_lsn"
      case SeqVal => "__$seqval"
      case Operation => "__$operation"
      case UpdateMask => "__$update_mask"
      case UpdateTime => "__$UpdateTime"
    }

    /** The name as OrdinalIgnoreCase compares it. */
    function Folded(): string {
      match this
      case StartLsn => "__$START_LSN"
      case SeqVal => "__$SEQVAL"
      case Operation => "__$OPERATION"
      case UpdateMask => "__$UPDATE_MASK"
      case UpdateTime => "__$UPDATETIME"
    }
  }

  lemma FoldedName(c: CdcColumnName)
    ensures Fold(c.Name()) == c.Folded()
  {
    FoldLiteral(c.Name(), c.Folded());
  }

  /**
   * The five names are pairwise distinct even ignoring case, so a case-insensitive dictionary
   * keyed by them holds five entries and a column matches at most one of them.
   */
  lemma ReservedNamesDistinct(a: CdcColumnName, b: CdcColumnName)
    requires a != b
    ensures !EqualsIgnoreCase(a.Name(), b.Name())
  {
    FoldedName(a);
    FoldedName(b);
    var x, y := a.Folded(), b.Folded();
    if |x| == |y| {
      // the names of equal length differ in their fourth character
      assert x[3] != y[3];
    }
  }

  /** The three helper functions have distinct names, so existence checks never confuse them. */
  lemma HelperNamesDistinct()
    ensures FnGetBit1FromHex != FnGetChangedColumns
    ensures FnGetBit1FromHex != FnGetBinaryColumns
    ensures FnGetChangedColumns != FnGetBinaryColumns
  {
    assert FnGetBit1FromHex[3] != FnGetChangedColumns[3];
    assert FnGetBit1FromHex[3] != FnGetBinaryColumns[3];
    assert FnGetChangedColumns[10] != FnGetBinaryColumns[10];
  }
}
