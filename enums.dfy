/**
 * The closed value sets of the library: the CdcOperation codes and the string enumerations
 * (row-filter options, relational operators, job types). A string enumeration's constructor is
 * internal, so its instances are exactly the static fields declared; ToString returns Value.
 */
module Enums {

  newtype int32 = x: int | -0x8000_0000 <= x < 0x8000_0000

  /**
   * The __$operation codes. Casting an int to the C# enum never fails, so a code outside 0..5
   * yields an unnamed value, kept here as Undefined(code).
   */
  datatype CdcOperation = None | Delete | Insert | UpdateOld | Update | InsertOrUpdate | Undefined(code: int32) {
    ghost predicate Valid() {
      Undefined? ==> !(0 <= code <= 5)
    }

    function Code(): int32 {
      match this
      case None => 0
      case Delete => 1
      case Insert => 2
      case UpdateOld => 3
      case Update => 4
      case InsertOrUpdate => 5
      case Undefined(c) => c
    }
  }

  /** The cast (CdcOperation)code. */
  function FromCode(code: int32): (op: CdcOperation)
    ensures op.Valid()
  {
    match code
    case 0 => CdcOperation.None
    case 1 => Delete
    case 2 => Insert
    case 3 => UpdateOld
    case 4 => Update
    case 5 => InsertOrUpdate
    case _ => Undefined(code)
  }

  /** The cast and the enum's underlying value are inverse to each other. */
  lemma CodeRoundTrip(op: CdcOperation, code: int32)
    ensures op.Valid() ==> FromCode(op.Code()) == op
    ensures FromCode(code).Code() == code
  {
  }

  /** The fixed codes: None=0, Delete=1, Insert=2, UpdateOld=3, Update=4, InsertOrUpdate=5. */
  lemma NamedCodes()
    ensures CdcOperation.None.Code() == 0 && Delete.Code() == 1 && Insert.Code() == 2
    ensures UpdateOld.Code() == 3 && Update.Code() == 4 && InsertOrUpdate.Code() == 5
  {
  }

  datatype AllChangesRowFilterOption = All | AllUpdateOld {
    function Value(): string {
      match this
      case All => "all"
      case AllUpdateOld => "all update old"
    }
  }

  datatype NetChangesRowFilterOption = All | AllWithMask | AllWithMerge {
    function Value(): string {
      match this
      case All => "all"
      case AllWithMask => "all with mask"
      case AllWithMerge => "all with merge"
    }
  }

  datatype RelationalOperator = LargestLessThan | LargestLessThanOrEqual | SmallestGreaterThan | SmallestGreaterThanOrEqual {
    function Value(): string {
      match this
      case LargestLessThan => "largest less than"
      case LargestLessThanOrEqual => "largest less than or equal"
      case SmallestGreaterThan => "smallest greater than"
      case SmallestGreaterThanOrEqual => "smallest greater than or equal"
    }
  }

  datatype JobType = Capture | Cleanup {
    function Value(): string {
      match this
      case Capture => "capture"
      case Cleanup => "cleanup"
    }
  }

  /** A StringEnum as the change query receives it: an all-changes or a net-changes option. */
  datatype RowFilterOption = AllChanges(all: AllChangesRowFilterOption) | NetChanges(net: NetChangesRowFilterOption) {
    /** StringEnum.ToString returns Value. */
    function ToString(): string {
      match this
      case AllChanges(o) => o.Value()
      case NetChanges(o) => o.Value()
    }
  }

  /** Each string enumeration's values are distinct, so the string passed to the server identifies the option. */
  lemma ValuesIdentifyOptions(a: AllChangesRowFilterOption, b: AllChangesRowFilterOption,
                              n: NetChangesRowFilterOption, m: NetChangesRowFilterOption,
                              r: RelationalOperator, s: RelationalOperator, j: JobType, k: JobType)
    ensures a.Value() == b.Value() ==> a == b
    ensures n.Value() == m.Value() ==> n == m
    ensures r.Value() == s.Value() ==> r == s
    ensures j.Value() == k.Value() ==> j == k
  {
    assert "all"[3..] != "all update old"[3..];
    assert "all with mask"[10] != "all with merge"[10];
    assert "largest less than"[8] != "smallest greater than"[8];
    assert "largest less than or equal"[8] != "smallest greater than or equal"[8];
  }
}
