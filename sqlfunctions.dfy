/**
 * The table-valued functions the library installs on the server: dbo.fn_GetBit1FromHex, which
 * decodes an update mask into 1-based column positions with a recursive CTE, and the two column
 * filters dbo.fn_cdc_GetChangedColumns and dbo.fn_cdc_GetBinaryColumns, stated over the catalog
 * rows they join (one row per captured column with the type of the matching source column).
 */
module SqlFunctions {
  import opened Wrappers

  /** A BIGINT: the value CAST(@HexValue AS BIGINT) produces. */
  type bigint = x: int | -0x8000_0000_0000_0000 <= x < 0x8000_0000_0000_0000

  /** A row of cteBinary: RowIndex, Number and BitValue (NULL in the anchor row). */
  datatype CteRow = CteRow(rowIndex: nat, number: int, bitValue: Option<int>)

  /**
   * The rows the recursive member derives from `row`: RowIndex + 1, Number / 2, Number % 2,
   * while Number > 0. Number is positive wherever / and % apply, so SQL's truncating division
   * and Dafny's agree.
   */
  function CteFrom(row: CteRow): seq<CteRow>
    decreases if row.number > 0 then row.number else 0
  {
    [row] + if row.number > 0 then CteFrom(CteRow(row.rowIndex + 1, row.number / 2, Some(row.number % 2))) else []
  }

  /** The whole CTE for @IntValue: the anchor row (0, @IntValue, NULL) and its descendants. */
  function CteBinary(intValue: bigint): seq<CteRow> {
    CteFrom(CteRow(0, intValue, None))
  }

  /** SELECT RowIndex FROM cteBinary WHERE BitValue > 0 (a NULL BitValue is not > 0). */
  function SelectPositions(rows: seq<CteRow>): seq<nat> {
    if |rows| == 0 then []
    else (if rows[0].bitValue.Some? && rows[0].bitValue.value > 0 then [rows[0].rowIndex] else []) + SelectPositions(rows[1..])
  }

  /** dbo.fn_GetBit1FromHex over the BIGINT value of the mask; a NULL mask returns no rows. */
  function GetBit1FromHex(intValue: Option<bigint>): seq<nat> {
    match intValue
    case None => []
    case Some(n) => SelectPositions(CteBinary(n))
  }

  /** Bit k of a non-negative number, least significant first. */
  function Bit(n: nat, k: nat): bool {
    if k == 0 then n % 2 == 1 else Bit(n / 2, k - 1)
  }

  function Pow2(k: nat): (r: nat)
    ensures r >= 1
  {
    if k == 0 then 1 else 2 * Pow2(k - 1)
  }

  lemma {:induction false} SelectPositionsAppend(a: seq<CteRow>, b: seq<CteRow>)
    ensures SelectPositions(a + b) == SelectPositions(a) + SelectPositions(b)
  {
    if |a| > 0 {
      assert (a + b)[0] == a[0];
      assert (a + b)[1..] == a[1..] + b;
      SelectPositionsAppend(a[1..], b);
    } else {
      assert a + b == b;
    }
  }

  /** Positions selected from the descendants of a row with positive Number m at index i. */
  lemma {:induction false} CteFromPositions(i: nat, m: int, bv: Option<int>, p: nat)
    requires m > 0
    ensures p in SelectPositions(CteFrom(CteRow(i, m, bv))) <==>
      (p == i && bv.Some? && bv.value > 0) || (p > i && Bit(m, p - i - 1))
    decreases m
  {
    var half, low := m / 2, m % 2;
    var next := CteRow(i + 1, half, Some(low));
    var head := [CteRow(i, m, bv)];
    assert CteFrom(CteRow(i, m, bv)) == head + CteFrom(next);
    SelectPositionsAppend(head, CteFrom(next));
    var rest := SelectPositions(CteFrom(next));
    assert p in SelectPositions(CteFrom(CteRow(i, m, bv))) <==> (p == i && bv.Some? && bv.value > 0) || p in rest;
    assert Bit(m, 0) <==> low > 0;
    if half > 0 {
      CteFromPositions(i + 1, half, Some(low), p);
      if p > i + 1 {
        assert Bit(m, p - i - 1) == Bit(half, p - i - 2);
      }
    } else {
      assert CteFrom(next) == [next];
      assert SelectPositions([next]) == [i + 1];
      if p > i + 1 {
        BitZero(p - i - 2);
        assert Bit(m, p - i - 1) == Bit(half, p - i - 2);
      }
    }
  }

  lemma {:induction false} BitZero(k: nat)
    ensures !Bit(0, k)
  {
    if k > 0 {
      BitZero(k - 1);
    }
  }

  /**
   * The decoding rule: for a positive value, position p is returned iff p >= 1 and bit p - 1 is
   * set (the least significant bit is column 1); a NULL, zero or negative value gives no positions.
   */
  lemma {:induction false} DecodeMembership(intValue: Option<bigint>, p: nat)
    ensures p in GetBit1FromHex(intValue) <==> intValue.Some? && intValue.value > 0 && p >= 1 && Bit(intValue.value, p - 1)
  {
    if intValue.Some? {
      var n := intValue.value;
      if n > 0 {
        CteFromPositions(0, n, None, p);
      } else {
        assert CteBinary(n) == [CteRow(0, n, None)];
      }
    }
  }

  /** A zero or negative BIGINT stops the recursion at the anchor row: nothing is decoded. */
  lemma {:induction false} DecodeNonPositive(n: bigint)
    requires n <= 0
    ensures GetBit1FromHex(Some(n)) == []
  {
    assert CteBinary(n) == [CteRow(0, n, None)];
    assert SelectPositions([CteRow(0, n, None)]) == [];
  }

  /** RowIndex grows by one per recursion step. */
  lemma {:induction false} CteFromIndices(row: CteRow)
    ensures forall k :: 0 <= k < |CteFrom(row)| ==> CteFrom(row)[k].rowIndex == row.rowIndex + k
    decreases if row.number > 0 then row.number else 0
  {
    if row.number > 0 {
      var next := CteRow(row.rowIndex + 1, row.number / 2, Some(row.number % 2));
      CteFromIndices(next);
    }
  }

  lemma {:induction false} SelectIncreasing(rows: seq<CteRow>)
    requires forall k :: 0 <= k < |rows| ==> rows[k].rowIndex == rows[0].rowIndex + k
    ensures forall a, b :: 0 <= a < b < |SelectPositions(rows)| ==> SelectPositions(rows)[a] < SelectPositions(rows)[b]
    ensures forall a :: 0 <= a < |SelectPositions(rows)| ==> SelectPositions(rows)[a] >= (if |rows| == 0 then 0 else rows[0].rowIndex)
  {
    if |rows| > 0 {
      var tail := rows[1..];
      if |tail| > 0 {
        assert forall k :: 0 <= k < |tail| ==> tail[k].rowIndex == tail[0].rowIndex + k by {
          assert forall k :: 0 <= k < |tail| ==> tail[k] == rows[k + 1];
        }
        assert tail[0].rowIndex == rows[0].rowIndex + 1;
      }
      SelectIncreasing(tail);
    }
  }

  /** Each position is produced once, in increasing order. */
  lemma {:induction false} DecodeIncreasing(intValue: Option<bigint>)
    ensures forall a, b :: 0 <= a < b < |GetBit1FromHex(intValue)| ==> GetBit1FromHex(intValue)[a] < GetBit1FromHex(intValue)[b]
  {
    if intValue.Some? {
      var anchor := CteRow(0, intValue.value, None);
      CteFromIndices(anchor);
      SelectIncreasing(CteFrom(anchor));
    }
  }

  lemma {:induction false} BitBound(n: nat, k: nat)
    requires Bit(n, k)
    ensures n >= Pow2(k)
  {
    if k > 0 {
      BitBound(n / 2, k - 1);
    }
  }

  /** A set bit of a number below 2^63 is one of bits 0..62. */
  lemma BitBelow63(n: nat, k: nat)
    requires n < 0x8000_0000_0000_0000 && Bit(n, k)
    ensures k < 63
  {
    if k >= 63 {
      BitBound(n, k);
      Pow2Monotone(63, k);
      Pow2Value();
    }
  }

  /** A BIGINT has 63 value bits, so the decoded positions lie in 1..63. */
  lemma {:induction false} DecodeBound(intValue: Option<bigint>, p: nat)
    requires p in GetBit1FromHex(intValue)
    ensures 1 <= p <= 63
  {
    DecodeMembership(intValue, p);
    BitBelow63(intValue.value, p - 1);
  }

  lemma {:induction false} Pow2Monotone(a: nat, b: nat)
    requires a <= b
    ensures Pow2(a) <= Pow2(b)
    decreases b
  {
    if a < b {
      Pow2Monotone(a, b - 1);
    }
  }

  lemma Pow2Value()
    ensures Pow2(63) == 0x8000_0000_0000_0000
  {
    Pow2Of32();
    Pow2Add(32, 31);
  }

  lemma Pow2Of16()
    ensures Pow2(16) == 0x1_0000
  {
    assert Pow2(8) == 256;
    Pow2Add(8, 8);
  }

  lemma Pow2Of32()
    ensures Pow2(32) == 0x1_0000_0000 && Pow2(31) == 0x8000_0000
  {
    Pow2Of16();
    Pow2Add(16, 16);
    Pow2Add(16, 15);
  }

  lemma {:induction false} Pow2Add(a: nat, b: nat)
    ensures Pow2(a + b) == Pow2(a) * Pow2(b)
    decreases b
  {
    if b > 0 {
      Pow2Add(a, b - 1);
    }
  }

  /** sys.columns joined with sys.types for the source column a captured column comes from. */
  datatype SourceColumn = SourceColumn(isIdentity: bool, typeName: string)

  /** A row of cdc.captured_columns for one capture instance, with its source column if it still exists. */
  datatype CapturedColumn = CapturedColumn(name: string, ordinal: nat, source: Option<SourceColumn>)

  /** The WHERE clause of dbo.fn_cdc_GetChangedColumns for one captured column. */
  predicate IsChanged(c: CapturedColumn, positions: seq<nat>) {
    c.ordinal in positions && Reportable(c)
  }

  /** The source column still exists, is not an identity column and is not of type timestamp. */
  predicate Reportable(c: CapturedColumn) {
    c.source.Some? && !c.source.value.isIdentity && c.source.value.typeName != "timestamp"
  }

  /**
   * dbo.fn_cdc_GetChangedColumns(@CaptureInstance, @UpdateMask), given the instance's captured
   * columns and the BIGINT value of the mask, in captured-column order.
   */
  function ChangedColumnsFn(captured: seq<CapturedColumn>, mask: Option<bigint>): (r: seq<string>)
    ensures forall name :: name in r <==> exists c :: c in captured && c.name == name && IsChanged(c, GetBit1FromHex(mask))
    ensures |r| <= |captured|
  {
    if |captured| == 0 then []
    else
      var c := captured[0];
      assert forall d :: d in captured <==> d == c || d in captured[1..];
      (if IsChanged(c, GetBit1FromHex(mask)) then [c.name] else []) + ChangedColumnsFn(captured[1..], mask)
  }

  /** The whole rule in terms of the mask's bits. */
  predicate ReportsChanged(c: CapturedColumn, mask: Option<bigint>) {
    Reportable(c) && mask.Some? && mask.value > 0 && c.ordinal >= 1 && Bit(mask.value, c.ordinal - 1)
  }

  /**
   * A captured column is reported iff its ordinal is a set bit of a positive mask (bit 0 is
   * ordinal 1), it is not an identity column and its type is not timestamp.
   */
  lemma {:induction false} ChangedColumnsMeaning(captured: seq<CapturedColumn>, mask: Option<bigint>, name: string)
    ensures name in ChangedColumnsFn(captured, mask) <==> exists c :: c in captured && c.name == name && ReportsChanged(c, mask)
  {
    var positions := GetBit1FromHex(mask);
    var r := ChangedColumnsFn(captured, mask);
    if name in r {
      var c :| c in captured && c.name == name && IsChanged(c, positions);
      IsChangedIff(c, mask);
    }
    if exists c :: c in captured && c.name == name && ReportsChanged(c, mask) {
      var c :| c in captured && c.name == name && ReportsChanged(c, mask);
      IsChangedIff(c, mask);
    }
  }

  lemma {:induction false} IsChangedIff(c: CapturedColumn, mask: Option<bigint>)
    ensures IsChanged(c, GetBit1FromHex(mask)) <==> ReportsChanged(c, mask)
  {
    var decoded := mask.Some? && mask.value > 0 && c.ordinal >= 1 && Bit(mask.value, c.ordinal - 1);
    assert IsChanged(c, GetBit1FromHex(mask)) <==> c.ordinal in GetBit1FromHex(mask) && Reportable(c);
    assert ReportsChanged(c, mask) <==> Reportable(c) && decoded;
    DecodeMembership(mask, c.ordinal);
  }

  /** The binary types dbo.fn_cdc_GetBinaryColumns selects. */
  predicate IsBinaryType(typeName: string) {
    typeName == "image" || typeName == "varbinary" || typeName == "binary"
  }

  /** dbo.fn_cdc_GetBinaryColumns(@CaptureInstance): the captured columns of a binary type. */
  function BinaryColumnsFn(captured: seq<CapturedColumn>): (r: seq<string>)
    ensures forall name :: name in r <==>
      exists c :: c in captured && c.name == name && c.source.Some? && IsBinaryType(c.source.value.typeName)
    ensures |r| <= |captured|
  {
    if |captured| == 0 then []
    else
      var c := captured[0];
      assert forall d :: d in captured <==> d == c || d in captured[1..];
      (if c.source.Some? && IsBinaryType(c.source.value.typeName) then [c.name] else []) + BinaryColumnsFn(captured[1..])
  }
}
