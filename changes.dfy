/**
 * GetChangesAsync and its two public entry points: check the capture instance, build the
 * ChangedSet, resolve the starting LSN, then read the maximum LSN, fetch the change rows, convert
 * them and (for all changes) merge update pairs, trying once more when a pair is found broken.
 */
module Changes {
  import opened Wrappers
  import opened Strings
  import opened CiMaps
  import opened Exceptions
  import opened Extensions
  import opened SqlFunctions
  import opened Db
  import opened ChangedRows
  import opened Merge
  import Enums
  import Consts
  import Cdc

  /** ChangedSet: what a change query returns. Rows stays null when there is nothing to read. */
  class ChangedSet {
    var sourceName: Option<string>
    var captureInstance: string
    var lastLsn: Option<ByteArray>
    var isNet: bool
    var binaryColumns: seq<string>
    var rows: Option<seq<ChangedRow>>

    constructor (captureInstance: string, sourceName: Option<string>, binaryColumns: seq<string>)
      ensures this.captureInstance == captureInstance && this.sourceName == sourceName
      ensures this.binaryColumns == binaryColumns
      ensures lastLsn.None? && !isNet && rows.None?
    {
      this.captureInstance := captureInstance;
      this.sourceName := sourceName;
      this.binaryColumns := binaryColumns;
      lastLsn := None;
      isNet := false;
      rows := None;
    }
  }

  /** Enumerable.FirstOrDefault on a list of strings. */
  function FirstOrDefault(s: seq<string>): Option<string> {
    if |s| == 0 then None else Some(s[0])
  }

  /** The case-insensitive Distinct keeps the first name listed at the front. */
  lemma {:induction false} DistinctKeepsFirst(s: seq<string>)
    ensures FirstOrDefault(Cdc.DistinctIgnoreCase(s)) == FirstOrDefault(s)
    decreases |s|
  {
    if |s| > 1 {
      var p := s[..|s| - 1];
      DistinctKeepsFirst(p);
      assert p[0] == s[0];
    }
  }

  /** ChangedSet.CreateAsync: the first source name listed for the instance, and its binary columns. */
  method CreateChangedSet(db: Database, ci: string) returns (result: ChangedSet)
    requires CheckNull(Some(ci)).Pass?
    modifies db`queries, db`functions, db`catalog
    ensures fresh(result)
    ensures result.captureInstance == ci && result.sourceName == FirstOrDefault(db.server.sourceNamesOf(Some(ci)))
    ensures result.binaryColumns == BinaryColumnsFn(db.server.capturedColumnsOf(ci))
    ensures result.lastLsn.None? && !result.isNet && result.rows.None?
    ensures db.functions == old(db.functions) + {Consts.FnGetBinaryColumns}
  {
    var names := Cdc.GetSourceNames(db, Some(ci));
    var binary := Cdc.GetBinaryColumns(db, Some(ci));
    DistinctKeepsFirst(db.server.sourceNamesOf(Some(ci)));
    result := new ChangedSet(ci, FirstOrDefault(names), binary.value);
  }

  // ---------------------------------------------------------------- one attempt, as a function

  /** Each item through f, in order; the first failure propagates (the loop stops at the first throw). */
  function MapResults<T, U>(f: T -> Result<U, ExceptionType>, items: seq<T>): Result<seq<U>, ExceptionType>
    decreases |items|
  {
    if |items| == 0 then Success([])
    else
      match MapResults(f, items[..|items| - 1])
      case Failure(e) => Failure(e)
      case Success(us) =>
        match f(items[|items| - 1])
        case Failure(e) => Failure(e)
        case Success(u) => Success(us + [u])
  }

  lemma {:induction false} MapResultsSuccess<T, U>(f: T -> Result<U, ExceptionType>, items: seq<T>)
    ensures MapResults(f, items).Success? <==> forall i :: 0 <= i < |items| ==> f(items[i]).Success?
    ensures MapResults(f, items).Success? ==>
      |MapResults(f, items).value| == |items| && forall i :: 0 <= i < |items| ==> MapResults(f, items).value[i] == f(items[i]).value
    decreases |items|
  {
    if |items| > 0 {
      var n := |items| - 1;
      var p := items[..n];
      MapResultsSuccess(f, p);
      assert forall i :: 0 <= i < n ==> p[i] == items[i];
    }
  }

  lemma {:induction false} MapResultsFailure<T, U>(f: T -> Result<U, ExceptionType>, items: seq<T>)
    ensures MapResults(f, items).Failure? ==>
      exists i :: 0 <= i < |items| && f(items[i]) == Failure(MapResults(f, items).error)
        && forall j :: 0 <= j < i ==> f(items[j]).Success?
    decreases |items|
  {
    if |items| > 0 {
      var n := |items| - 1;
      var p := items[..n];
      MapResultsFailure(f, p);
      MapResultsSuccess(f, p);
      assert forall i :: 0 <= i < n ==> p[i] == items[i];
      if MapResults(f, p).Failure? {
        var i :| 0 <= i < |p| && f(p[i]) == Failure(MapResults(f, p).error) && forall j :: 0 <= j < i ==> f(p[j]).Success?;
        assert f(items[i]) == Failure(MapResults(f, items).error);
      } else if f(items[n]).Failure? {
        assert f(items[n]) == Failure(MapResults(f, items).error);
      }
    }
  }

  lemma {:induction false} MapResultsPrefixFails<T, U>(f: T -> Result<U, ExceptionType>, items: seq<T>, k: nat)
    requires k <= |items| && MapResults(f, items[..k]).Failure?
    ensures MapResults(f, items) == MapResults(f, items[..k])
    decreases |items| - k
  {
    if k < |items| {
      assert items[..k + 1][..k] == items[..k];
      MapResultsPrefixFails(f, items, k + 1);
    } else {
      assert items[..k] == items;
    }
  }

  /** Every fetched row converted, in fetch order; the first failure propagates. */
  function ConvertAll(server: Server, ci: Option<string>, items: seq<CiMap<Value>>): Result<seq<ChangedRow>, ExceptionType> {
    MapResults(item => Converted(server, ci, item), items)
  }

  /** Conversion succeeds iff every row converts, row i giving result i. */
  lemma ConvertAllSuccess(server: Server, ci: Option<string>, items: seq<CiMap<Value>>)
    ensures ConvertAll(server, ci, items).Success? <==> forall i :: 0 <= i < |items| ==> Converted(server, ci, items[i]).Success?
    ensures ConvertAll(server, ci, items).Success? ==>
      |ConvertAll(server, ci, items).value| == |items|
      && forall i :: 0 <= i < |items| ==> ConvertAll(server, ci, items).value[i] == Converted(server, ci, items[i]).value
  {
    MapResultsSuccess(item => Converted(server, ci, item), items);
  }

  /** A failed conversion fails with the error of the first row that does not convert. */
  lemma ConvertAllFailure(server: Server, ci: Option<string>, items: seq<CiMap<Value>>)
    ensures ConvertAll(server, ci, items).Failure? ==>
      exists i :: 0 <= i < |items| && Converted(server, ci, items[i]) == Failure(ConvertAll(server, ci, items).error)
        && forall j :: 0 <= j < i ==> Converted(server, ci, items[j]).Success?
  {
    MapResultsFailure(item => Converted(server, ci, item), items);
  }

  /** Converting one more row appends it, or fails with its error. */
  lemma ConvertAllSnoc(server: Server, ci: Option<string>, items: seq<CiMap<Value>>, k: nat)
    requires k < |items| && ConvertAll(server, ci, items[..k]).Success?
    ensures ConvertAll(server, ci, items[..k + 1]) ==
      match Converted(server, ci, items[k])
      case Failure(e) => Failure(e)
      case Success(v) => Success(ConvertAll(server, ci, items[..k]).value + [v])
  {
    assert items[..k + 1][..k] == items[..k];
  }

  /** Once a prefix fails to convert, the whole list fails with the same error. */
  lemma ConvertAllPrefixFails(server: Server, ci: Option<string>, items: seq<CiMap<Value>>, k: nat)
    requires k <= |items| && ConvertAll(server, ci, items[..k]).Failure?
    ensures ConvertAll(server, ci, items) == ConvertAll(server, ci, items[..k])
  {
    MapResultsPrefixFails(item => Converted(server, ci, item), items, k);
  }

  /** What one change query asks for: instance, kind, LSN range start and row filter option. */
  datatype Request = Request(ci: string, isNet: bool, fromLsn: seq<byte>, option: string)

  /** CdcApi.GetChangesAsync's arguments for an attempt that read the given maximum LSN. */
  function ArgsFor(q: Request, lastLsn: seq<byte>): ChangesArgs {
    ChangesArgs(if !q.isNet then "all" else "net", q.ci, q.fromLsn, lastLsn, q.option)
  }

  /** The rows one fetch leads to: converted, then merged unless net changes were asked for. */
  function Assembled(server: Server, q: Request, fetched: Result<seq<CiMap<Value>>, ExceptionType>): Result<seq<ChangedRow>, ExceptionType> {
    match fetched
    case Failure(e) => Failure(e)
    case Success(items) =>
      match ConvertAll(server, Some(q.ci), items)
      case Failure(e) => Failure(e)
      case Success(rows) => if q.isNet then Success(rows) else MergeSpec(rows)
  }

  /** An LSN that IsNullEmptyOrZero rejects. */
  predicate NoLsn(a: Option<seq<byte>>) {
    a.None? || AllZero(a.value)
  }

  /** The exceptions converting a row can raise: a bad cast of a metadata column, or a repeated changed-column name. */
  lemma ConvertedErrors(server: Server, ci: Option<string>, source: CiMap<Value>)
    ensures Converted(server, ci, source).Failure? ==>
      Converted(server, ci, source).error in {InvalidCastException, NullReferenceException, ArgumentException}
  {
    MapAllMeaning(source);
    if MapAll(source).Success? {
      RetrievedMeaning(server, ci, MapAll(source).value);
    }
  }

  /**
   * The only exception an attempt retries on is the merge's missing-pair error, so a net-changes
   * query (which does not merge) has nothing to retry on.
   */
  lemma RetryableMeansBrokenPair(server: Server, q: Request, fetched: Result<seq<CiMap<Value>>, ExceptionType>)
    requires fetched.Failure? ==> fetched.error == ArgumentException
    ensures Assembled(server, q, fetched).Failure? ==>
      (IsRetryable(Assembled(server, q, fetched).error)
       <==> !q.isNet && Assembled(server, q, fetched).error == CdcWithoutCorrespondingOperationException)
  {
    var r := Assembled(server, q, fetched);
    if r.Failure? {
      if fetched.Success? {
        ConvertAllFailure(server, Some(q.ci), fetched.value);
        var c := ConvertAll(server, Some(q.ci), fetched.value);
        if c.Failure? {
          var i :| 0 <= i < |fetched.value| && Converted(server, Some(q.ci), fetched.value[i]) == Failure(c.error)
            && forall j :: 0 <= j < i ==> Converted(server, Some(q.ci), fetched.value[j]).Success?;
          ConvertedErrors(server, Some(q.ci), fetched.value[i]);
        } else {
          MergeErrors(c.value);
        }
      }
      OnlyConcreteRetryable(r.error);
    }
  }

  /**
   * A successful all-changes attempt yields the pairing of the converted rows: each broken-up
   * update merged into one row, one row fewer per pair, and nothing left to merge.
   */
  lemma AssembledAllChanges(server: Server, q: Request, items: seq<CiMap<Value>>)
    requires !q.isNet && Assembled(server, q, Success(items)).Success?
    ensures ConvertAll(server, Some(q.ci), items).Success?
    ensures var rows := ConvertAll(server, Some(q.ci), items).value;
      var out := Assembled(server, q, Success(items)).value;
      WellPaired(rows) && out == Paired(rows) && |out| == |items| - Openings(rows)
      && MergeSpec(out) == Success(out)
  {
    var rows := ConvertAll(server, Some(q.ci), items).value;
    ConvertAllSuccess(server, Some(q.ci), items);
    MergeSucceedsIff(rows);
    MergeIsPairing(rows);
    MergeIdempotent(rows);
  }

  // ---------------------------------------------------------------- the try block

  /** The byte arrays of the fetched rows were all read from this connection. */
  ghost predicate AllOwned(db: Database, items: seq<CiMap<Value>>)
    reads db
  {
    forall i :: 0 <= i < |items| ==> SourceOwned(db, items[i])
  }

  /** `foreach (var item in list) result.Rows.Add(await item.ToChangedRowAsync(...))`. */
  method ConvertInto(db: Database, result: ChangedSet, ci: string, items: seq<CiMap<Value>>, cache: MaskCache)
    returns (r: Outcome<ExceptionType>)
    requires db.Valid() && Coherent(cache, db, ci) && AllOwned(db, items) && result.rows == Some([])
    modifies result`rows, cache, db`queries, db`functions, db`catalog
    ensures db.Valid() && Coherent(cache, db, ci)
    ensures match ConvertAll(db.server, Some(ci), items)
      case Success(rows) => r == Pass && result.rows == Some(rows)
      case Failure(e) => r == Fail(e)
  {
    var k := 0;
    assert items[..0] == [];
    while k < |items|
      invariant 0 <= k <= |items|
      invariant db.heap == old(db.heap) && db.nextRef == old(db.nextRef)
      invariant db.Valid() && Coherent(cache, db, ci) && AllOwned(db, items)
      invariant result.rows.Some? && ConvertAll(db.server, Some(ci), items[..k]) == Success(result.rows.value)
    {
      var row := ToChangedRow(Some(items[k]), db, Some(ci), cache);
      ConvertAllSnoc(db.server, Some(ci), items, k);
      if row.Failure? {
        ConvertAllPrefixFails(db.server, Some(ci), items, k + 1);
        return Fail(row.error);
      }
      result.rows := Some(result.rows.value + [row.value.value]);
      k := k + 1;
    }
    assert items[..k] == items;
    r := Pass;
  }

  /** CdcApi.GetChangesAsync for the range up to the maximum LSN just read; its arrays are this connection's. */
  method FetchUpTo(db: Database, q: Request, lastLsn: seq<byte>, cache: MaskCache) returns (list: Result<seq<CiMap<Value>>, ExceptionType>)
    requires db.Valid() && CheckNull(Some(q.ci)).Pass? && Coherent(cache, db, q.ci)
    modifies db`fetches, db`nextRef, db`heap
    ensures db.Valid() && db.HeapExtends() && Coherent(cache, db, q.ci)
    ensures db.fetches == old(db.fetches) + [Fetch(ArgsFor(q, lastLsn), list)]
    ensures list.Failure? ==> list.error == ArgumentException
    ensures list.Success? ==> AllOwned(db, list.value)
  {
    var args := ArgsFor(q, lastLsn);
    list := db.Changes(args);
    if list.Success? {
      var items := list.value;
      forall i | 0 <= i < |items| ensures SourceOwned(db, items[i]) {
        assert |items[i]| == |db.server.changesIn(args)[i]|;
      }
    }
  }

  /** The fetched rows converted into Rows, then merged unless net changes were asked for. */
  method AssembleInto(db: Database, result: ChangedSet, q: Request, items: seq<CiMap<Value>>, cache: MaskCache)
    returns (r: Outcome<ExceptionType>)
    requires db.Valid() && Coherent(cache, db, q.ci) && AllOwned(db, items) && result.rows == Some([])
    modifies result`rows, cache, db`queries, db`functions, db`catalog
    ensures db.Valid() && Coherent(cache, db, q.ci)
    ensures match Assembled(db.server, q, Success(items))
      case Success(v) => r == Pass && result.rows == Some(v)
      case Failure(e) => r == Fail(e)
  {
    r := ConvertInto(db, result, q.ci, items, cache);
    if r.Fail? || q.isNet {
      return;
    }
    var merged := MergeChanges(result.rows.value);
    if merged.Failure? {
      return Fail(merged.error);
    }
    result.rows := Some(merged.value);
  }

  /**
   * What an attempt that read the n-th maximum LSN did, with the fetches it added: none and empty
   * Rows when there was no maximum LSN; otherwise one fetch up to it, and then either the rows
   * assembled from it and that LSN, or the exception assembling raised.
   */
  ghost predicate Attempted(server: Server, q: Request, n: nat, added: seq<Fetch>,
                            r: Outcome<ExceptionType>, rows: Option<seq<ChangedRow>>, lastLsn: Option<ByteArray>) {
    var max := server.maxLsnAt(n);
    if NoLsn(max) then
      r == Pass && rows == Some([]) && added == []
    else
      && |added| == 1 && added[0].args == ArgsFor(q, max.value)
      && (added[0].rows.Failure? ==> added[0].rows.error == ArgumentException)
      && match Assembled(server, q, added[0].rows)
         case Success(v) => r == Pass && rows == Some(v) && lastLsn.Some? && lastLsn.value.bytes == max.value
         case Failure(e) => r == Fail(e)
  }

  /**
   * The body of the try block: reset Rows, read the maximum LSN (none: stop with no rows), fetch,
   * convert each row in order, merge unless net, and record the maximum LSN read.
   */
  method Attempt(db: Database, result: ChangedSet, q: Request, cache: MaskCache) returns (r: Outcome<ExceptionType>)
    requires db.Valid() && CheckNull(Some(q.ci)).Pass? && Coherent(cache, db, q.ci)
    modifies result`rows, result`lastLsn, cache, db`queries, db`maxLsnReads, db`nextRef, db`heap, db`fetches, db`functions, db`catalog
    ensures db.Valid() && db.HeapExtends() && Coherent(cache, db, q.ci)
    ensures db.maxLsnReads == old(db.maxLsnReads) + 1
    ensures r.Fail? || NoLsn(db.server.maxLsnAt(old(db.maxLsnReads))) ==> result.lastLsn == old(result.lastLsn)
    ensures |db.fetches| >= |old(db.fetches)| && db.fetches[..|old(db.fetches)|] == old(db.fetches)
    ensures Attempted(db.server, q, old(db.maxLsnReads), db.fetches[|old(db.fetches)|..], r, result.rows, result.lastLsn)
  {
    result.rows := Some([]);
    var lastLsn := db.MaxLsn();
    if IsNullEmptyOrZero(lastLsn) {
      return Pass;
    }
    var list := FetchUpTo(db, q, lastLsn.value.bytes, cache);
    if list.Failure? {
      return Fail(list.error);
    }
    r := AssembleInto(db, result, q, list.value, cache);
    if r.Pass? {
      result.lastLsn := lastLsn;
    }
  }

  // ---------------------------------------------------------------- the retry loop

  /** The starting LSN: the caller's, or the instance's minimum LSN when the caller's is null or zero. */
  function StartLsn(server: Server, ci: string, fromLsn: Option<ByteArray>): Option<seq<byte>> {
    if IsNullEmptyOrZero(fromLsn) then server.minLsnOf(ci) else Some(fromLsn.value.bytes)
  }

  /** `rowFilterOption ??= defaultRowFilterOption`. */
  function Chosen(option: Option<Enums.RowFilterOption>, defaultOption: Enums.RowFilterOption): Enums.RowFilterOption {
    if option.Some? then option.value else defaultOption
  }

  /** The attempt that made this fetch threw an exception the catch clause takes. */
  ghost predicate RetryableFailure(server: Server, q: Request, f: Fetch) {
    Assembled(server, q, f.rows).Failure? && IsRetryable(Assembled(server, q, f.rows).error)
  }

  /**
   * The attempts made while the maximum-LSN reads went from n0 to n, with fetches fs: one
   * attempt, or two when the first (in all-changes mode) threw a retryable exception; one fetch
   * per attempt that found a maximum LSN, asking for the range up to it.
   */
  ghost predicate Tries(server: Server, q: Request, n0: nat, n: nat, fs: seq<Fetch>) {
    && (n == n0 + 1 || (n == n0 + 2 && !q.isNet && |fs| >= 1 && RetryableFailure(server, q, fs[0])))
    && |fs| == (if NoLsn(server.maxLsnAt(n - 1)) then n - n0 - 1 else n - n0)
    && forall j :: 0 <= j < |fs| ==>
      && !NoLsn(server.maxLsnAt(n0 + j)) && fs[j].args == ArgsFor(q, server.maxLsnAt(n0 + j).value)
      && (fs[j].rows.Failure? ==> fs[j].rows.error == ArgumentException)
  }

  /**
   * How the attempts ended, for maximum-LSN reads n0 to n and fetches fs: the last attempt found
   * no maximum LSN (Rows empty), or its rows and maximum LSN were recorded, or its exception
   * propagates (after the retry, in net mode, or because it is not retryable).
   */
  ghost predicate Finished(server: Server, q: Request, n0: nat, n: nat, fs: seq<Fetch>,
                           r: Outcome<ExceptionType>, rows: Option<seq<ChangedRow>>, lastLsn: Option<ByteArray>) {
    && n > n0 && Tries(server, q, n0, n, fs)
    && (NoLsn(server.maxLsnAt(n - 1)) ==> r == Pass && rows == Some([]) && lastLsn.None?)
    && (!NoLsn(server.maxLsnAt(n - 1)) ==>
      match Assembled(server, q, fs[|fs| - 1].rows)
      case Success(v) => r == Pass && rows == Some(v) && lastLsn.Some? && lastLsn.value.bytes == server.maxLsnAt(n - 1).value
      case Failure(e) => r == Fail(e) && (n == n0 + 2 || q.isNet || !IsRetryable(e)))
  }

  /** The first attempt, which read the n0-th maximum LSN, fetched f and threw a retryable exception. */
  ghost predicate RetryPending(server: Server, q: Request, n0: nat, f: Fetch) {
    && !NoLsn(server.maxLsnAt(n0)) && f.args == ArgsFor(q, server.maxLsnAt(n0).value)
    && RetryableFailure(server, q, f) && (f.rows.Failure? ==> f.rows.error == ArgumentException)
  }

  /** An attempt that threw a retryable exception made exactly one fetch, and that fetch is why. */
  lemma RetryAfterFailure(server: Server, q: Request, n0: nat, added: seq<Fetch>,
                          r: Outcome<ExceptionType>, rows: Option<seq<ChangedRow>>, lastLsn: Option<ByteArray>)
    requires Attempted(server, q, n0, added, r, rows, lastLsn) && r.Fail? && IsRetryable(r.error)
    ensures |added| == 1 && RetryPending(server, q, n0, added[0])
  {
  }

  /** A first attempt that ends the loop finishes it. */
  lemma FirstAttemptFinishes(server: Server, q: Request, n0: nat, added: seq<Fetch>,
                             r: Outcome<ExceptionType>, rows: Option<seq<ChangedRow>>, lastLsn: Option<ByteArray>)
    requires Attempted(server, q, n0, added, r, rows, lastLsn)
    requires NoLsn(server.maxLsnAt(n0)) ==> lastLsn.None?
    requires r.Fail? ==> q.isNet || !IsRetryable(r.error)
    ensures Finished(server, q, n0, n0 + 1, added, r, rows, lastLsn)
  {
  }

  /** A second attempt, after a first one that fetched and threw a retryable exception, finishes the loop. */
  lemma SecondAttemptFinishes(server: Server, q: Request, n0: nat, first: Fetch, added: seq<Fetch>,
                              r: Outcome<ExceptionType>, rows: Option<seq<ChangedRow>>, lastLsn: Option<ByteArray>)
    requires !q.isNet && RetryPending(server, q, n0, first)
    requires Attempted(server, q, n0 + 1, added, r, rows, lastLsn)
    requires NoLsn(server.maxLsnAt(n0 + 1)) ==> lastLsn.None?
    ensures Finished(server, q, n0, n0 + 2, [first] + added, r, rows, lastLsn)
  {
    var fs := [first] + added;
    assert forall j :: 1 <= j < |fs| ==> fs[j] == added[j - 1];
  }

  /** A second attempt happens only in all-changes mode, after the first one's merge met an UpdateOld row without its Update. */
  lemma RetriedOnlyOnBrokenPair(server: Server, q: Request, n0: nat, n: nat, fs: seq<Fetch>,
                                r: Outcome<ExceptionType>, rows: Option<seq<ChangedRow>>, lastLsn: Option<ByteArray>)
    requires Finished(server, q, n0, n, fs, r, rows, lastLsn) && n == n0 + 2
    ensures !q.isNet && Assembled(server, q, fs[0].rows) == Failure(CdcWithoutCorrespondingOperationException)
  {
    RetryableMeansBrokenPair(server, q, fs[0].rows);
  }

  /**
   * One turn of the retry loop, on values: before and after are the fetch log around the attempt,
   * f0 its length when the loop started, second whether this is the attempt after a retry. The
   * loop either finishes, or goes round again with the retry pending.
   */
  lemma AfterAttempt(server: Server, q: Request, n0: nat, n: nat, f0: nat, second: bool, before: seq<Fetch>, after: seq<Fetch>,
                     r: Outcome<ExceptionType>, rows: Option<seq<ChangedRow>>, lastLsn: Option<ByteArray>)
    requires n == n0 + (if second then 2 else 1)
    requires |before| == f0 + (if second then 1 else 0) && |after| >= |before| && after[..|before|] == before
    requires second ==> !q.isNet && RetryPending(server, q, n0, before[f0])
    requires Attempted(server, q, n - 1, after[|before|..], r, rows, lastLsn)
    requires NoLsn(server.maxLsnAt(n - 1)) ==> lastLsn.None?
    ensures r.Pass? || !IsRetryable(r.error) || second || q.isNet ==>
      Finished(server, q, n0, n, after[f0..], r, rows, lastLsn)
    ensures !(r.Pass? || !IsRetryable(r.error) || second || q.isNet) ==>
      |after| == f0 + 1 && RetryPending(server, q, n0, after[f0])
  {
    var added := after[|before|..];
    assert after == before + added;
    if r.Pass? || !IsRetryable(r.error) || second || q.isNet {
      if second {
        assert before[f0..] == [before[f0]];
        SecondAttemptFinishes(server, q, n0, before[f0], added, r, rows, lastLsn);
        assert after[f0..] == [before[f0]] + added;
      } else {
        FirstAttemptFinishes(server, q, n0, added, r, rows, lastLsn);
        assert after[f0..] == added;
      }
    } else {
      RetryAfterFailure(server, q, n0, added, r, rows, lastLsn);
      assert after[f0] == added[0];
    }
  }

  /** The `Retry:` label, the try block and the catch clause; hasRetried starts as isNet. */
  method Retrying(db: Database, result: ChangedSet, q: Request) returns (r: Outcome<ExceptionType>)
    requires db.Valid() && CheckNull(Some(q.ci)).Pass? && result.lastLsn.None?
    modifies result`rows, result`lastLsn, db`queries, db`maxLsnReads, db`nextRef, db`heap, db`fetches, db`functions, db`catalog
    ensures db.Valid()
    ensures |db.fetches| >= |old(db.fetches)| && db.fetches[..|old(db.fetches)|] == old(db.fetches)
    ensures Finished(db.server, q, old(db.maxLsnReads), db.maxLsnReads, db.fetches[|old(db.fetches)|..], r, result.rows, result.lastLsn)
  {
    var cache := new MaskCache();
    var hasRetried := q.isNet;
    ghost var n0 := db.maxLsnReads;
    ghost var f0 := |db.fetches|;
    while true
      invariant db.Valid() && Coherent(cache, db, q.ci)
      invariant result.lastLsn.None?
      invariant n0 == old(db.maxLsnReads) && f0 == |old(db.fetches)|
      invariant db.maxLsnReads == n0 + (if hasRetried && !q.isNet then 1 else 0)
      invariant |db.fetches| == f0 + (if hasRetried && !q.isNet then 1 else 0) && db.fetches[..f0] == old(db.fetches)
      invariant hasRetried && !q.isNet ==> RetryPending(db.server, q, n0, db.fetches[f0])
      decreases if hasRetried then 0 else 1
    {
      ghost var before := db.fetches;
      var outcome := Attempt(db, result, q, cache);
      AfterAttempt(db.server, q, old(db.maxLsnReads), db.maxLsnReads, |old(db.fetches)|, hasRetried && !q.isNet,
                   before, db.fetches, outcome, result.rows, result.lastLsn);
      if outcome.Pass? || !IsRetryable(outcome.error) || hasRetried {
        return outcome;
      }
      hasRetried := true;
    }
  }

  /**
   * The part of GetChangesAsync after the set is created: find the starting LSN (none: stop with
   * Rows null and nothing fetched), then run the attempts from it.
   */
  method FetchFrom(db: Database, result: ChangedSet, ci: string, isNet: bool, fromLsn: Option<ByteArray>, option: string,
                   ghost n0: nat, ghost fs0: seq<Fetch>)
    returns (r: Outcome<ExceptionType>)
    requires db.Valid() && CheckNull(Some(ci)).Pass? && result.lastLsn.None? && result.rows.None?
    requires n0 == db.maxLsnReads && fs0 == db.fetches
    modifies result`rows, result`lastLsn, db`queries, db`maxLsnReads, db`nextRef, db`heap, db`fetches, db`functions, db`catalog
    ensures db.Valid()
    ensures |db.fetches| >= |fs0| && db.fetches[..|fs0|] == fs0
    ensures NoLsn(StartLsn(db.server, ci, fromLsn)) ==>
      && r == Pass && result.rows.None? && result.lastLsn.None?
      && db.fetches == fs0 && db.maxLsnReads == n0
    ensures !NoLsn(StartLsn(db.server, ci, fromLsn)) ==>
      Finished(db.server, Request(ci, isNet, StartLsn(db.server, ci, fromLsn).value, option),
               n0, db.maxLsnReads, db.fetches[|fs0|..], r, result.rows, result.lastLsn)
  {
    var from := fromLsn;
    if IsNullEmptyOrZero(from) {
      from := db.MinLsn(ci);
      if IsNullEmptyOrZero(from) {
        return Pass;
      }
    }
    var q := Request(ci, isNet, from.value.bytes, option);
    r := Retrying(db, result, q);
  }

  /**
   * GetChangesAsync. A blank instance throws ArgumentNullException. With no usable starting LSN
   * the set comes back with Rows null and nothing fetched. Otherwise the attempts run as Finished
   * describes, asking for the chosen row filter option from the starting LSN.
   */
  method GetChanges(db: Database, ci: Option<string>, isNet: bool, defaultOption: Enums.RowFilterOption,
                    fromLsn: Option<ByteArray>, option: Option<Enums.RowFilterOption>)
    returns (r: Result<ChangedSet, ExceptionType>)
    requires db.Valid()
    modifies db`queries, db`maxLsnReads, db`nextRef, db`heap, db`fetches, db`functions, db`catalog
    ensures db.Valid()
    ensures |db.fetches| >= |old(db.fetches)| && db.fetches[..|old(db.fetches)|] == old(db.fetches)
    ensures CheckNull(ci).Fail? ==>
      r == Failure(ArgumentNullException) && db.fetches == old(db.fetches) && db.maxLsnReads == old(db.maxLsnReads)
      && db.queries == old(db.queries) && db.functions == old(db.functions) && db.catalog == old(db.catalog)
    ensures CheckNull(ci).Pass? && r.Success? ==>
      && fresh(r.value) && r.value.captureInstance == ci.value && r.value.isNet == isNet
      && r.value.sourceName == FirstOrDefault(db.server.sourceNamesOf(ci))
      && r.value.binaryColumns == BinaryColumnsFn(db.server.capturedColumnsOf(ci.value))
    ensures CheckNull(ci).Pass? && NoLsn(StartLsn(db.server, ci.value, fromLsn)) ==>
      && r.Success? && r.value.rows.None? && r.value.lastLsn.None?
      && db.fetches == old(db.fetches) && db.maxLsnReads == old(db.maxLsnReads)
    ensures CheckNull(ci).Pass? && !NoLsn(StartLsn(db.server, ci.value, fromLsn)) ==>
      var q := Request(ci.value, isNet, StartLsn(db.server, ci.value, fromLsn).value, Chosen(option, defaultOption).ToString());
      && (r.Success? ==> Finished(db.server, q, old(db.maxLsnReads), db.maxLsnReads, db.fetches[|old(db.fetches)|..], Pass, r.value.rows, r.value.lastLsn))
      && (r.Failure? ==> exists rows, lastLsn :: Finished(db.server, q, old(db.maxLsnReads), db.maxLsnReads, db.fetches[|old(db.fetches)|..], Fail(r.error), rows, lastLsn))
  {
    var check := CheckNull(ci);
    if check.Fail? {
      return Failure(check.error);
    }
    var result := CreateChangedSet(db, ci.value);
    result.isNet := isNet;
    var outcome := FetchFrom(db, result, ci.value, isNet, fromLsn, Chosen(option, defaultOption).ToString(),
                             old(db.maxLsnReads), old(db.fetches));
    if outcome.Fail? {
      assert outcome == Fail(outcome.error);
      return Failure(outcome.error);
    }
    assert outcome == Pass;
    r := Success(result);
  }

  /** GetAllChangesAsync: all changes, merged, filtered "all update old" unless told otherwise; at most two attempts. */
  method GetAllChanges(db: Database, ci: Option<string>, fromLsn: Option<ByteArray>, option: Option<Enums.AllChangesRowFilterOption>)
    returns (r: Result<ChangedSet, ExceptionType>)
    requires db.Valid()
    modifies db`queries, db`maxLsnReads, db`nextRef, db`heap, db`fetches, db`functions, db`catalog
    ensures db.Valid()
    ensures db.maxLsnReads <= old(db.maxLsnReads) + 2
    ensures r.Success? ==> !r.value.isNet
    ensures |db.fetches| >= |old(db.fetches)|
    ensures forall j :: |old(db.fetches)| <= j < |db.fetches| ==>
      db.fetches[j].args.kind == "all"
      && db.fetches[j].args.rowFilterOption == (if option.Some? then option.value else Enums.AllChangesRowFilterOption.AllUpdateOld).Value()
  {
    var chosen := if option.Some? then Some(Enums.RowFilterOption.AllChanges(option.value)) else None;
    r := GetChanges(db, ci, false, Enums.RowFilterOption.AllChanges(Enums.AllChangesRowFilterOption.AllUpdateOld), fromLsn, chosen);
  }

  /** GetNetChangesAsync: net changes, never merged, filtered "all with mask" unless told otherwise; one attempt only. */
  method GetNetChanges(db: Database, ci: Option<string>, fromLsn: Option<ByteArray>, option: Option<Enums.NetChangesRowFilterOption>)
    returns (r: Result<ChangedSet, ExceptionType>)
    requires db.Valid()
    modifies db`queries, db`maxLsnReads, db`nextRef, db`heap, db`fetches, db`functions, db`catalog
    ensures db.Valid()
    ensures db.maxLsnReads <= old(db.maxLsnReads) + 1
    ensures r.Success? ==> r.value.isNet
    ensures |db.fetches| >= |old(db.fetches)|
    ensures forall j :: |old(db.fetches)| <= j < |db.fetches| ==>
      db.fetches[j].args.kind == "net"
      && db.fetches[j].args.rowFilterOption == (if option.Some? then option.value else Enums.NetChangesRowFilterOption.AllWithMask).Value()
  {
    var chosen := if option.Some? then Some(Enums.RowFilterOption.NetChanges(option.value)) else None;
    r := GetChanges(db, ci, true, Enums.RowFilterOption.NetChanges(Enums.NetChangesRowFilterOption.AllWithMask), fromLsn, chosen);
  }
}
