/**
 * The exception types the core raises or lets through, with their base classes. A failure is
 * modelled by the type of the exception thrown; messages and inner exceptions are not kept.
 */
module Exceptions {
  import opened Wrappers

  datatype ExceptionType =
    | Exception
    | ArgumentException
    | ArgumentNullException
    | InvalidCastException
    | NullReferenceException
    | SqlException
    | CdcException
    | CdcRequireRetrieveChangedColumnsException
    | CdcRequireRetryException
    | CdcWithoutCorrespondingOperationException
  {
    /** The direct base class; System.Exception has none. */
    function Base(): Option<ExceptionType> {
      match this
      case Exception => None
      case ArgumentException => Some(Exception)
      case ArgumentNullException => Some(ArgumentException)
      case InvalidCastException => Some(Exception)
      case NullReferenceException => Some(Exception)
      case SqlException => Some(Exception)
      case CdcException => Some(Exception)
      case CdcRequireRetrieveChangedColumnsException => Some(CdcException)
      case CdcRequireRetryException => Some(CdcException)
      case CdcWithoutCorrespondingOperationException => Some(CdcRequireRetryException)
    }

    /** Distance to System.Exception along the base-class chain. */
    function Depth(): nat {
      match this
      case Exception => 0
      case ArgumentException => 1
      case ArgumentNullException => 2
      case InvalidCastException => 1
      case NullReferenceException => 1
      case SqlException => 1
      case CdcException => 1
      case CdcRequireRetrieveChangedColumnsException => 2
      case CdcRequireRetryException => 2
      case CdcWithoutCorrespondingOperationException => 3
    }

    /** Only CdcRequireRetryException is declared abstract: nothing throws it directly. */
    predicate IsAbstract() {
      this == CdcRequireRetryException
    }
  }

  /** `t is u`: t is u or derives from it. */
  predicate IsA(t: ExceptionType, u: ExceptionType)
    decreases t.Depth()
  {
    t == u || (t.Base().Some? && t.Base().value.Depth() < t.Depth() && IsA(t.Base().value, u))
  }

  /** What `catch (CdcRequireRetryException)` catches. */
  predicate IsRetryable(t: ExceptionType) {
    IsA(t, CdcRequireRetryException)
  }

  /** The library's own exception types. */
  predicate IsLibraryError(t: ExceptionType) {
    t == CdcException || t == CdcRequireRetrieveChangedColumnsException
    || t == CdcRequireRetryException || t == CdcWithoutCorrespondingOperationException
  }

  /** The pairing error derives from CdcRequireRetryException; the unresolved-columns error does not. */
  lemma RetryableSplit()
    ensures IsRetryable(CdcWithoutCorrespondingOperationException)
    ensures !IsRetryable(CdcRequireRetrieveChangedColumnsException)
  {
    assert IsA(CdcRequireRetryException, CdcRequireRetryException);
    assert !IsA(CdcException, CdcRequireRetryException) by {
      assert !IsA(Exception, CdcRequireRetryException);
    }
  }

  /** The only concrete retryable type is the missing-operation error. */
  lemma {:induction false} OnlyConcreteRetryable(t: ExceptionType)
    ensures IsRetryable(t) && !t.IsAbstract() <==> t == CdcWithoutCorrespondingOperationException
  {
    RetryableSplit();
    assert !IsA(Exception, CdcRequireRetryException);
    assert !IsA(CdcException, CdcRequireRetryException);
    assert !IsA(ArgumentException, CdcRequireRetryException);
  }

  /** Every library error is a CdcException, and the system exceptions are not. */
  lemma {:induction false} LibraryErrorsAreCdcExceptions(t: ExceptionType)
    ensures IsA(t, CdcException) <==> IsLibraryError(t)
  {
    assert IsA(CdcException, CdcException);
    assert IsA(CdcRequireRetryException, CdcException);
    assert !IsA(Exception, CdcException);
    assert !IsA(ArgumentException, CdcException);
  }
}
