/**
 * The error taxonomy the invoke task classifies every failed attempt into,
 * and the commit validation codes a Hyperledger Fabric peer reports.
 */
module InvokeErrors {
  import opened Wrappers

  /** The three kinds of failure an attempt can end in. */
  datatype ErrorCode = TransientError | PersistentError | TimeoutOnCommit

  /**
   * Fabric's `TxValidationCode` is a protobuf enum, an int32 on the wire:
   * the commit event may carry any value of that range, not only the named ones.
   */
  newtype TxValidationCode = x: int | -0x8000_0000 <= x < 0x8000_0000

  const VALID: TxValidationCode := 0
  const DUPLICATE_TXID: TxValidationCode := 9
  const MVCC_READ_CONFLICT: TxValidationCode := 11
  const PHANTOM_READ_CONFLICT: TxValidationCode := 12

  /** The validation codes that signal an ordering or concurrency conflict a retry may clear. */
  predicate IsConflictCode(code: TxValidationCode) {
    code == DUPLICATE_TXID || code == MVCC_READ_CONFLICT || code == PHANTOM_READ_CONFLICT
  }

  /** What an error says about the attempt that produced it. */
  datatype Detail =
    | ProposalFailed(reason: string)                   // the submission call itself returned an error
    | CommitRejected(txID: string, validation: TxValidationCode, cause: Option<string>)
    | CommitTimedOut(txID: string)                      // no commit event before the timeout

  /** An error value of the invoke-error package: a classification and what caused it. */
  datatype InvokeError = InvokeError(code: ErrorCode, detail: Detail)
}
