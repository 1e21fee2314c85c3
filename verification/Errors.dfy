/** The errors the modelled code returns, and the limits it enforces. Free-text details are dropped, except
    where a branch of the code depends on them. */
module Errors {
  import opened Wrappers
  import opened ByteStrings

  datatype DosError =
    | TreeDepthExceeded(depth: nat, maxDepth: nat)
    | LeafSizeExceeded(size: nat, maxSize: nat)
    | ScanWindowExceeded(count: nat, maxCount: nat)
    | ResolverTimeExceeded

  datatype RgbPqError =
    // malformed seals
    | BadEncoding(detail: string)
    | UnknownVersion(version: byte)
    | BadLength(expected: nat, actual: nat)
    | UnknownChainId
    | UnsupportedAlgo(id: byte)
    | FeatureGated
    | UnsupportedTag(tag: byte)
    // commitments
    | Malformed(detail: string)
    | Duplicate
    | WrongChain
    | WrongSeal
    // `Invariant` with a message that starts with "DoS limit", which is what a DosError converts to
    | DosLimit(breach: DosError)
    // a statement the database engine did not execute
    | Persistence
    // whatever else a chain backend may answer
    | BackendFailure(code: int)

  type Outcome<+T> = Result<T, RgbPqError>

  datatype VerifyLimits = VerifyLimits(maxTreeDepth: u32, maxLeafSize: u64, maxScanWindow: u64) {
    function CheckTreeDepth(depth: u32): Outcome<()> {
      if depth > maxTreeDepth then Failure(DosLimit(TreeDepthExceeded(depth, maxTreeDepth))) else Success(())
    }

    function CheckLeafSize(size: nat): Outcome<()> {
      if size > maxLeafSize then Failure(DosLimit(LeafSizeExceeded(size, maxLeafSize))) else Success(())
    }

    function CheckScanWindow(count: nat): Outcome<()> {
      if count > maxScanWindow then Failure(DosLimit(ScanWindowExceeded(count, maxScanWindow))) else Success(())
    }
  }

  const DEFAULT_LIMITS := VerifyLimits(32, 256, 64)
}
