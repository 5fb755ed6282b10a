/** The program's error codes, plus the failures the runtime itself reports. */
module ProgramErrors {
  datatype ErrorCode =
    | PoolPaused | PoolSaturated | TreeFull | RootNotFound | NullifierAlreadySpent | InvalidProof
    | InvalidWithdrawalCommitment | RelayerFeeExceedsMax | FeeInvariantViolated | DenominationTooLow
    | VersionTooHigh | PoseidonFailed | InvalidPoolPda | InvalidVaultPda | InvalidTreasury
    | RelayerNotSigner | ArithmeticOverflow | InvalidSystemProgram | InsufficientVaultBalance
    | NonCanonicalPublicInput | RelayerFeeMaxTooHigh | UserAmountZero | DuplicateAccount
    // raised outside the program
    | MissingSignature | SystemTransferFailed | BelowRentMinimum | LamportOverflow

  datatype Result<+T> = Ok(value: T) | Err(error: ErrorCode)
}
