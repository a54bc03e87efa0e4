/** Options, results and the errors of the modelled operations. */
module Wrappers {

  datatype Option<+T> = None | Some(value: T)

  datatype Result<+T> = Ok(value: T) | Err(error: Error)
  {
    predicate IsFailure() {
      Err?
    }

    function PropagateFailure<U>(): Result<U>
      requires Err?
    {
      Err(error)
    }

    function Extract(): T
      requires Ok?
    {
      value
    }
  }

  datatype Error =
    // the sharing crate
    | SharingMinThreshold
    | SharingInvalidIdentifier
    | SharingDuplicateIdentifier
    // the wire codec
    | InvalidVarint
    | Truncated
    | UnknownCodec(code: nat)
    | MissingSigil
    | InvalidUtf8
    | TooManyAttributes(count: nat)
    | InvalidAttributeValue(attribute: nat)
    | DuplicateAttribute(attribute: nat)
    | InputTooLarge(claimed: int)
    // the views
    | UnsupportedCodec
    | NotSecretKey
    | EncryptedKey
    | MissingKey
    // splitting keys
    | WrongScalarLength
    | NonCanonicalScalar
    | WrongSeedLength
    | UnsupportedCurve
    | BadVerifierLength
    | BadVerifier
    | FeldmanVerificationFailed
    | InvalidSplitParameters
    | NotAShare
    | MalformedShare
    | MissingVerifiers
    | NoShares
    | DifferentKeys
    | BadIdentifier
    | UnequalShareLengths
    // stateful signing
    | NotSigningKey
    | SigningFailed
    | InvalidSecretKey
    | MissingDepth
    | DepthMismatch(expected: nat, found: nat)
    | BadSignature
    | MissingMessage
    | MissingSignature
    // BLS threshold keys
    | DuplicateShare
    | NotASecretKey
    | IsAKeyShare
    | UnsupportedAlgorithm
    | MissingThreshold
    | MissingLimit
    | MissingShareIdentifier
    | ShareCombineFailed
    | NotEnoughShares
    | InvalidThresholdLimit
    | SliceOutOfRange
    // encryption at rest
    | MissingCodec
    | UnsupportedCipher
    | UnsupportedKdf
    | MissingNonce
    | NonceLengthPanic
    | MissingSalt
    | InvalidSaltLength
    | MissingRounds
    | BcryptFailed
    | InvalidKey
    | EncryptionFailed
    | DecryptionFailed
    // sealed messages
    | NotEncapsulationKey
    | NotDecapsulationKey
    | EncapsulationFailed
    | DecapsulationFailed
    | PublicKeyFailed
    | UnsupportedAeadCodec
    | KeyDerivationFailed
    | AeadSealFailed
    | AeadOpenFailed
    | InvalidFormat
}
