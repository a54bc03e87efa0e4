/** The attribute identifiers and their one-byte codes. */
module AttrIds {
  import opened Wrappers

  datatype AttrId =
    | KeyIsEncrypted | KeyData | CipherCodec | CipherKeyLen | CipherNonce | KdfCodec | KdfSalt | KdfRounds
    | Threshold | Limit | ShareIdentifier | ThresholdData
    | DkgOwnerId | DkgParticipants | DkgThreshold | DkgLimit | DkgGroupPublicKey | DkgIdentifier | DkgSessionId
    | ShareVerifiers | ShareDual
    | ThresholdGroupPublicKey | ThresholdParticipants | ThresholdMarkerSig
    | ThresholdDisclosure | EncryptedThresholdMeta | ThresholdMetaCipher
    | AlgorithmName | KeyType | Depth

  const COUNT: nat := 30

  function Code(id: AttrId): nat {
    match id
    case KeyIsEncrypted => 0
    case KeyData => 1
    case CipherCodec => 2
    case CipherKeyLen => 3
    case CipherNonce => 4
    case KdfCodec => 5
    case KdfSalt => 6
    case KdfRounds => 7
    case Threshold => 8
    case Limit => 9
    case ShareIdentifier => 10
    case ThresholdData => 11
    case DkgOwnerId => 12
    case DkgParticipants => 13
    case DkgThreshold => 14
    case DkgLimit => 15
    case DkgGroupPublicKey => 16
    case DkgIdentifier => 17
    case DkgSessionId => 18
    case ShareVerifiers => 19
    case ShareDual => 20
    case ThresholdGroupPublicKey => 21
    case ThresholdParticipants => 22
    case ThresholdMarkerSig => 23
    case ThresholdDisclosure => 24
    case EncryptedThresholdMeta => 25
    case ThresholdMetaCipher => 26
    case AlgorithmName => 27
    case KeyType => 28
    case Depth => 29
  }

  function FromCode(c: nat): Result<AttrId> {
    match c
    case 0 => Ok(KeyIsEncrypted)
    case 1 => Ok(KeyData)
    case 2 => Ok(CipherCodec)
    case 3 => Ok(CipherKeyLen)
    case 4 => Ok(CipherNonce)
    case 5 => Ok(KdfCodec)
    case 6 => Ok(KdfSalt)
    case 7 => Ok(KdfRounds)
    case 8 => Ok(Threshold)
    case 9 => Ok(Limit)
    case 10 => Ok(ShareIdentifier)
    case 11 => Ok(ThresholdData)
    case 12 => Ok(DkgOwnerId)
    case 13 => Ok(DkgParticipants)
    case 14 => Ok(DkgThreshold)
    case 15 => Ok(DkgLimit)
    case 16 => Ok(DkgGroupPublicKey)
    case 17 => Ok(DkgIdentifier)
    case 18 => Ok(DkgSessionId)
    case 19 => Ok(ShareVerifiers)
    case 20 => Ok(ShareDual)
    case 21 => Ok(ThresholdGroupPublicKey)
    case 22 => Ok(ThresholdParticipants)
    case 23 => Ok(ThresholdMarkerSig)
    case 24 => Ok(ThresholdDisclosure)
    case 25 => Ok(EncryptedThresholdMeta)
    case 26 => Ok(ThresholdMetaCipher)
    case 27 => Ok(AlgorithmName)
    case 28 => Ok(KeyType)
    case 29 => Ok(Depth)
    case _ => Err(InvalidAttributeValue(c))
  }

  lemma FromCodeOfCode(id: AttrId)
    ensures Code(id) < COUNT && FromCode(Code(id)) == Ok(id)
  {}

  lemma CodeOfFromCode(c: nat)
    ensures FromCode(c).Ok? <==> c < COUNT
    ensures FromCode(c).Ok? ==> Code(FromCode(c).value) == c
  {}

  /** The two tables are inverse to each other, so codes identify attributes. */
  lemma CodesInverse(id: AttrId, c: nat)
    ensures FromCode(c) == Ok(id) <==> c == Code(id)
  {
    FromCodeOfCode(id);
    CodeOfFromCode(c);
  }
}
