# Verification of the multi-key container

A Dafny model of the stateful, threshold and encoding logic of the multi-key crate, and proofs of what it
guarantees. A multikey is a codec, a comment and a map of attributes. Around that container the crate builds a
wire format, splitting of private keys into threshold shares, a stateful Merkle-tree signing key, an accumulator
for BLS12-381 key shares, encryption of keys at rest, and messages sealed to a FrodoKEM key.

`dafny verify dfyconfig.toml` checks the whole project.

## How the model is laid out

| files | what they model |
|---|---|
| `Wrappers`, `Bytes`, `Chunks`, `OrderedKeys` | results and errors, bytes and fixed-width numbers, concatenated pieces, the key order of an ordered map |
| `Codecs`, `AttrIds`, `Varints` | the codec and attribute tables, LEB128 integers and length-prefixed bytes |
| `Wire`, `WireTheorems`, `WireCodec` | the wire format as functions, what it guarantees, and the in-place encoder and cursor decoder proved equal to it |
| `Views`, `ViewTheorems` | the attribute and data views that operations read keys through, and what they read family by family |
| `Fields`, `Polynomials`, `PrimeField`, `Sharing` | finite fields, interpolation, integers modulo a prime, Shamir and Feldman sharing |
| `FeldmanCurve`, `ByteSharing`, `KeySplit`, `KeySplitTheorems`, `KeySplitAcceptance` | splitting and recombining private keys |
| `MerkleTree`, `LamportMerkle`, `LamportMerkleTheorems`, `LamportMerkleAcceptance` | the stateful signing key and whole runs of it |
| `BlsShares`, `BlsTheorems`, `BlsAccumulator`, `BlsAcceptance`, `KeyBuilder` | the nested share codec, the accumulator, and the builder that folds shares |
| `Encryption`, `EncryptionTheorems` | deriving a cipher key, encrypting, rebuilding parameters, decrypting |
| `Sealed` | sealing to and opening with a FrodoKEM key |

Code that only computes is a function here, with lemmas about it. Code that loops over buffers, cursors and maps,
or overwrites the fields of an object, is a method or a class, and its `ensures` equates the result or the new
state with such a function: `WireCodec.EncodeInPlace` and `WireCodec.TryDecode`, `BlsShares.DecodeThresholdData`
and `BlsShares.AddKeyShare`, `KeyBuilder.Builder`, `KeySplit.CombineShares`, `LamportMerkle.SigningKey`,
`Encryption.DeriveCipherKey`, `Encryption.EncryptKey`, `Encryption.DecryptKey`, `Encryption.CipherBuilder`,
`Encryption.KdfBuilder`, `Sealed.EncodeKemSealed`.

## What is assumed

The crates underneath are not part of this model. What is used of them:

- `Codecs.Sound`: the multicodec table is a bijection between codecs and their codes, below 2^64.
- `Varints`: the varint decoder accepts minimal forms only (the unsigned-varint specification). A length prefix may
  announce at most 16 MiB. A boolean varint is true when it is not zero; a 32-byte identifier is read as 32 raw bytes.
- `Sharing`, `FeldmanCurve.CurveOk`, `ByteSharing.ByteField`: the sharing crate is textbook Shamir and Feldman, with
  shares at 1, 2, ..., n; it combines by Lagrange interpolation after rejecting fewer than two shares and zero or
  repeated identifiers. A curve's group is cyclic of prime order; its encoding of points decodes back. The byte field
  is any field with 256 elements. Random coefficients are arguments, so the results hold for every choice of them.
- `KeySplit.SystemOk`: CBOR decoding inverts CBOR encoding; the curve laws are assumed of the one curve that belongs to
  the key's codec, whose group is the type parameter.
- `LamportMerkle.SchemeOk`: hashes have the digest's length, and the leaf recovered from a one-time signature is the
  leaf of the block that signed. The layout of a state after its first three bytes and the layout of a signature
  follow the description at `src/views/lamport_merkle.rs:886`; the crate's own byte parser is taken to check the
  exact length.
- `BlsTheorems.OrderOk`: the scalar field has a prime order that fits 32 bytes; the ordered map of shares is ordered
  by identifier.
- `Encryption.CryptoOk`: opening undoes sealing and sealing adds 16 bytes (ChaCha20-Poly1305, section 2.8 of RFC 8439); a
  derived key has the requested length.
- `Sealed.Correct`: decapsulation agrees with encapsulation, a derived key has the requested length, opening undoes
  sealing, and a ciphertext is 16 bytes longer than its plaintext.

## What does not hold

Where a promise is not kept on all inputs, the model follows the code and a lemma says exactly when it is kept.

- The encoder writes keys that the decoder rejects: past 16 MiB (`WireTheorems.RoundTrip`).
- Recombining split key shares never counts them, although `src/keysplit.rs:533-535` asks for at least the threshold
  (`KeySplitTheorems.RecombinesExactly`), and it drops comment and attributes (`KeySplitTheorems.RecoversWholeKeyExactly`).
- The change log (`CHANGELOG.md:82`) says that signing preserves all attributes but the key data
  (`LamportMerkleTheorems.AttributesKeptExactly`). A combined signature on an empty message cannot be verified from
  itself (`LamportMerkleTheorems.VerifiesUnderAnyState`).
- A BLS accumulator records the threshold and limit of the last share, where the comment at
  `src/views/bls12381.rs:960-961` says the first (`BlsAccumulator.RecordsFirstExactly`), so the order of shares can show
  (`BlsAccumulator.OrderIndependent`). A split uses only the first 32 bytes of a longer key (`BlsAccumulator.RestoresExactly`).
- Keys whose view ignores the flag `KeyIsEncrypted` can be encrypted but never decrypted, and give out the ciphertext
  as their secret (`EncryptionTheorems.ClosedWhileEncrypted`, `EncryptionTheorems.LifecycleExactly`).
- A round count from 2^32 on is recorded but not used (`EncryptionTheorems.RoundsUsedExactly`).
- A plaintext whose ciphertext exceeds 16 MiB can be sealed but not opened (`Sealed.OpensExactly`).
- `README.md:28` of the crate says that bare ChaCha20 is honoured on decryption; by default it is not, and the model
  follows the default.

## What shares tell

Fewer shares than the threshold say nothing about a key that is shared byte by byte, except the length of its secret
(`KeySplitTheorems.SharesHide`). A share of a curve key also carries the commitments of its split, and these fix the
scalar (`KeySplitTheorems.OneShareFixesScalar`).

## Model

| member | source | states |
|---|---|---|
| AttrIds.CodesInverse | src/attrid.rs:120-178 | the two attribute tables are inverse to each other, so a code stands for one attribute |
| Varints.DecodeBytesExact | src/mk.rs:345-348 | a length-prefixed byte string is read back, with what follows it, exactly from its encoded form and within 16 MiB |
| Wire.InsertOrder | src/mk.rs:387-407 | the same attribute records, inserted in any order, make the same map |
| Wire.SizeIsCanonical | src/mk.rs:335-338 | every order of a key's attribute records takes as many bytes as the encoder's order |
| WireTheorems.RecordsDecode | src/mk.rs:384-410 | new, distinct records decode to the map they insert to exactly when they end within the size cap |
| WireTheorems.RecordsShape | src/mk.rs:384-410 | whatever the attribute loop accepts was written as distinct records |
| WireTheorems.WrittenDecodes | src/mk.rs:362-419 | a key written with its attributes in any order decodes to that key if it fits the caps and is rejected if not |
| WireTheorems.AcceptedExactly | src/mk.rs:362-419 | the inputs that decode to a key and a remainder are exactly the fitting writings of that key followed by that remainder |
| WireTheorems.RoundTrip | src/mk.rs:320-348 | encoding followed by any bytes decodes to the key and those bytes exactly while the key fits the caps |
| WireTheorems.OrderIrrelevant | src/mk.rs:384-410 | two orders of the same records are both accepted with one result, or both rejected |
| WireTheorems.DecoderCanonicalises | src/mk.rs:362-419 | for every accepted input the remainder is a suffix, re-encoding takes as many bytes as were consumed and decodes to the same key, and at most 30 attributes and 16 MiB were consumed |
| WireTheorems.TooManyDeclared | src/mk.rs:377-397 | an announced count above the 30 defined attributes is never accepted, although the decoder compares it with 256 |
| WireTheorems.HeaderIsChecked | src/mk.rs:366-375 | input that starts with another codec than the sigil fails with `MissingSigil`, and exactly a comment that is not UTF-8 fails with `InvalidUtf8` |
| WireTheorems.CountIsChecked | src/mk.rs:377-382 | exactly the headers that announce more than 256 attributes are rejected for their count |
| WireTheorems.RepeatedAttributeRejected | src/mk.rs:395-397 | a record that repeats an identifier ends decoding with `DuplicateAttribute` and that identifier's code, wherever it stands |
| WireTheorems.SmallerKey | src/mk.rs:320-341 | a key with fewer or shorter attributes is no longer on the wire |
| WireTheorems.PrefixFree | src/mk.rs:320-341 | no encoding is a prefix of another, for keys of any size |
| WireTheorems.CtEqIsEquality | src/mk.rs:303-311 | comparing encodings is equality of codec, comment and attributes |
| WireTheorems.StreamsUnique | src/mk.rs:320-341 | a concatenation of encoded keys splits into keys in one way only |
| WireCodec.Buffer.AppendVarbytes | src/mk.rs:343-348 | appending a length and then the bytes in place appends the length-prefixed form |
| WireCodec.EncodeInPlace | src/mk.rs:320-341 | the loop that appends to one buffer writes the reference encoding |
| WireCodec.TryDecode | src/mk.rs:362-419 | the loop that moves a cursor and inserts into a map accepts and rejects as the decoding function does, with the same error |
| ViewTheorems.EncryptedExactly | src/views/ed25519.rs:33-40 | which families read the mark of an encrypted key, and that it must start with a varint from 1 to 255 |
| ViewTheorems.SecretExactly | src/views/ed25519.rs:55-77 | which families give out a secret or key data, and that the secret is the key data of a key that is not encrypted |
| Polynomials.TooManyRoots | src/keysplit.rs:185 | only the zero polynomial has as many distinct roots as coefficients |
| Polynomials.Interpolation | src/keysplit.rs:185 | the Lagrange formula gives the value of a polynomial from its values at no fewer distinct points than it has coefficients |
| Polynomials.InterpolationError | src/keysplit.rs:185 | for a polynomial of any length the formula misses the value by the product of the differences times the quotient by all points |
| PrimeField.ModuloLawful | src/keysplit.rs:107-115 | the integers modulo a prime, with inverses by the extended Euclidean algorithm, are a field |
| Sharing.Recovery | src/keysplit.rs:494-496 | any shares of one polynomial, no fewer than its coefficients, combine to its constant coefficient |
| Sharing.FitsEveryCandidate | src/keysplit.rs:381 | fewer bare share values than the threshold lie on a polynomial with any candidate as its constant coefficient |
| Sharing.CombinesExactly | src/keysplit.rs:185 | shares of one polynomial, however many, combine to its constant coefficient exactly when dividing it by their identifiers leaves nothing at zero |
| Sharing.OneShort | src/keysplit.rs:533-536 | one share short, combining answers, and correctly exactly when the leading coefficient is zero |
| Sharing.VerifyMeaning | src/keysplit.rs:208-210 | a share passes against commitments exactly when it lies on the committed polynomial |
| Sharing.FeldmanSound | src/keysplit.rs:190-211 | shares that pass against one commitment set no longer than the list combine to the scalar of its first commitment |
| FeldmanCurve.ScalarExact | src/keysplit.rs:107-115 | canonical scalar bytes are exactly the written forms of the numbers below the group order |
| FeldmanCurve.DealtVerifies | src/keysplit.rs:143-173 | every share that a curve's split emits passes its verification |
| FeldmanCurve.VerifyBinds | src/keysplit.rs:190-211 | under one identifier and one commitment set, at most one value passes, as bytes |
| FeldmanCurve.DealtRecovers | src/keysplit.rs:175-188 | any threshold of a curve's shares, in any order, combine to the canonical form of the scalar |
| FeldmanCurve.DealtExactly | src/keysplit.rs:175-188 | one share is refused, and any two or more combine, to the canonical form of the scalar exactly when they leave nothing of it unreached |
| FeldmanCurve.CommitmentFixesSecret | src/keysplit.rs:157-160 | two splits with one first commitment have one secret |
| FeldmanCurve.CombineSound | src/keysplit.rs:175-211 | pairs that pass against at most as many commitments combine to the scalar committed to, whatever they carry |
| ByteSharing.SplitRecovers | src/keysplit.rs:375-403 | any threshold of byte shares, in any order, combine to the bytes that were split |
| ByteSharing.SplitExactly | src/keysplit.rs:392-403 | one row is refused, and any two or more combine, to the bytes that were split exactly when they leave nothing of any byte unreached |
| ByteSharing.RowsHide | src/keysplit.rs:375-390 | fewer rows than the threshold are also rows of a split of any other secret of the same length |
| ByteSharing.RowsHideEvenly | src/keysplit.rs:375-390 | one row short of the threshold, the random coefficients that give these rows for a secret are the only ones |
| KeySplit.CombineShares | src/keysplit.rs:536-587 | the checking loops decide and fail as the recombination function does |
| KeySplitTheorems.EccRecovers | src/keysplit.rs:117-139 | through scalar decoding and the byte reversal of BLS keys a curve key's own bytes come back, and for the 25519 codecs the reduced scalar |
| KeySplitAcceptance.SplitsExactly | src/keysplit.rs:496-509 | a key splits exactly for 2 <= threshold <= limit <= 255, if its secret can be read and is a canonical scalar, a 32-byte seed, or any bytes, as its codec has it |
| KeySplitAcceptance.ShareRecords | src/keysplit.rs:419-479 | every share records the threshold, the limit and the codec of the split, its scheme and as many commitments as the threshold, under the comment of the key |
| KeySplitAcceptance.UnwrapsExactly | src/keysplit.rs:481-490 | a payload is read exactly from share keys that hold its packed form |
| KeySplitAcceptance.PairVerifiesExactly | src/keysplit.rs:190-211 | a pair verifies exactly if it is canonical, the commitments are points, and the value is the committed polynomial's at the identifier |
| KeySplitAcceptance.ShareVerifiesExactly | src/keysplit.rs:513-531 | a share verifies exactly if it unwraps and its own pair, or that of its dual if it has one, verifies |
| KeySplitAcceptance.RefusesForeign | src/keysplit.rs:542-547 | shares of different codecs or schemes are refused |
| KeySplitAcceptance.CombinesOnlyShares | src/keysplit.rs:537-540 | recombination reads share keys only, and at least one |
| KeySplitAcceptance.CombinesExactly | src/keysplit.rs:536-587 | any shares of one codec recombine exactly if there are two or more of one scheme, all verify, no identifier is zero or repeated, and byte shares have identifiers and one length |
| KeySplitTheorems.PayloadsHandedOn | src/keysplit.rs:407-468 | shares of one split pass all checks of recombination and reach the sharing scheme of their codec unchanged |
| KeySplitTheorems.AnyThresholdRecovers | src/keysplit.rs:496-509 | every accepted split yields exactly n shares, and any threshold of them, in any order, recombine to the codec and the byte-identical secret |
| KeySplitTheorems.RecombinesExactly | src/keysplit.rs:533-587 | for any selection of the shares of a split: a single one is refused, two or more give a key with the original codec, and its secret is right exactly when the selection leaves nothing of it unreached; shares are never counted |
| KeySplitTheorems.OneShareShort | src/keysplit.rs:533-587 | one share short of the threshold the secret is right exactly when the last random coefficients of the split are zero |
| KeySplitTheorems.SharesHide | src/keysplit.rs:452-467 | for keys shared byte by byte, fewer shares than the threshold are also shares of every key that differs in its secret alone, at the same length |
| KeySplitTheorems.OneShareFixesScalar | src/keysplit.rs:415-451 | for the curve keys one share, with its commitments, fixes codec and scalar, and but for the 25519 seeds the secret |
| KeySplitTheorems.RecoversWholeKeyExactly | src/keysplit.rs:584-587 | the recombined key is the original one exactly when that had no comment and no attribute but its key data |
| KeySplitTheorems.SplitSharesVerify | src/keysplit.rs:513-531 | every share that a split emits, of any scheme, passes `verify_share` |
| KeySplitTheorems.AlteredShareFails | src/keysplit.rs:513-531 | a share, or the scalar part of a dual share, fails with any other value under its identifier and commitments |
| KeySplitTheorems.CombinedIsCommitted | src/keysplit.rs:551-564 | shares that carry one commitment set recombine, if at all, to the scalar committed to by its first element |
| KeySplitTheorems.DualExactness | src/keysplit.rs:415-436 | for every 32-byte 25519 seed recombination restores it byte for byte, while the zipped dual shares combine to the seed modulo the group order |
| KeySplitTheorems.DualAgreesExactly | src/keysplit.rs:134-139 | the two halves of a dual share agree exactly for seeds below the group order |
| MerkleTree.PathLeadsToRoot | src/views/lamport_merkle.rs:75-83 | a leaf and its sibling path lead to the root, for every depth and position |
| MerkleTree.RootBinds | src/views/lamport_merkle.rs:75-83 | a leaf and path lead to the root exactly if they are the tree's own, or if at a level of the way they hash another pair of nodes than the tree to the same value and follow its path from there |
| LamportMerkle.SigningKey.Sign | src/views/lamport_merkle.rs:64-73 | signing consumes the next block and advances the key in place, or fails and leaves it alone |
| LamportMerkle.SignKeyBytes | src/views/lamport_merkle.rs:64-73 | parsing, signing in place and writing back give the signature and advanced state of the signing function |
| LamportMerkleTheorems.ParseStateBytes | src/views/lamport_merkle.rs:886 | parsing inverts writing a state |
| LamportMerkleTheorems.RemainingExactly | src/views/lamport_merkle.rs:885-988 | the answer is r exactly when the bytes are a header, 2^depth digests and r blocks of 16 times the squared digest size, with index 2^depth - r; for depth 1 to 3 and every digest size |
| LamportMerkleTheorems.PublicKeyInvariant | src/views/lamport_merkle.rs:601-614 | every state of a run has the same public key |
| LamportMerkleTheorems.SignStep | src/views/lamport_merkle.rs:694-709 | a signature is the tree's at the next position and the key comes back one position further |
| LamportMerkleTheorems.SignExhausted | src/views/lamport_merkle.rs:694-709 | without an unused leaf signing fails |
| LamportMerkleTheorems.VerifiesUnderAnyState | src/views/lamport_merkle.rs:714-752 | a signature from anywhere in a run verifies under any state and under the public key, no depth check rejects it, and without a given message it verifies exactly if it carries a non-empty one |
| LamportMerkleTheorems.RunUsesLeavesInOrder | src/views/lamport_merkle.rs:665-710 | from any state a run succeeds exactly when enough leaves remain, and uses the next ones in order |
| LamportMerkleTheorems.RunVerifies | src/views/lamport_merkle.rs:665-752 | every signature of a run verifies under the first key, the last key and their one public key |
| LamportMerkleTheorems.LeavesAreOneTime | src/views/lamport_merkle.rs:850-880 | a fresh key signs exactly 2^depth messages, with leaves 0, 1, 2, ... in turn; index and remaining count add up to the capacity |
| LamportMerkleTheorems.SharesNeverAdvance | src/views/lamport_merkle.rs:676-690 | a key share signs every message of a run from the same state and comes back as it was |
| LamportMerkleTheorems.StoringIsTransparent | src/views/lamport_merkle.rs:662-710 | writing the key to its wire form and reading it back before every signature changes nothing if the first key fits the caps; if not, the first request fails |
| LamportMerkleTheorems.KeysFit | src/views/lamport_merkle.rs:885-916 | keys with no more than state and depth fit the caps, at every depth and digest size, with a comment of up to 15 MiB |
| LamportMerkleTheorems.AttributesKeptExactly | CHANGELOG.md:82 | signing keeps the attributes besides the key data exactly for keys that have only key data and depth |
| LamportMerkleTheorems.VerifiedIsLeaf | src/views/lamport_merkle.rs:75-83 | under a tree's public key exactly those signatures pass that have its form and lead to its own leaf by its own path, or hash another pair than the tree to the same value at a level of the way |
| LamportMerkleAcceptance.VerifiesExactly | src/views/lamport_merkle.rs:714-752 | under a tree's public key exactly the signatures verify that have a message, agree on the depth and are vouched for by the root |
| LamportMerkleAcceptance.PrivateVerifiesExactly | src/views/lamport_merkle.rs:714-752 | the same under every private key of the tree, in whatever state |
| LamportMerkleAcceptance.DepthIsChecked | src/views/lamport_merkle.rs:378-388 | with a depth attribute other than the depth byte nothing verifies, no public key is made and nothing is signed, each with `DepthMismatch` |
| LamportMerkleAcceptance.OnlyTreeKeysVerify | src/views/lamport_merkle.rs:714-723 | nothing verifies under a key of another kind; without a message verification fails with `MissingMessage` |
| LamportMerkleAcceptance.DigestSizesExactly | src/views/lamport_merkle.rs:919-981 | which digests have 32, 48 and 64 bytes |
| LamportMerkleAcceptance.ParsesExactly | src/views/lamport_merkle.rs:886 | parsing accepts exactly the written states |
| LamportMerkleAcceptance.SignsExactly | src/views/lamport_merkle.rs:691-709 | a private key signs exactly if a block is left and its depth attribute is right; signature and successor key are stated in full |
| LamportMerkleAcceptance.SignersAreKeys | src/views/lamport_merkle.rs:694-696 | what signs as a private key holds a state |
| LamportMerkleAcceptance.ShareSignsExactly | src/views/lamport_merkle.rs:676-693 | a key share signs its own data and the message, with the share codec and its depth, and comes back as it was; no other codec signs |
| LamportMerkleAcceptance.DepthReadsExactly | src/views/lamport_merkle.rs:835-848 | the depth is read exactly if the attribute is the depth byte of the data |
| LamportMerkleAcceptance.IndexReadsExactly | src/views/lamport_merkle.rs:854-879 | index and remaining count are read from private keys only, from the third byte and by the exact-length parser |
| LamportMerkleAcceptance.PublicKeyExactly | src/views/lamport_merkle.rs:601-614 | a state has a public key exactly with the right depth attribute: depth and root of its leaf hashes |
| OrderedKeys.AscendingOrder | src/views/bls12381.rs:143-145 | the values of an ordered map come in increasing order of key, each once |
| BlsTheorems.ScalarBytesExact | src/views/bls12381.rs:44-70 | the accepted identifier and value bytes are exactly the 32-byte forms of the numbers below the group order |
| BlsTheorems.DecodeShareExact | src/views/bls12381.rs:85-132 | a key share is accepted, with what follows it, exactly in its encoded form |
| BlsTheorems.SharesDecode | src/views/bls12381.rs:162-183 | a written list of shares decodes to the map of its shares if their identifiers are new and distinct, and is rejected as a duplicate if not |
| BlsTheorems.MapRoundTrip | src/views/bls12381.rs:137-184 | the nested codec round-trips, with any bytes after it, exactly the maps that store each share under its own canonical identifier |
| BlsTheorems.RepeatedShareRejected | src/views/bls12381.rs:171-177 | a list with a repeated identifier is rejected wherever the repetition stands |
| BlsShares.DecodeThresholdData | src/views/bls12381.rs:162-183 | the loop inserting into a map decides as the decoding function does |
| BlsShares.AddKeyShare | src/views/bls12381.rs:912-977 | the step-by-step `add_share` gives the key or the error of the accumulating function |
| BlsShares.AddThroughView | src/views/dispatch.rs:1491-1571 | only BLS private keys collect shares; Merkle keys refuse, and other codecs have no threshold view |
| BlsAccumulator.AddShareRefines | src/views/bls12381.rs:926-977 | adding a share fails exactly on an identifier already there, and otherwise the stored bytes decode to the map with the share added |
| BlsAccumulator.FoldRefines | src/views/bls12381.rs:912-977 | any sequence of additions fails exactly on a repeated identifier and otherwise stores the map of all added shares |
| BlsAccumulator.OrderIndependent | src/views/bls12381.rs:944-977 | two orders of the same shares store identical bytes, and give identical keys exactly when comments and the last shares' threshold and limit agree |
| BlsAccumulator.RecordsFirstExactly | src/views/bls12381.rs:960-976 | the threshold and limit recorded are those of the first share added exactly if the last one has the same |
| BlsAccumulator.SplitContributes | src/views/bls12381.rs:825-906 | what a split's share contributes is the polynomial's value at its identifier, in canonical form |
| BlsAccumulator.StoredRecover | src/views/bls12381.rs:1000-1018 | any map of at least a threshold of stored shares of one polynomial combines to its secret |
| BlsAccumulator.SplitCollectCombine | src/views/bls12381.rs:808-1041 | splitting, adding shares in any order to a fresh accumulator and combining restores the secret from the threshold on, and below it fails with `NotEnoughShares` |
| BlsAccumulator.RestoresExactly | src/views/bls12381.rs:808-1041 | from the threshold on the result equals the original key exactly when that was a 32-byte secret with no other attribute |
| BlsAcceptance.SplitsExactly | src/views/bls12381.rs:808-842 | a private key splits exactly for 2 <= threshold <= limit, if its first 32 bytes are there and a canonical scalar |
| BlsAcceptance.ShareRecords | src/views/bls12381.rs:844-904 | every share has the share codec of the key's group, its comment, threshold, limit, identifier and value, and nothing else |
| BlsAcceptance.ReadsExactly | src/views/bls12381.rs:926-942 | a key contributes a share exactly if its four attributes are those of the share |
| BlsAcceptance.AddsExactly | src/views/bls12381.rs:912-977 | adding succeeds exactly for a private key with readable shares and a new identifier; the result is stated in full and reads back exactly up to 16 MiB of data |
| BlsAcceptance.CollectsExactly | src/views/dispatch.rs:1491-1571 | only BLS private keys collect shares and they keep their codec; other keys fail as their view does |
| BlsAcceptance.CombinesExactly | src/views/bls12381.rs:980-1041 | combining succeeds exactly for a private key whose shares meet the threshold, are at least two and have no zero identifier; the result interpolates them at zero |
| BlsAcceptance.BadValueFails | src/views/bls12381.rs:1003-1011 | a collected value that is not a canonical scalar makes combining fail |
| BlsAcceptance.WholeCycle | src/views/bls12381.rs:808-1041 | every key that holds a canonical 32-byte secret alone splits, and its shares restore it from the threshold on and give `NotEnoughShares` below |
| KeyBuilder.Builder.constructor | src/mk.rs:459-465 | a new builder has the codec and nothing else |
| KeyBuilder.Builder.WithComment | src/mk.rs:1961-1965 | the comment of the described key is replaced |
| KeyBuilder.Builder.WithAttribute | src/mk.rs:1967-1972 | the attribute is added to the described key, or replaces the one with its identifier |
| KeyBuilder.Builder.AddShareKey | src/mk.rs:2096-2102 | the share is added after those already given |
| KeyBuilder.Builder.TryBuild | src/mk.rs:2114-2134 | building adds the shares one by one to the described key, stopping at the first error |
| Encryption.DeriveCipherKey | src/views/bcrypt.rs:33-69 | filling the key and rewriting the attributes one by one gives the derived key |
| Encryption.EncryptKey | src/views/chacha20.rs:246-321 | checking and inserting the attributes one by one gives the encrypted key |
| Encryption.DecryptKey | src/views/chacha20.rs:152-243 | checking and removing the attributes one by one gives the decrypted key |
| Encryption.CipherBuilder.TryFromMultikey | src/cipher.rs:26-43 | the cipher attributes of a key overwrite the builder's fields, and missing ones leave them alone |
| Encryption.CipherBuilder.TryBuild | src/cipher.rs:62-79 | the built cipher key holds exactly the fields that are set |
| Encryption.KdfBuilder.TryFromMultikey | src/kdf.rs:31-48 | the key-derivation attributes of a key overwrite the builder's fields, and missing ones leave them alone |
| Encryption.KdfBuilder.WithRounds | src/kdf.rs:67-71 | the round count is kept as a varint |
| Encryption.KdfBuilder.TryBuild | src/kdf.rs:74-92 | the built parameter key holds exactly the fields that are set |
| Encryption.RebuildParameters | src/cipher.rs:26-79 | the two builders rebuild exactly the parameters that an encrypted key describes |
| Encryption.BuildParameters | src/kdf.rs:51-92 | the builders make the fresh parameter keys of a nonce, salt and round count |
| EncryptionTheorems.Derived | src/views/bcrypt.rs:33-69 | exactly when a key can be derived; the result keeps nonce, salt and rounds and has the derived key as its secret |
| EncryptionTheorems.DerivesExactly | src/views/bcrypt.rs:33-69 | deriving succeeds exactly for bcrypt parameters with a 32-byte salt and a ChaCha20-Poly1305 key; the result is stated attribute by attribute |
| EncryptionTheorems.RoundsUsedExactly | src/views/bcrypt.rs:54 | whatever the password hash, the derived key is that of the recorded round count exactly if the count is below 2^32 |
| EncryptionTheorems.RoundsExample | src/views/bcrypt.rs:54 | with 2^32 + 1 rounds recorded the key is not that of the recorded count |
| EncryptionTheorems.RoundsTruncated | src/views/bcrypt.rs:54-68 | round counts that agree in their low 32 bits derive keys that differ in the recorded count only |
| EncryptionTheorems.EncryptsExactly | src/views/chacha20.rs:246-276 | fresh parameters encrypt exactly the keys whose secret can be read |
| EncryptionTheorems.FlagDecodes | src/views/chacha20.rs:48-55 | the mark of an encrypted key is read back as it was written |
| EncryptionTheorems.ReadyExactly | src/views/chacha20.rs:256-270 | a cipher key works exactly with its codec, a 12-byte nonce and a readable 32-byte secret |
| EncryptionTheorems.EncryptsWhen | src/views/chacha20.rs:246-303 | any cipher key encrypts exactly the secret keys with key data that are not encrypted; an encrypted key fails with `EncryptionFailed` |
| EncryptionTheorems.EncryptsTo | src/views/chacha20.rs:293-320 | the encrypted key is stated attribute by attribute |
| EncryptionTheorems.ClosedWhileEncrypted | src/views/chacha20.rs:246-254 | an encrypted key whose view reads the flag gives out no secret and is not encrypted again; the other views hand out the ciphertext and never decrypt |
| EncryptionTheorems.Rebuilt | src/cipher.rs:26-79 | the parameters read back from an encrypted key are those it was encrypted with |
| EncryptionTheorems.RebuildsExactly | src/cipher.rs:26-79 | the parameters read back from any key are exactly its own attributes of each kind, under the codec it names |
| EncryptionTheorems.RebuildsTheSecret | src/views/dispatch.rs:343-356 | from the encrypted key and the passphrase alone the same cipher secret and nonce come back |
| EncryptionTheorems.Decrypts | src/views/chacha20.rs:152-243 | under that secret and nonce decryption returns the key without encryption attributes, exactly for views that read the flag |
| EncryptionTheorems.DecryptsExactly | src/views/chacha20.rs:152-243 | any cipher key decrypts exactly the encrypted secret keys whose data it opens; the result holds the opened text and no encryption attribute |
| EncryptionTheorems.RefusesToDecrypt | src/views/chacha20.rs:153-224 | a key that is not encrypted or secret, and data that the cipher refuses, give `DecryptionFailed` and no ciphertext |
| EncryptionTheorems.EncryptedSize | src/views/chacha20.rs:308-320 | the size of the encrypted key is a function of the key and the round count |
| EncryptionTheorems.LifecycleExactly | src/views/chacha20.rs:152-321 | derive, encrypt, write, read, rebuild, derive, decrypt returns the key exactly when its encrypted size is within the cap, its view reads the flag, and it had no encryption attributes before |
| EncryptionTheorems.LifecycleByFamily | src/views/ed25519.rs:33-40 | which families come back from the life cycle, and which never do |
| Sealed.EncodeSealedInto | src/views/aead.rs:249-253 | codec, nonce and ciphertext are appended after what the buffer held |
| Sealed.EncodeKemSealed | src/views/aead.rs:212-222 | the message is the four fields one after the other |
| Sealed.ParsesExactly | src/views/frodokem.rs:228-243 | parsing gives four fields exactly from their encoding, each within 16 MiB, followed by anything |
| Sealed.SealsExactly | src/views/frodokem.rs:246-267 | sealing succeeds exactly for a public key and a permitted cipher; the message is the encapsulation, the codec, the nonce and the text sealed under 32 bytes derived from the encapsulated secret |
| Sealed.OpenExactly | src/views/frodokem.rs:271-295 | any bytes open to a plaintext exactly if they parse, name a permitted cipher with its nonce length, and the cipher opens them under the key derived from the decapsulated secret |
| Sealed.RefusesToOpen | src/views/frodokem.rs:271-295 | text that the cipher refuses gives `AeadOpenFailed` |
| Sealed.PublicKeyExactly | src/views/frodokem.rs:186-196 | the public key has the public codec, the comment and the derived key data |
| Sealed.OpensExactly | src/views/frodokem.rs:228-295 | opening what was sealed to the matching public key returns the plaintext exactly while the ciphertext fits 16 MiB |

## Left out

- FeldmanCurve.CombineSound: requires that the pairs combine at all; shares with repeated identifiers pass verification and are refused afterwards.
- KeyBuilder.Builder.TryBuild: answers `UnsupportedCodec` for the plain Lamport keys, whose view answers `ShareCombineFailed`; these keys are not told apart from other opaque ones.
- LamportMerkleTheorems.KeysFit: shows the caps for comments of up to 15 MiB, a little less than the longest that fits.
- Hiding of a curve key's secret below the threshold beyond what its commitments show: it rests on the hardness of discrete logarithms, not on counting.
- Encryption.Encrypt: the AEAD never refuses a plaintext, because ChaCha20-Poly1305 does so only far above the size of a key.
- Sealed.OpensExactly: takes encapsulations to be within 16 MiB and decapsulation never to fail by chance.
- That the ciphers refuse altered ciphertexts and wrong keys: a security property, of which only the inverse law is used. What the code does when they refuse is stated.
- The order of operations in time, zeroization and constant-time execution: `CtEq` states the result of the comparison only.
- Random generation of keys, nonces, salts and coefficients: they are arguments.
- GF(2^8) as a concrete table: only the field laws and the size are used.
- The legacy fallback to bare ChaCha20, which is off by default.
- The codec tables of families that behave alike: `OpaquePriv` and `OpaquePub` stand for the post-quantum and hybrid keys, `Unviewed` for codecs without a key view.
- Splitting Merkle-tree keys, and combining their signature shares: done by another crate.
- Distributed key generation, disclosure modes and threshold markers.
- Signing and verification of the stateless schemes, fingerprints, SSH import and export, text encodings and serde forms: they wrap other crates.
- Sealing for the elliptic-curve, RSA, ML-KEM and hybrid keys: the same parsing with other fields.
- Integer widths below the caps: lengths and counts are unbounded numbers, cut where the code cuts them (round counts to 32 bits, varints to 64).
