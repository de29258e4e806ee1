# Seal, BCS and tooling of the Sui TypeScript SDKs, in Dafny

This project models six parts of the repository and proves what they are for:

- **Seal** (`packages/seal`): Shamir secret sharing over the Rijndael field, interpolation, identity-based
  encryption of the shares, counter mode with a MAC, `encrypt` and `decrypt` end to end and through the bytes of the
  object, `fetchKeys` as a concurrent protocol with a weighted threshold, and `getDerivedKeys`.
- **BCS** (`packages/bcs`): a recursive schema language with its encoder and decoder, variable-length and wide
  integers, the growing writer, the cursor reader, predicted sizes and the fast path of `serialize`.
- **DataLoader** (`packages/utils`): a batching cache as a step machine over its calls and callbacks.
- **Ledger blocks** (`packages/ledgerjs-hw-app-sui`): payloads as hash-linked chunks and the conversation with a device.
- **Codegen** (`packages/codegen`): the inclusion of types across module builders and the choice of written modules.
- **Move identifiers** (`packages/move-bytecode-template`): renaming, sorting and remapping the identifier pool.

Each part has specification functions, the source's loops and classes as methods that are proved against them, and
lemmas about the specification. `dafny verify dfyconfig.toml` checks the whole project.

## Layout

| files | part |
|---|---|
| Results, Octets, Bits, Bytes, Sequences | outcomes, bytes as numbers and as bit-vectors, lists |
| Gf256Tables, Gf256, Polynomial, Interpolation, Shamir, Secrecy | `shamir.ts` |
| Dem, Ibe, Seal, SealLayout | `dem.ts`, `ibe.ts` and `kdf.ts`, `encrypt.ts` and `decrypt.ts` |
| KeyFetch, HonestReplies, SealClient, DerivedKeys | `client.ts` |
| Hex, SealObject, SealBytes, SealFormat | `hex.ts` and `sui-types.ts`, `bcs.ts` of Seal, `client.ts` |
| Uleb, Numbers, BcsWriter, BcsReader | `uleb.ts`, `writer.ts`, `reader.ts` |
| BcsSchema, BcsRoundTrip, BcsLaws, BcsEnums, BcsCombinators, BcsForms, BcsViews, BcsWrites, BcsTypes, BcsFormat | `bcs.ts`, `bcs-type.ts` |
| DataLoader, DataLoaderBatches, DataLoaderObject | `dataloader.ts` |
| LedgerBlocks | `Sui.ts` |
| CodegenTypes, CodegenClosure | `render-types.ts`, `move-module-builder.ts`, `index.ts` |
| MoveIdentifiers | `lib.rs` |

## Hypotheses

- The libraries of Seal are parameters. `Ibe.Lawful` asks for a bilinear pairing, byte encodings of points and
  scalars that decode again, and hashes of 32 bytes; `Dem.LawfulCiphers` for an HMAC of 32 bytes and an AES-GCM that
  decrypts what it encrypted. Random values are inputs. `SealLayout.HexLaw` asks that bytes come back from their
  hexadecimal text, as `Hex.FromToHex` proves of the codec; `Dem.TagCoversEverything` that HMAC does not collide on
  the two inputs it speaks of.
- `LedgerBlocks.GoodHash` asks for hashes of 32 bytes that do not collide and are not all zero on the blocks that
  occur; the extra data are content-addressed.
- A DataLoader's scheduling function runs each callback it is given exactly once and later, and the promise of the
  batch function settles once.
- `BcsForms.Settled`, for what reading yields: text codecs give back the text that they made of any bytes, a
  transformation brings back what it makes of a value that was read, and variants' data do not read as null, or true
  is written as such data. `BcsForms.PlainSettles` says which schemas of the source's combinators meet it.
- `SealBytes.PointSizes` asks for public keys' points of 96 bytes, as the schema of the object does.
- Codegen's builders are stored under the address and name that their summaries give.

## Where the code differs from what it says

- `split` accepts a total of 256 and then fails at the share with that index (`Shamir.SplitSucceeds`).
- The message of `#validateEncryptionServices` asks for the client's servers to be a subset of the object's, but
  servers that the object does not list are not looked at (`SealClient.FetchedKeysSufficeExactly`).
- The comment of `getDerivedKeys` promises exactly threshold keys, which holds of servers with weights of one
  (`DerivedKeys.ExactlyThresholdKeys`).
- A client that is configured with server ids that are not in the normal form of addresses may not open what it
  encrypted, because parsing puts them into that form (`SealBytes.OwnBytesSufficeExactly`, `Hex.ShortIsNotNormal`).
- An enum payload comes back if and only if it is not null; null becomes `true` (`BcsEnums.PayloadComesBackExactly`,
  and `BcsEnums.EnumReads` for what other encoders send, such as nested options).
- Of an enum value that validates, the defined variant is written if and only if no variant's key with an undefined
  value comes before it (`BcsEnums.WrittenVariant`).
- The comment of `Hmac256Ctr` derives one key for the counter and one for the tag; the code uses one key for both and
  tells the inputs apart by a text in front of them (`Dem.EncryptEncapsulates`, `Dem.InputsDiffer`).
- `ulebDecode` shifts within 32 bits: a sixth group lands on the first one (`Uleb.SixthGroupWraps`).
- `readULEB` and `readBytes` read from the underlying buffer and are not stopped by the end of the view
  (`BcsViews.ReadsBehindView`, `BcsViews.NoDataReadAsEmpty`); the surroundings of a view matter if and only if the
  parse ends beyond it (`BcsViews.ParseWithinView`), which only reads of lengths and byte arrays can
  (`BcsViews.FixedWidthIgnoresSurroundings`, `BcsViews.LengthBeyondView`, `BcsViews.BytesBeyondView`).
- `update_identifiers` does not remap the names of enum variants and their fields and of friend declarations
  (`MoveIdentifiers.EnumResolvesExactly`, `MoveIdentifiers.FriendsResolveExactly`), and renames only the first of equal
  identifiers (`MoveIdentifiers.RenamesAllExactly`).

## Model

| member | source | states |
|---|---|---|
| GF256.MulIsProduct | packages/seal/src/shamir.ts:46-51 | Multiplication through the logarithm and exponential tables is multiplication in the Rijndael field of section 4.2 of FIPS 197, defined by shift-and-add, for all 65536 pairs |
| GF256.MulAssociates | packages/seal/src/shamir.ts:46-51 | The table multiplication is associative |
| GF256.MulDistributes | packages/seal/src/shamir.ts:32-51 | It distributes over addition, which is xor |
| GF256.MulCommutes | packages/seal/src/shamir.ts:46-51 | It is commutative |
| GF256.InverseOf | packages/seal/src/shamir.ts:53-55 | Every nonzero element has the inverse that division uses |
| GF256.DivMul | packages/seal/src/shamir.ts:46-55 | Division inverts multiplication by every nonzero element |
| Polynomials.New | packages/seal/src/shamir.ts:117-127 | The constructor loop drops exactly the trailing zero coefficients of its argument |
| Polynomials.TrimKeepsValue | packages/seal/src/shamir.ts:117-127 | Dropping them changes the value at no point |
| Polynomials.HornerIsPowerSum | packages/seal/src/shamir.ts:243-247 | Evaluation equals the sum of coefficient times power |
| Polynomials.EvaluatePlus | packages/seal/src/shamir.ts:147-154 | The value of a sum is the sum of the values |
| Polynomials.Multiply | packages/seal/src/shamir.ts:156-170 | The loops of mul compute the specified product |
| Polynomials.EvaluateTimes | packages/seal/src/shamir.ts:156-170 | The value of a product is the product of the values, for all degrees |
| Polynomials.EvaluateScale | packages/seal/src/shamir.ts:172-174 | The value of a multiple is the multiple of the value |
| Polynomials.EvaluateDivideBy | packages/seal/src/shamir.ts:176-179 | The value of a quotient times the divisor is the value |
| Interpolation.HasDuplicatesIsRepetition | packages/seal/src/utils.ts:59-61 | Comparing the size of the set with the length finds exactly the lists with a repetition |
| Interpolation.TooManyRoots | packages/seal/src/shamir.ts:243-247 | A polynomial with as many distinct roots as coefficients is zero |
| Interpolation.DeterminedByValues | packages/seal/src/shamir.ts:194-218 | Two polynomials with at most n coefficients that agree at n points are the same |
| Interpolation.InterpolateCorrect | packages/seal/src/shamir.ts:194-218 | interpolate fails exactly on no coordinates or a repeated x; otherwise its result has degree below n and passes through all n points |
| Interpolation.CombineIsInterpolationAtZero | packages/seal/src/shamir.ts:219-240 | The fast combine is the interpolated polynomial at zero, exactly when no x is zero; with a zero x it fails |
| Interpolation.InterpolationRecovers | packages/seal/src/shamir.ts:194-218 | Interpolating n points of any polynomial with at most n coefficients gives its value at every point |
| Shamir.SplitSucceeds | packages/seal/src/shamir.ts:306-318 | split succeeds exactly for 1 <= threshold <= total <= 255; the total of 256 that its guard lets through ends with the error of an element out of range |
| Shamir.CombineRecoversSecret | packages/seal/src/shamir.ts:290-368 | For every secret, threshold, total and choice of coefficients, combining any distinct shares of a split, at least as many as the threshold, returns the secret |
| Shamir.InterpolateRecoversShares | packages/seal/src/shamir.ts:306-380 | interpolate of any such shares reproduces every share of the split |
| Shamir.InterpolateRecoversPolynomials | packages/seal/src/shamir.ts:370-380 | The polynomials it finds have the values of the sampled ones at every point |
| Shamir.CombineIsInterpolateAtZero | packages/seal/src/shamir.ts:347-380 | On any shares that interpolate, combine is the interpolated function at zero, or fails exactly because nonempty shares include the index zero |
| Shamir.RefusesExactly | packages/seal/src/shamir.ts:321-338 | interpolate refuses shares exactly, with the first reason that applies, if there are none, their lengths differ, an index occurs twice or is outside 0 to 255; combine refuses exactly those and a nonempty share with index 0 |
| Secrecy.FewerSharesRevealNothing | packages/seal/src/shamir.ts:290-300 | For one byte, and points one fewer than the coefficients, each candidate constant term has exactly one choice of the other coefficients with the values held |
| Secrecy.HeldSharesFitEverySecret | packages/seal/src/shamir.ts:306-318 | Shares of a split, one fewer than its threshold, are also shares of a split of every other secret of the same length, under some random values |
| Secrecy.ExplanationIsUnique | packages/seal/src/shamir.ts:306-318 | Those random values are determined as far as split uses them, so every secret has exactly one explanation |
| Secrecy.TooFewSharesFitEverySecret | packages/seal/src/shamir.ts:306-345 | Any number of shares below the threshold fits every secret of the same length |
| Secrecy.SharesFitEverySecret | packages/seal/src/shamir.ts:306-345 | So do any shares with distinct indices below the threshold, whatever their values |
| Secrecy.EquallyManyExplanations | packages/seal/src/shamir.ts:306-345 | For any two secrets of one length and any two lists of shares with the same indices, one shift of the random values turns the explanations of the first into exactly those of the second: shares below the threshold have equally many explanations by every secret, and equally many random values give each of their values |
| Secrecy.TooFewSharesCombineToEverything | packages/seal/src/shamir.ts:339-365 | Combining fewer shares than the threshold gives every value of the length of the secret, for some random values |
| Secrecy.CombinedValuesEquallyLikely | packages/seal/src/shamir.ts:339-365 | Every value that combining too few shares gives has equally many random values: a shift turns exactly those that give one value into those that give another |
| Dem.Flatten | packages/seal/src/utils.ts:43-51 | The two passes over the arrays produce their concatenation |
| Dem.EncryptInCtrMode | packages/seal/src/dem.ts:153-163 | The block loop masks every byte once with the byte of its block, including a partial last block |
| Dem.CounterModeInvolution | packages/seal/src/dem.ts:153-163 | Counter mode under the same key is its own inverse for messages of every length |
| Dem.DecryptInvertsEncrypt | packages/seal/src/dem.ts:119-145 | decrypt accepts and inverts encrypt for every key, additional data and message, in both modes |
| Dem.AcceptsExactlyAuthentic | packages/seal/src/dem.ts:131-151 | HMAC decryption succeeds exactly on ciphertexts that encrypt makes from its result |
| Dem.TagCoversEverything | packages/seal/src/dem.ts:131-151 | With the tag of one encryption, other additional data or other encrypted bytes are rejected unless hmac gives the two inputs, which contain the length of the additional data, the same digest; with another tag the same data are rejected |
| Dem.InputsDiffer | packages/seal/src/dem.ts:147-163 | Different blocks are masked from different inputs, and no mask comes from the input of a tag |
| Dem.EncryptEncapsulates | packages/seal/src/dem.ts:49-163 | The bytes of a ciphertext: every byte of a message combined with byte k mod 32 of the digest of the text HMAC-CTR-ENC and k / 32 in eight bytes, and the digest that is its tag; or AES-GCM of it under the additional data |
| Ibe.VerifiedKeyDecapsulates | packages/seal/src/ibe.ts:103-155 | A user key that passes the verification equation decapsulates the encapsulated key, from bilinearity alone |
| Ibe.EncryptedShare | packages/seal/src/ibe.ts:64-94 | Encrypting a batch succeeds, and every share is masked under its own key, server and index |
| Ibe.DecryptShareInverts | packages/seal/src/ibe.ts:118-126 | A share comes back with any verified user key |
| Seal.EncryptSucceeds | packages/seal/src/encrypt.ts:47-107 | encrypt succeeds exactly on its documented inputs: 1 <= threshold <= servers <= 255, a valid package and keys that are points |
| Seal.DecryptInvertsEncryption | packages/seal/src/decrypt.ts:30-112 | For every plaintext, additional data, list of servers with repeats, threshold and randomness, decrypt of what encrypt builds returns the plaintext if keys for at least the threshold of slots are held under the full identity (SealLayout.FullIdIsBytes says which bytes that is), and otherwise the request for more keys |
| Seal.EncryptShapes | packages/seal/src/encrypt.ts:63-107 | What encrypt puts into the object under a full identity: services with their share indices, the nonce, the masked shares and randomness, and the ciphertext under the derived key; SealLayout.EncryptionIsLaidOut gives the bytes |
| SealLayout.FullIdIsBytes | packages/seal/src/utils.ts:29-35 | The full identity is made exactly for valid package ids, and its bytes are those of the package followed by those of the id |
| SealLayout.FullIdsAgreeExactly | packages/seal/src/utils.ts:29-35 | For package ids of 32 bytes two full identities are the same if and only if the bytes of the packages and of the ids are |
| SealLayout.OtherIdentityFallsShort | packages/seal/src/decrypt.ts:35-46 | Decrypting with keys that are held only for other packages or ids asks for more keys |
| SealLayout.EncryptionIsLaidOut | packages/seal/src/encrypt.ts:63-107 | Everything in an encrypted object, byte by byte: share i of a split with the threshold under the digest of a tag, the pairing, the nonce, the point of package and id, the id of server i and i + 1; the randomness and the data under digests of a tag, the base key, the purpose, the threshold, all encrypted shares and all servers; and the returned key is that of the data |
| SealLayout.DecryptionChecks | packages/seal/src/decrypt.ts:35-100 | decrypt asks for more keys exactly if fewer places of services than the threshold have keys; then it refuses another number of shares than services, and a nonce that is no point; and it succeeds only if the nonce is the generator times some randomness, the one it finds |
| KeyFetch.FetchCall.constructor | packages/seal/src/client.ts:300-312 | The loop over the servers computes the specified starting state |
| KeyFetch.FetchCall.AddKeys | packages/seal/src/client.ts:350-364 | After a reply the cache holds, for every identity, the last key before any that is no point that verifies for it, or else what it held before; keys of other servers stay, and it reports whether all keys were points |
| KeyFetch.CachedByReply | packages/seal/src/client.ts:350-364 | The same of the step that every run consists of |
| KeyFetch.FetchCall.SettleRequest | packages/seal/src/client.ts:335-387 | One settling request changes the shared variables as its step specifies |
| KeyFetch.InitialInv | packages/seal/src/client.ts:300-312 | The counters start as the weights of the servers that hold all keys and of those that do not |
| KeyFetch.RunKeepsInv | packages/seal/src/client.ts:300-393 | Under every interleaving completedWeight is the weight of distinct servers holding keys for all ids, the remaining weight is that of the unsettled servers, all cached keys verify, and the abort for failures is set exactly if the sum of both weights is below the threshold |
| KeyFetch.NormalReturnMeansThreshold | packages/seal/src/client.ts:292-393 | A normal return means that distinct servers whose weight reaches the threshold hold keys for all ids |
| KeyFetch.AbortIsFinal | packages/seal/src/client.ts:370-386 | After an abort for failures no reply makes the call succeed; after reaching the threshold no failure makes it fail |
| KeyFetch.SettledOutcome | packages/seal/src/client.ts:389-393 | When all requests have settled, the call returns normally exactly if it was not aborted for failures |
| KeyFetch.CompletedWeightIsSum | packages/seal/src/client.ts:335-389 | The completed weight at the end is that of the start plus the weights of the servers whose own replies complete them |
| KeyFetch.OutcomeIgnoresOrder | packages/seal/src/client.ts:335-393 | Two interleavings of the same replies, equal as multisets, end with the same completed weight and the same outcome |
| HonestReplies.FetchSucceedsExactly | packages/seal/src/client.ts:285-393 | The outcome, said of the replies: an error exactly for a threshold outside 1 to the sum of the weights; otherwise a normal return exactly if the servers that start with all keys, or answer with points only and with a verifying key for every identity still missing, reach the threshold |
| HonestReplies.HonestRepliesSucceed | packages/seal/src/client.ts:285-393 | Distinct servers of at least the threshold's weight that start with all keys or answer with a verifying key for every identity make the call succeed, whatever other servers and other calls do and in any order |
| HonestReplies.HonestKeyVerifies | packages/seal/src/ibe.ts:103-107 | The hash of an identity multiplied by a server's secret verifies under the public key of that secret, from bilinearity alone |
| HonestReplies.ErrorsAreFailures | packages/seal/src/client.ts:376-380 | An error is recorded exactly for a request that fails or answers with a key that is no point while the requests are not aborted |
| SealClient.FetchedKeysSuffice | packages/seal/src/client.ts:181-218 | For any object: if validation accepts it and it lists every client server of positive weight, then after every normal return of fetchKeys, for any cache beforehand and any interleaving, decrypt finds at least the threshold of slots |
| SealClient.FetchedKeysSufficeExactly | packages/seal/src/client.ts:200-218 | Where every server has a verifying user key, that every normal return of fetchKeys suffices holds if and only if every client server of positive weight is listed in the object |
| SealClient.UnlistedServerFallsShort | packages/seal/src/client.ts:200-218 | With an unlisted one and the total weight as threshold, validation accepts, fetchKeys returns normally with verified keys, and decrypt finds too few slots |
| SealClient.ClientOpensObject | packages/seal/src/client.ts:181-194 | An object that anyone encrypted and that lists the client's weighty servers under their public keys opens to its plaintext after every normal return of fetchKeys |
| SealClient.GetWeightedKeyServers | packages/seal/src/client.ts:234-244 | The nested loops list every server as often as its weight, in order |
| SealClient.OwnServersValidate | packages/seal/src/client.ts:200-244 | An object for the client's own weighted servers passes the validation and lists them all |
| SealClient.ValidationFailsExactly | packages/seal/src/client.ts:200-218 | Validation fails exactly if a listed server that the client gives a weight is not listed as often as it weighs, or else if the threshold is above the sum of the weights |
| SealClient.ClientRoundTrip | packages/seal/src/client.ts:118-194 | Encrypting for the own servers, fetching keys under any interleaving that returns normally, and decrypting gives the plaintext |
| DerivedKeys.DeriveKeys | packages/seal/src/client.ts:438-452 | The loop over the key servers with its weight and its break collects the specified keys |
| DerivedKeys.DerivedKeysReachThreshold | packages/seal/src/client.ts:405-452 | A call that succeeds returns verified keys of distinct servers whose weight reaches the threshold, and would not without the last one |
| DerivedKeys.DerivedAreFirst | packages/seal/src/client.ts:438-452 | The derived keys are all the cached keys of the first n servers, in the client's order, and the n-th has one unless all servers were looked at |
| DerivedKeys.ExactlyThresholdKeys | packages/seal/src/client.ts:396-404 | That every call that succeeds returns exactly threshold keys, as its comment says, holds if and only if no server without weight is configured before one with weight and, for thresholds above one, no weight is above one |
| Hex.FromToHex | packages/utils/src/hex.ts:4-18 | fromHex inverts toHex |
| Hex.HexFormat | packages/utils/src/hex.ts:16-18 | toHex gives two characters for each byte, the high digit first, in lower case |
| Hex.ReadsAlike | packages/utils/src/hex.ts:4-14 | fromHex reads digits alike in upper and lower case and with or without 0x, and an odd number of them as if a zero came first |
| Hex.AddressComesBack | packages/typescript/src/utils/sui-types.ts:96-102 | The text of the bytes of an address is its normal form |
| Hex.AddressBytesComeBack | packages/typescript/src/utils/sui-types.ts:96-102 | The bytes of an address come back from their text, which is in normal form |
| Hex.ShortIsNotNormal | packages/typescript/src/utils/sui-types.ts:96-102 | No text of fewer than 66 characters is in normal form |
| Hex.AddressFormat | packages/typescript/src/utils/sui-types.ts:96-102 | The normal form of up to 64 digits, in either case and with or without 0x, is 0x, zeros, and the digits in lower case |
| SealObject.ObjectWrites | packages/seal/src/bcs.ts:9-47 | What the encrypted object is written as and read back as, through enum, struct, option, tuple, vector and the transformations of addresses and ids |
| SealObject.ObjectComesBack | packages/seal/src/bcs.ts:9-47 | Parsing a serialized object, with anything behind it, gives decrypt the object with its addresses and its id in normal form; exactly the object if and only if they were so before |
| SealObject.AbsentAadIsEmpty | packages/seal/src/dem.ts:131-145 | A ciphertext that was read with absent additional data is one with empty additional data |
| SealFormat.ObjectFormat | packages/seal/src/bcs.ts:9-47 | The bytes of a serialized object in order: version 0, package, id with its length, services as address and index, threshold, variant 0 with nonce, shares and randomness, and the ciphertext with the number of its mode |
| SealBytes.ClientRoundTripThroughBytes | packages/seal/src/client.ts:118-194 | encrypt, serialize, parse, validate, fetch keys under any interleaving that returns normally, and decrypt: the plaintext, for addresses and ids in normal form |
| SealBytes.OwnBytesSufficeExactly | packages/seal/src/client.ts:172-218 | That every normal return of fetchKeys suffices for the parsed object of a client's own encryption holds if and only if every server of positive weight is configured under the normal form of its address |
| Uleb.UlebEncodeLoop | packages/bcs/src/uleb.ts:6-23 | The loop computes the specified groups, with 32-bit bit operations |
| Uleb.UlebDecodeLoop | packages/bcs/src/uleb.ts:27-50 | The loop computes the specified value and length, with 32-bit bit operations and shift distances modulo 32 |
| Uleb.DecodeInvertsEncode | packages/bcs/src/uleb.ts:6-50 | For every n below 2^31 and every suffix, decoding gives n and the encoded length (section 7.6 of DWARF 5) |
| Uleb.RoundTripsExactlyBelow2To31 | packages/bcs/src/uleb.ts:6-50 | Among all integers these are exactly the ones that round-trip |
| Uleb.DecodesGroups | packages/bcs/src/uleb.ts:27-50 | Any bytes that begin with up to five groups, also padded ones, decode to the number below 2^31 that the groups stand for |
| Uleb.OrIsBitwise | packages/bcs/src/uleb.ts:27-50 | The total is combined with a group bit by bit, also where they overlap |
| Uleb.SixthGroupWraps | packages/bcs/src/uleb.ts:27-50 | A sixth group is shifted by 3 instead of 35, because 32-bit shift distances start again |
| Uleb.EncodingIsMinimal | packages/bcs/src/uleb.ts:6-23 | The encoding has one to five bytes and no fewer would do |
| Numbers.ToLittleEndian | packages/bcs/src/writer.ts:194-203 | The loop over a big integer fills the buffer with its low bytes and zeros |
| Numbers.LittleEndianAt | packages/bcs/src/writer.ts:194-203 | Byte i is digit i in base 256 |
| Numbers.LittleEndianInverts | packages/bcs/src/writer.ts:194-203 | Reading the bytes back gives every number in range |
| Numbers.JoinHexIsSum | packages/bcs/src/reader.ts:87-115 | Joining two halves as padded hexadecimal text is adding them at their places |
| Numbers.TextFormat | packages/bcs/src/reader.ts:87-115 | The text of a number in a radix up to 16: the character of every digit, and no leading zeros |
| Numbers.WideRead | packages/bcs/src/reader.ts:87-115 | read64, read128 and read256 through text invert the little-endian bytes |
| BcsWriters.BcsWriter.EnsureSizeOrGrow | packages/bcs/src/writer.ts:53-68 | Room is made exactly if the bytes fit or one growth step within the maximal size suffices; the written prefix is kept |
| BcsWriters.BcsWriter.WriteInt | packages/bcs/src/writer.ts:85-109 | write8, write16 and write32 append the low bytes, or change nothing for lack of room |
| BcsWriters.BcsWriter.WriteAll | packages/bcs/src/writer.ts:115-151 | Byte-by-byte writing appends the bytes, with room for them as a sufficient condition |
| BcsWriters.WriteChain | packages/bcs/src/writer.ts:85-183 | After any sequence of writes the contents are the concatenation of the encodings, the capacity max(initialSize, maxSize) is kept, and with allocateSize >= 4 and no maximal size nothing fails |
| BcsWriters.WroteBoth | packages/bcs/src/writer.ts:53-83 | Two writes compose: appended encodings concatenate, and room for both is room for each |
| BcsReaders.BcsReader.ReadSmall | packages/bcs/src/reader.ts:60-82 | read8, read16 and read32 read within the view and advance the cursor, or fail in place |
| BcsReaders.BcsReader.ReadBig | packages/bcs/src/reader.ts:87-115 | The wide reads do what their specification through text says |
| BcsReaders.BcsReader.ReadSlice | packages/bcs/src/reader.ts:120-127 | readBytes returns the bytes at the cursor of a view at any offset |
| BcsReaders.BcsReader.ReadLength | packages/bcs/src/reader.ts:133-141 | readULEB decodes from the cursor and advances by the encoded length |
| BcsRoundTrip.DecodeEncode | packages/bcs/src/bcs.ts:23-603 | For every schema and value that serializes, reading its bytes inside any data, in a view at any offset, yields the canonical value and stops exactly behind them |
| BcsLaws.ParseInvertsEncode | packages/bcs/src/bcs-type.ts:58-66 | Parsing an encoding followed by any suffix |
| BcsLaws.EncodingsArePrefixFree | packages/bcs/src/bcs-type.ts:58-66 | No encoding is a proper prefix of another, and equal encodings mean the same value |
| BcsFormat.BooleanFormat | packages/bcs/src/bcs.ts:119-134 | True is written as the byte 1 and false as 0, and nothing but a boolean is written |
| BcsFormat.BooleanReads | packages/bcs/src/bcs.ts:119-134 | A byte reads as true if and only if it is 1 |
| BcsFormat.IntegerFormat | packages/bcs/src/bcs-type.ts:218-275 | A fixed-width integer is written if and only if it is in the range of 1, 2, 4, 8, 16 or 32 bytes, and byte i of it is n / 256^i mod 256 |
| BcsFormat.IntegerReads | packages/bcs/src/reader.ts:60-115 | These bytes read as the number, for more than 4 bytes as its decimal digits; fewer bytes than the width fail |
| BcsFormat.SmallIntegerInputs | packages/bcs/src/writer.ts:85-109 | Up to 4 bytes, true, false, null and undefined are written as 1, 0, 0 and 0, and no other value than a number |
| BcsFormat.WideIntegerInputs | packages/bcs/src/bcs-type.ts:246-275 | Above 4 bytes, a boolean is written as 1 or 0 and a text of decimal digits as its number |
| BcsFormat.LengthFormat | packages/bcs/src/uleb.ts:6-23 | Group i of a length is digit i in base 128, and exactly the last byte has its high bit clear |
| BcsFormat.FixedBytesFormat | packages/bcs/src/bcs.ts:157-178 | A byte array of fixed size is its bytes, and fails with any other length |
| BcsFormat.BytesFormat | packages/bcs/src/bcs.ts:187-231 | A byte vector and a text are the groups of their length in bytes, and then the bytes |
| BcsFormat.VectorFormat | packages/bcs/src/bcs.ts:237-335 | A vector is the groups of its length and then its items' encodings in order; a fixed array is those of exactly as many items as its size |
| BcsFormat.VectorFails | packages/bcs/src/bcs.ts:237-335 | It fails if one of its items does |
| BcsFormat.TupleFormat | packages/bcs/src/bcs.ts:345-401 | A tuple is its parts' encodings in the order of the schema |
| BcsFormat.TupleFails | packages/bcs/src/bcs.ts:345-401 | It fails with another number of values, or if one part does |
| BcsFormat.StructFormat | packages/bcs/src/bcs.ts:415-475 | A struct is its fields' encodings in the order of the schema, whatever the order of the object's entries; a missing one counts as undefined |
| BcsFormat.MapFormat | packages/bcs/src/bcs.ts:581-595 | A map is the groups of its size and then every key's encoding followed by its value's |
| BcsFormat.VariantFormat | packages/bcs/src/bcs.ts:533-546 | A variant is the groups of its position in the schema and then its payload, and fails exactly if that does |
| BcsFormat.EnumRefuses | packages/bcs/src/bcs.ts:547-567 | An enum refuses what is no object, and every object without exactly one entry that names a variant and is not undefined |
| BcsFormat.UnknownVariantFails | packages/bcs/src/bcs.ts:517-532 | A position that the schema does not have cannot be read |
| BcsLaws.DecodedStays | packages/bcs/src/bcs.ts:23-603 | Every value of the form that its schema asks for serializes and comes back unchanged |
| BcsLaws.RoundTripsExactly | packages/bcs/src/bcs.ts:23-603 | For every schema, a value that serializes comes back unchanged if and only if it has that form; the next two rows say what form that is at options and maps, and at any other transformation it is that the two functions bring the value back around the inner schema |
| BcsCombinators.OptionRoundTripsExactly | packages/bcs/src/bcs.ts:276-298 | A value serializes as an option and comes back if and only if it is null, or has the form of the element and is not undefined, or is true where the element writes true as something that reads as null |
| BcsCombinators.MapRoundTripsExactly | packages/bcs/src/bcs.ts:581-595 | A value serializes as a map and comes back with its pairs in order if and only if it is a map, no two keys are the same to a Map, and all keys and values have the form of their schemas |
| BcsForms.ReadsDecoded | packages/bcs/src/bcs.ts:23-603 | Every value that reading yields, from any data, has that form, if text codecs and transformations settle |
| BcsForms.ReadValuesComeBack | packages/bcs/src/bcs.ts:23-603 | Hence it serializes, and its own bytes read as the same value |
| BcsForms.PlainSettles | packages/bcs/src/bcs.ts:23-603 | Every schema of the source's combinators, with options, maps and recursive lazy schemas, settles if its text codecs do and no option's element and no variant's data are themselves optional |
| BcsForms.PlainComesBack | packages/bcs/src/bcs.ts:23-603 | Hence every value that such a schema reads, from any data, serializes and comes back |
| BcsForms.LinkedListSettles | packages/bcs/src/bcs.ts:599-603 | A struct with an option of itself, by a lazy schema, settles to any depth |
| BcsForms.OptionSettles | packages/bcs/src/bcs.ts:276-298 | An option settles if its element does and does not read as null |
| BcsForms.MapSettles | packages/bcs/src/bcs.ts:581-595 | A map settles if its keys and values do; set keeps keys distinct |
| BcsForms.NestedOptionChanges | packages/bcs/src/bcs.ts:276-298 | A nested option does not settle: data that read as true are written again as data that read as a number |
| BcsEnums.PayloadComesBackExactly | packages/bcs/src/bcs.ts:517-546 | For every enum, variant and payload that its own schema brings back: the enum value comes back if and only if the payload is not null |
| BcsEnums.EnumReads | packages/bcs/src/bcs.ts:517-532 | Reading a variant keeps what its data read as if and only if that is neither null nor undefined |
| BcsEnums.OptionReads | packages/bcs/src/bcs.ts:276-298 | Reading an option yields null for index 0 and what the element reads as for index 1, with true in the place of null |
| BcsEnums.NestedNoneReadsTrue | packages/bcs/src/bcs.ts:276-298 | For every element, the bytes 1 and 0 read as true under an option of an option, anywhere in a view |
| BcsEnums.NullPayloadBecomesTrue | packages/bcs/src/bcs.ts:517-532 | An instance that is written from a null payload and comes back as true |
| BcsEnums.WrittenVariant | packages/bcs/src/bcs.ts:533-567 | Of an object that validates, the defined entry is what is encoded and comes back as the variant if and only if no variant's key with an undefined value comes before it; otherwise the first such key is encoded |
| BcsEnums.UndefinedKeyIsWritten | packages/bcs/src/bcs.ts:533-567 | A value that validates as variant B and is written as variant A |
| BcsViews.ParseWithinView | packages/bcs/src/reader.ts:120-141 | For every schema, view and position: a parse ends within the view with a value if and only if the parse of the view's bytes alone does so with that value |
| BcsViews.FixedWidthIgnoresSurroundings | packages/bcs/src/reader.ts:60-115 | Schemas of fixed-width integers, booleans, fixed arrays, tuples, structs, transformations and lazy schemas never read beyond the view, so their parses are those of the view's bytes alone |
| BcsViews.LengthBeyondView | packages/bcs/src/reader.ts:133-141 | Reading a length goes beyond the view if and only if every byte up to the end of the view announces another one |
| BcsViews.BytesBeyondView | packages/bcs/src/reader.ts:120-127 | A byte vector is read beyond the view if and only if its length is not negative and what it announces ends beyond the view but within the buffer |
| BcsViews.SameDecode | packages/bcs/src/reader.ts:43-141 | Reads never move backwards, and a parse depends on the bytes up to its end only |
| BcsViews.TruncationEndsBeyond | packages/bcs/src/bcs-type.ts:63-66 | A proper prefix of an encoding either fails to parse or ends beyond its data |
| BcsViews.ReadsBehindView | packages/bcs/src/reader.ts:120-127 | A byte vector in a view of one byte that is read from the buffer behind it |
| BcsViews.NoDataReadAsEmpty | packages/bcs/src/uleb.ts:36-44 | No data at all read as an empty vector, for every element |
| BcsCombinators.OptionWrites | packages/bcs/src/bcs.ts:276-298 | Null and undefined are written as 0 and come back as null; every other value is written as 1 and what the element makes of it, fails if that does, and comes back as what the element reads, with true in the place of null |
| BcsCombinators.OptionComesBack | packages/bcs/src/bcs.ts:276-298 | Null as 0, and a value of the form of the element as 1 and its encoding, come back |
| BcsCombinators.MapComesBack | packages/bcs/src/bcs.ts:581-595 | A map comes back with the same pairs in the same order if no two keys are the same to a Map |
| BcsCombinators.PairsOfItems | packages/bcs/src/bcs.ts:587-593 | Setting distinct keys one after the other keeps all pairs in order |
| BcsCombinators.RepeatedKeyKeepsPlace | packages/bcs/src/bcs.ts:587-593 | A primitive key that occurs again keeps its first place and takes the last value; any other key comes last |
| BcsCombinators.EncodeWithMoreFuel | packages/bcs/src/bcs-type.ts:277-293 | An encoding does not depend on how often lazy schemas may unfold, once it exists |
| BcsCombinators.DecodeWithMoreFuel | packages/bcs/src/bcs-type.ts:277-293 | Neither does the outcome of a parse that succeeds |
| BcsTypes.WriteValue | packages/bcs/src/bcs-type.ts:53-56 | write appends exactly the encoding, whose bytes the rows of BcsFormat give for every kind of schema; it fails if there is none, and never for lack of room if the encoding fits |
| BcsTypes.WriteItems | packages/bcs/src/bcs.ts:307-335 | The loop over the items appends their encodings in order |
| BcsTypes.WriteTuple | packages/bcs/src/bcs.ts:345-401 | The loop over the types does the same for a tuple |
| BcsTypes.WriteFields | packages/bcs/src/bcs.ts:415-475 | The loop over the fields does the same for a struct |
| BcsTypes.WriteEnum | packages/bcs/src/bcs.ts:533-546 | The loop over the variants finds the index that the specification names |
| BcsTypes.ReadValue | packages/bcs/src/bcs.ts:23-603 | read yields the specified value and position, or the specified error: of an encoding its value (BcsRoundTrip.DecodeEncode), and of any bytes what the rows of BcsFormat say for booleans and integers |
| BcsTypes.ReadItems | packages/bcs/src/bcs.ts:307-335 | The loop over the length reads the items in order |
| BcsTypes.ReadFields | packages/bcs/src/bcs.ts:415-475 | The loop over the fields reads the entries in order |
| BcsTypes.SizeIsPredicted | packages/bcs/src/bcs-type.ts:86-91 | serializedSize never fails on a value that serializes, and a size that it gives is the length of the encoding, through transformations, lazy schemas, tuples and structs |
| BcsFormat.SizeIsKnownExactly | packages/bcs/src/bcs.ts:23-475 | Of a value that serializes, serializedSize gives a size if and only if its schema consists of integers, booleans, byte arrays, and tuples and structs of such |
| BcsTypes.Serialize | packages/bcs/src/bcs-type.ts:25-61 | serialize, by the byte-array fast path or the writer, yields the encoding or fails, yields it whenever the options leave room, and needs no growth when the size is predicted |
| BcsTypes.ParseBytes | packages/bcs/src/bcs-type.ts:63-66 | parse of a view at any offset yields the specified value or error |
| BcsTypes.SerializeAndParse | packages/bcs/src/bcs-type.ts:109-143 | Serializing a value and parsing the bytes returns its canonical value, which is the value itself if and only if it has the form that its schema asks for; it fails only on values without an encoding |
| DataLoaders.InitialInv | packages/utils/src/dataloader.ts:21-31 | A new loader satisfies the invariant |
| DataLoaders.RunKeepsInv | packages/utils/src/dataloader.ts:44-370 | In every reachable state keys and callbacks correspond and respect the batch size, every promise is where it was put with the outcome of its batch, and cached and hit promises are never cache hits themselves |
| DataLoaders.RunIsLater | packages/utils/src/dataloader.ts:44-370 | Over every run a promise settles at most once, and a dispatched batch never gains a key, callback or cache hit |
| DataLoaders.RunRefines | packages/utils/src/dataloader.ts:44-370 | If batch function and primes agree with a function that respects the cache keys, every promise is pending, has the function's value, or has the error of the batch it depends on, which then failed |
| DataLoaders.AllSettled | packages/utils/src/dataloader.ts:272-370 | When all batches are done every promise has a value or an error, and what a cache hit follows is no cache hit |
| DataLoaders.EnqueuedOnce | packages/utils/src/dataloader.ts:51-81 | Between two removals a cache key is enqueued at most once, and not at all if it is cached |
| DataLoaderBatches.WaitingBatchesAreFull | packages/utils/src/dataloader.ts:246-270 | In every reachable state a batch that waits for its dispatch and is not the current one holds exactly as many keys as the limit; without a limit there is none |
| DataLoaderBatches.LoadsShareBatches | packages/utils/src/dataloader.ts:51-82 | n loads of different keys, with no dispatch between them, make one batch without a limit and n / limit rounded up with one; their keys, one batch after the other, are the loaded keys, all but the last are full, and every load has a promise of its own |
| DataLoaderBatches.LoadAfterForgettingEnqueues | packages/utils/src/dataloader.ts:122-142 | After clear, clearAll or the failure of a batch with the key, the next load enqueues the key again, whatever else happens in between |
| DataLoaderBatches.LoadAfterPrimeHits | packages/utils/src/dataloader.ts:150-172 | A load after prime, with no removal in between, follows the primed promise, which has the value or error it was primed with; priming a cached key keeps the cached promise |
| DataLoaderBatches.LoadAfterLoadHits | packages/utils/src/dataloader.ts:57-70 | A load after a load of the same cache key, with no removal in between, follows the same promise |
| DataLoaderBatches.ReplySettles | packages/utils/src/dataloader.ts:312-361 | A reply gives promise i the i-th value or error if there are as many as keys, and otherwise rejects all; cache hits of the batch follow their promises, no other promise changes, and exactly the keys of a failed batch leave the cache |
| DataLoaderBatches.DispatchSettles | packages/utils/src/dataloader.ts:272-310 | A dispatch hands the keys over, or rejects them all if the batch function throws or returns no promise; a batch without keys only resolves its cache hits |
| DataLoaders.SettleAllAt | packages/utils/src/dataloader.ts:334-370 | Settling a list of promises gives each its outcome and leaves all others alone |
| DataLoaders.EndBatchSettles | packages/utils/src/dataloader.ts:334-370 | The end of a batch settles exactly the promises of that batch |
| DataLoaderObjects.DataLoader.GetCurrentBatch | packages/utils/src/dataloader.ts:246-270 | The current batch is kept exactly if it is not dispatched and has fewer keys than the limit; otherwise an empty one is added and becomes the current one |
| DataLoaderObjects.DataLoader.Load | packages/utils/src/dataloader.ts:44-82 | load returns a new promise for its key and changes the state as its step specifies; a null key changes nothing |
| DataLoaderObjects.DataLoader.Clear | packages/utils/src/dataloader.ts:122-129 | clear changes the state as its step specifies |
| DataLoaderObjects.DataLoader.ClearAll | packages/utils/src/dataloader.ts:136-142 | clearAll changes the state as its step specifies |
| DataLoaderObjects.DataLoader.Prime | packages/utils/src/dataloader.ts:150-172 | prime changes the state as its step specifies |
| DataLoaderObjects.DataLoader.DispatchBatch | packages/utils/src/dataloader.ts:272-310 | The scheduled callback of a batch does what its step specifies |
| DataLoaderObjects.DataLoader.SettleBatch | packages/utils/src/dataloader.ts:312-349 | What follows the promise of the batch function does what its step specifies |
| DataLoaderObjects.DataLoader.FailedDispatch | packages/utils/src/dataloader.ts:354-361 | The loop over the keys clears each and rejects its promise |
| DataLoaderObjects.DataLoader.ResolveHits | packages/utils/src/dataloader.ts:364-370 | The loop over the cache hits makes each follow its cached promise |
| LedgerBlocks.SplitIntoChunks | packages/ledgerjs-hw-app-sui/src/Sui.ts:188-192 | The loop cuts a payload into its chunks |
| LedgerBlocks.LinkChunks | packages/ledgerjs-hw-app-sui/src/Sui.ts:194-208 | The fold from the last chunk links the blocks |
| LedgerBlocks.SendChunks | packages/ledgerjs-hw-app-sui/src/Sui.ts:171-219 | The whole call is the specified conversation |
| LedgerBlocks.HandleBlocksProtocol | packages/ledgerjs-hw-app-sui/src/Sui.ts:221-267 | The loop over the replies sends the initial payload and then answers every reply: a request with 1 and the block last put or given under its key, or with 2 if there is none; a block to store with 3; a part of the result with 4 |
| LedgerBlocks.ConversationIsDialogue | packages/ledgerjs-hw-app-sui/src/Sui.ts:221-267 | The same of the specified conversation |
| LedgerBlocks.ChunksRestorePayload | packages/ledgerjs-hw-app-sui/src/Sui.ts:188-192 | Chunk i is the payload from 180 * i to 180 * (i + 1) or its end, and there are as many as it takes |
| LedgerBlocks.LinkAllKeeps | packages/ledgerjs-hw-app-sui/src/Sui.ts:185-209 | After linking all payloads, the map is content-addressed, nothing of the extra data is lost, and each parameter leads through the chunks of its payload to the zero hash |
| LedgerBlocks.RunKeepsBlocks | packages/ledgerjs-hw-app-sui/src/Sui.ts:229-266 | For all requests and stored blocks in any order, the map stays content-addressed and loses or replaces nothing |
| LedgerBlocks.DeviceReadsPayload | packages/ledgerjs-hw-app-sui/src/Sui.ts:181-266 | In every conversation, a device that asks for the j-th pointer of the first message and then for the pointer in each answer gets, in the messages, 1, a pointer and the next 180 bytes of payload j each time, and the zero pointer exactly with its end |
| LedgerBlocks.PointersInFirstMessage | packages/ledgerjs-hw-app-sui/src/Sui.ts:209-219 | The first message is 0 and one pointer of 32 bytes for each payload |
| LedgerBlocks.StoredBlockIsAnswered | packages/ledgerjs-hw-app-sui/src/Sui.ts:247-259 | The message after a request for the key of a stored block is 1 and that block, at every point of every conversation |
| LedgerBlocks.PutBlockIsAnswered | packages/ledgerjs-hw-app-sui/src/Sui.ts:247-263 | So is the message after a request for the hash of a block that the device put before |
| LedgerBlocks.ResultIsConcatenation | packages/ledgerjs-hw-app-sui/src/Sui.ts:240-266 | The result is the in-order concatenation of the result packets up to the first final one, and no message follows it |
| LedgerBlocks.UnknownInstructionFails | packages/ledgerjs-hw-app-sui/src/Sui.ts:235-239 | The first unknown instruction before a final packet ends the call with an error |
| CodegenTypes.RenderReportsReferences | packages/codegen/src/render-types.ts:22-264 | A rendering that succeeds reports exactly the datatypes that the type refers to |
| CodegenTypes.RenderSucceedsExactly | packages/codegen/src/render-types.ts:22-264 | A rendering succeeds exactly if there is no signer, placeholder, tuple, function, unknown type parameter or option without argument where it descends |
| CodegenClosure.MoveModuleBuilder.IncludeType | packages/codegen/src/move-module-builder.ts:81-143 | Inclusion terminates, also on cyclic types; it adds only good types reachable from its type together with their targets, and fails only if a reachable type cannot be included |
| CodegenClosure.MoveModuleBuilder.IncludeAllTypes | packages/codegen/src/move-module-builder.ts:145-148 | The same from all structs and enums of a module |
| CodegenClosure.IncludedIsReachable | packages/codegen/src/move-module-builder.ts:81-148 | From nothing, the included types are exactly those reachable from the roots, and all of them are good |
| CodegenClosure.GoodExactly | packages/codegen/src/move-module-builder.ts:81-143 | A type is good exactly if its module declares it, all its fields can be rendered, and there is a summary for every datatype that its code names |
| CodegenClosure.Generate | packages/codegen/src/index.ts:85-123 | The included types are exactly those reachable from the types of the modules of the main package, or of all modules without pruning; it fails exactly if one of them cannot be included; a module is written exactly if it has included types, or a public function that is no macro and is of the main package or not pruned; every included type is in a written module |
| CodegenClosure.ReferencesAreEmitted | packages/codegen/src/move-module-builder.ts:172-365 | Every datatype that the emitted code of an included type names is included, in a module that is written |
| CodegenClosure.DeclarationReports | packages/codegen/src/move-module-builder.ts:98-142 | The fields of a declaration report exactly the datatypes that its emitted code names |
| CodegenClosure.ReferenceFindsFile | packages/codegen/src/move-module-builder.ts:186-199 | A reference finds the file of its module if and only if it does not lead from a dependency into the main package and does not mistake a module with the same resolved address for its own |
| CodegenClosure.FilesDiffer | packages/codegen/src/index.ts:107-116 | No two modules are written to one file, under their own names, and exactly the modules of the main package beside each other |
| MoveIdentifiers.RenameAt | packages/move-bytecode-template/src/lib.rs:56-75 | Renaming succeeds exactly if the new names it uses are valid, and renames exactly the first occurrences |
| MoveIdentifiers.RenameFails | packages/move-bytecode-template/src/lib.rs:56-75 | It fails with the first new name that would be used and is not valid |
| MoveIdentifiers.LeqIsLexicographic | packages/move-bytecode-template/src/lib.rs:77-80 | Identifiers are compared by the first character that differs, and a prefix comes first |
| MoveIdentifiers.RenamesAllExactly | packages/move-bytecode-template/src/lib.rs:56-75 | Every identifier in the map becomes what the map says if and only if no two equal ones occur, unless the map leaves them alone |
| MoveIdentifiers.SecondOfEqualStays | packages/move-bytecode-template/src/lib.rs:56-75 | Of two equal identifiers the second one keeps its name |
| MoveIdentifiers.SortPoolSorts | packages/move-bytecode-template/src/lib.rs:77-80 | The sorted pool is sorted and a permutation |
| MoveIdentifiers.SortsTogether | packages/move-bytecode-template/src/lib.rs:77-80 | The pool read through the sorted indexes is the sorted pool |
| MoveIdentifiers.FindPosResolves | packages/move-bytecode-template/src/lib.rs:82-83 | find_pos inverts the sort permutation, and panics exactly on indexes out of range |
| MoveIdentifiers.UpdateResolves | packages/move-bytecode-template/src/lib.rs:52-113 | The new pool is a sorted permutation of the renamed one, and every module, datatype and function handle and struct field resolves to the rename of what it resolved to; it fails exactly on an invalid name or an index out of range |
| MoveIdentifiers.UpdateFails | packages/move-bytecode-template/src/lib.rs:52-113 | A failure is that of the renaming, or a panic for an index out of range |
| MoveIdentifiers.UnmappedIndexResolves | packages/move-bytecode-template/src/lib.rs:77-113 | An index that is not remapped keeps its meaning if and only if it lies in the rank interval of its identifier |
| MoveIdentifiers.EnumResolvesExactly | packages/move-bytecode-template/src/lib.rs:85-113 | An enum definition keeps the meaning of its names if and only if each of its indexes lies in the rank interval of its identifier |
| MoveIdentifiers.FriendsResolveExactly | packages/move-bytecode-template/src/lib.rs:85-113 | So do the friend declarations |
| MoveIdentifiers.EnumVariantsExchange | packages/move-bytecode-template/src/lib.rs:52-113 | In a module with a handle for itself and for its enum, a rename that exchanges the names of two variants while the handles keep theirs |
| MoveIdentifiers.CompiledModule.RenameIdentifiers | packages/move-bytecode-template/src/lib.rs:56-75 | The loop over the pool renames as specified |
| MoveIdentifiers.RemapHandles | packages/move-bytecode-template/src/lib.rs:85-105 | The loop over handles remaps each as specified |
| MoveIdentifiers.CompiledModule.UpdateIdentifiers | packages/move-bytecode-template/src/lib.rs:52-124 | The whole update leaves the module as specified, or fails as specified |

## Left out

- Elliptic curves, pairings, SHA3, SHA-256, HMAC and AES-GCM internals and random number generation: libraries.
- HTTP, timeouts, session keys, certificates and on-chain lookups in Seal, and the check of key types: a reply is one success or failure.
- SealObject: the hexadecimal codec of the object's ids is modelled, while `Ibe.Suite` keeps its own as a parameter, since only its results are hashed.
- SealObject: the Move structs of Seal's `bcs.ts` that describe key servers.
- The key store's text keys, full id and object id joined by a colon, are pairs.
- BcsRoundTrip.DecodeEncode: lengths, indices and variable-length integers lie below 2^31, because 32-bit shifts do not invert beyond it; text codecs are parameters.
- BcsSchema: lazy schemas are names in an environment, unfolded at most as often as a bound, which does not matter once it is large enough (`BcsCombinators.EncodeWithMoreFuel`, `BcsCombinators.DecodeWithMoreFuel`).
- JavaScript conversions of wrongly typed inputs beyond those of `AsNumber`, `AsBigInt` and `AsBytes`, fractional numbers, and big integers given as non-decimal text.
- User-supplied `validate` and `serializedSize` options, and the memo of a lazy type.
- Which error a failing `write` throws: the methods of the writer report success or failure.
- base58 and base64 encodings, and the hex, base58 and base64 helpers of serialized values.
- DataLoader: `loadMany`, priming with a pending promise, fractional batch sizes, and scheduling functions that run their callback at once, with which a loaded key would never be dispatched. Batches and promises are records in numbered lists instead of objects.
- Ledger: BIP32 paths, the layout of the payloads and of the public-key and signature results, logging; a device is the sequence of its replies.
- Codegen: the text that is rendered, imports other than the file they lead to, function rendering, reserved names; reports of one rendering are collected before the inclusions they cause.
- Codegen: module keys are pairs of address and name instead of joined text.
- MoveIdentifiers.UpdateResolves: the pool has at most 65536 identifiers, as many as 16-bit indexes can name; beyond it new indexes would wrap around.
- Move: deserialization, serialization, constants, the rule for valid identifiers, and everything of a compiled module that does not point into the identifier pool; CompiledModule is not part of this repository; its enum definitions follow `packages/codegen/src/types/deserialized.ts`, and its friend declarations are taken as module handles of their own. A sort is an insertion that keeps equal elements in order.
