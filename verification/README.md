# Peerplays protocol and crypto primitives in Dafny

This project models the self-contained, integer- and byte-level parts of
the Peerplays blockchain node and proves properties about them:

- **Protocol operation validators** (`libraries/protocol`):
  - the asset symbol grammar `is_valid_symbol`;
  - the asset creation fee;
  - every `validate()` of the asset, market and committee-member operations and of the option structures they carry (`asset_options`, `bitasset_options`, `lottery_asset_options`).
  
  A failing `FC_ASSERT` is modelled as a `Fail` outcome naming the check that fired.
- **The byte layer of `fc::ecc`** (`elliptic_common.cpp`):
  - big-endian `_put`/`_get`;
  - the 37-byte child-derivation message of the BIP-32 section "Child key derivation (CKD) functions";
  - the 78-byte extended-key layout of the BIP-32 section "Serialization format", written and parsed through a byte buffer;
  - `_parse_extended_data`;
  - the public-key base58 payload with its 4-byte checksum;
  - the canonical compact-signature test;
  - the `derive_child` dispatch.
- **Database queries** (`db_getter.cpp`):
  - lottery seed expansion and the deterministic, collision-free winner draw;
  - the SON (sidechain operator node) deregistration queries and their single-SON check;
  - the SON deregistration proposal with its 32-bit expiry;
  - the last irreversible block number.
- **The digest value types** `fc::sha1`, `fc::sha256` and `fc::sha512`:
  - zero construction;
  - the sized constructor;
  - the `memcmp` comparison operators;
  - `^`;
  - `to_variant`/`from_variant`;
  - the HMAC block size.

Loops and buffer writes in the source are methods over sequences and arrays. Each method is proved against a specification function: a layout, a recursive reference definition such as the winner draw `Draw`, or a set comprehension. The properties the code promises are proved as lemmas about those functions. Foreign computations are parameters:

- sha256 is a function parameter;
- base58 text enters as the bytes it decodes to;
- `chain_parameters::validate` enters as its outcome;
- the hash words of `get_seeds` enter as a hash function over 32-bit words.

Files:

| file | module | contents |
|---|---|---|
| results.dfy | Results | `Outcome` (`Pass`/`Fail`) of a validator, `Result` of a fallible conversion |
| bytes.dfy | Bytes | bytes, `u32`, big-endian value of a byte string |
| protocol_types.dfy | ProtocolTypes | `Asset`, `Price`, `Option`, chain constants |
| digests.dfy | Digests | sha1 / sha256 / sha512 values |
| elliptic_common.dfy | EllipticCommon | `fc::ecc` byte layer |
| asset_ops.dfy | AssetOps | asset operation validation and fees |
| market.dfy | Market | order validation |
| committee_member.dfy | CommitteeMember | committee member validation |
| db_getter.dfy | DbGetter | database queries |

## Model

| member | source | states |
|---|---|---|
| Digests.Zero | libraries/fc/src/crypto/sha256.cpp:14 | the default digest has the full width and every byte zero |
| Digests.Sha256FromData | libraries/fc/src/crypto/sha256.cpp:15-19 | the sized constructor succeeds exactly for 32 input bytes and then holds exactly those bytes |
| Digests.MemCmp | libraries/fc/src/crypto/sha1.cpp:70-84 | the `memcmp` sign is -1, 0 or 1, and 0 exactly when the two digests are equal |
| Digests.LessIsLexicographic | libraries/fc/src/crypto/sha256.cpp:92-94 | `<` holds exactly when the digests agree up to a position where the left one has the smaller byte |
| Digests.MemCmpAntisymmetric | libraries/fc/src/crypto/sha256.cpp:86-100 | swapping the operands negates the comparison |
| Digests.LessTransitive | libraries/fc/src/crypto/sha256.cpp:92-94 | `<` is transitive |
| Digests.OperatorsConsistent | libraries/fc/src/crypto/sha512.cpp:72-86 | exactly one of `<`, `==`, `>` holds; `!=` negates `==`; `>=` negates `<`; `==` is equality; `a > b` is `b < a` |
| Digests.XorLaws | libraries/fc/src/crypto/sha256.cpp:78-85 | `^` is commutative, `h ^ h` is zero, zero is the identity, and `^ b` undoes itself |
| Digests.FromVariant | libraries/fc/src/crypto/sha256.cpp:106-114 | zero-fill then copy leaves the first min(len, width) bytes of the vector followed by zeros |
| Digests.PaddedCases | libraries/fc/src/crypto/sha512.cpp:92-100 | short input is zero-padded, long input truncated, and empty input gives the zero digest |
| Digests.VariantRoundTrip | libraries/fc/src/crypto/sha1.cpp:86-98 | `from_variant(to_variant(h))` is `h` |
| Digests.HmacInternalBlockSize | libraries/fc/src/crypto/sha256.cpp:116-117 | the HMAC block is 64 bytes for sha256 and 128 for sha512, twice the digest width |
| EllipticCommon.Left | libraries/fc/src/crypto/elliptic_common.cpp:22-27 | `_left` holds the first 32 bytes of a sha512 |
| EllipticCommon.Right | libraries/fc/src/crypto/elliptic_common.cpp:29-34 | `_right` holds the last 32 bytes of a sha512 |
| EllipticCommon.LeftRightSplit | libraries/fc/src/crypto/elliptic_common.cpp:22-34 | the two halves together are the whole sha512 |
| EllipticCommon.AsUnsigned | libraries/fc/src/crypto/elliptic_common.cpp:59 | the `int` index handed to `_put` becomes its value modulo 2^32, unchanged when non-negative |
| EllipticCommon.BigEndian32 | libraries/fc/src/crypto/elliptic_common.cpp:36-42 | the four bytes `_put` writes denote the value, most significant byte first |
| EllipticCommon.Put | libraries/fc/src/crypto/elliptic_common.cpp:36-42 | `_put` writes the four big-endian bytes at the pointer, changes nothing else and advances the pointer by 4 |
| EllipticCommon.FromBigEndian32Shifts | libraries/fc/src/crypto/elliptic_common.cpp:44-51 | the value read is b0·2^24 + b1·2^16 + b2·2^8 + b3 |
| EllipticCommon.Get | libraries/fc/src/crypto/elliptic_common.cpp:44-51 | `_get` returns the big-endian value of the four bytes at the pointer and advances it by 4 |
| EllipticCommon.BigEndian32RoundTrip | libraries/fc/src/crypto/elliptic_common.cpp:36-51 | `_get` after `_put` returns the value, and `_put` after `_get` returns the bytes |
| EllipticCommon.DerivationMessageLayout | libraries/fc/src/crypto/elliptic_common.cpp:53-61 | the message is 37 bytes: prefix, 32 key bytes, the index in big-endian; its byte 33 has the top bit set exactly for negative indices |
| EllipticCommon.DeriveMessage | libraries/fc/src/crypto/elliptic_common.cpp:53-61 | the pointer-advancing writer produces that 37-byte message |
| EllipticCommon.DeriveMessagePublic | libraries/fc/src/crypto/elliptic_common.cpp:63-66 | the public-key message is the 33 key bytes followed by the index |
| EllipticCommon.DeriveMessagePrivate | libraries/fc/src/crypto/elliptic_common.cpp:68-71 | the private-key message is byte 0, the 32 secret bytes, then the index |
| EllipticCommon.ComponentCanonical | libraries/fc/src/crypto/elliptic_common.cpp:173-178 | the two byte tests on a 32-byte signature component hold exactly when its value lies in [2^247, 2^255) |
| EllipticCommon.IsCanonicalRange | libraries/fc/src/crypto/elliptic_common.cpp:173-178 | a compact signature is canonical exactly when both r and s lie in [2^247, 2^255) |
| EllipticCommon.PublicKeyBase58Payload | libraries/fc/src/crypto/elliptic_common.cpp:142-150 | the payload is the 33 key bytes followed by the first 4 bytes of their sha256 |
| EllipticCommon.PublicKeyFromBase58Payload | libraries/fc/src/crypto/elliptic_common.cpp:152-163 | decoding succeeds exactly for 37 bytes whose last 4 match the checksum, and then returns the key the payload was built from |
| EllipticCommon.PublicKeyBase58RoundTrip | libraries/fc/src/crypto/elliptic_common.cpp:142-163 | decoding an encoded public key gives the key back |
| EllipticCommon.ExtendedBase58Payload | libraries/fc/src/crypto/elliptic_common.cpp:234-241 | the base58 payload is the 78 layout bytes followed by the first 4 bytes of the double sha256 of those bytes |
| EllipticCommon.ParseExtendedData | libraries/fc/src/crypto/elliptic_common.cpp:243-253 | the 78-byte buffer holds the copied prefix of the decoded bytes, zero after it |
| EllipticCommon.ParsedBufferStripsChecksum | libraries/fc/src/crypto/elliptic_common.cpp:243-253 | for an 82-byte input the buffer is exactly its first 78 bytes |
| EllipticCommon.PublicDeriveChild | libraries/fc/src/crypto/elliptic_common.cpp:255-259 | public derivation fails exactly for indices with bit 0x80000000 set |
| EllipticCommon.WriteFields | libraries/fc/src/crypto/elliptic_common.cpp:264-268 | the first 13 bytes written are version, depth, parent fingerprint and child number, and no later byte changes |
| EllipticCommon.WriteHeader | libraries/fc/src/crypto/elliptic_common.cpp:263-269 | the first 45 bytes written are version, depth, parent fingerprint, child number and chain code, and bytes 45 to 77 are left as they were |
| EllipticCommon.PublicLayoutOffsets | libraries/fc/src/crypto/elliptic_common.cpp:261-273 | the public layout is 78 bytes with each field at its BIP-32 offset and the 33-byte key at 45..78 |
| EllipticCommon.SerializeExtendedPublic | libraries/fc/src/crypto/elliptic_common.cpp:261-273 | the buffer writer produces the public layout |
| EllipticCommon.ExtendedPublicStrRoundTrip | libraries/fc/src/crypto/elliptic_common.cpp:275-278 | parsing the base58 payload of a serialised public key gives the key back |
| EllipticCommon.VersionMatch | libraries/fc/src/crypto/elliptic_common.cpp:290 | the version read equals the magic exactly when the four bytes are the magic's bytes |
| EllipticCommon.DecodeExtendedPublic | libraries/fc/src/crypto/elliptic_common.cpp:285-299 | parsing succeeds exactly when the buffer starts with the public version bytes |
| EllipticCommon.ExtendedPublicFromBase58 | libraries/fc/src/crypto/elliptic_common.cpp:285-299 | the pointer-reading parser over the parsed buffer computes that decoding |
| EllipticCommon.ExtendedPublicEncodeDecode | libraries/fc/src/crypto/elliptic_common.cpp:285-299 | any accepted buffer is the layout of the key it decodes to |
| EllipticCommon.ExtendedPublicDecodeEncode | libraries/fc/src/crypto/elliptic_common.cpp:261-299 | parsing a serialised public key gives every field back |
| EllipticCommon.PrivateDeriveChild | libraries/fc/src/crypto/elliptic_common.cpp:306-309 | private derivation takes the hardened path exactly when the index's top bit is set, that is when it is negative |
| EllipticCommon.PublicDerivableIffNormal | libraries/fc/src/crypto/elliptic_common.cpp:255-309 | public derivation is possible exactly for the indices that private derivation treats as normal |
| EllipticCommon.PrivateChildMessageShape | libraries/fc/src/crypto/elliptic_common.cpp:311-326 | hardened children hash 0, the secret and the index; normal children hash the public key and the index |
| EllipticCommon.PrivateLayoutOffsets | libraries/fc/src/crypto/elliptic_common.cpp:328-341 | the private layout is 78 bytes with the fields at their offsets, byte 45 zero and the secret at 46..78 |
| EllipticCommon.SerializeExtendedPrivate | libraries/fc/src/crypto/elliptic_common.cpp:328-341 | the buffer writer produces the private layout |
| EllipticCommon.ExtendedPrivateStrRoundTrip | libraries/fc/src/crypto/elliptic_common.cpp:343-346 | parsing the base58 payload of a serialised private key gives the key back |
| EllipticCommon.DecodeExtendedPrivate | libraries/fc/src/crypto/elliptic_common.cpp:353-368 | parsing succeeds exactly when the buffer starts with the private version bytes |
| EllipticCommon.ReadHeaderFields | libraries/fc/src/crypto/elliptic_common.cpp:359-363 | reading after the version yields depth, fingerprint, child number and chain code from their offsets and leaves the pointer at 45 |
| EllipticCommon.ExtendedPrivateFromBase58 | libraries/fc/src/crypto/elliptic_common.cpp:353-368 | the pointer-reading parser over the parsed buffer computes that decoding |
| EllipticCommon.ExtendedPrivateEncodeDecode | libraries/fc/src/crypto/elliptic_common.cpp:353-368 | an accepted buffer is the layout of its key except byte 45, which the parser skips without checking |
| EllipticCommon.VersionsSeparate | libraries/fc/src/crypto/elliptic_common.cpp:358 | a public layout never parses as a private key, nor a private layout as a public key |
| EllipticCommon.ExtendedPrivateDecodeEncode | libraries/fc/src/crypto/elliptic_common.cpp:328-368 | parsing a serialised private key gives every field back |
| AssetOps.IsValidSymbol | libraries/protocol/asset_ops.cpp:36-72 | the check loop accepts exactly the symbols of the grammar: 3 to 16 characters of [A-Z0-9.], capital letters at both ends, at most one '.', no "BIT" prefix |
| AssetOps.ValidSymbolShape | libraries/protocol/asset_ops.cpp:36-51 | accepted symbols start and end with a capital letter, and a "BIT" prefix is always rejected |
| AssetOps.ValidSymbolAscii | libraries/protocol/asset_ops.cpp:36-72 | every character of an accepted symbol is ASCII, so its character count is its byte count |
| AssetOps.WrapsToUnique | libraries/protocol/asset_ops.cpp:91-93 | at most one signed 64-bit value is congruent to a sum modulo 2^64, so a fee stated through that congruence is determined |
| AssetOps.AddFee | libraries/protocol/asset_ops.cpp:91 | the `uint64_t` accumulation is the sum modulo 2^64: the plain sum when it fits, and smaller than the first operand exactly when it wraps |
| AssetOps.ToShare | libraries/protocol/asset_ops.cpp:93 | returning the unsigned accumulator as `share_type` gives the signed 64-bit value congruent to it, the same value when it is at most 2^63-1 and a negative one otherwise |
| AssetOps.FeeSumWraps | libraries/protocol/asset_ops.cpp:91-93 | the returned fee is the signed 64-bit reading of the exact sum, and equals the sum exactly when the sum is at most 2^63-1 |
| AssetOps.AssetCreateFee | libraries/protocol/asset_ops.cpp:79-94 | the fee is the signed 64-bit reading of `symbol3`, `symbol4` or `long_symbol` (by symbol length 3, 4 or other) plus the data fee, never failing |
| AssetOps.LotteryAssetCreateFee | libraries/protocol/asset_ops.cpp:115-123 | the signed 64-bit reading of the lottery fee plus the data fee, never failing; it equals the plain sum exactly when that sum is at most 2^63-1 |
| AssetOps.BitassetOptionsValidate | libraries/protocol/asset_ops.cpp:232-237 | passes exactly when there is a positive feed minimum and both percentages are at most 100% |
| AssetOps.AssetOptionsValidate | libraries/protocol/asset_ops.cpp:243-269 | each listed violation fails: supply, fee percent, max fee, unknown permission bits, global_settle flag, both fed flags, a rate without the core asset, authority lists without white_list; a pass implies disjoint market lists |
| AssetOps.AssetOptionsAccepted | libraries/protocol/asset_ops.cpp:243-269 | conversely, options meeting every condition pass |
| AssetOps.AssetCreateValidate | libraries/protocol/asset_ops.cpp:96-113 | a negative fee or invalid symbol fails with that check; it passes exactly when all the checks in `CreateChecks` hold: valid options, bitasset options when the force-settle or global-settle permissions or prediction-market mode call for them, global-settle permission for a prediction market, valid bitasset options, and precision at most 12 |
| AssetOps.PredictionMarketNeedsGlobalSettle | libraries/protocol/asset_ops.cpp:103-107 | a prediction market without bitasset options or without the global_settle permission is rejected |
| AssetOps.LotteryAssetCreateValidate | libraries/protocol/asset_ops.cpp:125-142 | the same outcome as plain asset creation on the embedded fields: a negative fee or invalid symbol fails with that check, and it passes exactly when all the checks in `CreateChecks` hold; the lottery options are not examined |
| AssetOps.AssetUpdateValidate | libraries/protocol/asset_ops.cpp:144-153 | passes exactly for a non-negative fee, a new issuer (if any) different from the old one, and valid options; a negative fee or an unchanged issuer fails with that check, and otherwise the outcome is that of the options |
| AssetOps.AssetReserveValidate | libraries/protocol/asset_ops.cpp:181-186 | passes exactly for a non-negative fee and an amount in (0, max supply] |
| AssetOps.AssetIssueValidate | libraries/protocol/asset_ops.cpp:188-194 | passes exactly for a non-negative fee, an amount in (0, max supply] and an asset other than the core asset |
| AssetOps.AssetFundFeePoolValidate | libraries/protocol/asset_ops.cpp:196-201 | passes exactly for a non-negative fee in the core asset and a positive amount |
| AssetOps.AssetSettleValidate | libraries/protocol/asset_ops.cpp:203-207 | passes exactly for a non-negative fee and amount |
| AssetOps.AssetUpdateBitassetValidate | libraries/protocol/asset_ops.cpp:209-213 | passes exactly for a non-negative fee and valid bitasset options |
| AssetOps.AssetUpdateDividendValidate | libraries/protocol/asset_ops.cpp:215-219 | passes exactly for a non-negative fee; dividend options accept everything |
| AssetOps.AssetUpdateFeedProducersValidate | libraries/protocol/asset_ops.cpp:221-224 | passes exactly for a non-negative fee |
| AssetOps.AssetGlobalSettleValidate | libraries/protocol/asset_ops.cpp:226-230 | passes exactly for a non-negative fee and a settlement price based on the settled asset |
| AssetOps.AssetClaimFeesValidate | libraries/protocol/asset_ops.cpp:271-274 | passes exactly for a non-negative fee and a positive claim |
| AssetOps.LotteryAssetOptionsValidate | libraries/protocol/asset_ops.cpp:277-289 | as written: passes exactly for at most 64 winning tickets, a price of at least 1 and a share total equal to 100% modulo 2^16 |
| AssetOps.WrappingAdd | libraries/protocol/asset_ops.cpp:281-287 | adding into the 16-bit accumulator keeps it equal to the true sum modulo 2^16 |
| AssetOps.LotteryShareTotalWraps | libraries/protocol/asset_ops.cpp:281-288 | shares 65535 and 10001 (755.36% in total) pass the check as written and fail the intended one |
| AssetOps.LotteryAssetOptionsIntended | libraries/protocol/asset_ops.cpp:277-289 | corrected: passes exactly when the true share total is 100%, so no single ticket share exceeds 100% |
| AssetOps.IntendedImpliesWritten | libraries/protocol/asset_ops.cpp:277-289 | whatever the corrected check accepts, the check as written accepts too |
| Market.LimitOrderCreateValidate | libraries/protocol/market.cpp:31-37 | passes exactly for different assets, a non-negative fee and positive amounts; the same asset on both sides fails with that check |
| Market.LimitOrderCancelValidate | libraries/protocol/market.cpp:39-42 | passes exactly for a non-negative fee |
| Market.CallOrderUpdateValidate | libraries/protocol/market.cpp:44-49 | passes exactly for a non-negative fee, different collateral and debt assets and not both deltas zero |
| CommitteeMember.CommitteeMemberCreateValidate | libraries/protocol/committee_member.cpp:31-35 | passes exactly for a non-negative fee and a URL shorter than 127 bytes |
| CommitteeMember.CommitteeMemberUpdateValidate | libraries/protocol/committee_member.cpp:37-42 | passes exactly for a non-negative fee and an absent or short enough new URL |
| CommitteeMember.UpdateAgreesWithCreate | libraries/protocol/committee_member.cpp:31-42 | updating to a URL passes exactly when creating with it would |
| CommitteeMember.CommitteeMemberUpdateGlobalParametersValidate | libraries/protocol/committee_member.cpp:44-48 | a negative fee fails; otherwise the outcome is that of the parameters' own validation |
| DbGetter.LastNonUndoableBlockNum | libraries/chain/db_getter.cpp:104-107 | the head block number minus the undo size modulo 2^32, the plain difference when no underflow occurs |
| DbGetter.GetSeeds | libraries/chain/db_getter.cpp:109-125 | fails exactly for more than 64 winners; otherwise the 64 seeds of `SeedsOf`, seed 8s+j being word j of the sub-hash of word s |
| DbGetter.WinnerNum | libraries/chain/db_getter.cpp:137 | a drawn winner is below the member count and below the width of its variable |
| DbGetter.NextSeed | libraries/chain/db_getter.cpp:139 | the redrawn seed is below 2^16 |
| DbGetter.SelectWinners | libraries/chain/db_getter.cpp:136-147 | the loop computes `Draw`: each seed adds the first winner along its redraw chain not drawn before; on success exactly the requested number of pairwise distinct winners, each below min(members, width), the first from the first seed |
| DbGetter.Redraw | libraries/chain/db_getter.cpp:138-141 | the collision loop of one seed computes `Settle` |
| DbGetter.Settle | libraries/chain/db_getter.cpp:137-141 | the winner settled on is the one of the first undrawn seed along the chain, every earlier seed of the chain collides, and running out of fuel means all fuel + 1 seeds of the chain collide |
| DbGetter.Draw | libraries/chain/db_getter.cpp:136-144 | the only failure is running out of fuel, and a success extends the winners drawn so far |
| DbGetter.NoCollisionDraw | libraries/chain/db_getter.cpp:136-144 | when the first seeds draw pairwise different winners the draw succeeds with any fuel and winner i comes from seed i |
| DbGetter.GetWinnerNumbers | libraries/chain/db_getter.cpp:127-148 | as written: no members or winners gives an empty result, more than 64 fails, otherwise the result is `Draw` over the expanded seeds with 8-bit winners: the clamped count of distinct winners, each below min(members, 256) |
| DbGetter.WinnerNumberTruncated | libraries/chain/db_getter.cpp:137 | with 300 members a seed of 299 draws 43 as written and 299 as intended |
| DbGetter.SmallMembershipUnaffected | libraries/chain/db_getter.cpp:137-140 | with at most 256 members truncation changes nothing |
| DbGetter.GetWinnerNumbersIntended | libraries/chain/db_getter.cpp:127-148 | corrected: `Draw` over the same seeds with 32-bit winners, every winner below the member count, so every member can be drawn |
| DbGetter.ProposedSonsMembers | libraries/chain/db_getter.cpp:150-163 | a son is collected exactly when some proposal of the given type names it |
| DbGetter.SonsWithProposalType | libraries/chain/db_getter.cpp:150-163 | the loop over the proposal index collects those sons |
| DbGetter.GetSonsBeingDeregistered | libraries/chain/db_getter.cpp:150-163 | exactly the sons named by a deregister proposal |
| DbGetter.GetSonsBeingReportedDown | libraries/chain/db_getter.cpp:187-200 | exactly the sons named by a report-down proposal |
| DbGetter.ReadySonsMembers | libraries/chain/db_getter.cpp:165-185 | a SON is ready exactly when it is in maintenance and has been down for at least the deregistration time |
| DbGetter.GetSonsToBeDeregistered | libraries/chain/db_getter.cpp:165-185 | the loop collects exactly the ready SONs |
| DbGetter.FindSon | libraries/chain/db_getter.cpp:233 | the lookup returns a SON with the id, or none exists |
| DbGetter.IsSonDeregValid | libraries/chain/db_getter.cpp:230-238 | fails exactly for an unknown SON; otherwise tells whether that SON is ready |
| DbGetter.DeregValidAgreesWithBulk | libraries/chain/db_getter.cpp:165-238 | with unique ids, the single check is true exactly when the SON is among the sons to be deregistered |
| DbGetter.CreateSonDeregisterProposal | libraries/chain/db_getter.cpp:202-214 | one SON deletion paid by the SON account, fee paid by the paying SON, expiring at head time + interval × witnesses × 3 modulo 2^32 |
| DbGetter.ProposalLifetime | libraries/chain/db_getter.cpp:211-212 | without overflow the proposal lives exactly three witness rounds |

## Left out

- Hash computation (SHA*_Init/Update/Final), HMAC digests, ripemd160, base58 encoding and decoding, and all elliptic-curve and bignum work: `regenerate`, `generate_from_seed`, `get_secret`, `fingerprint`, `from_key_data`, `child`, `generate_master`, `private_derive_rest`. They are foreign library calls. Hashes enter as function parameters, and base58 text enters as its decoded bytes.
- The digest shift operators: `_digest_common.hpp` is not part of this model.
- The hex constructors and `str()` of the digests, which are a hex conversion outside these files.
- Digests.Xor: XOR is modelled bytewise over the memory image. This equals the source's wordwise XOR whatever the byte order of a word, since XOR acts on each bit independently.
- The price products `asset(1) * core_exchange_rate` (asset_ops.cpp lines 110-111, 139-140, 151-152) and `core_exchange_rate.validate()`. The price type's arithmetic is not part of this model.
- AssetOps.AssetCreateValidate: omits the core-exchange-rate product check, for the reason above.
- AssetOps.LotteryAssetCreateValidate: omits the core-exchange-rate product check, for the reason above.
- AssetOps.AssetUpdateValidate: omits the core-exchange-rate product check, for the reason above.
- AssetOps.AssetOptionsValidate: omits `core_exchange_rate.validate()`, for the reason above.
- `asset_publish_feed_operation::validate`: `price_feed` and its validation are not part of this model.
- `calculate_data_fee` and `pack_size`: the serialiser is not part of this model. The data fee enters as a number.
- AssetOps.AssetCreateFee: `calculate_data_fee` is taken to return an unsigned 64-bit value, and the fee-parameter fields `uint64_t`. The header declaring them is not part of this model. The fee tier is chosen by the symbol's length in characters, where the source counts the bytes of the `std::string`; the two agree on ASCII symbols and so on every symbol `is_valid_symbol` accepts (`ValidSymbolAscii`), and differ on a non-ASCII symbol such as "ÉAB", which the model charges `symbol3` and the source `symbol4`.
- The 16-bit widths of `issuer_permissions` and `flags` (`bv16`), of `market_fee_percent`, of the two `bitasset_options` percentages, and of `benefactor.share` and the `winning_tickets` elements (`u16`) follow the Graphene declarations. The header declaring them is not part of this model; the lottery row under "## Findings" depends on the share and ticket widths being 16 bits.
- The fee calculations of `asset_issue_operation` and `asset_update_operation`: they have the same flat-fee-plus-data-fee shape as `LotteryAssetCreateFee`.
- `chain_parameters::validate`: it enters `CommitteeMemberUpdateGlobalParametersValidate` as its outcome.
- The singleton getters of db_getter.cpp (lines 39-102), `create_signed_transaction`, `get_account_stats_by_owner` and `get_witness_schedule_object`. These are database plumbing, signing and plain lookups.
- DbGetter.GetWinnerNumbers: the redraw loop spends a fuel unit per collision and fails when the fuel runs out. The source has no bound, and a redraw that keeps colliding could loop for ever.
- DbGetter.GetSeeds: the 32-bit words of a sha256 are taken as given. Reading hash bytes through a `uint32_t*` depends on the machine's byte order, so the model does not fix an order. The source also reads both hashes through pointers into the `_hash` of a `sha256` returned by value (db_getter.cpp lines 113 and 119). That temporary dies at the end of its statement, so the words are read from storage whose lifetime has ended, which is undefined behaviour. The model reads the words of the hash that was meant.
- DbGetter.Son: the SON statistics object is folded into its `last_down_timestamp`, and among the statuses only `in_maintenance` is distinguished. The time difference is taken in whole seconds.
- EllipticCommon.ExtendedPublicFromBase58: takes the decoded bytes. The checksum of the base58 text is never verified, exactly as in the source, so any 4 trailing bytes are accepted.
- EllipticCommon.ExtendedPrivateFromBase58: takes the decoded bytes and does not model `private_key::regenerate` of the secret. Byte 45 of the layout is skipped without being checked, as in the source.
- EllipticCommon.DecodeExtendedPublic: the parent fingerprint and child number, read into `int` in the source, are held as their 32-bit unsigned bit patterns.
- AssetOps.IsValidSymbol: `isalpha`, `isupper` and `isdigit` are the ASCII classes of the C locale.
- Logging, the plugin and sport declarations, and the betting tests carry no logic of these components.

## Findings

| source | as written | input that shows it | evidently intended | confidence | as-written member | corrected member |
|---|---|---|---|---|---|---|
| libraries/protocol/asset_ops.cpp:281-288 | the shares are summed in a `uint16_t` accumulator, which wraps modulo 2^16 | no benefactors, winning-ticket shares 65535 and 10001, ticket price 1: the total wraps to 10000 and is accepted, although the shares add up to 755.36% | the shares add up to exactly 100% | not executed; proved on the model | AssetOps.LotteryAssetOptionsValidate, AssetOps.LotteryShareTotalWraps | AssetOps.LotteryAssetOptionsIntended |
| libraries/chain/db_getter.cpp:137 | the winner index `seed % count_members` is stored in a `uint8_t` and truncated to 8 bits | 300 members and a first seed of 299: the winner is 43 instead of 299, and members 256 to 299 can never be drawn | the winner is `seed % count_members` in full | not executed; proved on the model | DbGetter.GetWinnerNumbers, DbGetter.WinnerNumberTruncated | DbGetter.GetWinnerNumbersIntended |
