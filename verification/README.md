# Signet platform: verified model

The Signet platform console is a Go service over Postgres, a Solidity contract and the Signet nodes, with a TypeScript
front end. This project models the parts of it where a mistake is easy to make and hard to see, and proves what each
part is for. One module models one source file or component.

- **Wire codecs.** `AbiEncoding` is the canonical encoder of the Solidity ABI ("Formal Specification of the Encoding").
  `AbiDecoder` is the hand-written Go decoder with its 64-bit sums, slice bounds and panics; `AbiRoundTrip` and
  `ChainClient` prove that it inverts the encoder at every nesting depth in use, and that the one call with a dynamic
  argument is canonical. `UserOp` is the guard on signed operations and on plain transactions. `Hex` and `WebHex` are
  the server's and the browser's hexadecimal codecs. `Flatten` is the packing and flattening of a user operation,
  `Scopes` the scope bytes of a sub-key.
- **Threshold signatures.** `ExpandMessage` is `expand_message_xmd` (section 5.3.1 of RFC 9380) over any function to 32
  bytes. `Frost` is the verification of section 6.5 of RFC 9591 over any group of prime order with an injective point
  encoding. `FrostWitness` shows that the assumptions hold together and that the theorems apply, in the integers modulo
  5 and with a reused nonce.
- **Derived state.** `Usage`, `Keys` and `GroupSync` hold the tables as fields of a class. Each transaction is a method
  with the source's loops, proved against a recomputation from the source of truth.
- **Runs.** `Orgs`, `OrgRaces`, `Challenges` and `QueryHook` are state machines; their main results hold after every
  sequence of steps. A handler's role checks in `Orgs` are steps of their own, so other requests may run between a check
  and the store call it protects; in `OrgRaces` so are the statements inside a store call.
- **Text.** `Siwe` prints and parses ERC-4361 messages, `SiweRefusals` says which are refused and why, `KeyIds` splits
  key identifiers, `Operators` groups node listings, `ClientIds` compares allow-lists.

`Outcomes`, `Bytes`, `Strings` and `Percentiles` hold what the others share. Lemmas named `…Exactly` say what one
operation does on every input, errors included, in terms of its inputs alone.

Where the code and its own comments disagree, the model follows the code and states exactly when the comment holds:

- backend/internal/chain/abi.go:55-57 says a malformed response errors rather than panics. A length word near 2^63
  makes the guard's sum wrap, and the slice panics: `BytesAtExact`, `LargestLengthPanics`. A large array length makes
  the allocation panic. `AbiPanics` states, for each decoder callers use, exactly the data on which it panics. The same
  sums are taken for the dynamic argument in backend/internal/userop/userop.go:143-152 and 277-290:
  `UnwrapPanicsExactly`, `BytesArgPanicsExactly`, `HugeOffsetPanics`.
- backend/internal/store/keys.go:163-164 says the users screen never disagrees with the inventory. A subject that loses
  its last live key keeps its old count: `KeyCountExact`, `StaleKeyCount`.
- backend/internal/api/handlers_apps.go:800 says the lists are compared as sets. They are compared as multisets:
  `SameClientIDs`, `ComparesAsSetsExactly`, `RepetitionsMatter`.
- backend/internal/store/apps.go:531-537 says a key the group trusts is surfaced. One whose rows are all revoked is
  neither listed nor adopted again: `KeyShownExactly`, `RevokedKeyIsHidden`.
- backend/internal/store/users.go:148 says consumed nonces are dropped. They go with the others, by expiry alone:
  `PurgeDropsExactly`, `ConsumedChallengeIsKept`.
- backend/internal/store/orgs.go:148-149 says the last owner cannot be demoted. The count and the write are separate
  statements, so two calls that overlap can demote the last two: `CoveredExactly`, `MutualDemotion`.
- backend/internal/auth/siwe.go:25-27 says no claim of the signer goes unchecked. A repeated field is accepted, and only
  its last line counts: `ClaimDroppedExactly`, `FirstNonceIsDropped`.
- web/lib/hooks.ts:33-34 says the counter guards against setting state after unmount. A refresh that starts after the
  cleanup is applied: `AppliedAfterCleanupExactly`, `ShownAfterCleanup`.
- backend/internal/api/handlers_keys.go:171-174 says a constrained key is never shown as unrestricted, or the reverse.
  The kind of scope is replaced on every sync and the columns are merged, so the two can differ: `ScopeShownExactly`,
  `UnscopedKeepsContract`.
- backend/internal/api/handlers_keys.go:125-128 says the subject hash stands for issuer and subject. A subject of 16
  hexadecimal digits is taken for a scope, and the issuer alone is hashed; a subject with a colon can be split in more
  than one way: `SubjectsShareHashExactly`, `HexSubjectsCollide`, `IssuersCollide`, `ColonSubjectsCollide`.

Two more limits contradict no comment. The error rate of backend/internal/store/usage.go:131-150 divides every failed
event by the auth, keygen and sign events alone, so it can exceed one (`ErrorRateExact`, `ErrorRateOfTwo`). A statement
containing ": " is printed into a sign-in message but parsed as a field (`PrintParse`); this server issues one
statement, which does not (`DeployedStatementIsParsed`).

## Model

| member | source | states |
|---|---|---|
| Hex.EncodeHex | backend/internal/chain/abi.go:249-258 | the loop over the buffer writes exactly two lower-case digits per byte |
| Hex.DecodeHex | backend/internal/chain/abi.go:217-235 | the loop returns the bytes of the trimmed, lower-cased, unprefixed, even-padded text, or an error exactly when one character is not a digit |
| Hex.HexRoundTrip | backend/internal/chain/abi.go:217-258 | decoding an encoded byte string returns it, with or without the 0x prefix |
| Hex.DecodesExactly | backend/internal/chain/abi.go:217-235 | strict decoding succeeds on exactly the texts of even length that hold hexadecimal digits alone |
| Hex.DigitsReadAsNumber | backend/internal/chain/abi.go:217-235 | digits, with or without 0x, in either case, between blanks, an odd number of them too, are read as the bytes of the number they denote |
| WebHex.HexToBytes | web/lib/signet.ts:263-270 | the loop fills each byte with what `parseInt` makes of its two characters, reduced as a Uint8Array reduces it |
| WebHex.PairExactly | web/lib/signet.ts:263-270 | what `parseInt` makes of every pair of characters |
| WebHex.AgreesWithServer | web/lib/signet.ts:263-270 | on every text the server's strict decoder accepts, the browser reads the same bytes |
| WebHex.BrowserRoundTrip | web/lib/signet.ts:263-276 | the browser reads back its own rendering of any bytes |
| AbiDecoder.Decoder.AddressArray | backend/internal/chain/abi.go:147-165 | the loop returns the addresses of the array in order, or the first failure, or the panic of an impossible allocation |
| AbiDecoder.Decoder.BytesArray | backend/internal/chain/abi.go:167-193 | the loop follows each element's offset, relative to the first element, and stops at the first failure |
| AbiDecoder.Decoder.StringArrayAt | backend/internal/chain/abi.go:195-215 | the same for a string array anywhere in the data |
| AbiRoundTrip.WordExact | backend/internal/chain/abi.go:60-65 | reading a word is total below 2^63 - 32: the 32 bytes of the data there, or an error exactly past the end |
| AbiRoundTrip.ScalarsExactly | backend/internal/chain/abi.go:67-121 | what each scalar of any data is read as: numbers below 2^63, offsets within the data, truth values from numbers below 256 and true only for 1, addresses from the last 20 bytes; errors otherwise, never a panic |
| AbiRoundTrip.BytesAtExact | backend/internal/chain/abi.go:123-135 | for every data and offset: succeeds exactly when the announced bytes are there and then returns that slice; panics exactly when the length fits int64 but the guard's sum does not |
| AbiRoundTrip.LargestLengthPanics | backend/internal/chain/abi.go:125-135 | the one-word response on which the decoder panics although its comment promises an error |
| AbiRoundTrip.AddressArrayRoundTrip | backend/internal/chain/abi.go:145-165 | the canonical encoding of every address list decodes to that list |
| AbiRoundTrip.BytesArrayRoundTrip | backend/internal/chain/abi.go:167-193 | the canonical encoding of every list of byte strings decodes to that list |
| AbiRoundTrip.BytestringsAtEncoded | backend/internal/chain/abi.go:195-215 | a string array encoded at any position of any data decodes to itself |
| AbiPanics.AddressesPanicExactly | backend/internal/chain/abi.go:145-165 | for every data: `addressArray` panics if and only if offset and length can be read and a slice of that many strings is more than the address space |
| AbiPanics.HugeArrayPanics | backend/internal/chain/abi.go:145-165 | the 64-byte response, announcing 2^44 + 1 addresses, on which it panics |
| AbiPanics.BytestringsPanicExactly | backend/internal/chain/abi.go:167-215 | for every data and base: `bytesArray` and `stringArrayAt` panic if and only if the slice is too large, or some element after readable ones has a length word that fits int64 and an end that does not |
| AbiPanics.BytesArrayPanicsExactly | backend/internal/chain/abi.go:167-193 | the same from the start of the return data |
| AbiPanics.HugeElementPanics | backend/internal/chain/abi.go:167-193 | the four-word response whose one element makes it panic |
| AbiPanics.IssuersPanicExactly | backend/internal/chain/client.go:466-510 | `Issuers` panics if and only if the slice is too large, or some issuer after readable ones overflows, in its name or, the name being readable, in its client ids |
| AbiPanics.NodePanicsExactly | backend/internal/chain/client.go:189-243 | `Node` panics if and only if the length of its public key overflows |
| ChainClient.Issuers | backend/internal/chain/client.go:466-510 | the loop returns the decoded (issuer, client ids) pairs in order, or the first failure |
| ChainClient.IssuersRoundTrip | backend/internal/chain/client.go:466-510 | for every list of (issuer, client ids), decoding its canonical `(string,string[])[]` encoding returns exactly that list |
| ChainClient.AuthKeys | backend/internal/chain/client.go:512-527 | the loop renders every key of the `bytes[]` in hexadecimal, in order |
| ChainClient.NodeRoundTrip | backend/internal/chain/client.go:189-243 | every node tuple, dynamic public key included, decodes to its fields |
| ChainClient.ResolverRoundTrip | backend/internal/chain/client.go:425-440 | the inlined static tuple decodes to its fields wherever it stands |
| ChainClient.MinimalPadded | backend/internal/chain/client.go:668-676 | left-padding the minimal big-endian bytes of a number gives its fixed-width encoding |
| ChainClient.EncodeCall | backend/internal/chain/abi.go:29-39 | the loop appends the selector and every word left-padded to 32 bytes |
| ChainClient.SmartAccountCalldata | backend/internal/chain/client.go:622-666 | the calldata is the selector and the canonical encoding of (entry point, key, 0); refused exactly for an unconfigured client, a blank factory, an entry point that is not 20 bytes of hexadecimal, or a key that is empty or not hexadecimal |
| UserOp.DynamicAtExact | backend/internal/userop/userop.go:143-152 | for every arguments and offset: when the inner call is found and what it is, whether offset or length is refused, and exactly when the guard's sum leaves int64 and the slice panics |
| UserOp.ArgumentWordExactly | backend/internal/userop/userop.go:256-267 | for every call and index: the argument word there, refused past the end or below zero, a panic exactly when an end leaves int64 |
| UserOp.HugeIndexPanics | backend/internal/userop/userop.go:256-267 | an index, far beyond those the routes use, on which reading a word of any call panics |
| UserOp.UnwrapPanicsExactly | backend/internal/userop/userop.go:134-152 | unwrapping panics if and only if the three head words are there and the end of the offset or of the length leaves int64 |
| UserOp.HugeOffsetPanics | backend/internal/userop/userop.go:143-152 | an `execute` callData on which `Validate` panics: its offset is the largest int64 |
| UserOp.HugeLengthPanics | backend/internal/userop/userop.go:143-152 | another: its offset is canonical and the length is the largest int64 |
| UserOp.BytesArgPanicsExactly | backend/internal/userop/userop.go:269-291 | reading a dynamic argument panics if and only if its offset word is there and its end, or that of the length, leaves int64 |
| UserOp.BytesArgExactly | backend/internal/userop/userop.go:269-291 | a dynamic argument is read as given bytes if and only if its offset word, length word and those bytes are all there |
| UserOp.BytesArgEncoded | backend/internal/userop/userop.go:269-291 | the i-th argument of any canonically encoded call, if it is a dynamic `bytes`, is found by its index |
| UserOp.KeyRecovered | backend/internal/userop/userop.go:269-291 | argument 1 of the calldata that `SmartAccountAddress` builds is the key it was built from |
| UserOp.CheckCall | backend/internal/userop/userop.go:197-242 | the verdict is one the rule allows: no value, the intended contract, and an allowed selector, in this order |
| UserOp.CallRefusedExactly | backend/internal/userop/userop.go:197-242 | each refusal if and only if the checks before it pass and its own does not; a call whose selector the intent allows is accepted |
| UserOp.AcceptedIsAuthorized | backend/internal/userop/userop.go:197-242 | an accepted call moves no value, goes to the intended contract and carries the four selector bytes of the method it is reported as |
| UserOp.Validate | backend/internal/userop/userop.go:104-160 | the checks in order: sender, signature, unwrapping, paymaster, call. Refused for the sender or a missing signature exactly when they are wrong; a route that refuses paymasters accepts nothing that carries one, in either field, and that refusal means exactly that |
| UserOp.UnwrapRefusedExactly | backend/internal/userop/userop.go:119-134 | for every text: refused as not hexadecimal, too short, or not `execute` if and only if it is |
| UserOp.PaymasterExactly | backend/internal/userop/userop.go:244-254 | either of the two fields asks for a paymaster unless it is blank or a bare prefix |
| UserOp.AnyAddressMatches | backend/internal/userop/userop.go:437-454 | finds a match exactly when a nonblank candidate equals the nonblank address, case and blanks aside |
| UserOp.AmongExactly | backend/internal/userop/userop.go:437-454 | a match is a candidate at any place that is not blank and equals the address, case and blanks aside |
| UserOp.ValidateTransaction | backend/internal/userop/userop.go:162-195 | the transaction verdict: an allowed sender, then the same rule on the bare call |
| UserOp.WrappedUnwraps | backend/internal/userop/userop.go:126-158 | canonical `execute` calldata unwraps to the destination, value and inner call it wraps |
| UserOp.OneRuleTwoTransports | backend/internal/userop/userop.go:109-242 | for every destination, value and inner call, a signed operation that canonically wraps the call and the bare call sent directly can receive exactly the same verdicts, decoded call included |
| UserOp.SenderRulesAgree | backend/internal/userop/userop.go:109-117 | the two sender rules agree exactly when sender and expectation are not both blank |
| UserOp.VerdictIndependentOfOrder | backend/internal/userop/userop.go:219-242 | with distinct selectors the verdict does not depend on the iteration order of the map |
| UserOp.SharedSelectorIsAmbiguous | backend/internal/userop/userop.go:219-242 | two methods with one selector can be reported as either |
| ExpandMessage.ExpandMessageXMD | backend/internal/auth/frost.go:121-175 | refuses exactly a DST over 255 bytes or a length over 8160; otherwise equals the recursive definition of section 5.3.1 of RFC 9380, the block index byte never wrapping |
| ExpandMessage.StrXorExactly | backend/internal/auth/frost.go:158-166 | a byte string is the XOR of two others if and only if each bit of each byte is the sum modulo 2 of theirs |
| ExpandMessage.BlockHashesXor | backend/internal/auth/frost.go:158-172 | each block from the second on is the hash of such a bitwise sum of the first hash and the block before, the index byte and the suffixed DST |
| ExpandMessage.Request.UniformAt | backend/internal/auth/frost.go:145-175 | byte j of the output is byte j mod 32 of block j div 32 + 1 |
| Frost.VerifyFROST | backend/internal/auth/frost.go:34-119 | succeeds exactly on the signatures of section 6.5 of RFC 9591: 65 and 33 bytes, parity 0 or 1, nonzero z below the order, both points on the curve, nonzero challenge, zG = R + cY; expansion never fails and the reduced challenge never overflows |
| Frost.ChallengeTag | backend/internal/auth/frost.go:24 | the 29 bytes of the tag |
| Frost.ChallengeExactly | backend/internal/auth/frost.go:76-98 | the challenge hashes R, then the key, then the message, and reduces one block and half of the next |
| Frost.SignedIsAccepted | backend/internal/auth/frost.go:44-119 | for every secret, nonce and message the signature with z = k + c·x mod n is accepted if and only if c and z are nonzero |
| Frost.ResponseUnique | backend/internal/auth/frost.go:44-119 | for one nonce point, message and key at most one signature is accepted |
| Frost.NonceReuseDeterminesKey | backend/internal/auth/frost.go:44-119 | two accepted signatures that share the nonce point under different challenges determine the secret key, by a formula |
| Frost.OrderExact | backend/internal/auth/frost.go:104-118 | no scalar between 0 and the order takes a finite point to infinity |
| Frost.ScalarUnique | backend/internal/auth/frost.go:104-118 | a scalar below the order is determined by its multiple of a finite point |
| Frost.InverseWorks | backend/internal/auth/frost.go:104-118 | modulo the prime order every nonzero residue has the inverse the formula uses |
| FrostWitness.LawsAreConsistent | backend/internal/auth/frost.go:104-118 | the assumptions about the curve have a model, the integers modulo 5 |
| FrostWitness.ReusedNonceExists | backend/internal/auth/frost.go:44-119 | in that model two signatures that share a nonce point are accepted under different challenges, and the formula finds the secret |
| Usage.Store.RecordUsage | backend/internal/store/usage.go:27-72 | all or nothing: refused exactly when some event has an unknown app or kind or a latency beyond the column; otherwise the log grows by the batch, the touched app-days and no others are recomputed, and rollups and log still agree |
| Usage.CountExactly | backend/internal/store/usage.go:93-96 | the four totals are numbers of events: of kind auth, keygen and sign, and of those that failed |
| Usage.KindNames | backend/migrations/0001_init.sql:361 | the five texts a kind may be, and which kind each is |
| Usage.InWindow | backend/internal/store/usage.go:100 | an event is in a window exactly when it is the app's and its time is within the days |
| Usage.RecordedRowCounts | backend/internal/store/usage.go:27-111 | after a batch is recorded, the row of an app and day counts what was counted before and the submissions of that app and day whose text is "auth", "keygen", "sign", or that failed |
| Usage.StorableExactly | backend/migrations/0001_init.sql:357-370 | a submission is taken exactly when its app is known, its kind is one of the five texts and its latency fits |
| Usage.PercentilesExactly | backend/internal/store/usage.go:97-98 | a row's median is at most v exactly when at least half of the events with a latency are, its 95th percentile exactly when 19 in 20 are; NULL exactly without such events |
| Usage.Store.RollupDay | backend/internal/store/usage.go:85-111 | rewrites one row as its aggregate, zeros and NULL percentiles included, and nothing else |
| Percentiles.DiscExact | backend/internal/store/usage.go:85-111 | the percentile of a row is the least latency that at least the given share of the latencies do not exceed; NULL exactly without latencies |
| Usage.RecordKeepsAgreement | backend/internal/store/usage.go:27-72 | recomputing only the touched days keeps every row equal to its aggregate over the whole log, and every app-day with an event has a row |
| Usage.RunsAgree | backend/internal/store/usage.go:30-111 | after any sequence of batches and backfills, failed ones included, every row is the aggregate of the raw events and no app-day with an event lacks one |
| Usage.Store.Usage | backend/internal/store/usage.go:113-163 | the loop's totals equal the counts of the raw events in the window, though it adds stored rows; the wallet figure is distinct over the window |
| Usage.RowsBetweenExactly | backend/internal/store/usage.go:116-129 | the series has the stored row of every day of the window that has one, once, by ascending day |
| Usage.RateExactly | backend/internal/store/usage.go:148-150 | the error rate times the operations is the failures; zero without operations |
| Usage.RowsSumToWindow | backend/internal/store/usage.go:113-163 | stored rows of any window, days without rows included, add up to the counts of its raw events |
| Usage.MonthlyAtMostSum | backend/internal/store/usage.go:152-162 | the window's distinct wallets are at most the sum of the daily figures |
| Usage.MonthlyAtLeastEach | backend/internal/store/usage.go:152-162 | and at least every daily figure |
| Usage.ErrorRateExact | backend/internal/store/usage.go:131-150 | the error rate exceeds one exactly when failures of kinds it does not count outnumber successes of kinds it does |
| Usage.ErrorRateOfTwo | backend/internal/store/usage.go:131-150 | two events whose error rate is two |
| Usage.WalletKeyInjective | backend/internal/store/usage.go:165-177 | the string the organization query counts names one app and one subject |
| Usage.OrgWalletsSum | backend/internal/store/usage.go:165-177 | the distinct strings over a set of apps are the sum of each app's distinct wallets |
| Usage.Store.OrgMonthlyActiveWallets | backend/internal/store/usage.go:165-177 | returns the sum over the organization's apps of each app's window figure |
| Keys.Store.SyncKeys | backend/internal/store/keys.go:103-182 | refused whole exactly when some record breaks a table check or the INTEGER range of its threshold, or the app is unknown; otherwise upserts in order, marks absent keys deleted, and rolls the user counts |
| Keys.StorableExactly | backend/migrations/0001_init.sql:236-262 | which curves, kinds of scope, statuses and thresholds a record may have, the empty kind and status being filled in |
| Keys.CellsExactly | backend/internal/store/keys.go:126-131 | every column is filled from its own field and no other; empty fields are NULL, addresses are lower-cased |
| Keys.Store.SetKeyLabel | backend/internal/store/keys.go:184-190 | changes one label, or nothing when the key is unknown |
| Keys.TagInjective | backend/internal/store/keys.go:153-160 | for the allowed curves, `key_id\|curve` names one key |
| Keys.AppliedAt | backend/internal/store/keys.go:115-154 | after the upsert loop each row is what folding that key's own records, in order, makes of the old row |
| Keys.SyncedInventory | backend/internal/store/keys.go:103-160 | the app's live keys are exactly the snapshot's entries whose last record is not deleted; labels survive; absent rows keep everything else; other apps are untouched |
| Keys.CoveredRow | backend/internal/store/keys.go:115-153 | the status, kind of scope, parties and time of a covered key are its last record's, its label the old one |
| Keys.CoveredCell | backend/internal/store/keys.go:126-153 | a column its last record supplies holds that record's field |
| Keys.AbsentRow | backend/internal/store/keys.go:156-160 | a live key that the snapshot leaves out is marked deleted and dated; a deleted one is left as it was |
| Keys.ScopeShownExactly | backend/internal/store/keys.go:126-153 | after a sync a row has its last record's kind of scope, and its scope columns are that record's if and only if each one the record leaves out was empty before and in the key's other records |
| Keys.UnscopedKeepsContract | backend/internal/store/keys.go:126-153 | a key synced again without a scope is shown as unscoped with its old contract |
| Keys.SyncTwice | backend/internal/store/keys.go:103-160 | re-applying a snapshot changes nothing of the keys but sync times |
| Keys.UsersSyncedTwice | backend/internal/store/keys.go:103-182 | and nothing of the users but the time they were last seen |
| Keys.KeyCountExact | backend/internal/store/keys.go:163-176 | after the roll-up a subject's count equals its live keys if and only if it has one or its old count was zero |
| Keys.CountedRow | backend/internal/store/keys.go:162-176 | the row of a subject with live keys: their number, active and first seen now if new, last seen at the later of now and before; without live keys the row stays |
| Keys.StaleKeyCount | backend/internal/store/keys.go:162-176 | a sync of an empty snapshot leaves the count of the deleted key behind |
| Keys.UsersOtherwiseUntouched | backend/internal/store/keys.go:162-176 | users of other apps, and everything but count and last sighting, stay; the last sighting never goes back |
| GroupSync.BuildEntries | backend/internal/api/handlers_group.go:221-239 | the loops list active nodes, as removing when a removal is queued, then pending ones |
| GroupSync.Store.ReplaceGroupNodes | backend/internal/store/nodes.go:305-327 | one transaction: the app's rows become exactly the snapshot, or nothing changes when an address repeats or the app of a nonempty snapshot is unknown |
| GroupSync.Store.SyncGroupState | backend/internal/store/apps.go:192-198 | writes the summary of an existing app; fails exactly when the threshold exceeds the column |
| GroupSync.Store.SyncGroup | backend/internal/api/handlers_group.go:208-273 | no effect without a group; exactly when it succeeds, and the whole new state of all four tables; on failure what has and has not been written |
| GroupSync.Store.MirrorIssuers | backend/internal/api/handlers_group.go:248-261 | the loop adopts every on-chain issuer, then reconciles statuses |
| GroupSync.Store.MirrorKeys | backend/internal/api/handlers_group.go:263-272 | the loop adopts every well-formed on-chain key, then reconciles statuses |
| GroupSync.NodesMirrored | backend/internal/api/handlers_group.go:221-242 | cached nodes are exactly active plus pending, each with its full row; `removing` if and only if active and named by some queued request, and then with the deadline and initiator of the last such request; other apps' rows untouched |
| GroupSync.IssuersMirrored | backend/internal/store/apps.go:496-529 | a row is active if and only if on-chain and then carries the chain's client ids; every row of the app is dated; label, provider and switch survive; nothing is dropped; other apps' rows untouched |
| GroupSync.NewIssuerRow | backend/internal/store/apps.go:496-516 | an issuer without a row gets one: enabled, unlabelled, with its hash, icon and client ids |
| GroupSync.KnownIssuerRow | backend/internal/store/apps.go:503-516 | an issuer with a row keeps provider, label and switch, and its hash if it has one |
| GroupSync.KeysMirrored | backend/internal/store/apps.go:420-429 | every well-formed on-chain key has a row, each unrevoked auth-key row is active if and only if on-chain, every old row is otherwise unchanged, and each new row is one missing key, discovered once |
| GroupSync.KeyRowAfter | backend/internal/store/apps.go:420-429 | what becomes of a row that was there: an unrevoked key of the app is active if the chain lists its text in some case, else removed; any other row is left as it was |
| GroupSync.NewKeyRow | backend/internal/store/apps.go:531-547 | a new row is an active, unrevoked, labelled key in lower case with its hash, which the chain lists and no row held |
| GroupSync.KeyShownExactly | backend/internal/store/apps.go:531-547 | after a sync the credentials screen shows a trusted key if and only if it showed it before or no row of the key was there |
| GroupSync.RevokedKeyIsHidden | backend/internal/store/apps.go:531-547 | a trusted key whose only row is revoked is not shown after a sync |
| GroupSync.NodesSyncedTwice | backend/internal/api/handlers_group.go:221-242 | a second sync of the same state changes only sync times of nodes |
| GroupSync.IssuersSyncedTwice | backend/internal/api/handlers_group.go:248-261 | and of issuers |
| GroupSync.KeysSyncedTwice | backend/internal/api/handlers_group.go:263-272 | and no key row at all |
| GroupSync.ChainKeysAreWellFormed | backend/internal/api/handlers_group.go:263-267 | a key as the chain client renders it is never skipped |
| Siwe.ParseSIWE | backend/internal/auth/siwe.go:25-126 | the loop returns the message its lines denote, or the first error in the order the code reports them |
| Siwe.VerifySIWE | backend/internal/auth/siwe.go:137-177 | succeeds, with the parsed message, if and only if the text parses, a domain is configured, domain, nonce and chain are the expected ones, the message has not expired and has begun, and the recovered signer is its address |
| Siwe.RefusalsExactly | backend/internal/auth/siwe.go:141-177 | each refusal is given if and only if everything checked before is in order and its own check is not |
| SiweRefusals.HeadExactly | backend/internal/auth/siwe.go:28-47 | which first lines are refused, with which error, and what the others give |
| SiweRefusals.StatementExactly | backend/internal/auth/siwe.go:49-61 | with or without blank lines around it, a line of text after the address is the statement and the fields start after it |
| SiweRefusals.NoStatementExactly | backend/internal/auth/siwe.go:49-61 | without one they start after the address or one blank line |
| SiweRefusals.FailsAtFirst | backend/internal/auth/siwe.go:63-117 | the field loop fails at the first line that is not accounted for, with that line's own error, whatever came before |
| SiweRefusals.OutcomesExactly | backend/internal/auth/siwe.go:25-126 | every outcome of the parser, for all lines: the error of the head, else of the first line not accounted for, else of a missing nonce, else of a wrong version, else success; nonce and version being those of their last lines |
| Siwe.BuiltLines | web/lib/signet.ts:76-99 | splitting the printed text gives back the printed lines |
| Siwe.UnixPair | backend/internal/auth/siwe.go:29 | every pair of carriage return and line feed becomes one line feed, wherever it stands |
| Siwe.UnixWithoutPairs | backend/internal/auth/siwe.go:29 | text without such a pair is left alone |
| Siwe.FieldsRead | backend/internal/auth/siwe.go:63-117 | the printed field lines fill in exactly their fields |
| Siwe.FieldsKeepStatement | backend/internal/auth/siwe.go:63-117 | no line of the field loop changes the statement |
| Siwe.FieldsSucceedExactly | backend/internal/auth/siwe.go:63-117 | the field loop succeeds if and only if every line is blank, a known field with a readable value, a resources header, or an entry under one |
| Siwe.AcceptedMessageIsRead | backend/internal/auth/siwe.go:25-126 | in an accepted message each line after the address is blank, the statement, or one of those |
| Siwe.AcceptedFieldsAreLast | backend/internal/auth/siwe.go:63-125 | in an accepted message every field is what its last line says, or its default without one |
| Siwe.LastValueIsLast | backend/internal/auth/siwe.go:63-117 | that value is the one on a line of the field with no such line after it |
| Siwe.ClaimDroppedExactly | backend/internal/auth/siwe.go:63-117 | what a field line claims is dropped if and only if the last line of that field is a later one that says otherwise |
| Siwe.FirstNonceIsDropped | backend/internal/auth/siwe.go:63-117 | two nonce lines, of which the first is never looked at |
| Siwe.PrintParse | backend/internal/auth/siwe.go:25-126 | for every printable message, parsing it returns the same fields, the address lower-cased, if and only if the statement does not contain ": " |
| Siwe.WalletAddressPlain | backend/internal/auth/eth.go:104-115 | an address of either case normalizes to its lower-case form |
| Siwe.AddressExactly | backend/internal/auth/eth.go:104-115 | between blanks, exactly 40 hexadecimal digits after 0x, 0X or nothing are an address, and it is their lower-case form |
| Siwe.SignInSucceeds | backend/internal/auth/siwe.go:137-177 | a printed message opens a session if and only if domain, nonce and chain are the expected ones and the recovered signer is the address it names |
| Siwe.DeployedStatementIsParsed | backend/internal/api/handlers_auth.go:66-67 | the one statement the server issues does not contain ": ", so the result above covers every sign-in from the console |
| Siwe.ParseShowInt | backend/internal/auth/siwe.go:86-91 | a printed chain id is parsed back for every 64-bit value |
| Siwe.SignedDigitsRead | backend/internal/auth/siwe.go:86-91 | digits, after at most one sign, are the number they denote when 64 bits hold it |
| Siwe.OnlySignedDigitsRead | backend/internal/auth/siwe.go:86-91 | nothing else is a chain id |
| Strings.SplitJoin | backend/internal/auth/siwe.go:28-29 | splitting joined parts that do not hold the separator gives them back |
| Strings.TrimSpaceOf | backend/internal/auth/eth.go:107 | trimming takes all the blanks before and after a text and nothing else |
| Orgs.Store.CreateOrg | backend/internal/store/orgs.go:57-99 | a new organization has its creator as owner; a conflict changes nothing |
| Orgs.Store.SetMemberRole | backend/internal/store/orgs.go:148-175 | sets an existing member's role; refuses exactly to demote the only owner |
| Orgs.Store.RemoveMember | backend/internal/store/orgs.go:177-197 | removes a member; refuses exactly the only owner |
| Orgs.Store.CreateInvite | backend/internal/store/orgs.go:199-217 | adds an open invitation, or nothing when a constraint fails, the owner role included |
| Orgs.Store.RevokeInvite | backend/internal/store/orgs.go:242-254 | revokes exactly an open invitation of that organization |
| Orgs.Store.AcceptInvite | backend/internal/store/orgs.go:256-292 | claims exactly an open, unexpired invitation; joins the user unless already a member |
| Orgs.MembershipExactly | backend/internal/store/orgs.go:148-197 | what setting a role and removing a member refuse, exactly, and what they write |
| Orgs.InvitedExactly | backend/internal/store/orgs.go:199-217 | the invitation issued has the organization, role and expiry asked for and is open |
| Orgs.RevokedExactly | backend/internal/store/orgs.go:242-254 | revoking changes exactly the open invitation of that id and organization |
| Orgs.RevokingRefusedExactly | backend/internal/store/orgs.go:242-254 | and is refused if and only if there is none |
| Orgs.RedeemedExactly | backend/internal/store/orgs.go:256-292 | the user joins in the role of the invitation, unless seated already, and the invitation is accepted by that user |
| Orgs.RolesExactly | backend/internal/auth/guard.go:18-38 | the four role names; an admin check passes admins and owners, an owner check owners alone |
| Orgs.Store.HandleUpdateMember | backend/internal/api/handlers_orgs.go:115-157 | run without interruption, the handler is its three steps; it sets one of the four roles if its caller is an admin or an owner, the owner's role only for an owner, and otherwise changes nothing |
| Orgs.Store.HandleRemoveMember | backend/internal/api/handlers_orgs.go:159-181 | likewise for a removal, which takes an admin or an owner |
| Orgs.Store.HandleRevokeInvite | backend/internal/api/handlers_orgs.go:243-261 | likewise for a revocation |
| Orgs.Store.HandleCreateInvite | backend/internal/api/handlers_orgs.go:202-241 | likewise: an admin or an owner issues an invitation for seven days, as developer by default and never as owner; anyone else changes nothing |
| Orgs.EveryOrgHasAnOwner | backend/internal/store/orgs.go:60-292 | after every run, with any interleaving of handler checks and store calls, every organization has an owner and no invitation grants ownership |
| Orgs.ChangesAreAuthorized | backend/internal/api/handlers_orgs.go:115-261 | in every run, a step that changes the tables founds an organization, redeems an invitation, or performs a request that an earlier step admitted when its caller was an admin or an owner; and that request changes only members and invitations of its own organization |
| Orgs.AdmissionsHappened | backend/internal/api/middleware.go:104-120 | every request under way was admitted by an earlier step, when its caller was an admin or an owner |
| Orgs.AdmitExactly | backend/internal/api/middleware.go:104-120 | a request is admitted if and only if its caller is an admin or an owner of its organization |
| Orgs.ConfirmExactly | backend/internal/api/handlers_orgs.go:131-143 | a promotion to owner goes on if its caller is an owner then and is dropped otherwise; other requests pass |
| Orgs.ChangeRoleExactly | backend/internal/api/handlers_orgs.go:115-157 | which role each of the four names sets, the owner's only once confirmed; other names change nothing |
| Orgs.IssueExactly | backend/internal/api/handlers_orgs.go:202-241 | an invitation is for a developer unless another role is named, never for an owner, and lasts seven days |
| OrgRaces.UninterruptedIsAtomic | backend/internal/store/orgs.go:150-197 | the count, the read and the write of one call, with nothing in between, are the one step taken for it |
| OrgRaces.AtomicIsStoreCall | backend/internal/store/orgs.go:150-197 | and that step is what the store call does to the tables |
| OrgRaces.JoinIsRedemption | backend/internal/store/orgs.go:256-292 | the step taken for a redeemed invitation is what redeeming it does to the members |
| OrgRaces.CoveredExactly | backend/internal/store/orgs.go:150-197 | calls under way can leave an organization without an owner, by their writes alone, if and only if every owner is the member of some removal or demotion that has passed its checks |
| OrgRaces.OwnerRemainsUnlessCovered | backend/internal/store/orgs.go:150-197 | in every run of single statements, of any calls in any order, an owner remains as long as that never happens |
| OrgRaces.LastOwnerFallsCovered | backend/internal/store/orgs.go:150-197 | the last owner falls only in a write, from a state where every owner was so threatened |
| OrgRaces.CurrentWriteKeepsOwner | backend/internal/store/orgs.go:150-197 | a write whose reads still hold leaves an owner |
| OrgRaces.SerialRunKeepsOwner | backend/internal/store/orgs.go:150-197 | if no call begins while another is under way, every run keeps an owner |
| OrgRaces.MutualDemotion | backend/internal/store/orgs.go:150-175 | two owners who demote each other at the same time leave none |
| Orgs.OwnersAreAccountedFor | backend/internal/api/handlers_orgs.go:131-143 | after every run, each owner created the organization or was promoted by a request whose caller an earlier step saw to be an owner of it |
| Orgs.RedeemingKeepsOwners | backend/internal/store/orgs.go:261-292 | redeeming an invitation neither creates nor demotes an owner of any organization |
| Orgs.RedeemedOnce | backend/internal/store/orgs.go:261-279 | in any run each token is redeemed at most once |
| Orgs.NeverAfterRevocation | backend/internal/store/orgs.go:242-279 | a token is never redeemed after its invitation was revoked, nor from its expiry on |
| Orgs.RunContinues | backend/internal/store/orgs.go:199-292 | over any run an invitation's terms never change and acceptance or revocation is final |
| Challenges.Store.CreateChallenge | backend/internal/store/users.go:117-124 | a nonce in use or an unknown method is refused and changes nothing |
| Challenges.IssuedExactly | backend/internal/store/users.go:117-124 | the row issued, and that the methods are "signet" and "siwe" |
| Challenges.FreshChallengeIsRedeemed | backend/internal/store/users.go:117-146 | a challenge of either method is redeemed, with its address, until it expires |
| Challenges.Store.ConsumeChallenge | backend/internal/store/users.go:126-146 | marks and answers exactly an open, unexpired challenge of that method |
| Challenges.Store.PurgeExpiredChallenges | backend/internal/store/users.go:148-157 | removes exactly the rows an hour past expiry and reports how many |
| Challenges.PurgeDropsExactly | backend/internal/store/users.go:148-157 | a purge drops a row if and only if it expired more than an hour ago, consumed or not |
| Challenges.ConsumedChallengeIsKept | backend/internal/store/users.go:148-157 | a consumed challenge that a purge keeps |
| Challenges.ConsumedOnce | backend/internal/store/users.go:126-146 | in any run with fresh nonces a nonce is consumed at most once, whatever the clock does |
| Challenges.RedeemedAsIssued | backend/internal/store/users.go:117-146 | a success in any run answers an earlier issue of that nonce, for the same method, with its address, before its expiry |
| Challenges.PurgeIsInvisible | backend/internal/store/users.go:148-157 | a purge inserted anywhere changes the reply to no later request, if no request's clock is more than an hour behind it |
| Challenges.PurgeVisibleBeyondGrace | backend/internal/store/users.go:148-157 | beyond that hour it can |
| QueryHook.Query.Begin | web/lib/hooks.ts:37-41 | a start takes the next generation and leaves data and error alone |
| QueryHook.Query.Finish | web/lib/hooks.ts:40-51 | a settlement changes the screen only if its generation is current |
| QueryHook.Query.RunEffect | web/lib/hooks.ts:53-54 | the effect starts a request with the spinner |
| QueryHook.Query.RunCleanup | web/lib/hooks.ts:55-57 | a cleanup leaves the current generation behind and touches nothing on screen |
| QueryHook.Query.Set | web/lib/hooks.ts:63-65 | `set` replaces the data alone |
| QueryHook.StartsExactly | web/lib/hooks.ts:37-54 | an effect turns the spinner on and a refresh leaves it; both take the next generation and leave the screen |
| QueryHook.SettlesExactly | web/lib/hooks.ts:40-51 | what a settlement shows: a value without error, or an error beside the last value, if it is the newest; else nothing |
| QueryHook.EveryRunIsSound | web/lib/hooks.ts:23-68 | for every interleaving: applied generations strictly increase; while the effect is active, loading implies the newest request is outstanding; with none outstanding the newest generation was applied last |
| QueryHook.AppliedIsNewest | web/lib/hooks.ts:37-51 | whatever is applied is the newest generation at that moment |
| QueryHook.NothingSurvivesCleanup | web/lib/hooks.ts:53-59 | nothing started before a cleanup is applied after it |
| QueryHook.AppliedAfterCleanupExactly | web/lib/hooks.ts:37-61 | with no effect run since the last cleanup, a settling result is put on screen if and only if its request is the newest refresh since that cleanup |
| QueryHook.ShownAfterCleanup | web/lib/hooks.ts:37-61 | a refresh after the cleanup whose result is shown although the effect is not active |
| QueryHook.NothingOvertakenIsApplied | web/lib/hooks.ts:37-51 | no result is applied once a newer request has started |
| QueryHook.ScreenShowsLastApplied | web/lib/hooks.ts:37-68 | from one application to the next the error shown is that request's, and so is the data until `set` replaces it; a failure keeps the data there was |
| QueryHook.QuietScreenIsNewest | web/lib/hooks.ts:23-68 | in every run, whenever the effect is active and no request is out, the spinner is off and the screen shows the newest request's outcome, unless `set` has replaced the data since |
| QueryHook.DataChangesOnlyFresh | web/lib/hooks.ts:23-68 | between any two moments of any run the screen differs only if `set` or a result of the then newest request came between |
| Flatten.PackRoundTrip | web/lib/userop.ts:159-162 | both packed gas limits are recovered if and only if both are below 2^128 |
| Flatten.BlobRoundTrip | web/lib/userop.ts:216-231 | the two fields cut from a blob join to it if and only if it is empty or at least 20 bytes |
| Flatten.WordSplit | web/lib/userop.ts:214-229 | a packed 32-byte word is the two quantities read from it, whatever its leading zeros |
| Flatten.SerializeLossless | web/lib/userop.ts:203-234 | the packed operation can be read back from the flattened one if and only if both gas limits fit 128 bits and both blobs are empty or hold an address |
| KeyIds.BodyOf | backend/internal/api/handlers_keys.go:129-146 | the hashed text is what follows "oauth:" less a trailing scope, however many colons the issuer has |
| KeyIds.ScopeSuffixExactly | backend/internal/api/handlers_keys.go:157-166 | a scope is exactly sixteen hexadecimal digits |
| KeyIds.NoSubjectExactly | backend/internal/api/handlers_keys.go:129-146 | a key id has no subject hash if and only if it does not begin with "oauth:" or has no colon after that |
| KeyIds.ParentExactly | backend/internal/api/handlers_keys.go:148-155 | a key has a given parent if and only if it is that nonempty parent, a colon and a scope |
| KeyIds.ParentOfScoped | backend/internal/api/handlers_keys.go:148-155 | the parent of a scoped key is the key it was scoped from |
| KeyIds.ScopedSharesSubject | backend/internal/api/handlers_keys.go:129-166 | a scoped key has its root's subject hash if and only if the root names issuer and subject and does not end in what looks like a scope |
| KeyIds.SubKeysStayWithTheirUser | backend/internal/api/handlers_keys.go:129-166 | for every issuer and every subject that is not 16 hexadecimal digits: the root has no parent, its scoped keys have it for parent and share its hash |
| KeyIds.SameTextExactly | backend/internal/api/handlers_keys.go:123-146 | for all issuers and subjects: two users give one text if and only if they are the same, or part of the subject of one is the end of the other's issuer |
| KeyIds.SubjectsShareHashExactly | backend/internal/api/handlers_keys.go:123-146 | for all issuers and subjects, colons or not: when exactly two users hash the same text |
| KeyIds.PlainSubjectsShareHashExactly | backend/internal/api/handlers_keys.go:123-146 | the same for subjects without colons, by whether each subject looks like a scope |
| KeyIds.ColonSubjectsCollide | backend/internal/api/handlers_keys.go:123-146 | two users of different issuers who hash the same text because one subject has a colon |
| KeyIds.IssuersCollide | backend/internal/api/handlers_keys.go:123-146 | a user of an issuer with a port number who hashes the same text as a user of the issuer without it |
| KeyIds.HexSubjectsCollide | backend/internal/api/handlers_keys.go:157-166 | all subjects of 16 hexadecimal digits of one issuer share a hash, and their roots get the issuer as parent |
| Scopes.BEUint64 | backend/internal/api/handlers_keys.go:220-229 | the shifting loop gives the big-endian value as a signed 64-bit number, for exactly eight bytes |
| Scopes.ApplyScope | backend/internal/api/handlers_keys.go:168-218 | sets the columns the bytes denote, or reports why they denote none |
| Scopes.ParseEncoded | backend/internal/api/handlers_keys.go:168-218 | every well-formed scope is read back from its bytes |
| Scopes.ParsedIsEncoded | backend/internal/api/handlers_keys.go:168-218 | bytes are shown as a constraint only if they are its encoding |
| Scopes.NeverShownUnscoped | backend/internal/api/handlers_keys.go:168-218 | bytes are shown as unrestricted exactly when there are none or the scheme is 0 |
| Scopes.RefusedExactly | backend/internal/api/handlers_keys.go:168-218 | which bytes are refused as too long or short, and which as of an unknown scheme |
| Scopes.ScopeTextExactly | backend/internal/api/handlers_keys.go:175-189 | blank text is unscoped, digits in pairs are their bytes, and other text is not hexadecimal |
| Scopes.ChainShownExactly | backend/internal/api/handlers_keys.go:220-229 | the chain id shown is the scope's if and only if it is below 2^63 |
| Scopes.ScopeTextRead | backend/internal/api/handlers_keys.go:175-218 | the same through the hexadecimal text |
| Operators.GroupByOperator | web/lib/operators.ts:50-86 | the loop returns one group per key in first-occurrence order, holding that key's nodes and their whole summary |
| Operators.LabelNamesAll | web/lib/operators.ts:50-58 | a group's label is a prefix of every node's name, or the first node's own name |
| Operators.LabelExactly | web/lib/operators.ts:50-58 | the label of no node, of one, and of more: the text before the dash if it is not empty and begins every name, else the first name |
| Operators.KeyExactly | web/lib/operators.ts:66 | a node's key is its operator in lower case, or its own address when none is recorded |
| Operators.SummaryExactly | web/lib/operators.ts:74-85 | what a group shows: the number of its nodes that are online, verified if all are, the first node's details |
| Operators.LinkIsFirst | web/lib/operators.ts:74-85 | logo and website are shown if and only if some node has one, and are the first such |
| Operators.KeysDistinct | web/lib/operators.ts:62-72 | groups have pairwise distinct, lower-case keys |
| Operators.NodeAtPlace | web/lib/operators.ts:62-72 | every node is in its group, at its place |
| Operators.PlaceFilled | web/lib/operators.ts:62-72 | every place in a group is filled by a node of the input |
| Operators.PlacesFollowInput | web/lib/operators.ts:60-72 | within a group, places follow input order and no two nodes share one |
| Operators.FirstOccurrenceOrder | web/lib/operators.ts:60-75 | a group precedes another exactly as its first node does |
| Operators.GroupsHoldEveryNodeOnce | web/lib/operators.ts:62-75 | the groups together are the input as a multiset, so their sizes add up to its length |
| ClientIds.SameClientIDs | backend/internal/api/handlers_apps.go:800-816 | the counting loops return true if and only if the lists are equal as multisets |
| ClientIds.DistinctListsCompareAsSets | backend/internal/api/handlers_apps.go:800-816 | in particular it is equality as sets on lists without repetition |
| ClientIds.ComparesAsSetsExactly | backend/internal/api/handlers_apps.go:800-816 | for all lists: lists called the same are equal as sets, and the comparison agrees with equality as sets if and only if the sets differ or every id occurs as often in both |
| ClientIds.RepetitionsMatter | backend/internal/api/handlers_apps.go:800-816 | with repetitions it is not |

## Left out

- HTTP routing, JSON, cookies, RPC and bundler transport, polling, file uploads, webhooks, React components: I/O and user interface around the logic.
- SHA-256, Keccak-256, ECDSA recovery, the secp256k1 field: parameters (any hash to 32 bytes, any prime-order group, any recovery function).
- Postgres: each statement is its effect on maps and sequences, each transaction atomic, sessions in UTC; store calls that read and then write are one step in `Orgs` and single statements in `OrgRaces`.
- Random tokens, nonces, row ids and the clock: parameters. `Challenges.ConsumedOnce` assumes that nonces are fresh.
- Text is ASCII: `strings.EqualFold`, `strings.ToLower` and `strings.TrimSpace` fold and trim no further characters; `time.Parse` is a parameter.
- Requests that allocate more than the address space are panics; running out of memory below that is not modelled. The round trips assume the encoding itself fits, as any data held in memory does.
- AbiRoundTrip.BytesAtExact: stated for offsets up to four times the largest slice, which covers every caller; the sum of the offset itself does not wrap there.
- Usage: node addresses, curves, key ids and error codes of events; `percentile_disc` takes the exact fractions 1/2 and 19/20.
- UserOp.Validate: the text of refusals, which lists the allowed methods; `Send` and `Sponsorship` are transport.
- Keys: `KeyStats` and the single-row updates other than the label: counters only.
- GroupSync: `joined_at`, the range of `execute_after` as a timestamp, and `GroupComposition`; the calls that read the contract return one state or fail.
- Orgs: names, slugs, billing accounts, e-mail addresses, audit entries, and the deletion of users or organizations, which no code path performs. An organization id in use stands for every uniqueness conflict.
- QueryHook: `useAction`'s in-flight latch and `useTicker`: a flag and a timer. A refresh after unmounting is modelled; React's batching of state updates is not.
- Flatten: `buildUserOp`, estimation, sponsorship and signing are SDK and network calls; fields are the `0x` texts the types promise.
- Operators: the regular expression that shortens a name to a label is a parameter (`LabelExactly` holds for any); the case mapping of a key is ASCII.
- Siwe: statements, domains and URIs with line breaks; the nonce helpers of the browser's session storage.
- Staff administration, environment policy, asset storage, invoices, slugs and configuration: each is a single query or a comparison of constants.
