# Identity pallet: a verified model

This project models the identity pallet of a Substrate runtime
(`frame/identity/src/lib.rs`), a federated naming system. Accounts do three things:

- they register identity information and reserve a deposit for it;
- they name sub-accounts and reserve a deposit per sub-account;
- they ask registrars for judgements and reserve each registrar's fee until the judgement is given.

A privileged origin adds registrars. It may also kill an identity, which slashes everything the identity holds.

The model has six modules:

- `DataCodec` (`data_codec.dfy`) is the hand-written byte codec of the `Data` type: one tag byte, then a raw blob of up to 32 bytes or a 32-byte hash.
- `Judgements` (`judgements.dfy`) covers:
  - registrar judgements and the `has_deposit` / `is_sticky` rules;
  - the per-identity judgement list, kept ordered by registrar index;
  - the binary search by key that the dispatchables use to find, overwrite, insert and remove entries.
- `Balances` (`balances.dfy`) is the part of the currency the pallet uses: free and reserved balance per account, and `reserve`, `unreserve`, `slash_reserved` and `repatriate_reserved`.
- `IdentityPallet` (`identity.dfy`) holds the storage tables `IdentityOf`, `SubsOf` and `Registrars` as fields of the class `Identity`, and the ten dispatchables as methods that change them in place. It also holds the ledger invariant `Valid()`. Every dispatchable preserves it. It has two parts:
  - the storage is consistent: judgement lists are strictly ordered by registrar index and refer to existing registrar slots, deposits match the information they pay for, and every `SubsOf` entry belongs to a registered account and is paid for at one sub-account deposit per entry;
  - every account's reserved balance equals what the pallet holds for it: its `total_deposit` plus its sub-account deposit.
- `IdentityScenarios` (`scenarios.dfy`) replays each of the pallet's unit tests against the model. It uses the mock runtime's configuration (deposits of 10, at most two sub-accounts) and its genesis balances. Each scenario's postcondition states the balances and error outcomes the test expects. Only the dispatchables' contracts are used to prove them.
- `Wrappers` holds `Option` and `Result`.

Origins are parameters:

- a signed call takes the sender's account;
- `add_registrar` takes `privileged`, which is true when the origin is the configured `RegistrarOrigin` or root (lines 419-422);
- `kill_identity` takes `privileged`, which is true when the origin is the configured `ForceOrigin` or root (lines 754-757).

Each error string of the pallet is one constructor of `IdentityPallet.Error`. A failed `reserve` in the currency is `InsufficientBalance`.

Where the doc comments and the code disagree, the model follows the code:

- The doc comment of `kill_identity` (lines 735-737) says that judgement-request fees are not returned and should be cancelled with `cancel_request` beforehand. The code slashes `total_deposit()` (lines 762-765), and that includes every outstanding `FeePaid` fee. `KillIdentity` slashes the whole total. After a kill, `cancel_request` is impossible because the identity is gone.
- The doc comment of `set_identity` (lines 437-438) says the sender must already have a registered identity. The code creates a registration when there is none (line 462). `SetIdentity` does the same.

## Model

| member | source | states |
|---|---|---|
| DataCodec.Truncated | frame/identity/src/lib.rs:111-113 | the value a round trip produces is well formed (a `Raw` blob of at most 32 bytes), and a well-formed value is its own truncation |
| DataCodec.Encode | frame/identity/src/lib.rs:155-170 | an encoding is 1 to 33 bytes with a tag of at most 37, and the tag is 0 exactly for `None` |
| DataCodec.Decode | frame/identity/src/lib.rs:136-153 | a successful decode consumes at least the tag byte |
| DataCodec.EncodeLayout | frame/identity/src/lib.rs:155-170 | an encoding is 1 to 33 bytes, its tag is at most 37 and is 0 exactly for `None`; a `Raw(x)` encoding is `min(|x|,32)+1` bytes led by that count and followed by the first `min(|x|,32)` bytes of `x`; a hash encoding is the tag followed by the 32 hash bytes |
| DataCodec.EncodeTruncates | frame/identity/src/lib.rs:158-163 | a `Raw` blob longer than 32 bytes encodes exactly as its first 32 bytes |
| DataCodec.DecodeRaw | frame/identity/src/lib.rs:140-144 | decoding a `Raw` encoding followed by any bytes gives the truncated blob and exactly those bytes |
| DataCodec.DecodeHash | frame/identity/src/lib.rs:145-148 | decoding a hash encoding followed by any bytes gives the same hash variant and exactly those bytes |
| DataCodec.DecodeEncode | frame/identity/src/lib.rs:136-170 | decode inverts encode on every value, up to truncation of `Raw` blobs, and leaves what follows unread |
| DataCodec.DecodeWhole | frame/identity/src/lib.rs:136-170 | decoding the whole encoding of any value gives back its truncation with no input left over |
| DataCodec.RoundTrip | frame/identity/src/lib.rs:136-170 | for a well-formed value, decoding its encoding gives back the value and no leftover input |
| DataCodec.EncodeDecode | frame/identity/src/lib.rs:136-170 | whatever decode accepts is well formed, and its encoding followed by the unread rest is exactly the input, so decode accepts only canonical encodings |
| DataCodec.DecodeRejects | frame/identity/src/lib.rs:138-150 | decode fails with "invalid leading byte" exactly when the first byte exceeds 37 |
| Judgements.JudgementRules | frame/identity/src/lib.rs:215-232 | of `Judgements.HasDeposit` (`has_deposit`) and `Judgements.IsSticky` (`is_sticky`): only `FeePaid` has a deposit; exactly `FeePaid` and `Erroneous` are sticky; so every deposit-holding judgement is sticky |
| Judgements.HeldFee | frame/identity/src/lib.rs:337-341 | a judgement holds a non-zero amount only if it has a deposit |
| Judgements.Find | frame/identity/src/lib.rs:320-324 | the judgement found for a registrar is an entry of the list, and nothing is found exactly when no entry has that registrar index |
| Judgements.Upsert | frame/identity/src/lib.rs:578-585 | setting a registrar's judgement grows the list by at most one, contains the new entry, and adds no other entry |
| Judgements.Remove | frame/identity/src/lib.rs:616-619 | removing a registrar's entry shrinks the list by at most one and adds no entry |
| Judgements.RetainSticky | frame/identity/src/lib.rs:458 | `retain(is_sticky)` keeps exactly the sticky entries of the list, and never grows it |
| Judgements.BinarySearchByKey | frame/identity/src/lib.rs:578 | on a list sorted by registrar index, the search either returns a position holding the key, or the insertion point: every entry before it is smaller than the key and every entry from it on is larger |
| Judgements.SearchAndUpsert | frame/identity/src/lib.rs:578-585 | a binary search followed by an overwrite in place or an insertion at the reported position yields exactly `Upsert`, and reports the judgement that was there before |
| Judgements.FindAt | frame/identity/src/lib.rs:578-582 | in a strictly sorted list the entry at a found position is the registrar's only judgement |
| Judgements.UpsertAt | frame/identity/src/lib.rs:582 | overwriting at a found position is `Upsert` |
| Judgements.UpsertInsertAt | frame/identity/src/lib.rs:584 | inserting at the insertion point a search reports is `Upsert` |
| Judgements.RemoveAt | frame/identity/src/lib.rs:616-618 | removing at a found position is `Remove` |
| Judgements.FeesHeld | frame/identity/src/lib.rs:338-340 | the fees a judgement list holds are zero exactly when no judgement in it holds a non-zero fee |
| Judgements.FeesHeldCovers | frame/identity/src/lib.rs:337-341 | each entry's held fee is part of the list's total |
| Judgements.UpsertSorted | frame/identity/src/lib.rs:320-324 | setting a judgement keeps the list strictly ordered by registrar index, so there is at most one judgement per registrar |
| Judgements.UpsertFind | frame/identity/src/lib.rs:578-585 | after setting, the registrar has the new judgement and every other registrar's judgement is unchanged |
| Judgements.UpsertFees | frame/identity/src/lib.rs:337-341 | setting a judgement trades the fee held by the replaced judgement for the fee held by the new one |
| Judgements.UpsertIndicesBelow | frame/identity/src/lib.rs:376 | setting a judgement of an existing registrar slot keeps every index within the registrar list |
| Judgements.RemoveSorted | frame/identity/src/lib.rs:320-324 | removing keeps the list strictly ordered |
| Judgements.RemoveFind | frame/identity/src/lib.rs:616-619 | after removal the registrar has no judgement and every other registrar's judgement is unchanged |
| Judgements.RemoveFees | frame/identity/src/lib.rs:616-624 | removal releases exactly the fee the removed judgement held |
| Judgements.RemoveIndicesBelow | frame/identity/src/lib.rs:376 | removal keeps every index within the registrar list |
| Judgements.RetainStickyFees | frame/identity/src/lib.rs:457-458 | dropping the non-sticky judgements releases no fee, because every fee-holding judgement is sticky |
| Judgements.RetainStickySorted | frame/identity/src/lib.rs:320-324 | dropping the non-sticky judgements keeps the list strictly ordered |
| Judgements.RetainStickyFind | frame/identity/src/lib.rs:457-458 | after `set_identity` a registrar keeps its judgement exactly when that judgement is sticky |
| Judgements.RetainStickyIndicesBelow | frame/identity/src/lib.rs:376 | dropping judgements keeps every index within the registrar list |
| Balances.Currency.constructor | frame/identity/src/lib.rs:858-870 | a currency starts with the given genesis free balances and nothing reserved |
| Balances.Currency.Reserve | frame/identity/src/lib.rs:587 | reserve succeeds exactly when the free balance covers the amount, then moves it from free to reserved for that account only; on failure nothing changes |
| Balances.Currency.Unreserve | frame/identity/src/lib.rs:537 | unreserve moves `min(amount, reserved)` from reserved to free for that account only, and reports the shortfall |
| Balances.Currency.SlashReserved | frame/identity/src/lib.rs:765 | slashing removes `min(amount, reserved)` from that account's reserve, touches no free balance, and reports the shortfall |
| Balances.Currency.RepatriateReserved | frame/identity/src/lib.rs:723 | repatriation moves `min(amount, reserved)` from the slashed account's reserve to the beneficiary's free balance |
| IdentityPallet.TotalDeposit | frame/identity/src/lib.rs:337-341 | the total a registration holds is at least its deposit (the deposit plus every `FeePaid` fee) |
| IdentityPallet.Identity.constructor | frame/identity/src/lib.rs:361-377 | empty storage over a currency with nothing reserved satisfies the ledger invariant |
| IdentityPallet.Identity.AddRegistrar | frame/identity/src/lib.rs:418-430 | a non-privileged origin fails with "bad origin" and changes nothing; otherwise a registrar with zero fee and no fields is appended and its index is the old list length cast to `u32` |
| IdentityPallet.TruncatedInfo | frame/identity/src/lib.rs:272-312 | the information `IdentityOf` gives back: every `Data` field and every `additional` pair is well formed, the number of additional fields and the fingerprint are unchanged, and information that is already well formed is stored as it is |
| IdentityPallet.TruncatedSubs | frame/identity/src/lib.rs:370 | the sub-accounts `SubsOf` gives back: the same accounts in the same order, each name well formed, and a list of well-formed names stored as it is |
| IdentityPallet.TruncatedInfoDecodes | frame/identity/src/lib.rs:155-170 | each `Data` of the stored information is exactly what decoding the encoding of the submitted one gives, with nothing left over |
| IdentityPallet.TruncatedSubsDecodes | frame/identity/src/lib.rs:155-170 | each stored sub-account name is exactly what decoding the encoding of the submitted one gives, with nothing left over |
| IdentityPallet.Identity.SetIdentity | frame/identity/src/lib.rs:451-476 | succeeds exactly when the free balance covers any increase in deposit, and fails with the currency's error otherwise, changing nothing; the registration becomes the new info as `IdentityOf` stores it (`TruncatedInfo`: every `Raw` field cut to 32 bytes), only the sticky judgements of the old one, and the deposit basic + field deposit × number of additional fields; reserve and free move by exactly the difference from the old deposit; the invariant is kept |
| IdentityPallet.Identity.SetSubs | frame/identity/src/lib.rs:493-514 | "not found" without an identity, then "too many subs" above the maximum; on success the sub-account deposit becomes one sub-account deposit per entry, reserve and free move by the difference, an empty list removes the `SubsOf` entry, and any other list is stored with its names as `SubsOf` encodes them (`TruncatedSubs`); `Identity.SubsOf` reads a missing entry as the getter's default `(0, [])` (line 370); the invariant is kept |
| IdentityPallet.Identity.ClearIdentity | frame/identity/src/lib.rs:531-540 | "not named" without an identity; otherwise both entries are removed, the total deposit plus the sub-account deposit go back to free balance, and nothing stays reserved for the account |
| IdentityPallet.Identity.RequestJudgement | frame/identity/src/lib.rs:566-592 | the errors come in the source's order: "empty index", "fee changed", "no identity", "sticky judgement", then a failed reserve; on success the registrar's judgement becomes `FeePaid` at its current fee and exactly that fee moves from free to reserved; the invariant is kept |
| IdentityPallet.Identity.CancelRequest | frame/identity/src/lib.rs:612-628 | the errors are "no identity", "not found", then "judgement given" when the entry is not `FeePaid`; on success the entry is removed and exactly its fee goes back to free balance |
| IdentityPallet.Identity.SetFee | frame/identity/src/lib.rs:643-655 | only the registrar's own account may set the fee, otherwise "invalid index"; only that slot's fee changes |
| IdentityPallet.Identity.SetFields | frame/identity/src/lib.rs:670-682 | only the registrar's own account may set its fields, otherwise "invalid index"; only that slot's fields change |
| IdentityPallet.Identity.ProvideJudgement | frame/identity/src/lib.rs:704-731 | the errors are "invalid judgement" for `FeePaid`, "invalid index" unless the sender is that registrar, then "invalid target"; on success the judgement is set, and a replaced `FeePaid` fee moves from the target's reserve to the registrar's free balance; the invariant is kept |
| IdentityPallet.Identity.KillIdentity | frame/identity/src/lib.rs:753-768 | "bad origin" unless privileged, then "not named"; on success both entries are removed and the total deposit plus the sub-account deposit are slashed from the target's reserve, with no free balance changing |
| IdentityPallet.Identity.TotalDepositCovers | frame/identity/src/lib.rs:337-341 | under the invariant, a registered account's reserve covers its registration's total deposit and each single fee its judgements hold |
| IdentityPallet.Identity.IdentityDeposit | frame/identity/src/lib.rs:453-466 | the deposit `set_identity` asks is at least the basic deposit and at most one field deposit per additional field on top; below 2^32 additional fields it is exactly that, otherwise the count wraps as the `u32` cast does |
| IdentityPallet.Identity.InsertIdentity | frame/identity/src/lib.rs:474 | `IdentityOf::insert` (also at lines 589, 625 and 729) stores the registration for the account with its information as the table's encoding keeps it (`TruncatedInfo`), changes no other table, and restores the ledger invariant once the account's reserve matches the new registration |
| IdentityPallet.Identity.WriteSubs | frame/identity/src/lib.rs:509-513 | an empty sub-account list removes the account's `SubsOf` entry, any other is stored with its deposit and its names as the table's encoding keeps them (`TruncatedSubs`); no other table changes and the ledger invariant is restored |
| IdentityScenarios.Ten | frame/identity/src/lib.rs:874-880 | the tests' `ten()` has no additional fields, no web, riot, email or image entry, and its display and legal names are well-formed `Raw` data |
| IdentityScenarios.NewTestExt | frame/identity/src/lib.rs:833-872 | the mock runtime: deposits of 10, at most two sub-accounts, the genesis balances, and empty storage |
| IdentityScenarios.RegisteredTen | frame/identity/src/lib.rs:897-902 | the opening several tests share: registrar 3 charging 10, account 10 registered as `ten()` with no judgements, free balances 10 and 90 |
| IdentityScenarios.AddingRegistrar | frame/identity/src/lib.rs:883-893 | a registrar added by the privileged origin sets fee 10 and fields Display and Legal, and the registrar list is exactly that entry |
| IdentityScenarios.RegisterAndClear | frame/identity/src/lib.rs:896-907 | registering `ten()` stores that info and leaves free balance 90; clearing brings it back to 100; clearing again fails with "not named" |
| IdentityScenarios.UninvitedJudgement | frame/identity/src/lib.rs:910-936 | the uninvited-judgement errors come in order ("invalid index", "invalid target", "invalid index", "invalid judgement"), then the judgement list is exactly `[(0, Reasonable)]` |
| IdentityScenarios.JudgeUninvited | frame/identity/src/lib.rs:924-934 | the second half of that test, from account 10 registered with registrar 3 in place |
| IdentityScenarios.ClearingJudgement | frame/identity/src/lib.rs:939-947 | adding the registrar, registering `ten()`, judging it and clearing it all succeed; the judgement list before the clear is exactly `[(0, Reasonable)]`; afterwards the identity is gone |
| IdentityScenarios.KillingSlashing | frame/identity/src/lib.rs:950-959 | an unprivileged kill fails with "bad origin"; a kill removes the identity and leaves free balance 90; killing again fails with "not named" |
| IdentityScenarios.SettingSubaccounts | frame/identity/src/lib.rs:962-980 | "not found" before registering; one sub-account leaves free balance 80 and `SubsOf` (10, subs); an empty list gives 90 and (0, []); three sub-accounts fail with "too many subs" |
| IdentityScenarios.CancellingRequestedJudgement | frame/identity/src/lib.rs:983-997 | adding the registrar, setting its fee and registering succeed; cancelling before registering gives "no identity"; requesting and then cancelling both succeed and leave free balance 90; cancelling again gives "not found"; the judgement succeeds, and cancelling after it gives "judgement given" |
| IdentityScenarios.CancelAfterRequest | frame/identity/src/lib.rs:989-995 | the part of that test after registration: the request, the cancel and the judgement succeed, free balance is 90 after the cancel, then "not found" and "judgement given" |
| IdentityScenarios.RequestingJudgement | frame/identity/src/lib.rs:1000-1027 | "fee changed" below the fee; a request leaves free balance 80; re-requesting is "sticky judgement"; an `Erroneous` judgement pays the registrar (free balance 20) and stays sticky; a second registrar can still be asked; after `OutOfDate` the first can be asked again |
| IdentityScenarios.RequestThenJudgeErroneous | frame/identity/src/lib.rs:1005-1014 | the first half of that test, leaving `[(0, Erroneous)]` and free balance 80 |
| IdentityScenarios.RequestAfterErroneous | frame/identity/src/lib.rs:1017-1021 | the middle of that test: `Erroneous` stays sticky, and registrar 1 adds `FeePaid(0)` |
| IdentityScenarios.RequestAfterReduced | frame/identity/src/lib.rs:1024-1025 | the end of that test: after `OutOfDate` the first registrar can be asked again |
| IdentityScenarios.FieldDeposit | frame/identity/src/lib.rs:1030-1042 | two additional fields cost 10 each on top of the basic 10, leaving free balance 70 |

## Left out

- Origins: `ensure_signed`, `ensure_root` and the `EnsureOrigin` checks are reduced to a sender account, or to a `privileged` flag for `add_registrar` and `kill_identity`. An unsigned origin passed to a signed call is not modelled.
- `T::Lookup::lookup` is treated as the identity on account ids, as in the mock runtime. Its failure is not modelled.
- Events (`deposit_event`) and weights (`#[weight = ...]`) are not modelled. They change no state the pallet reads.
- The balances pallet is not part of this model. `Balances.Currency` has only what the pallet relies on, as its calls use it:
  - `reserve` fails only when the free balance is too low; locks, vesting and the existential deposit are not modelled;
  - `repatriate_reserved` is not modelled as able to fail;
  - the slashed imbalance handed to `T::Slashed` is dropped.
- IdentityPallet.Identity.Valid: the currency is this pallet's alone. In the source `T::Currency` is the runtime's shared balances module, and other modules may reserve, unreserve or slash the same accounts. So the exact equality of each reserve with what the pallet holds, and the zero reserve left after `ClearIdentity` and `KillIdentity`, hold only in that closed world. In a shared runtime the pallet's holdings are only a part of the reserve.
- Balances are unbounded naturals. The source's `Balance` arithmetic could overflow in `total_deposit`, in `from(len as u32) * FieldDeposit` (line 453), in `BasicDeposit + fd` and in `SubAccountDeposit * len`. That is not modelled. The `u32` cast of the additional-field count and of the registrar index are modelled.
- `IdentityFields` is an opaque mask of the seven field bits. Its `BitFlags` codec (lines 254-264) is not modelled.
- The derived SCALE codecs of `Judgement`, `IdentityInfo`, `Registration` and `RegistrarInfo` are not modelled as bytes. Their one effect on stored values is modelled: every `Data` inside goes through the hand-written `Data` codec on `IdentityOf::insert` and `SubsOf::insert`, so `TruncatedInfo` and `TruncatedSubs` cut `Raw` blobs to 32 bytes.
- Hashes in `Data` are opaque 32-byte values. No hash function is computed.
