# Soteria Aegis key slots: a verified model

This project models the persistent key-slot system of `soteria-aegis` in Dafny 4.11 and proves what
it promises: under named hypotheses, a vault that was saved opens again for its members, to exactly
the vault that was saved, and for nobody else. It follows one stack of four layers, and its main
theorems run across all of them.

1. **The SOTK codec**: the printer and the cursor-based parser of slot tables, with the 32-byte
   verifier and the keyed MAC.
2. **The slot table**: adding, revoking, counting and searching slots.
3. **The vault**: master, derived hierarchy and slot table, kept consistent by every operation.
4. **The command line**: the vault-file and blob framings, and the commands as the calls they make.

`dafny verify dfyconfig.toml` checks everything.

## How it is built

| file | content |
|---|---|
| `Outcomes.dfy`, `ByteStrings.dfy` | results (with a third outcome, `Panic`, for a raw index out of range or an unwrapped error), bytes, little-endian integers, the wrapping count byte |
| `Crypto.dfy` | the primitives as an arbitrary suite of functions, its functional laws, a toy suite |
| `AegisKeys.dfy` | the key container and its XOR-OR comparison |
| `Hierarchy.dfy` | the six domain keys |
| `SlotModel.dfy`, `TableLaws.dfy`, `TableRuns.dfy` | slots and tables as values, laws of one operation, laws of whole runs of a table |
| `SlotCodec.dfy`, `CodecLaws.dfy` | the format, the imperative parser against an outcome map stated on lengths and offsets, round trips |
| `KeySlotTables.dfy`, `AegisVaults.dfy` | the classes whose methods update tables and vaults in place, each method against the value model |
| `VaultModel.dfy` | vault operations as functions of the state, their invariant |
| `AegisCli.dfy`, `CliLaws.dfy`, `CliRuns.dfy` | framings and commands, what each command answers to every input, and the life of one vault file |
| `WholeRuns.dfy`, `RevocationRuns.dfy` | runs over several vaults and a disk, and what a revocation means in them |
| `ToyInstance.dfy`, `NonCommitting.dfy` | the hypotheses hold together of one instance; recovery fails on another that lacks key commitment |

Every value the program draws at random or reads from the clock (salts, nonces, slot ids, header
salts, fresh masters, `created_at`) is an arbitrary argument.

## What is assumed of the cryptography

`Crypto.Primitives` is any suite of deterministic functions with fixed output lengths that obeys
three functional laws: sealing then opening under the same key, nonce and associated data returns
the plaintext and costs 16 bytes; whatever opens was sealed (sections 7.1 and 7.2 of NIST SP 800-38D);
and HKDF produces every output of at most 255 hash lengths (section 2.3 of RFC 5869). Argon2id and
sealing may refuse their inputs. Everything stronger is a named hypothesis of the theorems that use it:

* `WholeRuns.KeyCommitting`: a slot ciphertext that wraps a master of the run under a passphrase and
  draw of the run opens under the key of another passphrase of the run only if the two keys are
  equal. AES-256-GCM does not have this property for all masters: for two slot keys there are masters
  whose one ciphertext opens under both. The hypothesis therefore speaks only of the finitely many
  passphrases, draws and masters that occur (`WholeRuns.Scope`).
* `WholeRuns.VerifierInjective` on a set of known masters, with `WholeRuns.CoversRecoverable`: the
  known masters are the run's, and those that a slot of the run unseals to under a passphrase of the
  run; the verifier tells them apart.
* `WholeRuns.DerivationInjective`: different passphrases of a run derive different slot keys.
* `CodecLaws.MacCollisionFree`: the bodies in question have different MACs.
* `CliRuns.PlaceholderUnlocks`: the vault that every command unlocks first can be derived.

What holds with none of them is stated apart (`WholeRuns.RunIsIntact`, `WholeRuns.WholeRunOutcome`):
in particular the exact condition under which a saved file gives its vault back.
`ToyInstance.HypothesesAreSatisfiable` shows that the hypotheses hold together, and
`ToyInstance.CommandsSucceed` that the theorems then speak of runs that do something.
`NonCommitting.RecoveryFailsWithoutCommitment` shows that key commitment cannot be dropped from the
recovery theorem: `open_from_slots` checks only the first slot that opens, so a first slot that opens
under the wrong key hides the member's own.

## Main results

* Whole runs: `RunIsIntact`, `WholeRunOutcome`, `WholeRunRevocation` (no hypothesis),
  `WholeRunRecovery`, `WholeRunAccess`, `RevokedLoseAccess`, `RunIsSound`, and the run on which
  recovery fails, `RecoveryFailsWithoutCommitment`.
* The command line: `CommandLineLifecycle`, `CommandLineAccess`, `CommandLineSafety`, `OpensWhatSealWrites`.
* The vault: `VaultStaysConsistent`, `OpenIsAtomic`, `UsesDerivedDomainKey`.
* The table: `RunConserves`, `NoLockOut`, `RevocationInRunIsPermanent`, `RevokeAccess`, `SearchFindsLeast`.
* The format: `ParseTable` against its outcome map, `AcceptedInputs`, `StopsExactlyWhen`,
  `RefusesExactlyWhen` (which between them determine its answer to every input), `RoundTrip`,
  `ReverseRoundTrip`, `BodyPrefixFree`.

The answers of the operations are determined apart from the functions that compute them: the
published constants and labels are written out, and each success and each error stands with its
exact condition (`CreateOutcome`, `UnsealExactly`, `InitialOutcome`, `AddOutcome`, `RevokeOutcome`,
`SealSlotsOutcome`, `AddSlotOutcome`, `RevokeSlotOutcome`, `OpenOutcome`, and `CliLaws` for the commands).

The rest of the table below builds up to these or ties the classes to the values they speak of.

## Where the code and its documentation differ

* The layout comment at `src/slots.rs:16-31` leaves out the 32-byte verifier between the last slot
  and the MAC. The model follows the code.
* `revoke_slot` is documented to wipe the wrapped master. It does so for an enabled slot; a slot that
  is already disabled is answered `Ok` and left as it is, ciphertext included
  (`TableLaws.RevokeWipes`, `TableLaws.RevokeLeavesCiphertext`). In a table built by this library
  every disabled slot is zeroed (`TableRuns.NoLockOut`).
* `to_bytes` announces the number of slots in one byte, so printing and parsing returns the table
  exactly when it has at most 255 slots (`CodecLaws.RoundTrip`). Every table that the library builds
  or reads stays within that (`TableRuns.RunConserves`, `TableRuns.ReopenedRunStaysPrintable`).
* `from_bytes` stops the run, rather than returning an error, exactly on authentic input whose body
  ends where a raw index reads: at length 5, or at 22 + 110k or 107 + 110k with k below the count byte
  (`CodecLaws.StopsExactlyWhen`; inputs in `CodecLaws.StopsWithoutCount` and `CodecLaws.StopsInRecord`).
* The `open` command skips the first byte of a blob, which `seal` writes as the algorithm: a blob opens
  whatever that byte is (`CliLaws.OpensWhatSealWrites`).

## Model

| member | source | states |
|---|---|---|
| WholeRuns.RunIsIntact | src/lib.rs:68-196 | after every run over many vaults and files, with no hypothesis: every vault is consistent; every table and file has 1 to 16 slots, one at least enabled, each what its creating call made or that wiped, wrapping a master whose hash is the verifier; every message decrypts in every consistent vault with its master |
| WholeRuns.WholeRunOutcome | src/lib.rs:142-158 | save a vault to a path at any point of any run that does not write there again, with no hypothesis: at the end opening the file, with any passphrase and into any vault, gives the vault back as saved if and only if the first slot that opens gives its master; NoSlotUnsealed if and only if no slot opens, VolumeMismatch if and only if the first that opens gives a master with another verifier; no panic, parse or integrity error; the creating passphrase of an enabled slot always opens some slot |
| WholeRuns.WholeRunRecovery | src/lib.rs:142-158 | with key commitment on what the run uses, the saved file opens, into any vault, with the creating passphrase of every slot enabled when it was saved, to exactly the vault saved, which decrypts everything encrypted under its master at any time, for every domain and algorithm |
| WholeRuns.WholeRunAccess | src/slots.rs:219-248 | with also injective derivation, a saved file opens under exactly those of the run's passphrases that created a slot still enabled when it was saved, always to the vault as saved; every other one gets NoSlotUnsealed and leaves the vault unchanged |
| WholeRuns.RunIsSound | src/lib.rs:110-158 | if the verifier tells the run's masters from those its slots can unseal to, then after the run all slots of a table or file wrap the one master of the vault that holds or wrote it |
| WholeRuns.CommittedRunIsSound | src/lib.rs:110-158 | the same from key commitment on what the run uses |
| WholeRuns.RecoversExactlyWhen | src/lib.rs:142-158 | with no hypothesis, opening a written file gives the saved vault if and only if the first slot that opens gives the saved master |
| WholeRuns.OpenWrittenFile | src/lib.rs:142-158 | for a file written in a run, any passphrase and any vault: framing, MAC, magic and parse never fail or panic, and the outcome is the first-match search followed by the verifier check |
| WholeRuns.OpenCommittedFile | src/lib.rs:142-158 | with key commitment, opening gives the saved vault if and only if some enabled slot opens under the passphrase, and otherwise changes nothing |
| WholeRuns.VerifierGuardsMaster | src/lib.rs:148-152 | the verifier check alone keeps every passphrase of the run from restoring another master than the one saved, without assumptions on the slot cipher |
| WholeRuns.CommitmentCovers | src/slots.rs:106-118 | with key commitment the run's own masters are all that its slots can unseal to, so the verifier hypothesis asks least there |
| WholeRuns.OpensForCreatorOnly | src/slots.rs:75-118 | an enabled slot opens under its creating passphrase and no other of the run |
| WholeRuns.SavedFileStays | src/bin/aegis.rs:101-108 | a save replaces whatever was at its path, and the file is still there as written at the end of every run that does not write to that path again |
| WholeRuns.HistoryGrows | src/bin/aegis.rs:101-108 | no event changes a file except a save to its path, and encrypted messages are never lost |
| WholeRuns.OriginsWereCalls | src/slots.rs:204-211 | every passphrase recorded as a slot's creator was passed to a seal or add call of the run |
| WholeRuns.UpdatedIsIntact | src/lib.rs:110-195 | seal, add, revoke, rotate and reopen each keep a vault intact, on success and on error, for any passphrase |
| WholeRuns.VaultCallsTakeEffect | src/lib.rs:110-195 | a seal, add, revoke, rotate or reopen event leaves its vault as that call leaves it, and every other vault, file and message as it was |
| WholeRuns.NewEntriesTakeEffect | src/lib.rs:68-98 | a vault joins the world, and a message is recorded, exactly if the call that makes it succeeds |
| RevocationRuns.WholeRunRevocation | src/slots.rs:219-234 | with no hypothesis: after a revocation takes effect in a vault anywhere in a run, the vault and every file saved from it since hold the slot wiped at its index, through adds, revocations, saves, overwrites, reopenings of those files and everything done to other vaults, until the vault is sealed anew, rotated, or reopened from another file |
| RevocationRuns.RevokedLoseAccess | src/slots.rs:219-248 | under the hypotheses of exact access, such a file opens under a passphrase of the run exactly if that created another slot, enabled at the save |
| CliRuns.CommandLineLifecycle | src/bin/aegis.rs:119-205 | after init and any sequence of adds by anyone, failing or not, members stay members, and what any member sealed with the file at one time any member opens with the file at any later time |
| CliRuns.CommandLineAccess | src/bin/aegis.rs:111-148 | under key commitment and injective derivation, at any time of a file's life it opens, to the vault it was written from, for exactly the passphrase of init and the new passphrases of the adds that wrote it; everyone else gets NoSlotUnsealed and cannot add a passphrase |
| CliRuns.CommandLineSafety | src/bin/aegis.rs:149-199 | from the verifier hypothesis alone, and whoever seals and opens at whatever times, opening a sealed blob gives the data sealed, or one of two refusals; never other data or a decryption error |
| CliRuns.SealThenOpen | src/bin/aegis.rs:149-199 | seal by one member then open by another returns the data, through both framings, the codec, the unseal, the verifier check and the hierarchy; sealing fails only when the cipher refuses; verify accepts every member |
| CliRuns.AddSettles | src/bin/aegis.rs:136-148 | add keeps all earlier slots, their creators and the master; the members afterwards are those before, and the new passphrase exactly if the file was written |
| CliRuns.MembersAfterAdds | src/bin/aegis.rs:136-148 | after any adds, by anyone, failing or not, the members are those at the start and the new passphrases of the adds that wrote the file |
| CliRuns.OpenAnyone | src/bin/aegis.rs:111-117 | a vault file opens to the vault it was written from or reports that no slot opened, nothing else |
| CliRuns.InitSettles | src/bin/aegis.rs:124-135 | the file init writes is sound and its passphrase is its only member |
| NonCommitting.RecoveryFailsWithoutCommitment | src/lib.rs:142-152 | a run (make, seal, add, save, reopen) on a lawful suite without key commitment, at whose end a member whose own enabled slot unseals to the right master is refused with VolumeMismatch because an earlier slot opens first |
| NonCommitting.MaskVerifierInjective | src/slots.rs:145-147 | that suite's verifier is injective, so key commitment is what it lacks |
| ToyInstance.HypothesesAreSatisfiable | src/slots.rs:75-269 | all named hypotheses hold together of one lawful suite, for any draws and masters, 16-byte passphrases, and any two tables that differ in a slot field or the verifier |
| ToyInstance.CommandsSucceed | src/bin/aegis.rs:124-167 | on it, init writes a file and a member seals with it |
| VaultModel.VaultStaysConsistent | src/lib.rs:68-196 | after every sequence of seal, add, revoke, rotate and open on arbitrary bytes, all six domain keys derive from the live master and verify_volume is true exactly when a table is present |
| VaultModel.OperationsTakeEffect | src/lib.rs:68-196 | each operation of such a sequence leaves the vault that its call leaves, applied to what the operations before it left |
| VaultModel.OpenIsAtomic | src/lib.rs:142-158 | an error leaves the vault unchanged on every path, the late HKDF error never occurs, and the answer and the new state do not depend on the vault before |
| VaultModel.OpenOutcome | src/lib.rs:142-158 | opening arbitrary bytes, in terms of the slots read: NoSlotUnsealed exactly when no slot opens, VolumeMismatch and Ok exactly by the verifier of the master that the first opening slot gives, which is then live |
| VaultModel.TableCallsAreAtomic | src/lib.rs:110-133 | a failing seal, add or revoke changes nothing; a successful seal or add wraps the live master in the slot it answers |
| VaultModel.SealSlotsOutcome | src/lib.rs:110-115 | from any vault, with or without a table, sealing succeeds if and only if one slot for the live master can be created at the published costs; that slot, the given salt and the keyed hash of the master are then the table; otherwise the creation's error and no change |
| VaultModel.AddSlotOutcome | src/lib.rs:118-125 | without a table it seals one and answers 0 exactly when the slot can be created; with one it is refused as full if and only if there are 16 slots or more, and below that the slot is appended and its index answered exactly when it can be created |
| VaultModel.RevokeSlotOutcome | src/lib.rs:128-133 | Ok, SlotUnseal and LastSlotRevocation each if and only if its condition; an enabled slot that is not the last is wiped, every other slot and all else in the vault stays |
| VaultModel.VerifyDetectsSwap | src/lib.rs:164-174 | next to the table of another master, a master verifies if and only if both have the same keyed hash under the published key |
| VaultModel.UsesDerivedDomainKey | src/lib.rs:93-106 | encryption and decryption in a domain are the cipher's under the key the live master derives for it: a plaintext comes back if and only if the nonce has the cipher's own length (12 or 24) and sealing that plaintext with this nonce and associated data gives this ciphertext; otherwise AeadOpen |
| VaultModel.DecryptsUnderSameMaster | src/lib.rs:93-106 | what a vault encrypted every consistent vault with the same master decrypts, for every domain, algorithm, nonce and associated data |
| VaultModel.DecryptsWhatEncrypts | src/lib.rs:93-106 | decryption and encryption under one master are inverse, in both directions, across consistent vaults |
| VaultModel.NewVaultIsConsistent | src/lib.rs:68-80 | from_master_key never panics; unlock succeeds exactly when Argon2id accepts its inputs; both give consistent vaults |
| VaultModel.RotationSucceeds | src/lib.rs:188-195 | rotation never panics, installs the fresh master and drops the table |
| VaultModel.ConsistentHierarchy | src/hierarchy.rs:88-123 | a vault whose six domain keys derive from its master has exactly the hierarchy from_master gives |
| Hierarchy.DomainKeysAreDerived | src/hierarchy.rs:81-123 | derivation never fails and each domain answers with the HKDF output for its own label |
| Hierarchy.PublishedDomainKeys | src/hierarchy.rs:25-123 | the six keys, each behind its own domain, are the HKDF outputs for the six published labels and the published salt |
| TableRuns.RunConserves | src/slots.rs:204-234 | over any run from any table: length = start + successful adds, at most max(16, start); enabled = start + adds - effective revocations; each slot stays in place and is unchanged or wiped once |
| TableRuns.StepIsCall | src/slots.rs:204-335 | the steps of these runs are the calls: the table each call leaves, counted exactly if the call succeeded and had an effect; printing and parsing changes nothing |
| TableRuns.InitialRunConserves | src/slots.rs:191-234 | from new_initial: between 1 and 16 slots, at least one enabled, at most 15 effective revocations |
| TableRuns.NoLockOut | src/slots.rs:191-248 | from new_initial, after every run some slot is enabled, each enabled slot's creating passphrase opens the table, and each disabled slot is zeroed |
| TableRuns.RepeatedRevokesCountOnce | src/slots.rs:219-234 | revoking one slot any number of times in a row is revoking it once, in the table and in the count |
| TableRuns.RevocationInRunIsPermanent | src/slots.rs:219-335 | a revocation that takes effect anywhere in a run, from new_initial or any other start, is final: at the end the slot is the one revoked, disabled, zeroed, and never answered |
| TableRuns.RevocationIsPermanent | src/slots.rs:219-335 | a revoked slot is disabled with a zero ciphertext in every later state reached by add, revoke, print and parse, and no search ever answers with its index |
| TableRuns.ReopenedRunStaysPrintable | src/slots.rs:255 | a table read from any accepted bytes never outgrows its count byte, and every later state prints and parses without loss |
| TableRuns.EnabledIsCreated | src/slots.rs:75-118 | a slot of a run is enabled exactly when it is still what its creation call made, and then unseals to that call's master |
| TableLaws.SearchFindsLeast | src/slots.rs:238-248 | the search answers with the least enabled index that unseals and that slot's master; it fails, with NoSlotUnsealed, exactly when there is none |
| TableLaws.SearchStopsAtFirst | src/slots.rs:238-248 | the answer is slot i's if and only if i is the first slot that opens |
| TableLaws.AddKeepsAccess | src/slots.rs:204-211 | a successful add changes the answer for no passphrase that already opened the table; others get at most the new slot; the new passphrase opens |
| TableLaws.AddOutcome | src/slots.rs:204-211 | SlotTableFull(16) if and only if there are 16 slots or more; below that the created slot is appended and its index answered, or the creation's error returned and nothing changed |
| TableLaws.RevokeAccess | src/slots.rs:219-248 | after a revocation every passphrase is answered as by a search that skips the slot; only first matches on that slot change, falling through to a later one |
| TableLaws.RevokeOutcome | src/slots.rs:219-234 | each answer of revoke_slot if and only if its condition; the table changes exactly when an enabled slot that is not the last is named, and then in that slot alone, which is wiped |
| TableLaws.RevokeWipes | src/slots.rs:223-233 | after Ok the ciphertext is zero exactly if the slot was enabled or already zeroed |
| TableLaws.RevokeLeavesCiphertext | src/slots.rs:223-225 | an input on which Ok leaves a ciphertext |
| TableLaws.EnabledCountIsCardinality | src/slots.rs:214-216 | the count is the number of indices whose slot is enabled |
| SlotModel.SealingLaw | src/slots.rs:75-118 | a created slot is enabled and unseals to its master under its passphrase, for all accepted costs and draws |
| SlotModel.UnsealExactly | src/slots.rs:106-118 | any slot unseals to a master if and only if its ciphertext is that master sealed under the passphrase's key |
| SlotModel.CreateOutcome | src/slots.rs:75-104 | creation fails only as Argon2id or the cipher does; every draw, cost and constant is in its own field and the ciphertext is the master sealed with "SOTK" as associated data |
| SlotModel.InitialOutcome | src/slots.rs:191-200 | the first table exists exactly if its slot can be created, with costs 64 and 3, and carries the keyed hash of the master under the published verifier key |
| SlotModel.WipedIsDisabled | src/slots.rs:121-233 | wiping clears the lowest flag bit, the one that means enabled, and no other, zeroes the ciphertext and keeps every other field |
| CodecLaws.SealingSurvivesPrinting | src/slots.rs:75-335 | it still does after its table was printed and parsed, at any position |
| CodecLaws.RoundTrip | src/slots.rs:251-335 | parsing what was printed returns the table, every field and the order included, if and only if it has at most 255 slots, for any MAC function |
| CodecLaws.RoundTripLosesSlots | src/slots.rs:255 | a table of 256 slots comes back with none |
| CodecLaws.ReverseRoundTrip | src/slots.rs:251-335 | reprinting what was parsed gives the first 38 + 110n bytes of the body and their MAC, and the input itself exactly when nothing followed the verifier |
| CodecLaws.AcceptedInputs | src/slots.rs:276-335 | the accepted inputs and their meaning: a printed body, any further bytes, and the MAC of both |
| CodecLaws.StopsExactlyWhen | src/slots.rs:276-335 | the inputs, of all, on which from_bytes stops the run: MAC, magic and version right, and the body ending at the count byte or at a raw index of an announced record |
| CodecLaws.RefusesExactlyWhen | src/slots.rs:276-335 | HeaderIntegrity if and only if the data is long enough for a MAC and the MAC is wrong, whatever the body holds; Serialization if and only if it is too short, or the MAC is right and the magic, the version or the length is not; there is no other error |
| CodecLaws.StopsWithoutCount | src/slots.rs:277-294 | the magic and version under their MAC are such an input |
| CodecLaws.StopsInRecord | src/slots.rs:298-301 | so is a body of one announced record cut after its slot id |
| CodecLaws.BodyPrefixFree | src/slots.rs:251-269 | a MACed body starts with another only if both tables agree in every slot and the verifier |
| CodecLaws.MetadataChangeDetected | src/slots.rs:284-290 | a body that differs in any field from the one its MAC was made for is refused with HeaderIntegrity, and only such a body |
| CodecLaws.ParseWithTrailing | src/slots.rs:251-335 | any table with any bytes after its verifier, MACed as a whole, reads as the slots its count byte announces |
| SlotCodec.ParseTable | src/slots.rs:276-335 | the parser's checks in their order, with the record loop, answer every input as the outcome map does; AcceptedInputs, RefusesExactlyWhen and StopsExactlyWhen say when that is Ok, which error, or a stop |
| SlotCodec.ParseBody | src/slots.rs:294-334 | the record loop and the verifier read, with raw indexes and checked slices over one cursor, meet the outcome map |
| SlotCodec.ReadSlot | src/slots.rs:298-329 | one record: the decoded 110 bytes, Panic at offsets 16 and 101, Serialization elsewhere; the cursor only advances and stays within the body |
| SlotCodec.SliceAt | src/slots.rs:127-134 | the checked slice and the cursor after it |
| SlotCodec.DecodedFields | src/slots.rs:298-329 | the offset of every field in a record |
| SlotCodec.AppendedFields | src/slots.rs:256-266 | the printer's nine appends write one record |
| KeySlotTables.KeySlotTable.ToBytes | src/slots.rs:251-273 | the growing buffer ends as the printed table |
| KeySlotTables.KeySlotTable.FromBytes | src/slots.rs:276-335 | a fresh object holding the parsed table, or the parser's failure, as the outcome map and its laws determine it |
| KeySlotTables.KeySlotTable.Initial | src/slots.rs:191-200 | new_initial on objects |
| KeySlotTables.KeySlotTable.AddSlot | src/slots.rs:204-211 | the new state and answer are the value model's |
| KeySlotTables.KeySlotTable.RevokeSlot | src/slots.rs:219-234 | the two in-place updates together give the wiped slot; nothing else changes |
| KeySlotTables.KeySlotTable.UnsealWith | src/slots.rs:238-248 | the loop computes the search |
| KeySlotTables.KeySlotTable.CountEnabled | src/slots.rs:214-216 | the number of enabled indices |
| AegisVaults.AegisVault.SealSlots | src/lib.rs:110-115 | state and answer of seal_slots, determined by SealSlotsOutcome; the invariant is kept |
| AegisVaults.AegisVault.AddSlot | src/lib.rs:118-125 | state and answer of add_slot, with and without a table, determined by AddSlotOutcome |
| AegisVaults.AegisVault.RevokeSlot | src/lib.rs:128-133 | state and answer of revoke_slot, determined by RevokeSlotOutcome |
| AegisVaults.AegisVault.OpenFromSlots | src/lib.rs:142-158 | state and answer of open_from_slots; unchanged on any failure |
| AegisVaults.AegisVault.VerifyVolume | src/lib.rs:164-174 | true exactly when a table is present |
| AegisVaults.AegisVault.SlotsToBytes | src/lib.rs:177-179 | the printed table, if there is one |
| AegisVaults.AegisVault.RotateMaster | src/lib.rs:188-195 | state after rotation; the invariant is kept |
| AegisVaults.AegisVault.Encrypt | src/lib.rs:93-98 | the answer that UsesDerivedDomainKey determines; what it returns decrypts in every consistent vault with the same master |
| AegisVaults.AegisVault.Decrypt | src/lib.rs:101-106 | the answer that UsesDerivedDomainKey determines: a plaintext if and only if every consistent vault with the same master encrypts that plaintext, with this nonce, to this ciphertext; otherwise AeadOpen, always so for a nonce of the wrong length |
| AegisVaults.AegisVault.Unlocked | src/lib.rs:75-80 | a consistent vault of the derived master, or Argon2id's error |
| AegisVaults.AegisVault.OfMasterKey | src/lib.rs:68-72 | a consistent vault of the given master |
| AegisCli.VerifyFollowsOpen | src/bin/aegis.rs:190-199 | whatever bytes the file holds, verify accepts exactly when the file opens and otherwise fails as opening does; its last error never arises |
| CliLaws.OpensWhatSealWrites | src/bin/aegis.rs:149-189 | for every file, passphrase, blob and data: open returns the data if and only if seal, with the blob's own 24-byte nonce, writes that blob, up to its first byte |
| CliLaws.OpenCommandOutcome | src/bin/aegis.rs:168-189 | too short, corrupt, and the data each if and only if its condition on the blob's bytes and the cipher under the bulk key; any other blob that splits is a decryption error; a file that does not open fails first |
| CliLaws.SealCommandOutcome | src/bin/aegis.rs:149-167 | the blob byte by byte, or the cipher's refusal |
| CliLaws.AddCommandOutcome | src/bin/aegis.rs:136-148 | AddFailed(SlotTableFull(16)) if and only if the file has 16 slots or more; below that the file with the new slot appended, or the creation's error |
| CliLaws.InitOutcome | src/bin/aegis.rs:124-135 | each failure with its message, or the file of the one-slot table |
| CliLaws.OpenFileOutcome | src/bin/aegis.rs:111-117 | what is not a vault file is refused first, an underivable placeholder stops the run, and otherwise the answer is that of opening into any vault |
| CliLaws.ReadOutcome | src/bin/aegis.rs:84-98 | the three refusals of read_vault and what it accepts, each exactly by the bytes |
| AegisCli.FileRoundTrip | src/bin/aegis.rs:84-108 | a file reads as some slot bytes and salt exactly when it was written from them |
| AegisCli.VaultFileRoundTrip | src/bin/aegis.rs:84-108 | reading and parsing a written vault file returns the table exactly when it has at most 255 slots |
| AegisCli.BlobRoundTrip | src/bin/aegis.rs:159-183 | splitting a blob returns its nonce and ciphertext exactly when the nonce has at most 255 bytes |
| AegisCli.WriteVault | src/bin/aegis.rs:101-108 | what it writes reads back |
| AegisCli.ReadVault | src/bin/aegis.rs:84-98 | what it accepts was written from what it returns |
| AegisCli.FrameBlob | src/bin/aegis.rs:159-164 | what it frames splits back |
| AegisCli.OpenVault | src/bin/aegis.rs:111-117 | open_vault on a live vault, in the order of its calls |
| AegisCli.Init | src/bin/aegis.rs:124-135 | the file the init command writes, or its failure |
| AegisCli.Add | src/bin/aegis.rs:136-148 | the file the add command writes, or its failure |
| AegisCli.Seal | src/bin/aegis.rs:149-167 | the blob the seal command writes, or its failure |
| AegisCli.Open | src/bin/aegis.rs:168-189 | the data the open command writes, or its failure, determined by OpenCommandOutcome |
| AegisCli.Verify | src/bin/aegis.rs:190-199 | the verdict of the verify command |
| AegisKeys.AegisKey.CtEq | src/aegis_key.rs:81-90 | the XOR-OR fold answers true exactly when lengths and all bytes agree |
| AegisKeys.AegisKey.constructor | src/aegis_key.rs:39-53 | a fresh buffer holding the material |
| AegisKeys.AegisKey.Burn | src/aegis_key.rs:95-97 | every byte of the buffer is zero |
| Crypto.SealOpenInverse | src/aead.rs:46-115 | opening returns a plaintext if and only if the cipher seals it, with the same key, nonce and associated data, to this ciphertext and the nonce has 12 or 24 bytes as the cipher wants; sealing is the cipher's, and each way fails with its one error |
| ByteStrings.U32LowByteFirst | src/slots.rs:259-260 | the cost fields are written least significant byte first |
| ByteStrings.U64LowByteFirst | src/slots.rs:265 | so is the creation time |
| ByteStrings.CountByteValue | src/slots.rs:255 | the count byte is the count modulo 256 |

## Left out

- The internals of AES-GCM, XChaCha20-Poly1305, Argon2id, HKDF, BLAKE3 and the constant-time comparison library: replaced by the laws and hypotheses above.
- Memory locking, core-dump exclusion, wiping on drop and timing: effects outside the functional model; `burn` is modelled as an in-place overwrite.
- The vault holds the 32 bytes that an `AegisKey` exposes rather than the container object, because no vault operation updates a key in place; sharing of a container between two owners is not expressible.
- A `KeySlot` is a value that the table replaces at its index, so the two assignments of a revocation are two updates of the slot sequence.
- Arithmetic overflow of the cursor: positions are unbounded, and no input that fits in memory reaches the limit.
- Redacted debug output, error texts, argument parsing, printing, exit codes and file-system errors: formatting and environment.
- `legacy_single_key`, `subkey` and the distinctness of the six labels: single-expression facts.
- Randomness: draws are arbitrary, so nothing is claimed about freshness or probability; a draw may repeat.
- The unused error for wrong key lengths, which no modelled code returns.
