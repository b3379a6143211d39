# Blindkey core, verified

A Dafny model of the hard core of Blindkey, a local-first password manager: the authenticated file
formats, the key-wrapping envelope and its life cycle, sealed file containers, and the self-contained
algorithms beside them.

Cryptographic primitives are not looked into. A `Primitives.Suite` is any choice of them, given as
functions; what a theorem needs of the choice is a predicate it requires by name: `Sized` (output sizes),
`Correct` (what an honest party made, an honest party accepts), and ideal laws such as "this key verifies
no tag but those of the blocks that were honestly written". `Witness.dfy` shows that the ideal laws hold
together: for any finite lists of passwords, keyfiles and HKDF inputs and any number of saves under one data
key there is a suite that satisfies all of them, in which vaults are created, saved and opened, and in which
the keyfile and YubiKey theorems apply to every right and every wrong attempt. Operating-system randomness is a
`Bytes.Rng`: each draw is an arbitrary byte string or a failure, and is recorded, so that contracts can say which
seeds, keys and nonces were drawn; everything proved holds for every choice.

The code that works in place is modelled in place: the stream encryptor and decryptor, the cursor, the
block writer and reader, the incremental archive and payload readers, the inner stream, the vault, the sealed
container, the inode table, the disk an archive is extracted to, and the two files of the hole-preserving copy are
classes and methods with loops, proved against specification functions; the theorems are about those functions. Pure
code is functions and lemmas.

| file | what it models |
|---|---|
| `Stream.dfy` | STREAM chunk encryption, one-shot and incremental |
| `BlockStream.dfy`, `Cursor.dfy` | HMAC block framing and the bounded reader under it |
| `Pad.dfy`, `Body.dfy` | Padmé size buckets; padded, encrypted and framed bodies |
| `Header.dfy`, `Container.dfy` | headers, and whole files of header and body |
| `StanzaTails.dfy`, `Envelope.dfy` | FIDO2 and TPM stanza tails; wrapping and unwrapping the data key |
| `Keyring.dfy`, `Unlock.dfy` | the stanza list as a state machine; which secrets open what |
| `Rotation.dfy`, `CostChange.dfy`, `Effects.dfy` | whose secrets still open after rotating, changing costs, adding and removing |
| `Hardware.dfy` | opening by FIDO2 or TPM |
| `Format.dfy` | what the files look like, byte by byte |
| `Vault.dfy`, `Sealed.dfy` | the vault and the sealed container, performing those steps in place |
| `Entries.dfy`, `Frecency.dfy`, `Payload.dfy`, `Tlv.dfy` | entries, usage store and payload, as records |
| `Archive.dfy`, `Offsets.dfy`, `Merge.dfy` | the file archive, its two parsers, where its headers lie, merging |
| `Staging.dfy` | extracting to a directory by way of a staging directory |
| `Inodes.dfy` | the inode table of a mounted volume |
| `Civil.dfy`, `Timestamp.dfy`, `Decimal.dfy` | calendar dates and RFC 3339 timestamps |
| `CopyHoles.dfy` | the hole-preserving copy |
| `Totp.dfy`, `Gen.dfy`, `Search.dfy` | one-time passwords, rejection sampling, frecency re-ranking |
| `Bytes.dfy`, `Primitives.dfy`, `Witness.dfy` | shared ground; the ideal laws are satisfiable |

Main results:

- **Authenticity over all saves.** Under ideal MACs, opening under a data key accepts the files saved under
  it, however often that was and under whatever seeds, and no other byte string
  (`Containers.AcceptsOnlyHonest`); an unlock attempt reaches that data key exactly with a saved file whose
  header its secrets unwrap (`Vaults.OnlySavedOpens`). Below it, the block reader accepts exactly one byte
  string and the decryptor exactly two, one of them empty.
- **Life of a vault.** Every run of steps keeps every stanza wrapping the current data key and never leaves
  the vault without a password that unwraps it. Two factors stay in force, exactly as enrolled, through every
  run of saves, challenge refreshes and rotations with the same secrets (`Unlock.SteadyRunStaysInForce`); a
  cost change ends that, see below. A FIDO2 authenticator or TPM opens the vault through every run that does
  not enrol another, exactly until its stanza is removed, the authenticator provided that enrolment was given
  the vault's salt hash (`Hardware.Fido2ForLife`, `Hardware.TpmForLife`).
- **Who can open it afterwards.** For every reachable vault and every attempt: after a rotation exactly the
  secrets it was given (`Rotation.PlainRotationOpensExactly` and the two beside it), after adding a recovery code
  that one too, after removing a second factor whatever password opened it alone (`Effects`).
- **Files byte by byte.** Where every field of a header, chunk, block and record lies, in which order its bytes
  stand, and what its tags cover (`Format`); a written secret shows its bytes exactly where the key stream is
  zero, and no stretch of that is used twice (`Entries.SecretsHidden`, `Payloads.EntriesApart`).
- **Header-only edits** of a sealed container leave its body region, and what it decrypts to, unchanged.
- **Exact conditions** where the code falls short of what one would expect of it:
  - saving checks no field's length but opening does, so a saved vault opens again exactly when no field is
    longer than 1 MiB and no entry or usage store longer than 16 MiB (`Vaults.SavedVaultOpensExactly`); one
    note of 1 MiB and one byte makes a vault that saves and never opens (`Vaults.UnopenablePayload`);
  - the parser that is fed chunks gives up when a chunk ends inside a six-byte record header, so a sealed
    archive can be read for extraction exactly when every header lies within one 64 KiB chunk, which the
    lengths of names and contents decide (`Sealed.ExtractSealed`); a 65496-byte file named `a` cannot be
    (`Sealed.UnextractableFile`), and as each part drifts six bytes further, no archive that holds a file of
    more than 21844 full parts, about 1.4 GB, ever can (`Sealed.LongFileNeverExtracts`), though all can be
    listed. The payload reader waits for the rest of a header, and no cut matters to it
    (`Payloads.CutsDoNotMatter`);
  - extracting writes each file under its name with the extension `.vltf-part` before renaming it, so it loses an
    earlier file of that name and reports success (`Staging.FileLost`: `x.vltf-part` before `x.zip`). Where
    none of its files exist yet, an archive that can be read arrives whole, in whatever order the staging
    directory is walked, exactly when no file is so written over without being archived again, none belongs in a
    directory `.vltf-partial`, none lies or is written where another's directory does, and the destination has
    no file in the way of a directory nor a directory in the way of a file (`Staging.ExtractsExactly`, and from sealing on
    `Sealed.SealedExtractsExactly`); what every other extraction leaves is stated too
    (`Staging.ExtractionExactly`);
  - changing the key-derivation costs hands the first password stanza to whatever password is given, which in
    a vault with two factors is the recovery stanza. From then on that password opens the vault alone; another
    one only through another password stanza, and both factors only if the costs are the same
    (`CostChange.CostChangeOpensExactly`). So two factors stay as enrolled exactly when the costs are the same
    and the recovery code is what is given (`CostChange.CostChangeTwoFactorExactly`); giving the master
    password, as the `upgrade-kdf` command does, loses the second factor and the recovery code
    (`CostChange.SecondFactorLost`). For vaults of every kind, what opened before opens after exactly when the
    replaced password is the one given or has another stanza and, if the costs do change, no current stanza
    asks for two factors and every current password meets the same test (`CostChange.SecretsSurviveExactly`);
  - renaming a subtree keeps the inode maps inverse, in every order, exactly when no entry would take over
    another inode's path (`Inodes.RenameKeepsInverseExactly`); in every run, those with such renames
    included, each known path still leads to a number and back (`Inodes.RunSound`);
  - timestamps sort as text exactly below the year 10000 (`Timestamps.TextOrderExactly`), and the 32-bit
    year is right exactly up to the end of 2147483647 (`Civil.CastIsExact`).

Where code and documentation disagree the code is followed: docs/FILE_FORMAT.md (lines 62-65) gives the
HKDF labels of header and block tags as ending in `-v2`; the code, and so the model, uses `-v1`. Its rules for
opening (line 57) reject costs below the floor; the code rejects on opening only those out of range.

## Model

| member | source | states |
|---|---|---|
| `Bytes.LEByte` | crates/blindkey-core/src/format/cursor.rs:62-74 | byte i of a written integer counts the 256 to the i: the lowest comes first |
| `Bytes.FromLEByte` | crates/blindkey-core/src/format/cursor.rs:62-74 | every byte read is that digit, in base 256, of the integer, which has no others |
| `Bytes.BEByte` | crates/blindkey-core/src/crypto/stream.rs:35-40 | in the big-endian integers of nonces and one-time passwords the lowest byte comes last |
| `Format.HeaderLayout` | crates/blindkey-core/src/format/header.rs:82-122 | where every field of a header lies in the file, with its integers as sums of their bytes: fixed part, each stanza, both tags |
| `Format.ParsedLayout` | crates/blindkey-core/src/format/header.rs:170-233 | so it is for every file whose header is accepted, which has at most 8 stanzas of at most 4096 bytes |
| `Format.NewerVersionExactly` | crates/blindkey-core/src/format/header.rs:178-184 | a file is refused as newer exactly when bytes 4 and 5, the lower one first, spell more than 1 |
| `Format.KindRefusedExactly` | crates/blindkey-core/src/format/header.rs:170-178 | which first four bytes are no container at all, and which are one of the wrong kind |
| `Format.FileLayout` | crates/blindkey-core/src/format/header.rs:118-150 | the two tags of a saved file are the hash and the keyed tag of all the bytes before them; the body follows |
| `Format.NonceLayout` | crates/blindkey-core/src/crypto/stream.rs:35-40 | three zeros, the counter with its lowest byte last, the marker |
| `Format.ChunkLayout` | crates/blindkey-core/src/crypto/stream.rs:92-133 | chunk i is at 65552 times i: that 64 KiB of the plaintext sealed under the payload key and its own nonce |
| `Format.BlockLayout` | crates/blindkey-core/src/format/block_stream.rs:45-62 | tag, length and payload of a block, what the tag covers and how its key is derived |
| `Format.FramedLayout` | crates/blindkey-core/src/format/block_stream.rs:64-80 | block i is at 1048612 times i and holds that mebibyte of the ciphertext |
| `Format.RecordLayout` | crates/blindkey-core/src/format/tlv.rs:24-28 | two bytes of tag, four of length, the value |
| `Format.RecordRefusedExactly` | crates/blindkey-core/src/format/file_archive.rs:131-171 | an archive record is refused exactly when its first six bytes are cut short or its length is over 65664 |
| `Format.FileHeaderLayout` | crates/blindkey-core/src/format/file_archive.rs:46-57 | where length of the path, path, mode, time and size of an archived file lie |
| `Format.DecodedFileHeader` | crates/blindkey-core/src/format/file_archive.rs:59-80 | an accepted file header is the encoding of what was read, with a path of at most 4096 bytes and a size of at most 256 GiB |
| `Format.UseLayout` | crates/blindkey-core/src/frecency.rs:88-100 | where id, count and time of a usage record lie |
| `Format.Fido2TailLayout` | crates/blindkey-core/src/envelope/fido2.rs:35-52 | where the fields of a FIDO2 tail lie, and their bounds |
| `Format.TpmTailLayout` | crates/blindkey-core/src/envelope/tpm.rs:35-48 | where the fields of a TPM tail lie, and their bounds |
| `Stream.ChunkNonceInjective` | crates/blindkey-core/src/crypto/stream.rs:35-40 | distinct counter and marker pairs give distinct nonces |
| `Stream.NoncesDistinct` | crates/blindkey-core/src/crypto/stream.rs:105-116 | one encryption never uses a nonce twice |
| `Stream.StreamEncryptor.Push` | crates/blindkey-core/src/crypto/stream.rs:92-103 | appends to the plaintext, keeps less than a chunk pending, fails only when finished or when the 64-bit counter would run out |
| `Stream.StreamEncryptor.SealOne` | crates/blindkey-core/src/crypto/stream.rs:105-116 | seals under the current counter and marker, then advances the counter or reports that it cannot |
| `Stream.StreamEncryptor.Finish` | crates/blindkey-core/src/crypto/stream.rs:119-133 | returns the one-shot ciphertext of everything pushed, the inner length test being always true; the log of what was sealed is that of one run |
| `Stream.Encrypt` | crates/blindkey-core/src/crypto/stream.rs:43-47 | the one-shot ciphertext, or the error when the counter is too small |
| `Stream.EncryptInPieces` | crates/blindkey-core/src/crypto/stream.rs:92-133 | however a plaintext is cut into pushes, the ciphertext is that of the whole |
| `Stream.SealedLength` | crates/blindkey-core/src/crypto/stream.rs:92-133 | 16 bytes for every 64 KiB chunk and for the final one |
| `Stream.StreamDecryptor.NextPlaintextChunk` | crates/blindkey-core/src/crypto/stream.rs:185-204 | each step takes one verified chunk off what remains to be decrypted |
| `Stream.Decrypt` | crates/blindkey-core/src/crypto/stream.rs:143-154 | the loop computes the recursive specification of decryption |
| `Stream.DecryptStreaming` | crates/blindkey-core/src/crypto/stream.rs:212-226 | chunks handed out are what the ciphertext releases, and all of the plaintext when it ends well |
| `Stream.DecryptSealed` | crates/blindkey-core/src/crypto/stream.rs:143-205 | decryption undoes encryption for every plaintext |
| `Stream.DecryptAcceptsExactly` | crates/blindkey-core/src/crypto/stream.rs:185-204 | under an ideal AEAD the decryptor accepts the one honest ciphertext and the empty string, nothing else |
| `Stream.ReleasedIsPrefix` | crates/blindkey-core/src/crypto/stream.rs:185-226 | on any byte string, even a rejected one, the plaintext handed out is a prefix of the honest one |
| `Stream.ChunksConcat` | crates/blindkey-core/src/crypto/stream.rs:185-205 | the chunks handed out cut the plaintext at multiples of 64 KiB |
| `Cursors.Cursor.Take` | crates/blindkey-core/src/format/cursor.rs:39-47 | exactly n bytes, or an error that leaves the cursor where it was |
| `Cursors.Cursor.ReadU32LE` | crates/blindkey-core/src/format/cursor.rs:67-69 | the next four bytes as a sum, the lowest first, or an error and no movement |
| `BlockStream.MacInputInjective` | crates/blindkey-core/src/format/block_stream.rs:45-62 | index, size and payload can be told from what a tag covers |
| `BlockStream.WriteBlock` | crates/blindkey-core/src/format/block_stream.rs:45-62 | appends tag, size and payload of one block |
| `BlockStream.FrameInner` | crates/blindkey-core/src/format/block_stream.rs:64-80 | the loop writes the blocks of the cut ciphertext and the empty terminator |
| `BlockStream.TakeBlock` | crates/blindkey-core/src/format/block_stream.rs:97-105 | the bounds checks of one pass cut a block off or report it malformed |
| `BlockStream.Read` | crates/blindkey-core/src/format/block_stream.rs:92-125 | the loop, which ends on every input, computes the recursive specification of reading |
| `BlockStream.SplitIsLossless` | crates/blindkey-core/src/format/block_stream.rs:97-105 | a block cut off and what follows it are all of the bytes that were there |
| `BlockStream.ReadFramed` | crates/blindkey-core/src/format/block_stream.rs:64-125 | reading undoes framing for every ciphertext |
| `BlockStream.ReadAcceptsExactly` | crates/blindkey-core/src/format/block_stream.rs:92-125 | under an ideal MAC reading succeeds on the framed output and on no other byte string |
| `BlockStream.ResequencingDetected` | crates/blindkey-core/src/format/block_stream.rs:92-125 | any swap, repetition or loss of blocks is detected, and which error it gives |
| `BlockStream.TruncationDetected` | crates/blindkey-core/src/format/block_stream.rs:92-125 | a stream cut anywhere before its end is malformed |
| `BlockStream.ExtensionDetected` | crates/blindkey-core/src/format/block_stream.rs:115-120 | anything after the terminator makes the stream malformed |
| `BlockStream.FramedLength` | crates/blindkey-core/src/format/block_stream.rs:64-85 | 36 bytes for every block and for the terminator |
| `Pad.ClearLowRoundsDown` | crates/blindkey-core/src/pad.rs:59-61 | masking the low bits rounds down to a multiple of a power of two |
| `Pad.PadmeIsLeastBucket` | crates/blindkey-core/src/pad.rs:50-62 | never shrinks, and is the least multiple of 2^(e-s) that is not below the length |
| `Pad.PadmeExactly` | crates/blindkey-core/src/pad.rs:50-75 | the same in terms of the greatest power of two in the length and the number of bits of its exponent |
| `Pad.PadmeOverhead` | crates/blindkey-core/src/pad.rs:50-62 | 25 times the padding is at most 3 times the length: 12 %, without slack |
| `Pad.PadmeIdempotent` | crates/blindkey-core/src/pad.rs:50-62 | a padded length is its own bucket |
| `Pad.PadmeMonotone` | crates/blindkey-core/src/pad.rs:50-62 | longer plaintexts never get smaller buckets |
| `Pad.PadmeMantissa` | crates/blindkey-core/src/pad.rs:50-62 | only so many high bits of the length survive as its exponent has bits |
| `Pad.PadmeFitsWord` | crates/blindkey-core/src/pad.rs:50-62 | the result fits 64 bits exactly for lengths up to 2^64 - 2^57 |
| `Body.SealBody` | crates/blindkey-core/src/vault.rs:688-697 | encrypts and frames |
| `Body.OpenSealedPadded` | crates/blindkey-core/src/vault.rs:669-701 | opening undoes padding, encrypting and framing up to zeros, at most 12 % of them |
| `Body.OpenAcceptsExactly` | crates/blindkey-core/src/sealed.rs:831-835 | under an ideal MAC both layers together accept exactly the saved body |
| `Body.SizeHiding` | crates/blindkey-core/src/sealed.rs:1035-1048 | bodies are equally long exactly when their plaintexts share a bucket, and longer plaintexts never give shorter bodies |
| `Headers.ParseSerialized` | crates/blindkey-core/src/format/header.rs:105-233 | a sealed header reads back as written in front of any body, and its length says where the body begins |
| `Headers.ParsedSerializes` | crates/blindkey-core/src/format/header.rs:170-233 | reading is canonical: an accepted header serialises to the very bytes it was read from |
| `Headers.ParsedEncodable` | crates/blindkey-core/src/format/header.rs:170-233 | an accepted header has known kind, version, algorithm, allowed costs and bounded stanzas |
| `Headers.ParsedHash` | crates/blindkey-core/src/format/header.rs:118-122 | the plain hash of an accepted header is that of its own fields |
| `Headers.CostsExactly` | crates/blindkey-core/src/crypto/mod.rs:73-120 | which costs are out of range or below the floor, in KiB, passes and lanes, and with which error |
| `StanzaTails.Fido2PrintParse` | crates/blindkey-core/src/envelope/fido2.rs:35-87 | in-bounds FIDO2 tails survive serialising and parsing |
| `StanzaTails.Fido2ParsePrint` | crates/blindkey-core/src/envelope/fido2.rs:35-87 | an accepted FIDO2 tail is reproduced byte for byte |
| `StanzaTails.TpmPrintParse` | crates/blindkey-core/src/envelope/tpm.rs:35-67 | in-bounds TPM tails survive serialising and parsing |
| `StanzaTails.TpmParsePrint` | crates/blindkey-core/src/envelope/tpm.rs:35-67 | an accepted TPM tail is reproduced byte for byte |
| `Envelope.KeysSeparate` | crates/blindkey-core/src/envelope/mod.rs:177-197 | two secrets derive one wrapping key exactly when all their factors and the costs match |
| `Envelope.UnwrapExactly` | crates/blindkey-core/src/envelope/mod.rs:134-175 | a stanza opens exactly for what it was wrapped under; all else gets the one ambiguous error |
| `Envelope.WrapYubiKeyWraps` | crates/blindkey-core/src/envelope/mod.rs:199-239 | the stanza holds the data key under both factors and gives its challenge back |
| `Envelope.WrapFido2Wraps` | crates/blindkey-core/src/envelope/fido2.rs:95-121 | the stanza holds the data key under the PRF output, with a well-formed tail |
| `Containers.OpenFile` | crates/blindkey-core/src/vault.rs:318-346 | a saved file opens, under its data key, to what was saved |
| `Containers.AcceptsOnlyHonest` | crates/blindkey-core/src/vault.rs:318-346 | under ideal MACs, opening under a data key accepts the files of all the saves made under it and no other byte string, and gives back what each wrote |
| `Containers.FileSizeHiding` | crates/blindkey-core/src/sealed.rs:1035-1048 | files with equally long headers are equally long exactly when they share a bucket |
| `Keyring.ReplaceFirstPassword` | crates/blindkey-core/src/vault.rs:836-841 | the loop overwrites the first password stanza and no other |
| `Keyring.RotateKeeps` | crates/blindkey-core/src/vault.rs:853-941 | a failed rotation changes nothing; a successful one leaves every stanza wrapping the new key (whose they are: `Rotation`) |
| `Keyring.StepKeeps` | crates/blindkey-core/src/vault.rs:201-963 | every step keeps the invariant of the envelope; a step that fails changes nothing |
| `Keyring.CreateEstablishes` | crates/blindkey-core/src/vault.rs:120-184 | a fresh vault satisfies the invariant |
| `Keyring.RunKeeps` | crates/blindkey-core/src/vault.rs:120-963 | after any run: a password stanza, at most one composite, FIDO2 and TPM stanza, at most four in all, each wrapping the current data key |
| `Unlock.TryPasswordStanzas` | crates/blindkey-core/src/vault.rs:394-420 | the search loop returns the first success, else the last error |
| `Unlock.PasswordPathExactly` | crates/blindkey-core/src/vault.rs:394-420 | the password path opens exactly for current password stanzas' passwords |
| `Unlock.HardwarePathExactly` | crates/blindkey-core/src/vault.rs:273-278 | unwrapping: the first FIDO2 or TPM stanza gives the data key exactly for the secret it was wrapped under, and only while it is enrolled |
| `Unlock.NeverLockedOut` | crates/blindkey-core/src/vault.rs:949-963 | in every reachable vault some password opens without a second factor |
| `Unlock.KeyfileAndSemantics` | crates/blindkey-core/src/vault.rs:380-393 | with a keyfile offered, exactly the right password and keyfile open; without, exactly the recovery code |
| `Unlock.YubiKeyAndSemantics` | crates/blindkey-core/src/vault.rs:359-379 | with a device offered, exactly the right password and answer open; without, exactly the recovery code |
| `Unlock.SteadyRunStaysInForce` | crates/blindkey-core/src/vault.rs:605-667 | saves, challenge refreshes and rotations with the same secrets keep both factors in force |
| `Unlock.KeyfileForLife` | crates/blindkey-core/src/vault.rs:486-504 | the AND semantics of a keyfile from enrolment on, through any such run |
| `Unlock.YubiKeyForLife` | crates/blindkey-core/src/vault.rs:451-482 | the AND semantics of a YubiKey from enrolment on, through any such run |
| `Unlock.RotateSucceedsExactly` | crates/blindkey-core/src/vault.rs:861-941 | rotation succeeds exactly without FIDO2 and TPM stanzas and with every secret the stanzas call for |
| `Rotation.PlainRotationOpensExactly` | crates/blindkey-core/src/vault.rs:853-941 | after rotating a vault without a second factor, an attempt opens it exactly when its password is the one given, or the recovery code given if there was a second password stanza |
| `Rotation.KeyfileRotationOpensExactly` | crates/blindkey-core/src/vault.rs:853-941 | after rotating a vault with a keyfile, exactly the password given together with the keyfile given open it, and without a keyfile exactly the code given |
| `Rotation.YubiKeyRotationOpensExactly` | crates/blindkey-core/src/vault.rs:853-941 | after rotating a vault with a YubiKey, exactly the password given together with a device that answers the new challenge as the one given did, and without a device exactly the code given |
| `Effects.AddRecoveryOpensExactly` | crates/blindkey-core/src/vault.rs:201-227 | after adding a recovery code every attempt comes to what it did before, except that the code opens the vault too |
| `Effects.RemovedFactorOpensExactly` | crates/blindkey-core/src/vault.rs:949-963 | after removing the stanza of a second factor an attempt comes to what its password alone did before |
| `Effects.HardwareStepOpensAsBefore` | crates/blindkey-core/src/vault.rs:507-552 | adding and removing hardware stanzas changes no other way of opening the vault |
| `Effects.RemovedHardwareOpensExactly` | crates/blindkey-core/src/vault.rs:949-963 | removed hardware unwraps the key no more, that of another kind as before |
| `Effects.RefusedExactly` | crates/blindkey-core/src/vault.rs:201-227 | which additions and removals of stanzas are refused, and that they change nothing |
| `CostChange.UnlockedExactly` | crates/blindkey-core/src/vault.rs:352-421 | every attempt, whatever it offers, on every reachable vault: it opens exactly when some stanza was wrapped, under the header's costs, under what it presents |
| `CostChange.CostChangeOpensExactly` | crates/blindkey-core/src/vault.rs:819-848 | every attempt after a cost change: a password opens exactly when it is the one given or that of another stanza under the new costs, two factors exactly when their stanza is under the new costs; the password given opens alone |
| `CostChange.SecretsSurviveExactly` | crates/blindkey-core/src/vault.rs:819-848 | the exact condition under which everything that opened the vault before still opens it |
| `CostChange.CostChangeTwoFactorExactly` | crates/blindkey-core/src/vault.rs:819-848 | two factors stay as enrolled exactly when the costs are the same and the recovery code is given; what becomes of the given password, the code and both factors otherwise |
| `CostChange.SecondFactorLost` | crates/blindkey-cli/src/commands/mod.rs:1207-1229 | a run in which a cost change with the master password makes it open a keyfile vault alone, and locks out the recovery code |
| `CostChange.CurrentIsOpenable` | crates/blindkey-core/src/envelope/mod.rs:134-175 | a password-derived stanza opens for whoever it was last wrapped for exactly when it was wrapped under the header's costs |
| `CostChange.ChangeKdfKeepsAllCurrentExactly` | crates/blindkey-core/src/vault.rs:819-848 | about stanzas, each for whoever it now belongs to: a cost change leaves all password-derived ones openable exactly when there is one, or the costs are the same |
| `CostChange.RecoveryLostByUpgrade` | crates/blindkey-core/src/vault.rs:819-848 | a run in which a cost change locks out the recovery code of a vault without a second factor |
| `Vaults.OpenHardware` | crates/blindkey-core/src/vault.rs:271-316 | stanza, header tag, blocks and payload checked in order for a PRF output or TPM secret, each with its error |
| `Hardware.Fido2ForLife` | crates/blindkey-core/src/vault.rs:507-528 | from enrolment on, through any run that does not enrol another authenticator, exactly the enrolled output unwraps the key, as long as the stanza is there and if enrolment was given this vault's salt hash |
| `Hardware.TpmForLife` | crates/blindkey-core/src/vault.rs:531-552 | from setting a TPM stanza on, through any run that does not set another, exactly that TPM's secret unwraps the key, as long as the stanza is there |
| `Hardware.OnlySavedOpensByHardware` | crates/blindkey-core/src/vault.rs:271-316 | under ideal MACs, a PRF output or TPM secret opens a byte string to the data key exactly when it is one of the saved files, unwraps it from that header, and the payload is within the limits |
| `Hardware.Fido2OpensSavedExactly` | crates/blindkey-core/src/vault.rs:271-316 | a vault saved after any such run opens as a whole file for the enrolled output, to what was saved, and for no other |
| `Vaults.Unwrap` | crates/blindkey-core/src/vault.rs:352-421 | picks the stanza and unwraps as specified |
| `Vaults.Open` | crates/blindkey-core/src/vault.rs:318-346 | kind, unwrapping, header tag, blocks and payload checked in order, each with its error |
| `Vaults.VaultFile.Create` | crates/blindkey-core/src/vault.rs:120-184 | refuses costs out of range or below the floor; else a valid vault owned by the password, all its seeds, keys and the nonce being the next random draws |
| `Vaults.VaultFile.AddRecoveryStanza` | crates/blindkey-core/src/vault.rs:201-227 | the vault becomes what the recovery step makes of it: one more password stanza for the code; refused, with nothing changed, for two-factor vaults and when there are two already |
| `Vaults.VaultFile.EnrollYubiKey2fa` | crates/blindkey-core/src/vault.rs:451-482 | the stanza list becomes the composite and the recovery stanza, and saves become strict; nothing changes on an error |
| `Vaults.VaultFile.EnrollKeyfile2fa` | crates/blindkey-core/src/vault.rs:486-504 | the stanza list becomes the composite and the recovery stanza; nothing changes on an error |
| `Vaults.VaultFile.AddFido2Stanza` | crates/blindkey-core/src/vault.rs:507-528 | one more stanza, for the PRF output; refused when there are eight or a FIDO2 stanza already |
| `Vaults.VaultFile.SetTpmStanza` | crates/blindkey-core/src/vault.rs:531-552 | the TPM stanza is replaced where it stands, or added unless there are eight |
| `Vaults.VaultFile.RemoveStanzaType` | crates/blindkey-core/src/vault.rs:949-963 | stanzas of the kind are gone and the others stay in order; refused for password stanzas and absent kinds |
| `Vaults.VaultFile.ChangeKdf` | crates/blindkey-core/src/vault.rs:819-848 | the first password stanza is re-wrapped and the header's costs are the new ones; refused out of range or below the floor |
| `Vaults.VaultFile.RewrapStanzas` | crates/blindkey-core/src/vault.rs:861-941 | the loop re-wraps every stanza or leaves the list as it was |
| `Vaults.VaultFile.RotateDataKey` | crates/blindkey-core/src/vault.rs:853-859 | performs the rotation, the new key, the challenge and each nonce being the next random draws; a failure leaves the vault unchanged |
| `Vaults.VaultFile.RefreshYubiKey2fa` | crates/blindkey-core/src/vault.rs:633-667 | performs the refresh in place: composite and first password stanza remain |
| `Vaults.VaultFile.PrepareYubiKeySave` | crates/blindkey-core/src/vault.rs:605-631 | which saves go on, refreshed or stale, and which are refused with which error (`Vaults.PolicyExactly`); what is drawn for it |
| `Vaults.PolicyExactly` | crates/blindkey-core/src/vault.rs:605-631 | in a reachable vault with a YubiKey: refreshed exactly if password and device are there and it answers; else refused under the strict policy and stale without it |
| `Vaults.VaultFile.SaveBody` | crates/blindkey-core/src/vault.rs:669-701 | both seeds and the inner key are the next random draws, the version is one up, and the file is that of the padded serialised payload under the resealed header; it fails only if a draw does, and then changes at most the seeds |
| `Vaults.VaultFile.SaveWith` | crates/blindkey-core/src/vault.rs:596-603 | refused exactly as the YubiKey policy says or if a draw fails; otherwise fresh seeds, version one up and the file of the vault as it then stands; an error leaves data key and payload as they were, and everything if it is not one of randomness |
| `Vaults.OpenSaved` | crates/blindkey-core/src/vault.rs:318-346 | for whoever unwraps its data key, a saved vault opens to exactly what was saved, if and only if the payload is within the limits of the reader |
| `Vaults.OnlySavedOpens` | crates/blindkey-core/src/vault.rs:318-346 | under ideal MACs, an attempt opens a byte string to the data key exactly when it is one of the saved files, unwraps it from that header, and the payload is within the limits |
| `Vaults.SavedVaultOpensExactly` | crates/blindkey-core/src/vault.rs:669-701 | after any run and a save some password alone brings the payload back, unless the payload is beyond the limits, and then the vault does not open |
| `Vaults.UnopenablePayload` | crates/blindkey-core/src/vault.rs:731-733 | a payload that can be saved and not opened: one note of 1 MiB and one byte |
| `Vaults.SupersetsOfOpen` | crates/blindkey-core/src/vault.rs:256-268 | a saved vault without a composite stanza opens for its current passwords, whatever device or keyfile is offered with them |
| `Tlv.ReadRecordAt` | crates/blindkey-core/src/format/tlv.rs:35-50 | the next record, none at the end or when its value is cut short, an error when its header is or its length is over the limit |
| `Tlv.NextOwnRecord` | crates/blindkey-core/src/format/tlv.rs:24-50 | a written record is read back, unless it is longer than the reader allows |
| `Entries.MaskedTwice` | crates/blindkey-core/src/format/inner_stream.rs:64-97 | applying the key stream twice at the same place gives the data back |
| `Entries.MaskedZeros` | crates/blindkey-core/src/format/inner_stream.rs:64-70 | masking zeros gives the key stream from the offset on |
| `Entries.MaskedBits` | crates/blindkey-core/src/format/inner_stream.rs:64-70 | each bit of a masked byte is that of the data exactly where that of the key stream is 0 |
| `Entries.SecretsHidden` | crates/blindkey-core/src/format/entry.rs:168-199 | the records of an entry by tag; the bytes of password and one-time-password secret are the secret's own exactly where the key stream, from where the secrets before end, is 0 |
| `Entries.CustomHidden` | crates/blindkey-core/src/format/entry.rs:168-199 | the same for the value of every protected custom field |
| `Entries.TwosComplement` | crates/blindkey-core/src/format/tlv.rs:58-62 | times are eight bytes, the lowest first and the highest signed |
| `Entries.UnknownFieldIgnored` | crates/blindkey-core/src/format/entry.rs:207-277 | a record with an unknown tag changes nothing, unless it stands between a custom field's name and value |
| `Entries.NameAlone` | crates/blindkey-core/src/format/entry.rs:221-231 | a custom field's name without a value is a field with an empty one |
| `Entries.ValueAlone` | crates/blindkey-core/src/format/entry.rs:207-277 | a custom value without a name is a field with an empty one |
| `Entries.SerializeEntry` | crates/blindkey-core/src/format/entry.rs:168-199 | writes the fields in order, its secrets through the shared stream, which it leaves just past them (what the records show: `Entries.SecretsHidden`) |
| `Entries.ParseEntry` | crates/blindkey-core/src/format/entry.rs:207-277 | the loop computes the recursive specification of reading |
| `Entries.EntryReadsBackExactly` | crates/blindkey-core/src/format/entry.rs:168-277 | an entry reads back, secrets included, exactly when no field is longer than 1 MiB; with a longer one reading fails |
| `Entries.EntryLength` | crates/blindkey-core/src/format/entry.rs:168-199 | the length of an entry in terms of its fields, whatever the key |
| `Frecency.ParseStore` | crates/blindkey-core/src/frecency.rs:102-115 | the loop computes the recursive specification of loading |
| `Frecency.StoreRoundTrip` | crates/blindkey-core/src/frecency.rs:88-115 | a usage store survives serialising and parsing |
| `Frecency.LoadedSorted` | crates/blindkey-core/src/frecency.rs:102-115 | whatever is loaded is in order, with no id twice |
| `Frecency.LoadedExactly` | crates/blindkey-core/src/frecency.rs:102-115 | of several records with one id the last is loaded, and nothing else is left out or added |
| `Payloads.Serialize` | crates/blindkey-core/src/format/payload.rs:67-93 | the records of the payload, its entries through one advancing stream |
| `Payloads.IncrementalTlv.TryNextRecord` | crates/blindkey-core/src/format/tlv_incremental.rs:37-58 | takes the next record off the pending bytes, waits when it has not all come, fails when it is over the limit |
| `Payloads.ParseFromStreamCiphertext` | crates/blindkey-core/src/format/payload.rs:160-242 | decrypts chunk by chunk into the record reader, as specified |
| `Payloads.CutsDoNotMatter` | crates/blindkey-core/src/format/payload.rs:160-242 | for every byte string with only zeros after its end marker and every way of cutting it, the payload read is that of the whole |
| `Payloads.CiphertextIsWhole` | crates/blindkey-core/src/format/payload.rs:160-242 | a ciphertext gives the payload of the plaintext it decrypts to, and none if it does not decrypt |
| `Payloads.PayloadReadsBackExactly` | crates/blindkey-core/src/format/payload.rs:67-242 | a padded payload reads back exactly when no field is longer than 1 MiB and no record longer than 16 MiB; else reading fails |
| `Payloads.FitsExactly` | crates/blindkey-core/src/format/payload.rs:67-93 | these limits in bytes of what is written |
| `Payloads.HeadLayout` | crates/blindkey-core/src/format/payload.rs:67-80 | the bytes a payload begins with |
| `Payloads.EntriesApart` | crates/blindkey-core/src/format/payload.rs:80-85 | each entry takes up the key stream where the secrets of those before it end |
| `Payloads.UnknownRecordIgnored` | crates/blindkey-core/src/format/payload.rs:160-242 | a record with an unknown tag changes nothing |
| `Payloads.MissingRejected` | crates/blindkey-core/src/format/payload.rs:160-242 | without an inner key, a version or an end marker there is no payload |
| `Payloads.ResealedEntriesShown` | crates/blindkey-core/src/format/entry.rs:80-111 | entries as loaded again show their holder the same fields and secrets |
| `Archive.DecodeEncodedHdr` | crates/blindkey-core/src/format/file_archive.rs:46-80 | file metadata survives encoding and decoding |
| `Archive.ParseAll` | crates/blindkey-core/src/format/file_archive.rs:131-171 | the loop computes the recursive specification of parsing |
| `Archive.ParseWritten` | crates/blindkey-core/src/format/file_archive.rs:110-171 | a written archive parses to its files, whatever padding follows |
| `Archive.ParsedSizes` | crates/blindkey-core/src/format/file_archive.rs:131-171 | in every archive that is accepted each file has an allowed path and as many bytes as its header says |
| `Archive.AllowedLeadsBelow` | crates/blindkey-core/src/format/file_archive.rs:82-107 | resolved component by component from any directory, an allowed path leads below it, by its own components, none of which holds a slash |
| `Archive.IncrementalParser.Feed` | crates/blindkey-core/src/format/file_archive.rs:188-237 | performs one feeding in place and returns the files it completes |
| `Archive.DrainPrefix` | crates/blindkey-core/src/format/file_archive.rs:188-237 | a prefix of a readable archive is readable exactly when the cut spares the record headers |
| `Archive.ExtractedExactly` | crates/blindkey-core/src/format/file_archive.rs:188-257 | for all byte strings and all cuts: feeding chunks agrees with feeding the whole exactly when no cut falls inside a record header |
| `Sealed.UnlockKey` | crates/blindkey-core/src/sealed.rs:732-815 | unwraps as specified, verifying the header and mapping errors |
| `Sealed.UnlocksAsVaults` | crates/blindkey-core/src/sealed.rs:689-822 | listing succeeds exactly when the secrets that unwrap a vault unwrap a key under which the whole file opens to an archive; without a device there are two errors, the ambiguous one exactly for a failed unwrapping |
| `Sealed.OnlySavedLists` | crates/blindkey-core/src/sealed.rs:689-700 | under ideal MACs, secrets that unwrap the data key list exactly the archives saved under it, and the files saved in them |
| `Sealed.Peek` | crates/blindkey-core/src/sealed.rs:689-700 | lists the files, or the uniform error |
| `Sealed.ExtractStreaming` | crates/blindkey-core/src/sealed.rs:1137-1172 | decrypts chunk by chunk into the incremental parser, stages each file as it is completed, and moves them to their places at the end; an archive that cannot be read to its end changes nothing outside the staging directory |
| `Sealed.ExtractInto` | crates/blindkey-core/src/sealed.rs:1119-1135 | clears the staging directory, extracts and clears it again, as specified |
| `Sealed.SealedExtractsExactly` | crates/blindkey-core/src/sealed.rs:1119-1208 | from sealing to the directory: every file is in its place exactly when all record headers lie within chunks and names and directory are `Extractable`; with a header that does not, nothing is left there |
| `Staging.Disk.WriteStagedFile` | crates/blindkey-core/src/sealed.rs:1174-1184 | writes beside the place and renames; an error changes nothing outside the staging directory |
| `Staging.Disk.PromoteStaging` | crates/blindkey-core/src/sealed.rs:1186-1201 | moves the files to their places in the order they are found, up to the first that cannot be moved |
| `Staging.StagingExactly` | crates/blindkey-core/src/sealed.rs:1174-1184 | staging keeps every file archived, the last for each place, exactly when paths are allowed, none lies above another or is written where a directory is, and none is written over without being archived again |
| `Staging.ExtractionExactly` | crates/blindkey-core/src/sealed.rs:1137-1201 | what every extraction leaves: the directory as it was if staging fails, else with the kept files over it up to the first whose place does not welcome it |
| `Staging.ExtractsBelow` | crates/blindkey-core/src/format/file_archive.rs:98-107 | whatever the archive names its files, extraction puts files only where those names lead from the destination, which is below it |
| `Staging.ExtractedContents` | crates/blindkey-core/src/sealed.rs:1174-1184 | a file put in place has the body archived for it and the low twelve bits of its mode |
| `Staging.ExtractsExactly` | crates/blindkey-core/src/sealed.rs:1119-1208 | where none of the files exist yet, all of them arrive, in every order of walking, exactly under a condition on names and directory |
| `Staging.OtherNamesSafe` | crates/blindkey-core/src/sealed.rs:1179-1182 | an archive without names ending in `.vltf-part` loses no file |
| `Staging.FileLost` | crates/blindkey-core/src/sealed.rs:1179-1182 | two names of which extraction silently keeps only the second |
| `Sealed.ExtractSealed` | crates/blindkey-core/src/sealed.rs:1137-1172 | a sealed archive always parses whole; it can be extracted exactly when every record header lies within one 64 KiB chunk |
| `Sealed.SealedFileOpens` | crates/blindkey-core/src/sealed.rs:667-700 | the same for whole files and anyone who unwraps the data key |
| `Offsets.CutsExactly` | crates/blindkey-core/src/format/file_archive.rs:110-129 | a cut of a written archive falls inside a header exactly when it is 1 to 5 bytes past one of the offsets that the lengths of names and contents give |
| `Offsets.ArchiveLength` | crates/blindkey-core/src/format/file_archive.rs:110-129 | the length of an archive in terms of names and contents |
| `Offsets.LongFileStraddles` | crates/blindkey-core/src/sealed.rs:1075-1096 | the headers of a file of more than 21844 full parts are not all within chunks, wherever the file stands |
| `Sealed.LongFileNeverExtracts` | crates/blindkey-core/src/sealed.rs:1137-1172 | an archive with such a file can be listed and never extracted |
| `Sealed.UnextractableFile` | crates/blindkey-core/src/sealed.rs:1137-1172 | a file that can be sealed and listed but not extracted |
| `Sealed.StreamFileParts` | crates/blindkey-core/src/sealed.rs:1075-1096 | the loop pushes the body as parts of at most 64 KiB |
| `Sealed.PushEntries` | crates/blindkey-core/src/sealed.rs:1025-1032 | what is pushed is the archive of the entries |
| `Sealed.SealedContainer.SealEntries` | crates/blindkey-core/src/sealed.rs:1013-1049 | the file of the padded archive under fresh seeds, the container keeping its own |
| `Sealed.SealedContainer.OpenWith` | crates/blindkey-core/src/sealed.rs:294-306 | the container holds the parsed header and unwrapped key, with Padmé on |
| `Sealed.SealedContainer.EnrollKeyfile2fa` | crates/blindkey-core/src/sealed.rs:330-348 | the stanza list becomes the composite and the recovery stanza; seeds and data key stay |
| `Sealed.SealedContainer.EnrollYubiKey2fa` | crates/blindkey-core/src/sealed.rs:351-380 | the stanza list becomes the composite and the recovery stanza; seeds and data key stay |
| `Sealed.SealedContainer.RemoveStanzaType` | crates/blindkey-core/src/sealed.rs:383-398 | stanzas of the kind are gone and the others stay in order; refused for password stanzas and absent kinds |
| `Sealed.SealedContainer.ChangeKdf` | crates/blindkey-core/src/sealed.rs:432-460 | the first password stanza is re-wrapped and the header's costs are the new ones; range is checked before the floor |
| `Sealed.SealedContainer.AddFido2Stanza` | crates/blindkey-core/src/sealed.rs:512-533 | one more stanza, for the PRF output; refused when there are eight or a FIDO2 stanza already |
| `Sealed.SealedContainer.SetTpmStanza` | crates/blindkey-core/src/sealed.rs:536-557 | the TPM stanza is replaced where it stands, or added unless there are eight |
| `Sealed.SealedContainer.SavePreservingBody` | crates/blindkey-core/src/sealed.rs:401-413 | this container's resealed header in front of the other file's body |
| `Sealed.EditsPreserveBody` | crates/blindkey-core/src/sealed.rs:401-413 | any run of header-only edits, saved over the opened file, keeps the body region, the seeds and what it decrypts to |
| `Sealed.SavedOverOpensExactly` | crates/blindkey-core/src/sealed.rs:401-413 | saving over another file opens exactly when that file's body was written under this container's key and seeds |
| `Merge.MergeEntries` | crates/blindkey-core/src/sealed.rs:988-1011 | the last new entry of a path wins over the old one; the result is in ascending order of path |
| `Merge.MergedReadsBack` | crates/blindkey-core/src/sealed.rs:988-1011 | there is only one such result, and if both lists can be written it can be, and parses back |
| `Inodes.JoinInjective` | crates/blindkey-fuse/src/session.rs:98-104 | distinct children have distinct paths, none the root's |
| `Inodes.InodeTable.Intern` | crates/blindkey-fuse/src/session.rs:56-65 | a known path keeps its number; a new one gets a number never handed out |
| `Inodes.InodeTable.ForgetPath` | crates/blindkey-fuse/src/session.rs:68-72 | removes the path and its number, and nothing else |
| `Inodes.InodeTable.RenameSubtree` | crates/blindkey-fuse/src/session.rs:76-94 | carries out the listed moves in some order of the hash map; keeps the table sound, and the maps inverse when no target is taken |
| `Inodes.MoveAllRewrites` | crates/blindkey-fuse/src/session.rs:76-94 | in every order, exactly the inodes at or below the source get their new paths and keep their numbers |
| `Inodes.RenameMovesSubtree` | crates/blindkey-fuse/src/session.rs:76-104 | renaming an entry of a directory moves it and all that is joined below it, and leaves where they were every other entry of the directory, all that is below those, and the directory |
| `Inodes.UnderExactly` | crates/blindkey-fuse/src/session.rs:77-82 | at or below a directory lie the directory and what is joined to it |
| `Inodes.RenameKeepsInverseExactly` | crates/blindkey-fuse/src/session.rs:76-94 | the maps stay inverse in every order if and only if no entry would take over another inode's path |
| `Inodes.NothingBelowTarget` | crates/blindkey-fuse/src/session.rs:84-93 | it is enough that no interned path lies at or below the target |
| `Inodes.ReplacingBreaks` | crates/blindkey-fuse/src/session.rs:84-93 | renaming one file onto another leaves the maps no longer inverse |
| `Inodes.RunSound` | crates/blindkey-fuse/src/session.rs:32-95 | in every run each known path leads to a number and back and a forgotten number never comes back; without renames that take over paths the maps stay inverse |
| `Civil.YearOfEraCorrect` | crates/blindkey-cli/src/export.rs:111-111 | the closed formula picks the year that contains the day |
| `Civil.FollowsCalendar` | crates/blindkey-cli/src/export.rs:107-118 | starts at 1970-01-01, every date is valid, each day's date is followed by the next one's |
| `Civil.CountsBack` | crates/blindkey-cli/src/export.rs:107-118 | counting the days up to a day's date gives the day back |
| `Civil.EveryDateReached` | crates/blindkey-cli/src/export.rs:107-118 | every valid date is the date of the day its count says |
| `Civil.DatesIncrease` | crates/blindkey-cli/src/export.rs:107-118 | later days have later dates |
| `Civil.CastIsExact` | crates/blindkey-cli/src/export.rs:117-117 | the 32-bit year is right exactly up to the end of year 2147483647 |
| `Timestamps.TextInjective` | crates/blindkey-cli/src/export.rs:90-104 | different seconds have different timestamps while the year fits 32 bits |
| `Timestamps.TextLayout` | crates/blindkey-cli/src/export.rs:90-104 | which digits of a timestamp name year, month, day, hour, minute and second, and the marks between them |
| `Decimal.DigitAt` | crates/blindkey-cli/src/export.rs:90-104 | the characters of a number are its digits, `0` to `9`, the highest first |
| `Timestamps.TextOrderExactly` | crates/blindkey-cli/src/export.rs:90-104 | timestamps sort as text exactly as long as no year has five digits |
| `CopyHoles.CopyExtent` | crates/blindkey-sys/src/fs_linux.rs:66-76 | copies one stretch in reads of any size |
| `CopyHoles.CopySeekHole` | crates/blindkey-sys/src/fs_linux.rs:31-86 | success means a byte-for-byte copy in which exactly the offsets are written that the file has data at, or that lie past where SEEK_DATA or SEEK_HOLE first failed; it fails exactly if resizing, another seek, a read or a write failed |
| `Totp.LowBitsSuffice` | crates/blindkey-core/src/totp.rs:84-88 | bits lost from the accumulator never reach a decoded byte |
| `Totp.Base32Decode` | crates/blindkey-core/src/totp.rs:70-96 | n symbols give the leading floor(5n/8) bytes of the base-32 numeral; invalid characters and fewer than two symbols give none |
| `Totp.SpellingIrrelevant` | crates/blindkey-core/src/totp.rs:74-78 | separators, padding and case make no difference |
| `Totp.EveryCharacter` | crates/blindkey-core/src/totp.rs:70-83 | the alphabet of section 6 of RFC 4648 in upper and lower case, and what is passed over |
| `Totp.InsertedSeparator` | crates/blindkey-core/src/totp.rs:74-78 | a space, tab, line break, `-` or `=` put in anywhere changes nothing |
| `Totp.LowerCase` | crates/blindkey-core/src/totp.rs:74-78 | a letter in lower case decodes as in upper case |
| `Totp.OtherCharacter` | crates/blindkey-core/src/totp.rs:78-83 | any other character makes the secret invalid |
| `Totp.DecodeEncoded` | crates/blindkey-core/src/totp.rs:70-96 | decoding undoes the encoder of section 6 of RFC 4648 on every non-empty byte string |
| `Totp.CodeIsSixDigits` | crates/blindkey-core/src/totp.rs:55-66 | the truncation is the 31-bit number at the offset; the code is its last six digits |
| `Totp.WindowExactly` | crates/blindkey-core/src/totp.rs:35-43 | a code stays the same for exactly the seconds it is said to |
| `Totp.CodeOfWindow` | crates/blindkey-core/src/totp.rs:35-66 | the code at second 30 n + r is the last six digits of the 31-bit truncation of the MAC of n in eight big-endian bytes |
| `Gen.Password` | crates/blindkey-core/src/gen.rs:47-64 | the image of the first accepted draws in order, each the character at that draw modulo the length of the alphabet; of the draws, those up to the last one needed are used |
| `Gen.Passphrase` | crates/blindkey-core/src/gen.rs:70-94 | the same for words joined by dashes, from as much of the list as 32 bits count; lists of fewer than two words are refused |
| `Gen.ByteIndexUniform` | crates/blindkey-core/src/gen.rs:51-59 | every index has exactly 256/n accepted byte values |
| `Gen.WordIndexUniform` | crates/blindkey-core/src/gen.rs:77-86 | every index has exactly (2^32-1)/n accepted words |
| `Gen.AlphabetsDistinct` | crates/blindkey-core/src/gen.rs:16-18 | no alphabet lists a character twice |
| `Gen.AlphabetsExactly` | crates/blindkey-core/src/gen.rs:16-42 | letters and digits, or everything printable but the space |
| `Gen.ProducingExactly` | crates/blindkey-core/src/gen.rs:47-94 | the set of draw sequences that is counted is that of the accepted ones with the given image |
| `Gen.PasswordsEquallyLikely` | crates/blindkey-core/src/gen.rs:47-64 | exactly (256/n)^length sequences of accepted bytes produce a password over the alphabet, none any other string |
| `Gen.PassphrasesEquallyLikely` | crates/blindkey-core/src/gen.rs:70-94 | the same for sequences of words of a list that names none twice |
| `Gen.EndingExactly` | crates/blindkey-core/src/gen.rs:53-62 | the set of raw draw sequences that is counted is that of the sequences of m draws, rejected ones included, at whose last the loop ends with the given output |
| `Gen.PasswordsEquallyLikelyRaw` | crates/blindkey-core/src/gen.rs:47-64 | for every m, all passwords of one length over the alphabet are produced by equally many sequences of exactly m random bytes, rejected ones included |
| `Gen.PassphrasesEquallyLikelyRaw` | crates/blindkey-core/src/gen.rs:70-94 | the same for sequences of words |
| `Search.BlendFrecency` | crates/blindkey-core/src/search.rs:223-252 | the loops compute the specified blend |
| `Search.BlendedPermutes` | crates/blindkey-core/src/search.rs:223-252 | nothing is lost, added or altered |
| `Search.ScoreDominates` | crates/blindkey-core/src/search.rs:215-252 | never lists a hit after one that scores more than 8 lower; among equal scores the more used come first |
| `Search.ListedExactly` | crates/blindkey-core/src/search.rs:211-252 | of two hits the one with the greater sum of score and eight times its share of the range of usage is listed first, then the lesser title, then the lesser id |
| `Search.LexExactly` | crates/blindkey-core/src/search.rs:211-213 | the order of titles and ids: the shorter of two that agree, else the lesser byte where they first differ |
| `Search.InputOrderIrrelevant` | crates/blindkey-core/src/search.rs:211-252 | with distinct title and id pairs the result does not depend on the input order |

## Left out

- The inside of ChaCha20-Poly1305, XChaCha20-Poly1305, HMAC, HKDF, Argon2id, SHA-1, SHA-256, UTF-8 and Unicode normalisation: functions with stated laws.
- Headers.ParseSerialized: the header parser is a function on the byte string, not a cursor moved in place; the cursor is modelled under the block reader and the archive parsers.
- Stream.StreamEncryptor.Push: the count of plaintext bytes is unbounded where the code's would wrap at 2^64; 2^64 is a multiple of the chunk size, so the one test made of it is the same.
- Vaults.VaultFile.SaveBody: the version counter wraps at 2^64, as in a release build; a debug build stops there.
- Vaults.OnlySavedOpens: payloads with a record of 4 GiB or more, whose length the code cuts to 32 bits, are left out, here and in the other round trips of payloads; so is a key stream longer than ChaCha20's 256 GiB.
- Payloads.CutsDoNotMatter: byte strings with something other than zeros after the end marker, which no save writes; records found there are read or not as the chunks fall.
- Sealed.SealedContainer.SealEntries: entries are in memory with the length their metadata declares; reading them from files, cancelling and reporting progress are left out.
- Sealed.ExtractStreaming: the destination has no symbolic links, takes every name as it is and does not run full; directories carry no modes, and cancelling and reporting progress are left out.
- Sealed.EditsPreserveBody: rotating a container's data key and appending paths re-encrypt the body and are not header-only edits; the merging they rest on is modelled, the wiring is not.
- Inodes.InodeTable.Intern: inode numbers are unbounded where the code's would wrap at 2^64.
- CopyHoles.CopySeekHole: the file copied from does not change meanwhile, and contents after an error are not specified.
- Gen.Passphrase: lists whose length is a positive multiple of 2^32, for which the code divides by zero.
- Search.ScoreDominates: floating-point numbers are real numbers, so rounding and not-a-number are not modelled; the standard library's stable sort is an insertion sort.
- Unlock.YubiKeyForLife: a device is a function of the challenge; one that answers the same challenge differently over time is not modelled.
- Envelope.UnwrapExactly: ideal laws speak of finitely many passwords, keyfiles and HKDF inputs, those in play.
- The payload parser for plaintexts held in one buffer, editing and removing entries, recording usage.
- The volume under the FUSE adapter, its directory paging and read-modify-write, memory locking and zeroisation.
- Agent, MCP, CLI dispatch, GUI, TUI, clipboard, importers, hardware subprocesses, the fuzzy matcher, the password audit.
