# SecureWill in Dafny

SecureWill lets an owner store a private text, the "will", that can only be
read back by someone who knows three designated addresses. The project
models two parts of it.

1. **The address-keyed stream cipher** of `ui/src/utils/crypto.ts`.
   - `deriveKey` checks and normalises the three addresses with `getAddress`. It lower-cases them, joins them as `a1|a2|a3`, and hashes the UTF-8 bytes with Keccak-256.
   - `prg` makes a counter-mode keystream. It concatenates the 32-byte blocks `keccak256(key ‖ hex(counter))`, with a one-byte counter that wraps after 255.
   - `encryptWillText` and `decryptWillText` XOR the UTF-8 bytes of the text with that keystream and convert to and from base64.
   - The byte helpers are modelled too: `hexToBytes` with JavaScript's `parseInt`, `u8ToBase64` with its 0x8000-byte chunks and `btoa`, and `base64ToU8` with the forgiving `atob`.
2. **The will record store**, exactly as the lifecycle tests in `test/SmartWill.ts` exercise it.
   - Each owner has at most one record. It holds the ciphertext, three opaque handles of the encrypted addresses, the owner, a timestamp and an existence flag.
   - A counter tracks the number of live records.

Files:

- `wrappers.dfy`: the `Option`, `Result` and `Outcome` types.
- `hex.dfy`: `hexlify`, `getBytes`, `parseInt` on two characters, and `hexToBytes`.
- `base64.dfy`: padded base64 (section 4 of RFC 4648), the forgiving decoder, `u8ToBase64` and `base64ToU8`.
- `address.dfy`: `getAddress` and the `|`-joined pre-image.
- `crypto.dfy`: key derivation, the keystream, XOR, and encryption and decryption.
- `smart_will.dfy`: the store as a class.

Code that fills buffers in loops is written as methods over arrays. Each method is proved equal to a specification function, and the properties are lemmas about those functions:

- the keystream's block structure;
- XOR applied twice gives the input back;
- the base64 round trip;
- decryption after encryption gives the text back, except for a leading U+FEFF, which the decoder drops (see Findings).

Three library functions the cipher relies on are not opened: Keccak-256, the EIP-55 choice of which letters to capitalise, and UTF-8 encoding and decoding. They are fields of a `Primitives` value passed in as a parameter.

- Every Keccak result is typed as 32 bytes.
- The UTF-8 laws the round trip needs are collected in `Crypto.Lawful`: the raw decoder undoes encoding, and `""` encodes to no bytes. `Crypto.LawfulIsSatisfiable` exhibits primitives that meet them, using a stand-in codec of three bytes per character (`Crypto.Encode3`, `Crypto.Decode3`) that is not itself part of the program.
- `TextDecoder` in its default mode drops one leading byte order mark (U+FEFF) after the raw decoding. This is written out as `Crypto.TextDecode`, so it is not hidden in the parameter.

## Model

| member | source | states |
|---|---|---|
| Hex.HexToBytes | ui/src/utils/crypto.ts:11-19 | For input without characters above U+FFFF: drops a leading lower-case `0x`. Returns `len / 2` bytes, so an odd trailing character is dropped. Byte `k` is what `parseInt` of characters `2k` and `2k+1` stores in a `Uint8Array`: signs, leading whitespace and `0x` are handled, a lone digit counts, and NaN is stored as 0 |
| Hex.HexToBytesOfHexlify | ui/src/utils/crypto.ts:11-19 | For `hexlify(d)` (what `keccak256` returns), `hexToBytes` strips the `0x`, returns as many bytes as `d` has, and every pair reads back its byte of `d`. A 64-digit hash gives its 32 bytes |
| Hex.HexToBytesExact | ui/src/utils/crypto.ts:11-19 | Any output `hexToBytes` can give for `hexlify(d)` is `d` |
| Hex.GetBytesOfHexlify | ui/src/utils/crypto.ts:43 | The library's `getBytes` reads `hexlify(d)` back as `d`, so a derived key is valid seed input for `keccak256` |
| Hex.GetBytesAppendPair | ui/src/utils/crypto.ts:43 | Appending the two hex digits of the counter keeps the seed valid exactly when it was valid, and appends the counter byte to what the seed spells |
| Base64.U8ToBase64 | ui/src/utils/crypto.ts:21-28 | Building the binary string in 0x8000-byte chunks and calling `btoa` gives the padded base64 of all the bytes, encoded in one piece |
| Base64.Base64ToU8 | ui/src/utils/crypto.ts:30-35 | The bytes are those of the forgiving decoder. It fails exactly where `atob` throws |
| Base64.DecodeEncode | ui/src/utils/crypto.ts:21-35 | `base64ToU8(u8ToBase64(b)) == b` for every byte sequence |
| Base64.DecodeEncodeUnpadded | ui/src/utils/crypto.ts:21-35 | Decoding the unpadded encoding gives back the bytes, and that encoding is a valid decoder input |
| Base64.EncodeUnpaddedShape | ui/src/utils/crypto.ts:27 | The unpadded encoding uses only the alphabet. Its length mod 4 is 0, 2 or 3, according to the number of bytes mod 3 |
| Base64.StripPaddingOfEncode | ui/src/utils/crypto.ts:31 | `atob` finds no whitespace in `btoa`'s output, and its `=` stripping removes exactly the padding |
| Address.GetAddress | ui/src/utils/crypto.ts:4-6 | `getAddress` fails with "invalid address" exactly when the input is not 40 hex digits after an optional `0x`. A bad checksum is possible only for a spelling that mixes letter cases. An accepted address is `0x` followed by 40 hex digits |
| Address.GetAddressLowered | ui/src/utils/crypto.ts:4-6 | Input that is not 40 hex digits after an optional `0x` is rejected as "invalid address". A single-case spelling is always accepted. An accepted address has 42 characters, and lower-casing it gives `0x` plus the input's digits in lower case |
| Address.CanonicalHasNoSeparator | ui/src/utils/crypto.ts:8 | A lower-cased normalised address has 42 characters and contains no vertical bar, the separator of the pre-image |
| Address.PreimageInjective | ui/src/utils/crypto.ts:8 | When the first two parts contain no vertical bar, two equal pre-images (three parts joined by vertical bars) have equal parts, position by position |
| Address.PreimageOrderSensitive | ui/src/utils/crypto.ts:8 | Swapping two different addresses changes the joined string |
| Crypto.DeriveKey | ui/src/utils/crypto.ts:3-9 | A derived key is a hex string that `getBytes` reads as exactly 32 bytes, so `prg` never throws on it. It fails only with the error of an address `getAddress` rejects |
| Crypto.DeriveKeyPreimage | ui/src/utils/crypto.ts:3-9 | `deriveKey` succeeds exactly when `getAddress` accepts all three addresses. The key is the Keccak-256 of the UTF-8 bytes of the three lower-cased normalised addresses joined by vertical bars, in the order given |
| Crypto.DeriveKeyCaseInsensitive | ui/src/utils/crypto.ts:3-9 | Accepted spellings that differ only in letter case or in the `0x` give the same key |
| Crypto.SwapChangesHashedBytes | ui/src/utils/crypto.ts:8 | Swapping two different addresses changes the bytes that are hashed, because UTF-8 encoding is injective |
| Crypto.PrgRound | ui/src/utils/crypto.ts:43-44 | One round returns `keccak(seedBytes ‖ [counter])`, or "invalid BytesLike value" when the seed is not hex |
| Crypto.Prg | ui/src/utils/crypto.ts:37-51 | Returns the keystream of exactly `length` bytes, built from blocks with a counter that wraps after 255. It fails only on a non-hex seed with `length > 0` |
| Crypto.BlockFilled | ui/src/utils/crypto.ts:45-48 | A round that starts at a multiple of 32 with counter `(i div 32) mod 256` writes keystream bytes `i` onwards. The next round starts 32 bytes later with the next counter |
| Crypto.StreamAt | ui/src/utils/crypto.ts:37-51 | Byte `j` of the stream starting at counter `c` is byte `j mod 32` of block `(c + j div 32) mod 256` |
| Crypto.KeystreamAt | ui/src/utils/crypto.ts:37-51 | `prg(seed, n)` has `n` bytes. Byte `j` is byte `j mod 32` of `keccak256(seed ‖ hex((j div 32) mod 256))` |
| Crypto.KeystreamIs | ui/src/utils/crypto.ts:37-51 | A sequence that matches that byte formula at every position is the keystream |
| Crypto.KeystreamPrefix | ui/src/utils/crypto.ts:37-51 | `prg(seed, n)` is a prefix of `prg(seed, m)` when `n <= m`, and `prg(seed, 0)` is empty |
| Crypto.XorBitsTwice | ui/src/utils/crypto.ts:58 | `(a ^ b) ^ b == a` on bytes |
| Crypto.XorBytesTwice | ui/src/utils/crypto.ts:53-69 | XOR-ing twice with the same mask gives back the data |
| Crypto.XorWithMask | ui/src/utils/crypto.ts:57-58 | The output buffer holds `data[i] ^ mask[i]` at every index |
| Crypto.EncryptWillText | ui/src/utils/crypto.ts:53-60 | Derives the key, takes a keystream as long as the UTF-8 bytes, XORs, and returns the base64. It fails exactly where `deriveKey` throws |
| Crypto.DecryptWillText | ui/src/utils/crypto.ts:62-69 | Derives the key, decodes the base64, XORs with a keystream of the decoded length, and decodes UTF-8 non-fatally, dropping one leading U+FEFF as `new TextDecoder()` does |
| Crypto.EncryptFailsOnlyOnAddresses | ui/src/utils/crypto.ts:53-60 | Encryption fails exactly when key derivation fails, and with the same error |
| Crypto.EncryptLength | ui/src/utils/crypto.ts:53-60 | The ciphertext decodes to exactly as many bytes as the UTF-8 encoding of the text |
| Crypto.EncryptEmpty | ui/src/utils/crypto.ts:53-69 | The empty text encrypts to `""`, and `""` decrypts to the empty text |
| Crypto.DecryptEncrypt | ui/src/utils/crypto.ts:53-69 | `decryptWillText(encryptWillText(p, a, b, c), a, b, c)` is `p` without its leading U+FEFF if it has one, and so equals `p` whenever `p` does not start with U+FEFF |
| Crypto.LeadingBomIsLost | ui/src/utils/crypto.ts:68 | With any accepted addresses, the text U+FEFF followed by `hi` encrypts, decrypts to `hi`, and so does not come back unchanged |
| Crypto.DecryptKeepingBomEncrypt | ui/src/utils/crypto.ts:62-69 | Decryption whose decoder keeps a leading U+FEFF (`ignoreBOM: true`) returns every encrypted text unchanged |
| Crypto.LawfulIsSatisfiable | ui/src/utils/crypto.ts:55-68 | Primitives exist that meet the laws the round-trip lemmas require, so those lemmas are not vacuous |
| Crypto.DecryptHasNoIntegrityCheck | ui/src/utils/crypto.ts:62-69 | Decryption succeeds exactly when all three addresses are accepted and the input is valid base64. With wrong or reordered addresses it still returns text, never an error |
| SmartWillStore.SmartWill.constructor | test/SmartWill.ts:42-48 | Deployment gives no records and a count of 0 |
| SmartWillStore.SmartWill.CreateWill | test/SmartWill.ts:61-76 | Empty content reverts with "Will content cannot be empty" and changes nothing. Otherwise the caller's record is stored with its content, handles, owner and timestamp, and the count grows by one. The count stays equal to the number of records |
| SmartWillStore.SmartWill.UpdateWill | test/SmartWill.ts:209-224 | Without a record it reverts with "No existing will found" and changes nothing. Otherwise content and handles are replaced and the timestamp refreshed. The owner and the count are unchanged |
| SmartWillStore.SmartWill.DeleteWill | test/SmartWill.ts:248-255 | The caller's record is removed and the count drops by one |
| SmartWillStore.SmartWill.GetWillContent | test/SmartWill.ts:100-101 | Returns the caller's stored content, or fails with "No will found" exactly when the caller has no record |
| SmartWillStore.SmartWill.GetWillMetadata | test/SmartWill.ts:169-173 | Returns `owner = caller`, the stored timestamp and `exists = true` for a live record, and the zero record without one |
| SmartWillStore.SmartWill.GetAddressHandles | test/SmartWill.ts:125-133 | Returns the three stored handles of the caller's record |
| SmartWillStore.SmartWill.HasWillFor | test/SmartWill.ts:72-73 | True exactly when the target has a live record |
| SmartWillStore.SmartWill.GetTotalWills | test/SmartWill.ts:75-76 | Equals the number of live records (on a valid store) |
| SmartWillStore.Message | test/SmartWill.ts:258-300 | The revert strings the tests expect: "No will found", "No existing will found" and "Will content cannot be empty" |
| SmartWillStore.InitialTotalIsZero | test/SmartWill.ts:45-48 | A fresh store reports zero wills |
| SmartWillStore.CreateThenHasWill | test/SmartWill.ts:50-77 | After a create, `hasWillFor(owner)` is true and the total is 1 |
| SmartWillStore.CreateThenReadContent | test/SmartWill.ts:79-102 | After a create, the owner reads back exactly the stored content |
| SmartWillStore.CreateThenReadHandles | test/SmartWill.ts:104-133 | After a create, the three handles read back as submitted, so the non-zero handles of an encryption read back non-zero |
| SmartWillStore.CreateThenReadMetadata | test/SmartWill.ts:147-174 | After a create at a positive time, the metadata gives owner = caller, exists = true and timestamp > 0 |
| SmartWillStore.UpdateReplacesContent | test/SmartWill.ts:176-225 | After create then update, the read returns the new text and the total is still 1 |
| SmartWillStore.DeleteRemovesWill | test/SmartWill.ts:227-256 | After create then delete, `hasWillFor(owner)` is false and the total is 0 |
| SmartWillStore.ReadWithoutWillReverts | test/SmartWill.ts:258-261 | Reading content without a will fails with "No will found" |
| SmartWillStore.UpdateWithoutWillReverts | test/SmartWill.ts:263-281 | Updating without a will fails with "No existing will found" and creates no record |
| SmartWillStore.CreateEmptyReverts | test/SmartWill.ts:283-300 | Creating with `""` fails with "Will content cannot be empty" and leaves no record, with a total of 0 |
| SmartWillStore.CreateUpdateDeleteRestores | test/SmartWill.ts:61-255 | From any valid store, create, update and delete for an owner without a record leave the records and the count as they were |

## Left out

- Keccak-256, the EIP-55 letter-case mask in `getAddress`, and UTF-8 encoding and decoding (`toUtf8Bytes`, `TextDecoder`) are parameters, not definitions. The proofs rely on only the laws in `Crypto.Lawful`, and the hash results are typed as 32 bytes.
- ICAP addresses (`XE…`), which `getAddress` also accepts, are rejected by the model.
- JavaScript strings containing lone surrogates cannot be written as Dafny strings, so that path is not modelled.
- Hex.HexToBytes: counts characters as code points, while JavaScript counts UTF-16 code units. The two differ only on characters above U+FFFF (`"😀"` gives one byte in JavaScript and none in the model); `prg` only ever passes ASCII hex.
- `u8ToBase64` with a character above U+00FF cannot occur, because every character comes from a byte. `Base64.Btoa` models that error, but nothing reaches it.
- Determinism of `prg` and the cipher is not a separate lemma. Each method is proved equal to a function of its inputs, so equal inputs give equal results.
- Buffers that `hexToBytes`, `prg`, `base64ToU8` and the XOR loops allocate and return are modelled as sequences of their contents. They are fresh and never shared, so no aliasing is lost.
- The XOR loops of `encryptWillText` and `decryptWillText` are the same loop. It is modelled once, as `Crypto.XorWithMask`.
- The Solidity contract `SmartWill` is not part of this model. The store is modelled only from what `test/SmartWill.ts` asserts.
- SmartWillStore.SmartWill.CreateWill: requires that the caller has no record. The tests never create twice, so a second create is not modelled.
- SmartWillStore.SmartWill.UpdateWill: requires non-empty content. The tests never update with `""`.
- SmartWillStore.SmartWill.DeleteWill: requires that the caller has a record. The tests never delete without one.
- SmartWillStore.SmartWill.GetAddressHandles: requires that the caller has a record. The tests read handles only after a create.
- SmartWillStore.SmartWill.UpdateWill: the tests never read the handles or the timestamp after an update; the model refreshes them.
- SmartWillStore.SmartWill.GetWillMetadata: the tests never read metadata without a will; there a missing key reads as the all-zero record.
- Access control by anyone other than the owner is not modelled. `createWill`, `updateWill`, `deleteWill` and the content, metadata and handle reads act on the `caller` parameter's own record; `hasWillFor` takes any target, and `getTotalWills` reads only the counter.
- The encryption of the three addresses (`createEncryptedInput`, the handles and `inputProof`, `userDecrypt`) is done by an external service. Handles are opaque 32-byte numbers, and the proof is not modelled.
- Blockchain semantics are not modelled: transactions, gas, events, `msg.sender` (the `caller` parameter) and block time (the `now` parameter).
- The UI (`ui/src/App.tsx`, `ui/src/components/*`), the Hardhat tasks, deployment, the contract-copying script and the network configuration are I/O and configuration, not logic.
- The plaintext comparisons of the address test (`test/SmartWill.ts:138-144`) compare each constant with itself, so there is nothing to model.

## Findings

| source | as written | input that shows it | evidently intended | confidence | as-written member | corrected member |
|---|---|---|---|---|---|---|
| ui/src/utils/crypto.ts:68 | `new TextDecoder()` removes a leading U+FEFF from the decrypted bytes | the text U+FEFF followed by `hi` encrypts and then decrypts to `hi` | decryption after encryption gives back every text | not executed | Crypto.LeadingBomIsLost | Crypto.DecryptKeepingBomEncrypt |

`Crypto.Decrypt` and `Crypto.DecryptWillText` keep the code as written. `Crypto.DecryptKeepingBom` is the corrected decryption, with a decoder that keeps the mark, and `Crypto.DecryptKeepingBomEncrypt` proves the round trip for it without exception.
