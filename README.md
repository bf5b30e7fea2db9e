# ethereumjs-wallet core, modelled in Dafny

This project models the key-store codec of `ethereumjs-wallet` (`index.js`). A `Wallet`
holds one secp256k1 private key. The codec has three parts:

- a writer, `toV3`, for the Web3 Secret Storage container (version 3);
- a reader for that container, `fromV3`;
- importers for six older formats: go-ethereum's version 1 key store, the Ethereum
  presale file, MyEtherWallet exports, ether.camp brain wallets, KryptoKit entropy
  strings and Quorum wallets.

The codec itself implements two older algorithms:

- OpenSSL's `EVP_BytesToKey`, as `evp_kdf`/`iter`;
- the CryptoJS `Salted__` framing of a ciphertext, as `decodeCryptojsSalt`.

It also reproduces a faulty UTF-8 rewrite of KryptoKit's scrypt salt
(`kryptoKitBrokenScryptSeed`).

The cryptographic algorithms the code calls are not re-implemented: MD5, Keccak-256,
SHA-256, scrypt, PBKDF2, AES and secp256k1. Neither are the text codecs of `Buffer`,
`utf8` and `uuid`. The module `Primitives` represents all of them as one record of
functions, and every operation takes that record as a parameter. The proofs assume two
predicates on it:

- `Valid` fixes the output lengths (16-byte MD5, 32-byte digests, KDF outputs of the
  requested length, 16-byte AES blocks, 64-byte public keys, 20-byte addresses). It also
  says that secp256k1 accepts exactly the valid secret keys: 32 bytes whose big-endian
  value lies between 1 and the group order minus 1 (`Primitives.ValidSecret`);
- `CipherInverse` says that decryption undoes a successful encryption under the same
  cipher name, key and IV.

`WalletProperties.SamplePrimitives` shows that both predicates can hold together. The MyEtherWallet
unlocked round trip also assumes, for the key it reads back, that `new Buffer(text, 'hex')`
inverts the hex rendering.

Hex rendering (`buf.toString('hex')`) is modelled concretely, in lower case. The code
compares MACs, addresses and checksums as hex text, so the rendering decides those
comparisons.

Each way a call can fail is a constructor of `WalletCodec.Error`: the `throw`s of
`index.js` and the exceptions of the libraries it calls (a cipher that refuses its key,
`utf8.decode`, secp256k1 refusing a private key). An operation that can fail returns
`Result`. JavaScript's `opts.x || default` is modelled exactly:

- `0` and `""` fall back to the default;
- a `Buffer`, even an empty one, does not fall back;
- `Buffer.slice` clamps its bounds (`Common.Slice`).

Modules:

- `Common`: bytes, options, JS defaulting, clamped slices;
- `Hex`: the hex rendering and its inverse;
- `Primitives`: the external algorithms;
- `Evp`: `evp_kdf` and `iter`, proved against a block-stream definition;
- `Utf8`: well-formed UTF-8 (Table 3-7 of the Unicode Standard); these are the octet
  sequences `decodeURIComponent` accepts;
- `LegacyEncoding`: the `Salted__` framing and the broken KryptoKit seed;
- `WalletCodec`: the containers, the `Wallet` value, `toV3`, all decoders, and
  `generate`;
- `WalletProperties`: round trips through reference writers of the older formats, the
  MAC-before-decrypt property, and KryptoKit's prefix and checksum rules.

## Model

| member | source | states |
|---|---|---|
| Common.Slice | index.js:266-267 | `slice(lo, hi)` clamps both bounds to the length: the result has `min(hi, len) - lo` elements (none when `lo` is past that), each the element at `lo + k`, and is the plain slice when the bounds are in range |
| Common.OrNumber | index.js:72-84 | the defaulting `opts.x or d` for a number: absent and `0` give `d`, any other value is used |
| Common.OrNat | index.js:243-253 | the defaulting `opts.x or d` for a count or size: absent and `0` give `d`, any other value is used |
| Common.OrText | index.js:70 | the defaulting `opts.x or d` for a string: absent and `""` give `d`, any other value is used |
| Common.OrBytes | index.js:66-67 | the defaulting `opts.x or d` for a `Buffer`: any given buffer is used, even an empty one |
| Evp.Count | index.js:243 | the number of digests per block is `opts.count`, or 1 when it is absent or 0; always at least 1 |
| Evp.KeySize | index.js:252 | the key size is `opts.keysize`, or 16 when it is absent or 0 |
| Evp.IvSize | index.js:253 | the IV size is `opts.ivsize`, or 16 when it is absent or 0 |
| Evp.BlocksNeeded | index.js:258-261 | the number of blocks the loop produces covers `keysize + ivsize` bytes |
| Evp.BlocksNeededLeast | index.js:258-261 | the loop stops as soon as there are enough bytes: one block fewer would not cover `keysize + ivsize` |
| Evp.EvpKeyIv | index.js:263-268 | the key has exactly `keysize` bytes and the IV exactly `ivsize` bytes |
| Evp.BlockLength | index.js:236-250 | every block `D_i` has the digest's length |
| Evp.StreamLength | index.js:258-263 | `n` blocks concatenate to `n * len` bytes |
| Evp.StreamPrefix | index.js:258-263 | producing more blocks only extends the stream, so earlier bytes never change |
| Evp.EvpKeyIvIsStreamPrefix | index.js:263-268 | the key and the IV are the slices `[0, keysize)` and `[keysize, keysize + ivsize)` of any block stream long enough to cover both |
| Evp.Iter | index.js:236-250 | `iter(block)` is the digest of `block ‖ data ‖ salt`, rehashed `count - 1` times |
| Evp.AppendBlock | index.js:258-261 | one loop turn appends block `D_i`, derived from `D_(i-1)` or from the empty buffer, and grows the stream by one digest length |
| Evp.EvpKdf | index.js:234-269 | the loop's key and IV equal the block-stream definition and have the requested sizes |
| Utf8.LeadLength | index.js:345-351 | a lead byte above 0x7F announces a sequence of 2 to 4 bytes, or none |
| Utf8.CharLength | index.js:345-351 | the accepted length of the leading character lies within the input, is at most 4 bytes, and is 1 for a byte up to 0x7F |
| Utf8.CharIsHigh | index.js:345-351 | a character with a lead byte above 0x7F consists only of bytes above 0x7F |
| Utf8.CharLengthOfPrefix | index.js:345-351 | whether a character is accepted depends only on its own bytes |
| LegacyEncoding.DecodeCryptojsSalt | index.js:272-284 | a salt is present exactly when the data starts with "Salted__"; the salt is bytes 8 to 16, clamped, and the ciphertext is what follows; with no marker the ciphertext is the whole input |
| LegacyEncoding.CryptojsSaltRoundTrip | index.js:272-284 | decoding `"Salted__" ‖ salt ‖ ciphertext` with an 8-byte salt gives back that salt and ciphertext |
| LegacyEncoding.DecodeGroup | index.js:345-351 | a run is kept exactly when it is well-formed UTF-8 (`decodeURIComponent` accepts it); any other run becomes the single replacement character U+FFFD (EF BF BD); the group is always well-formed |
| LegacyEncoding.DecodeGroupHigh | index.js:345-351 | a run of high bytes is rewritten as high bytes only |
| LegacyEncoding.HighRun | index.js:356-363 | the pending run ends at the first byte up to 0x7F and is non-empty when the first byte is high |
| LegacyEncoding.HighRunIsHigh | index.js:356-363 | every byte of the pending run is above 0x7F |
| LegacyEncoding.HighRunAfter | index.js:356-363 | a run of high bytes in front extends the pending run by its length |
| LegacyEncoding.BrokenSeedAfterRun | index.js:356-363 | a high-byte run closed by a low byte or by the end is rewritten as one group |
| LegacyEncoding.PendingThenLow | index.js:357-359 | a pending run followed by a byte up to 0x7F is rewritten as the group, then that byte |
| LegacyEncoding.CloseRun | index.js:357-359 | at a byte up to 0x7F the loop appends the rewritten pending run, then the byte itself, and keeps its invariant |
| LegacyEncoding.CloseLastRun | index.js:365 | the run still pending at the end of the buffer is rewritten and appended |
| LegacyEncoding.KryptoKitBrokenScryptSeed | index.js:339-366 | the loop's output equals the run-by-run reference rewrite of the buffer |
| LegacyEncoding.BrokenSeedAscii | index.js:356-365 | a buffer whose bytes are all up to 0x7F is returned unchanged |
| LegacyEncoding.LeadingCharWellFormed | index.js:345-351 | the leading character on its own is well-formed UTF-8 |
| LegacyEncoding.HighCharThenRun | index.js:356-363 | a high character in front of well-formed bytes joins their leading run, and both the run and what follows stay well-formed |
| LegacyEncoding.WellFormedRunSplit | index.js:345-351 | in well-formed UTF-8 the leading run of high bytes ends at a character boundary, so both parts are well-formed |
| LegacyEncoding.WellFormedRunKept | index.js:345-358 | a well-formed run of high bytes in front of a tail the rewrite keeps is kept as well |
| LegacyEncoding.BrokenSeedWellFormed | index.js:339-366 | a buffer that already is well-formed UTF-8 is returned unchanged |
| LegacyEncoding.BrokenSeedIsWellFormed | index.js:339-366 | the rewritten seed is always well-formed UTF-8 |
| LegacyEncoding.BrokenSeedIdempotent | index.js:339-366 | rewriting a rewritten seed changes nothing |
| LegacyEncoding.AsciiBytesConcat | index.js:356-363 | the low bytes of a concatenation are the low bytes of each part, in order |
| LegacyEncoding.AsciiBytesOfHigh | index.js:361 | a run of high bytes contributes no low bytes |
| LegacyEncoding.BrokenSeedKeepsAscii | index.js:357-358 | every byte up to 0x7F of the input is kept in its original order, and the rewrite adds no others |
| Hex.ToHex | index.js:102-111 | `toString('hex')` renders two characters per byte |
| Hex.HexDigit | index.js:185 | each digit of the rendering is `0`-`9` or `a`-`f` |
| Hex.DigitValue | index.js:185 | reading a digit of the rendering back: a lower-case hex digit gives the one value it renders |
| Hex.FromHexToHex | index.js:185 | the rendering loses nothing: reading it back gives the bytes rendered |
| Hex.ToHexInjective | index.js:185 | two renderings are equal exactly when the bytes are equal, so the textual MAC comparison compares bytes |
| Hex.ToHexLowerCase | index.js:185 | renderings contain only digits and lower-case letters |
| Hex.PrefixedHex | index.js:39-41 | `'0x' + hex` has length `2 + 2n`, starts with "0x", and the rest parses back to the bytes |
| WalletCodec.Wallet.GetPrivateKeyString | index.js:39-41 | the string is "0x" followed by text that parses back to the private key |
| WalletCodec.Wallet.GetPublicKey | index.js:43-45 | the public key exists exactly when secp256k1 accepts the private key, which (given `Valid`) is a valid secret; it has 64 bytes; otherwise the call fails with `InvalidSecretKey` |
| WalletCodec.Wallet.GetPublicKeyString | index.js:47-49 | fails exactly when `getPublicKey` fails; otherwise "0x" followed by text that parses back to the public key |
| WalletCodec.Wallet.GetAddress | index.js:51-53 | the address exists exactly when secp256k1 accepts the private key, which (given `Valid`) is a valid secret; it has 20 bytes; otherwise the call fails with `InvalidSecretKey` |
| WalletCodec.Wallet.GetAddressString | index.js:55-57 | fails exactly when `getAddress` fails; otherwise "0x" followed by text that parses back to the address, 42 characters in all |
| WalletCodec.KdfParamsFor | index.js:70-88 | only "scrypt" and "pbkdf2" get parameters; each of dklen, n, r, p and c is its own option when that is given and non-zero, and otherwise 32, 262144, 8, 1 and 262144 respectively; the PRF is always hmac-sha256 |
| WalletCodec.DeriveKey | index.js:75-85 | the derived key has `dklen` bytes |
| WalletCodec.MacOf | index.js:97 | the MAC is a 32-byte Keccak-256 digest |
| WalletCodec.V3DerivedKey | index.js:163-180 | "scrypt" and "pbkdf2" with hmac-sha256 select the KDF; other "pbkdf2" parameters are refused as unsupported; other schemes are refused as an unsupported scheme |
| WalletCodec.Wallet.ToV3 | index.js:64-114 | an unknown kdf fails with 'Unsupported kdf'; a cipher that refuses to encrypt fails with `CipherFailed`, and only then; after a successful encryption the call succeeds exactly when secp256k1 gives the key an address, so an invalid secret key always fails; every default as written; the ciphertext is the encryption of the private key under `dk[0..16)`; the MAC authenticates the container; when decryption inverts encryption, `fromV3` with the same password returns this wallet |
| WalletCodec.FromV3 | index.js:156-195 | a version other than the number 3 is refused; KDF errors are passed on; a MAC mismatch fails with a wrong-passphrase error; a wallet is returned only when the MAC matches, and then exactly when the decryption under `dk[0..16)` succeeds, with that decryption as its key; a refused decryption fails with `CipherFailed`, not as a wrong passphrase |
| WalletCodec.V1DerivedKey | index.js:136-137 | the scrypt key has the file's `DkLen` bytes |
| WalletCodec.V1CipherKey | index.js:148 | the AES key is 16 bytes: the start of Keccak-256 of `dk[0..16)` |
| WalletCodec.FromV1 | index.js:125-154 | a version other than the string "1" is refused; a kdf other than scrypt is refused; a MAC mismatch fails; a wallet is returned only when the MAC matches, and then exactly when the AES-128-CBC decryption succeeds, with that decryption as its key; a refused decryption fails with `CipherFailed`, not as a wrong passphrase |
| WalletCodec.EthSaleKey | index.js:208 | the presale AES key has 16 bytes |
| WalletCodec.FromEthSale | index.js:201-221 | a password that is not a string is refused; a failed decryption fails; a key secp256k1 refuses fails with `InvalidSecretKey`; otherwise a wallet is returned exactly when its address text equals `ethaddr`, and a mismatch is a decoded-key mismatch; the key is Keccak-256 of the decrypted seed and has 32 bytes |
| WalletCodec.EtherWalletKey | index.js:293-323 | unlocked: a key not of 64 characters is refused, otherwise it is hex-decoded; locked: a missing password or one under 7 characters is refused; then a text without the "Salted__" salt fails with `MissingSalt`, a failed EVP-keyed AES-256-CBC decryption with `CipherFailed`, a key text `utf8.decode` rejects with `InvalidKeyText`, and otherwise the decoded key is returned |
| WalletCodec.FromEtherWallet | index.js:290-332 | a wallet is returned exactly when a key is recovered and its "0x" address equals the file's address; a key secp256k1 refuses fails with `InvalidSecretKey`, and another address with 'Invalid private key or address' |
| WalletCodec.FromEtherCamp | index.js:334-336 | the key is the 32-byte Keccak-256 of the passphrase |
| WalletCodec.EntropyBody | index.js:368-370 | exactly one leading '#' is removed, and only if present |
| WalletCodec.KryptoKitChecksum | index.js:410 | the checksum text has 16 characters |
| WalletCodec.KryptoKitQKey | index.js:383-407 | the decrypted key has 32 bytes |
| WalletCodec.FromKryptoKit | index.js:368-419 | an empty or unknown type is refused; 'd' hashes the rest; 'q' needs a password, decrypts characters [0,30) and checks them against characters [30,46) when those are present; an accepted key has 32 bytes |
| WalletCodec.FromQuorumWallet | index.js:421-429 | fails exactly when the passphrase or the user id has fewer than 10 characters; otherwise the key is PBKDF2(passphrase ‖ userid, same, 2000, 32) and has 32 bytes |
| WalletCodec.Generate | index.js:22-33 | without `icapDirect` the first draw is taken; with it, every draw before the result has an address not starting with a zero byte, and the result is the next draw when its address starts with zero, or a secp256k1 failure when it has none; `None` means every draw was passed over |
| WalletProperties.NoAddressForInvalidKeys | index.js:51-53 | the empty key and the all-zero key have no address |
| WalletProperties.SealV1 | index.js:137-148 | a version 1 reference writer produces a "scrypt" version-"1" file with the given salt, IV and parameters |
| WalletProperties.V1RoundTrip | index.js:125-154 | `fromV1` reads back what the version 1 writer sealed under the same password |
| WalletProperties.V1MacCheckedBeforeDecrypt | index.js:141-149 | a version 1 file whose MAC does not match fails, and the decryption is never consulted |
| WalletProperties.V3MacCheckedBeforeDecrypt | index.js:184-190 | an unauthenticated version 3 container fails, and the decryption is never consulted |
| WalletProperties.V3UpperCaseMacRefused | index.js:185 | a stored MAC with an upper-case hex letter is refused under every password |
| WalletProperties.SealEthSale | index.js:205-212 | a presale reference writer puts the 16-byte IV first in `encseed` |
| WalletProperties.EthSaleRoundTrip | index.js:201-221 | `fromEthSale` reads back a sealed presale file; the key is Keccak-256 of the seed |
| WalletProperties.EtherWalletUnlockedRoundTrip | index.js:290-332 | an unlocked export holding the hex text of a valid secret key and its address is read back |
| WalletProperties.EtherWalletLockedRoundTrip | index.js:300-331 | a locked export that CryptoJS encrypted under an 8-byte salt and the password is read back with that password |
| WalletProperties.EtherWalletPasswordChecks | index.js:301-306 | a locked export is refused without a password or with one under 7 characters |
| WalletProperties.KryptoKitHashOptional | index.js:368-370 | a leading '#' does not change the result |
| WalletProperties.KryptoKitSecondHashRefused | index.js:368-373 | a second '#' is taken as the type and refused |
| WalletProperties.KryptoKitChecksumDecides | index.js:383-413 | with 16 checksum characters a 'q' entropy is accepted exactly when they match the key's checksum |
| WalletProperties.KryptoKitWithoutChecksum | index.js:409 | a 'q' entropy without checksum characters is accepted under any password |

## Left out

- The cryptographic algorithms are not defined here: MD5, Keccak-256, SHA-256, scrypt,
  PBKDF2, AES-CBC/CTR/ECB, secp256k1, and `toChecksumAddress`. They are parameters; only
  their output lengths and the cipher round trip are assumed.
- `Buffer` text decoding (hex, base64, UTF-8), `utf8.decode` and `uuid.v4` are parameters
  too. The MAC and address comparisons depend on the hex rendering, so that rendering is
  modelled exactly.
- Containers are already-parsed records. Binary fields hold the bytes their hex text
  denotes. `JSON.parse`, the string-or-object input choice and `toV3String`
  (`JSON.stringify`) are not part of this model.
- `console.log` in `fromV1` is output only, and is left out.
- String lengths are counted in code points. JavaScript counts UTF-16 code units, which
  differs only for characters outside the Basic Multilingual Plane.
- Randomness is left out. `toV3` takes its salt, IV and id bytes as a parameter.
  `generate` takes a finite sequence of random candidates. Unlike the source loop, it
  returns `None` when that sequence runs out.
- The digest option of `evp_kdf` is the digest function itself. `fromEtherWallet` always
  uses MD5.
- KDF parameter validation (a negative or non-integer `n`, `r`, `p`, `c` or `dklen`) is
  the job of scrypt and PBKDF2, which are parameters here.
- Missing JSON fields are only modelled where the code handles them: a CryptoJS text
  without a salt fails (`MissingSalt`). A "scrypt" V3 container with PBKDF2-shaped
  parameters fails with `MissingScryptParams`; in the source, scrypt would be called with
  undefined values.
- The 'Unsupported cipher' branch of `toV3` cannot be reached: `createCipheriv` throws
  rather than returning a falsy value. That throw is `CipherFailed`.
- WalletCodec.FromKryptoKit: `ethUtil.sha256` applied to a string is the parameter
  `toBuffer`, so the 'd' key is stated in terms of it.
- WalletCodec.Wallet.GetPrivateKey and GetChecksumAddressString only delegate, so they
  carry no contract.
