/** The collaborators the wallet code calls but does not implement: the digests, the two
    password KDFs, the AES modes of `crypto` and `aes-js`, secp256k1 key-to-address
    derivation of `ethereumjs-util`, the text codecs of `Buffer` and `utf8`, and `uuid`.
    They are opaque functions handed to every operation in one record; one that can throw
    returns `None` then. What the proofs rely on about them is stated as the predicates
    `Valid` and `CipherInverse`. */
module Primitives {
  import opened Common

  /** The order of the secp256k1 group. */
  const CurveOrder: nat := 0xFFFFFFFF_FFFFFFFF_FFFFFFFF_FFFFFFFE_BAAEDCE6_AF48A03B_BFD25E8C_D0364141

  /** The unsigned big-endian value of `b`. */
  function BigEndian(b: Bytes): nat {
    if b == [] then 0 else BigEndian(b[..|b| - 1]) * 256 + b[|b| - 1] as nat
  }

  /** A secp256k1 secret key: 32 bytes whose value lies in `[1, n)`; every other key
      makes `privateToPublic` and `privateToAddress` throw. */
  predicate ValidSecret(key: Bytes) {
    |key| == 32 && 0 < BigEndian(key) < CurveOrder
  }

  datatype Primitives = Primitives(
    /** `crypto.createHash('md5')`, the default digest of the EVP key derivation */
    md5: Bytes -> Bytes,
    /** `ethUtil.sha3`: Keccak-256 */
    sha3: Bytes -> Bytes,
    /** `ethUtil.sha256` on a buffer */
    sha256: Bytes -> Bytes,
    /** `scryptsy(password, salt, n, r, p, dklen)` */
    scrypt: (Bytes, Bytes, int, int, int, int) -> Bytes,
    /** `crypto.pbkdf2Sync(password, salt, c, dklen, 'sha256')` */
    pbkdf2: (Bytes, Bytes, int, int) -> Bytes,
    /** `createCipheriv(name, key, iv)` then `update` and `final`; `None` when any of them throws */
    encrypt: (string, Bytes, Bytes, Bytes) -> Option<Bytes>,
    /** `createDecipheriv(name, key, iv)` then `update` and `final` (`decipherBuffer`);
        `None` when any of them throws (unknown cipher, bad key or IV length, bad decrypt) */
    decrypt: (string, Bytes, Bytes, Bytes) -> Option<Bytes>,
    /** `new aesjs.ModeOfOperation.ecb(key).decrypt(block)` */
    ecbDecrypt: (Bytes, Bytes) -> Bytes,
    /** `ethUtil.privateToPublic`; `None` when secp256k1 refuses the key */
    privateToPublic: Bytes -> Option<Bytes>,
    /** `ethUtil.privateToAddress`; `None` when secp256k1 refuses the key */
    privateToAddress: Bytes -> Option<Bytes>,
    /** `ethUtil.toChecksumAddress` */
    toChecksumAddress: string -> string,
    /** `new Buffer(text)`: the UTF-8 bytes of a JavaScript string */
    utf8: string -> Bytes,
    /** the conversion `ethUtil.sha256` applies to a string argument before hashing it */
    toBuffer: string -> Bytes,
    /** `new Buffer(text, 'hex')` */
    hexDecode: string -> Bytes,
    /** `new Buffer(text, 'base64')` */
    base64Decode: string -> Bytes,
    /** `new Buffer(utf8.decode(buf.toString()), 'hex')`; `None` when `utf8.decode` throws */
    keyText: Bytes -> Option<Bytes>,
    /** `uuid.v4({ random: bytes })` */
    uuidV4: Bytes -> string
  ) {

    /** The output lengths of the real algorithms: 16-byte MD5, 32-byte Keccak-256 and
        SHA-256, KDF outputs of the requested length, 16-byte AES blocks, 64-byte public
        keys and 20-byte addresses; and secp256k1 accepts exactly the valid secret keys. */
    ghost predicate Valid() {
      && (forall x :: |md5(x)| == 16)
      && (forall x :: |sha3(x)| == 32)
      && (forall x :: |sha256(x)| == 32)
      && (forall pw, salt, n, r, p, dklen :: 0 <= dklen ==> |scrypt(pw, salt, n, r, p, dklen)| == dklen)
      && (forall pw, salt, c, dklen :: 0 <= dklen ==> |pbkdf2(pw, salt, c, dklen)| == dklen)
      && (forall key, block :: |block| == 16 ==> |ecbDecrypt(key, block)| == 16)
      && (forall key :: privateToPublic(key).Some? <==> ValidSecret(key))
      && (forall key :: privateToPublic(key).Some? ==> |privateToPublic(key).value| == 64)
      && (forall key :: privateToAddress(key).Some? <==> ValidSecret(key))
      && (forall key :: privateToAddress(key).Some? ==> |privateToAddress(key).value| == 20)
    }

    /** Decryption under the same cipher name, key and IV undoes a successful encryption. */
    ghost predicate CipherInverse() {
      forall name, key, iv, plain :: encrypt(name, key, iv, plain).Some? ==>
        decrypt(name, key, iv, encrypt(name, key, iv, plain).value) == Some(plain)
    }
  }
}
