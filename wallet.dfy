/** The wallet value and its codec: the canonical Web3 Secret Storage (version 3)
    container it writes and reads, and the historical formats it reads (go-ethereum's
    version 1 key store, the Ethereum presale file, MyEtherWallet, ether.camp, KryptoKit
    and Quorum). Every decoder is a function of the container and the password; the
    exceptions of the source are the `Failure` values of `Result`. */
module WalletCodec {
  import opened Common
  import opened Hex
  import opened Primitives
  import opened Evp
  import opened LegacyEncoding

  /** One constructor per way a call can fail: the `throw`s of the code itself and the
      exceptions of the libraries it calls. */
  datatype Error =
    | AssertionFailed           // `assert(...)`: 'Assertion failed'
    | NotAV1Wallet              // 'Not a V1 wallet'
    | NotAV3Wallet              // 'Not a V3 wallet'
    | UnsupportedKdf            // `toV3`: 'Unsupported kdf'
    | UnsupportedKeyDerivation  // 'Unsupported key derivation scheme'
    | UnsupportedPbkdf2Params   // 'Unsupported parameters to PBKDF2'
    | MissingScryptParams       // a V3 'scrypt' container whose parameters are PBKDF2's
    | CipherFailed              // a `createCipheriv`/`createDecipheriv`/`final` that throws
    | WrongPassphrase           // 'Key derivation failed - possibly wrong passphrase'
    | DecodedKeyMismatch        // 'Decoded key mismatch - possibly wrong passphrase'
    | InvalidPrivateKeyLength   // 'Invalid private key length'
    | PasswordRequired          // 'Password required'
    | PasswordTooShort          // 'Password must be at least 7 characters'
    | MissingSalt               // `hash.update(undefined)` for an unsalted CryptoJS text
    | InvalidKeyText            // `utf8.decode` throws on the decrypted key text
    | InvalidKeyOrAddress       // 'Invalid private key or address'
    | DecryptFailed             // 'Failed to decrypt input - possibly invalid passphrase'
    | UnsupportedEntropy        // 'Unsupported or invalid entropy type'
    | InvalidSecretKey          // secp256k1 refuses the key: not 32 bytes, zero, or not below the group order

  datatype Result<+T> = Success(value: T) | Failure(error: Error)

  /** A JSON scalar, for the fields whose JSON type the code tests. */
  datatype Scalar = JString(s: string) | JNumber(n: int)

  // ---------------------------------------------------------------------------------
  // The canonical (version 3) container
  // ---------------------------------------------------------------------------------

  /** `kdfparams`: `toV3` writes either the scrypt or the PBKDF2 shape. */
  datatype KdfParams =
    | ScryptParams(dklen: int, salt: Bytes, n: int, r: int, p: int)
    | Pbkdf2Params(dklen: int, salt: Bytes, c: int, prf: string)

  /** `Crypto`; the binary fields are held as the bytes their hex text denotes. */
  datatype V3Crypto = V3Crypto(
    ciphertext: Bytes,
    iv: Bytes,            // cipherparams.iv
    cipher: string,
    kdf: string,
    kdfparams: KdfParams,
    mac: string)          // hex text, compared as text

  datatype V3Container = V3Container(version: Scalar, id: string, address: string, crypto: V3Crypto)

  /** The options `toV3` recognises; `None` is an option left out. */
  datatype V3Options = V3Options(
    salt: Option<Bytes>,
    iv: Option<Bytes>,
    kdf: Option<string>,
    dklen: Option<int>,
    n: Option<int>,
    r: Option<int>,
    p: Option<int>,
    c: Option<int>,
    cipher: Option<string>,
    uuid: Option<Bytes>)

  /** The bytes `crypto.randomBytes` would supply: 32 of salt, 16 of IV, 16 for the id. */
  datatype RandomDraws = RandomDraws(salt: Bytes, iv: Bytes, uuid: Bytes)

  /** The parameter record `toV3` fills in for `kdf`, with each option defaulted. */
  function KdfParamsFor(kdf: string, opts: V3Options, salt: Bytes): (k: Option<KdfParams>)
    ensures k.Some? <==> kdf == "scrypt" || kdf == "pbkdf2"
    ensures k.Some? ==> k.value.salt == salt && k.value.dklen == OrNumber(opts.dklen, 32)
    ensures kdf == "scrypt" ==> k.Some? && k.value.ScryptParams?
    ensures kdf == "scrypt" ==>
      k.value.n == OrNumber(opts.n, 262144) && k.value.r == OrNumber(opts.r, 8) && k.value.p == OrNumber(opts.p, 1)
    ensures kdf == "pbkdf2" ==> k.Some? && k.value.Pbkdf2Params? && k.value.prf == "hmac-sha256"
    ensures kdf == "pbkdf2" ==> k.value.c == OrNumber(opts.c, 262144)
    ensures opts.dklen.None? && k.Some? ==> k.value.dklen == 32
    ensures kdf == "scrypt" && opts.n.None? ==> k.value.n == 262144
    ensures kdf == "scrypt" && opts.r.None? ==> k.value.r == 8
    ensures kdf == "scrypt" && opts.p.None? ==> k.value.p == 1
    ensures kdf == "pbkdf2" && opts.c.None? ==> k.value.c == 262144
  {
    var dklen := OrNumber(opts.dklen, 32);
    if kdf == "pbkdf2" then Some(Pbkdf2Params(dklen, salt, OrNumber(opts.c, 262144), "hmac-sha256"))
    else if kdf == "scrypt" then
      Some(ScryptParams(dklen, salt, OrNumber(opts.n, 262144), OrNumber(opts.r, 8), OrNumber(opts.p, 1)))
    else None
  }

  /** The derived key for a parameter record: scrypt or PBKDF2-HMAC-SHA256 of the
      password's UTF-8 bytes. */
  function DeriveKey(prims: Primitives, password: string, params: KdfParams): (dk: Bytes)
    ensures prims.Valid() && params.dklen >= 0 ==> |dk| == params.dklen
  {
    match params
    case ScryptParams(dklen, salt, n, r, p) => prims.scrypt(prims.utf8(password), salt, n, r, p, dklen)
    case Pbkdf2Params(dklen, salt, c, _) => prims.pbkdf2(prims.utf8(password), salt, c, dklen)
  }

  /** The MAC of V1 and V3: Keccak-256 of the second 16 bytes of the derived key followed
      by the ciphertext. */
  function MacOf(prims: Primitives, derivedKey: Bytes, ciphertext: Bytes): (mac: Bytes)
    ensures prims.Valid() ==> |mac| == 32
  {
    prims.sha3(Slice(derivedKey, 16, 32) + ciphertext)
  }

  /** The key derivation `fromV3` selects by the `kdf` field. */
  function V3DerivedKey(prims: Primitives, crypto: V3Crypto, password: string): (r: Result<Bytes>)
    ensures crypto.kdf != "scrypt" && crypto.kdf != "pbkdf2" ==> r == Failure(UnsupportedKeyDerivation)
    ensures crypto.kdf == "pbkdf2" && !(crypto.kdfparams.Pbkdf2Params? && crypto.kdfparams.prf == "hmac-sha256")
      ==> r == Failure(UnsupportedPbkdf2Params)
    ensures crypto.kdf == "scrypt" && !crypto.kdfparams.ScryptParams? ==> r == Failure(MissingScryptParams)
    ensures r.Success? <==>
      || (crypto.kdf == "scrypt" && crypto.kdfparams.ScryptParams?)
      || (crypto.kdf == "pbkdf2" && crypto.kdfparams.Pbkdf2Params? && crypto.kdfparams.prf == "hmac-sha256")
    ensures r.Success? ==> r.value == DeriveKey(prims, password, crypto.kdfparams)
  {
    if crypto.kdf == "scrypt" then
      if crypto.kdfparams.ScryptParams? then Success(DeriveKey(prims, password, crypto.kdfparams))
      else Failure(MissingScryptParams)
    else if crypto.kdf == "pbkdf2" then
      if crypto.kdfparams.Pbkdf2Params? && crypto.kdfparams.prf == "hmac-sha256" then
        Success(DeriveKey(prims, password, crypto.kdfparams))
      else Failure(UnsupportedPbkdf2Params)
    else Failure(UnsupportedKeyDerivation)
  }

  /** The password derives a key whose recomputed MAC matches the stored one. */
  ghost predicate V3Authentic(prims: Primitives, crypto: V3Crypto, password: string) {
    var dk := V3DerivedKey(prims, crypto, password);
    dk.Success? && ToHex(MacOf(prims, dk.value, crypto.ciphertext)) == crypto.mac
  }

  /** `Wallet.fromV3(input, password)` */
  function FromV3(prims: Primitives, c: V3Container, password: string): (r: Result<Wallet>)
    ensures c.version != JNumber(3) ==> r == Failure(NotAV3Wallet)
    ensures c.version == JNumber(3) && V3DerivedKey(prims, c.crypto, password).Failure? ==>
      r == Failure(V3DerivedKey(prims, c.crypto, password).error)
    ensures (c.version == JNumber(3) && V3DerivedKey(prims, c.crypto, password).Success?
             && !V3Authentic(prims, c.crypto, password)) ==> r == Failure(WrongPassphrase)
    ensures r.Success? ==> c.version == JNumber(3) && V3Authentic(prims, c.crypto, password)
    ensures r.Success? ==> var dk := V3DerivedKey(prims, c.crypto, password).value;
      prims.decrypt(c.crypto.cipher, Slice(dk, 0, 16), c.crypto.iv, c.crypto.ciphertext) == Some(r.value.privKey)
    ensures c.version == JNumber(3) && V3Authentic(prims, c.crypto, password) ==> var dk := V3DerivedKey(prims, c.crypto, password).value;
      (r.Success? <==> prims.decrypt(c.crypto.cipher, Slice(dk, 0, 16), c.crypto.iv, c.crypto.ciphertext).Some?)
    ensures c.version == JNumber(3) && V3Authentic(prims, c.crypto, password) ==> var dk := V3DerivedKey(prims, c.crypto, password).value;
      (prims.decrypt(c.crypto.cipher, Slice(dk, 0, 16), c.crypto.iv, c.crypto.ciphertext).None? ==> r == Failure(CipherFailed))
  {
    if c.version != JNumber(3) then Failure(NotAV3Wallet)
    else
      var dk := V3DerivedKey(prims, c.crypto, password);
      if dk.Failure? then Failure(dk.error)
      else if ToHex(MacOf(prims, dk.value, c.crypto.ciphertext)) != c.crypto.mac then Failure(WrongPassphrase)
      else
        match prims.decrypt(c.crypto.cipher, Slice(dk.value, 0, 16), c.crypto.iv, c.crypto.ciphertext)
        case None => Failure(CipherFailed)
        case Some(seed) => Success(Wallet(seed))
  }

  // ---------------------------------------------------------------------------------
  // The wallet value
  // ---------------------------------------------------------------------------------

  /** The result of a secp256k1 derivation, which throws when it refuses the key. */
  function KeyOrThrow(derived: Option<Bytes>): Result<Bytes> {
    match derived
    case None => Failure(InvalidSecretKey)
    case Some(b) => Success(b)
  }

  /** A wallet owns one private key; `Wallet(priv)` is also `Wallet.fromPrivateKey(priv)`. */
  datatype Wallet = Wallet(privKey: Bytes) {

    function GetPrivateKey(): Bytes {
      privKey
    }

    /** '0x' followed by the hex text of the private key. */
    function GetPrivateKeyString(): (s: string)
      ensures |s| == 2 * |privKey| + 2
      ensures s[..2] == "0x" && FromHex(s[2..]) == Some(privKey)
    {
      PrefixedHex(privKey)
    }

    /** The public key; secp256k1 throws for a key that is not a valid secret. */
    function GetPublicKey(prims: Primitives): (r: Result<Bytes>)
      ensures r.Success? <==> prims.privateToPublic(privKey).Some?
      ensures r.Failure? ==> r.error == InvalidSecretKey
      ensures prims.Valid() ==> (r.Success? <==> ValidSecret(privKey))
      ensures prims.Valid() && r.Success? ==> |r.value| == 64
    {
      KeyOrThrow(prims.privateToPublic(privKey))
    }

    function GetPublicKeyString(prims: Primitives): (r: Result<string>)
      ensures r.Success? <==> GetPublicKey(prims).Success?
      ensures r.Failure? ==> r.error == InvalidSecretKey
      ensures r.Success? ==> var pub := GetPublicKey(prims).value;
        |r.value| == 2 * |pub| + 2 && r.value[..2] == "0x" && FromHex(r.value[2..]) == Some(pub)
    {
      match GetPublicKey(prims)
      case Failure(e) => Failure(e)
      case Success(pub) => Success(PrefixedHex(pub))
    }

    /** The address; secp256k1 throws for a key that is not a valid secret. */
    function GetAddress(prims: Primitives): (r: Result<Bytes>)
      ensures r.Success? <==> prims.privateToAddress(privKey).Some?
      ensures r.Failure? ==> r.error == InvalidSecretKey
      ensures prims.Valid() ==> (r.Success? <==> ValidSecret(privKey))
      ensures prims.Valid() && r.Success? ==> |r.value| == 20
    {
      KeyOrThrow(prims.privateToAddress(privKey))
    }

    function GetAddressString(prims: Primitives): (r: Result<string>)
      ensures r.Success? <==> GetAddress(prims).Success?
      ensures r.Failure? ==> r.error == InvalidSecretKey
      ensures r.Success? ==> var address := GetAddress(prims).value;
        |r.value| == 2 * |address| + 2 && r.value[..2] == "0x" && FromHex(r.value[2..]) == Some(address)
      ensures r.Success? && prims.Valid() ==> |r.value| == 42
    {
      match GetAddress(prims)
      case Failure(e) => Failure(e)
      case Success(address) => Success(PrefixedHex(address))
    }

    function GetChecksumAddressString(prims: Primitives): Result<string> {
      match GetAddressString(prims)
      case Failure(e) => Failure(e)
      case Success(text) => Success(prims.toChecksumAddress(text))
    }

    /** `wallet.toV3(password, opts)`: encrypts the private key under a key derived from
        the password and returns the canonical container. */
    method ToV3(prims: Primitives, password: string, opts: V3Options, random: RandomDraws)
      returns (r: Result<V3Container>)
      ensures r == Failure(UnsupportedKdf) <==>
        OrText(opts.kdf, "scrypt") != "scrypt" && OrText(opts.kdf, "scrypt") != "pbkdf2"
      ensures r.Failure? ==> r.error == UnsupportedKdf || r.error == CipherFailed || r.error == InvalidSecretKey
      ensures prims.Valid() && !ValidSecret(privKey) ==> r.Failure?
      ensures r.Success? ==>
        && r.value.version == JNumber(3)
        && r.value.id == prims.uuidV4(OrBytes(opts.uuid, random.uuid))
        && GetAddress(prims).Success?
        && r.value.address == ToHex(GetAddress(prims).value)
        && r.value.crypto.kdf == OrText(opts.kdf, "scrypt")
        && r.value.crypto.cipher == OrText(opts.cipher, "aes-128-ctr")
        && r.value.crypto.iv == OrBytes(opts.iv, random.iv)
        && Some(r.value.crypto.kdfparams) ==
           KdfParamsFor(OrText(opts.kdf, "scrypt"), opts, OrBytes(opts.salt, random.salt))
      ensures r.Success? ==> var crypto := r.value.crypto;
        prims.encrypt(crypto.cipher, Slice(DeriveKey(prims, password, crypto.kdfparams), 0, 16), crypto.iv, privKey)
          == Some(crypto.ciphertext)
      ensures r.Success? ==> V3Authentic(prims, r.value.crypto, password)
      ensures r == Failure(CipherFailed) <==>
        var params := KdfParamsFor(OrText(opts.kdf, "scrypt"), opts, OrBytes(opts.salt, random.salt));
        && params.Some?
        && prims.encrypt(OrText(opts.cipher, "aes-128-ctr"), Slice(DeriveKey(prims, password, params.value), 0, 16),
                         OrBytes(opts.iv, random.iv), privKey).None?
      ensures var params := KdfParamsFor(OrText(opts.kdf, "scrypt"), opts, OrBytes(opts.salt, random.salt));
        params.Some? && prims.encrypt(OrText(opts.cipher, "aes-128-ctr"), Slice(DeriveKey(prims, password, params.value), 0, 16),
                                      OrBytes(opts.iv, random.iv), privKey).Some? ==>
        (r.Success? <==> GetAddress(prims).Success?)
      ensures r.Success? && prims.CipherInverse() ==> FromV3(prims, r.value, password) == Success(this)
    {
      var salt := if opts.salt.Some? then opts.salt.value else random.salt;
      var iv := if opts.iv.Some? then opts.iv.value else random.iv;
      var kdf := OrText(opts.kdf, "scrypt");
      var dklen := OrNumber(opts.dklen, 32);
      var kdfparams: KdfParams;
      if kdf == "pbkdf2" {
        kdfparams := Pbkdf2Params(dklen, salt, OrNumber(opts.c, 262144), "hmac-sha256");
      } else if kdf == "scrypt" {
        kdfparams := ScryptParams(dklen, salt, OrNumber(opts.n, 262144), OrNumber(opts.r, 8), OrNumber(opts.p, 1));
      } else {
        return Failure(UnsupportedKdf);
      }
      var derivedKey := DeriveKey(prims, password, kdfparams);
      var cipher := OrText(opts.cipher, "aes-128-ctr");
      var encrypted := prims.encrypt(cipher, Slice(derivedKey, 0, 16), iv, privKey);
      if encrypted.None? {
        return Failure(CipherFailed);
      }
      var ciphertext := encrypted.value;
      var mac := MacOf(prims, derivedKey, ciphertext);
      var id := prims.uuidV4(if opts.uuid.Some? then opts.uuid.value else random.uuid);
      var address := GetAddress(prims);
      if address.Failure? {
        return Failure(address.error);
      }
      var crypto := V3Crypto(ciphertext, iv, cipher, kdf, kdfparams, ToHex(mac));
      r := Success(V3Container(JNumber(3), id, ToHex(address.value), crypto));
    }
  }

  // ---------------------------------------------------------------------------------
  // Version 1 key store
  // ---------------------------------------------------------------------------------

  datatype V1KdfParams = V1KdfParams(n: int, r: int, p: int, dkLen: int)

  /** `Version`, `Crypto.KeyHeader.Kdf`, `Crypto.KeyHeader.KdfParams`, `Crypto.Salt`,
      `Crypto.CipherText`, `Crypto.IV` and `Crypto.MAC` (hex text). */
  datatype V1Container = V1Container(
    version: Scalar,
    kdf: string,
    kdfParams: V1KdfParams,
    salt: Bytes,
    ciphertext: Bytes,
    iv: Bytes,
    mac: string)

  function V1DerivedKey(prims: Primitives, c: V1Container, password: string): (dk: Bytes)
    ensures prims.Valid() && c.kdfParams.dkLen >= 0 ==> |dk| == c.kdfParams.dkLen
  {
    prims.scrypt(prims.utf8(password), c.salt, c.kdfParams.n, c.kdfParams.r, c.kdfParams.p, c.kdfParams.dkLen)
  }

  /** Version 1 does not use the derived key itself: its AES key is the first 16 bytes of
      the Keccak-256 of the derived key's first 16 bytes. */
  function V1CipherKey(prims: Primitives, derivedKey: Bytes): (key: Bytes)
    ensures prims.Valid() ==> |key| == 16
  {
    Slice(prims.sha3(Slice(derivedKey, 0, 16)), 0, 16)
  }

  /** `Wallet.fromV1(input, password)` */
  function FromV1(prims: Primitives, c: V1Container, password: string): (r: Result<Wallet>)
    ensures c.version != JString("1") ==> r == Failure(NotAV1Wallet)
    ensures c.version == JString("1") && c.kdf != "scrypt" ==> r == Failure(UnsupportedKeyDerivation)
    ensures (c.version == JString("1") && c.kdf == "scrypt"
             && ToHex(MacOf(prims, V1DerivedKey(prims, c, password), c.ciphertext)) != c.mac) ==> r == Failure(WrongPassphrase)
    ensures r.Success? ==> (c.version == JString("1") && c.kdf == "scrypt"
                            && ToHex(MacOf(prims, V1DerivedKey(prims, c, password), c.ciphertext)) == c.mac)
    ensures r.Success? ==>
      prims.decrypt("aes-128-cbc", V1CipherKey(prims, V1DerivedKey(prims, c, password)), c.iv, c.ciphertext)
        == Some(r.value.privKey)
    ensures (c.version == JString("1") && c.kdf == "scrypt"
             && ToHex(MacOf(prims, V1DerivedKey(prims, c, password), c.ciphertext)) == c.mac) ==>
      (r.Success? <==>
         prims.decrypt("aes-128-cbc", V1CipherKey(prims, V1DerivedKey(prims, c, password)), c.iv, c.ciphertext).Some?)
    ensures (c.version == JString("1") && c.kdf == "scrypt"
             && ToHex(MacOf(prims, V1DerivedKey(prims, c, password), c.ciphertext)) == c.mac) ==>
      (var plain := prims.decrypt("aes-128-cbc", V1CipherKey(prims, V1DerivedKey(prims, c, password)), c.iv, c.ciphertext);
       plain.None? ==> r == Failure(CipherFailed))
  {
    if c.version != JString("1") then Failure(NotAV1Wallet)
    else if c.kdf != "scrypt" then Failure(UnsupportedKeyDerivation)
    else
      var derivedKey := V1DerivedKey(prims, c, password);
      if ToHex(MacOf(prims, derivedKey, c.ciphertext)) != c.mac then Failure(WrongPassphrase)
      else
        match prims.decrypt("aes-128-cbc", V1CipherKey(prims, derivedKey), c.iv, c.ciphertext)
        case None => Failure(CipherFailed)
        case Some(seed) => Success(Wallet(seed))
  }

  // ---------------------------------------------------------------------------------
  // Ethereum presale file
  // ---------------------------------------------------------------------------------

  /** `encseed` (the IV followed by the ciphertext) and `ethaddr` (hex text). */
  datatype EthSaleContainer = EthSaleContainer(encseed: Bytes, ethaddr: string)

  /** The presale AES key: the first 16 bytes of PBKDF2 with the password as its own salt. */
  function EthSaleKey(prims: Primitives, password: string): (key: Bytes)
    ensures prims.Valid() ==> |key| == 16
  {
    var pw := prims.utf8(password);
    Slice(prims.pbkdf2(pw, pw, 2000, 32), 0, 16)
  }

  /** `Wallet.fromEthSale(input, password)`; `None` is a password that is not a string. */
  function FromEthSale(prims: Primitives, c: EthSaleContainer, password: Option<string>): (r: Result<Wallet>)
    ensures password.None? ==> r == Failure(AssertionFailed)
    ensures r.Success? ==>
      password.Some? && r.value.GetAddress(prims).Success? && ToHex(r.value.GetAddress(prims).value) == c.ethaddr
    ensures r.Success? ==>
      var seed := prims.decrypt("aes-128-cbc", EthSaleKey(prims, password.value), Slice(c.encseed, 0, 16), Slice(c.encseed, 16, |c.encseed|));
      seed.Some? && r.value.privKey == prims.sha3(seed.value)
    ensures password.Some? ==>
      var seed := prims.decrypt("aes-128-cbc", EthSaleKey(prims, password.value), Slice(c.encseed, 0, 16), Slice(c.encseed, 16, |c.encseed|));
      && (seed.None? ==> r == Failure(CipherFailed))
      && (seed.Some? ==> var address := Wallet(prims.sha3(seed.value)).GetAddress(prims);
           && (address.Failure? ==> r == Failure(InvalidSecretKey))
           && (address.Success? ==> (r.Success? <==> ToHex(address.value) == c.ethaddr))
           && (address.Success? && ToHex(address.value) != c.ethaddr ==> r == Failure(DecodedKeyMismatch)))
    ensures r.Success? && prims.Valid() ==> |r.value.privKey| == 32
  {
    if password.None? then Failure(AssertionFailed)
    else
      var key := EthSaleKey(prims, password.value);
      match prims.decrypt("aes-128-cbc", key, Slice(c.encseed, 0, 16), Slice(c.encseed, 16, |c.encseed|))
      case None => Failure(CipherFailed)
      case Some(seed) =>
        var wallet := Wallet(prims.sha3(seed));
        var address := wallet.GetAddress(prims);
        if address.Failure? then Failure(address.error)
        else if ToHex(address.value) != c.ethaddr then Failure(DecodedKeyMismatch)
        else Success(wallet)
  }

  // ---------------------------------------------------------------------------------
  // MyEtherWallet export
  // ---------------------------------------------------------------------------------

  /** `locked`, `encrypted`, `private` and `address` ('0x' and hex text). */
  datatype EtherWalletContainer = EtherWalletContainer(locked: bool, encrypted: bool, privateKey: string, address: string)

  /** The options `fromEtherWallet` passes to `evp_kdf`. */
  const EtherWalletEvp := EvpOptions(None, Some(32), Some(16))

  /** The private key a MyEtherWallet export holds, before its address is checked. */
  function EtherWalletKey(prims: Primitives, c: EtherWalletContainer, password: Option<string>): (r: Result<Bytes>)
    requires prims.Valid()
    ensures !c.locked && |c.privateKey| != 64 ==> r == Failure(InvalidPrivateKeyLength)
    ensures !c.locked && |c.privateKey| == 64 ==> r == Success(prims.hexDecode(c.privateKey))
    ensures c.locked && password.None? ==> r == Failure(PasswordRequired)
    ensures c.locked && password.Some? && |password.value| < 7 ==> r == Failure(PasswordTooShort)
    ensures c.locked && r.Success? ==>
      var framed := DecodeCryptojsSalt(prims.base64Decode(if c.encrypted then Slice(c.privateKey, 0, 128) else c.privateKey));
      && password.Some? && |password.value| >= 7 && framed.salt.Some?
      && var evp := EvpKeyIv(prims.md5, 16, prims.utf8(password.value), framed.salt.value, EtherWalletEvp);
      && var plain := prims.decrypt("aes-256-cbc", evp.key, evp.iv, framed.ciphertext);
      && plain.Some? && prims.keyText(plain.value) == Some(r.value)
    ensures c.locked && password.Some? && |password.value| >= 7 ==>
      var framed := DecodeCryptojsSalt(prims.base64Decode(if c.encrypted then Slice(c.privateKey, 0, 128) else c.privateKey));
      && (framed.salt.None? ==> r == Failure(MissingSalt))
      && (framed.salt.Some? ==>
            var evp := EvpKeyIv(prims.md5, 16, prims.utf8(password.value), framed.salt.value, EtherWalletEvp);
            var plain := prims.decrypt("aes-256-cbc", evp.key, evp.iv, framed.ciphertext);
            && (plain.None? ==> r == Failure(CipherFailed))
            && (plain.Some? && prims.keyText(plain.value).None? ==> r == Failure(InvalidKeyText))
            && (plain.Some? && prims.keyText(plain.value).Some? ==> r == Success(prims.keyText(plain.value).value)))
  {
    if !c.locked then
      if |c.privateKey| != 64 then Failure(InvalidPrivateKeyLength)
      else Success(prims.hexDecode(c.privateKey))
    else if password.None? then Failure(PasswordRequired)
    else if |password.value| < 7 then Failure(PasswordTooShort)
    else
      // the "encrypted" form appends 4 bytes of an address hash after 128 characters
      var text := if c.encrypted then Slice(c.privateKey, 0, 128) else c.privateKey;
      var framed := DecodeCryptojsSalt(prims.base64Decode(text));
      if framed.salt.None? then Failure(MissingSalt)
      else
        var evp := EvpKeyIv(prims.md5, 16, prims.utf8(password.value), framed.salt.value, EtherWalletEvp);
        match prims.decrypt("aes-256-cbc", evp.key, evp.iv, framed.ciphertext)
        case None => Failure(CipherFailed)
        case Some(plain) =>
          match prims.keyText(plain)
          case None => Failure(InvalidKeyText)
          case Some(key) => Success(key)
  }

  /** `Wallet.fromEtherWallet(input, password)`: the recovered key must give the
      declared address. */
  function FromEtherWallet(prims: Primitives, c: EtherWalletContainer, password: Option<string>): (r: Result<Wallet>)
    requires prims.Valid()
    ensures r.Success? <==>
      EtherWalletKey(prims, c, password).Success?
      && Wallet(EtherWalletKey(prims, c, password).value).GetAddressString(prims) == Success(c.address)
    ensures r.Success? ==> r.value.privKey == EtherWalletKey(prims, c, password).value
    ensures r.Success? ==> r.value.GetAddressString(prims) == Success(c.address)
    ensures EtherWalletKey(prims, c, password).Failure? ==> r == Failure(EtherWalletKey(prims, c, password).error)
    ensures EtherWalletKey(prims, c, password).Success? ==>
      var address := Wallet(EtherWalletKey(prims, c, password).value).GetAddressString(prims);
      && (address.Failure? ==> r == Failure(InvalidSecretKey))
      && (address.Success? && address.value != c.address ==> r == Failure(InvalidKeyOrAddress))
  {
    var key := EtherWalletKey(prims, c, password);
    if key.Failure? then Failure(key.error)
    else
      var wallet := Wallet(key.value);
      match wallet.GetAddressString(prims)
      case Failure(e) => Failure(e)
      case Success(address) =>
        if address != c.address then Failure(InvalidKeyOrAddress)
        else Success(wallet)
  }

  // ---------------------------------------------------------------------------------
  // ether.camp, KryptoKit and Quorum
  // ---------------------------------------------------------------------------------

  /** `Wallet.fromEtherCamp(passphrase)`: the key is the Keccak-256 of the passphrase. */
  function FromEtherCamp(prims: Primitives, passphrase: string): (w: Wallet)
    ensures prims.Valid() ==> |w.privKey| == 32
    ensures w.privKey == prims.sha3(prims.utf8(passphrase))
  {
    Wallet(prims.sha3(prims.utf8(passphrase)))
  }

  /** The entropy text with one leading '#' removed. */
  function EntropyBody(entropy: string): (e: string)
    ensures |entropy| > 0 && entropy[0] == '#' ==> e == entropy[1..]
    ensures (|entropy| == 0 || entropy[0] != '#') ==> e == entropy
  {
    if |entropy| > 0 && entropy[0] == '#' then entropy[1..] else entropy
  }

  /** The checksum a KryptoKit 'q' entropy may carry: the hex text of the first 8 bytes of
      SHA-256(SHA-256(key)). */
  function KryptoKitChecksum(prims: Primitives, privKey: Bytes): (s: string)
    ensures prims.Valid() ==> |s| == 16
  {
    ToHex(Slice(prims.sha256(prims.sha256(privKey)), 0, 8))
  }

  /** The key a KryptoKit 'q' entropy decrypts to: the 30-character seed is hashed, that
      hash is both the ECB ciphertext and (rewritten by `BrokenUtf8Seed`) the scrypt salt. */
  function KryptoKitQKey(prims: Primitives, seed: string, password: string): (k: Bytes)
    ensures prims.Valid() ==> |k| == 32
  {
    var encryptedSeed := prims.sha256(prims.utf8(seed));
    var salt := BrokenUtf8Seed(encryptedSeed);
    var aesKey := prims.scrypt(prims.utf8(password), salt, 16384, 8, 1, 32);
    prims.ecbDecrypt(aesKey, Slice(encryptedSeed, 0, 16)) + prims.ecbDecrypt(aesKey, Slice(encryptedSeed, 16, 32))
  }

  /** `Wallet.fromKryptoKit(entropy, password)`; `None` is a password that is not a string.
      After one optional '#', 'd' takes the SHA-256 of the rest, and 'q' decrypts the
      first 30 characters of the rest under the password, checked against the next 16
      characters when there are any. */
  function FromKryptoKit(prims: Primitives, entropy: string, password: Option<string>): (r: Result<Wallet>)
    ensures var e := EntropyBody(entropy);
      (|e| == 0 || (e[0] != 'd' && e[0] != 'q')) ==> r == Failure(UnsupportedEntropy)
    ensures var e := EntropyBody(entropy);
      |e| > 0 && e[0] == 'd' ==> r == Success(Wallet(prims.sha256(prims.toBuffer(e[1..]))))
    ensures var e := EntropyBody(entropy);
      |e| > 0 && e[0] == 'q' && password.None? ==> r == Failure(PasswordRequired)
    ensures var e := EntropyBody(entropy);
      |e| > 0 && e[0] == 'q' && password.Some? ==>
        var key := KryptoKitQKey(prims, Slice(e[1..], 0, 30), password.value);
        var checksum := Slice(e[1..], 30, 46);
        r == if |checksum| == 0 || checksum == KryptoKitChecksum(prims, key) then Success(Wallet(key))
             else Failure(DecryptFailed)
    ensures r.Success? && prims.Valid() ==> |r.value.privKey| == 32
  {
    var e := EntropyBody(entropy);
    if |e| == 0 then Failure(UnsupportedEntropy)
    else
      var kind, rest := e[0], e[1..];
      if kind == 'd' then Success(Wallet(prims.sha256(prims.toBuffer(rest))))
      else if kind == 'q' then
        if password.None? then Failure(PasswordRequired)
        else
          var privKey := KryptoKitQKey(prims, Slice(rest, 0, 30), password.value);
          var checksum := Slice(rest, 30, 46);
          if |checksum| > 0 && checksum != KryptoKitChecksum(prims, privKey) then Failure(DecryptFailed)
          else Success(Wallet(privKey))
      else Failure(UnsupportedEntropy)
  }

  /** `Wallet.fromQuorumWallet(passphrase, userid)`: both must have at least ten
      characters; the key is PBKDF2 of their concatenation, salted with itself. */
  function FromQuorumWallet(prims: Primitives, passphrase: string, userid: string): (r: Result<Wallet>)
    ensures r.Failure? <==> |passphrase| < 10 || |userid| < 10
    ensures r.Failure? ==> r.error == AssertionFailed
    ensures r.Success? ==>
      var seed := prims.utf8(passphrase + userid);
      r.value.privKey == prims.pbkdf2(seed, seed, 2000, 32)
    ensures r.Success? && prims.Valid() ==> |r.value.privKey| == 32
  {
    if |passphrase| < 10 || |userid| < 10 then Failure(AssertionFailed)
    else
      var seed := prims.utf8(passphrase + userid);
      Success(Wallet(prims.pbkdf2(seed, seed, 2000, 32)))
  }

  // ---------------------------------------------------------------------------------
  // Generation
  // ---------------------------------------------------------------------------------

  /** The address of `privKey` starts with a zero byte (an ICAP "direct" address). */
  predicate IcapDirect(prims: Primitives, privKey: Bytes) {
    var address := prims.privateToAddress(privKey);
    address.Some? && |address.value| > 0 && address.value[0] == 0
  }

  /** A candidate the loop of `generate` passes over: it has an address, but not one
      starting with a zero byte. */
  predicate Passed(prims: Primitives, privKey: Bytes) {
    prims.privateToAddress(privKey).Some? && !IcapDirect(prims, privKey)
  }

  /** `Wallet.generate(icapDirect)`, drawing its random 32-byte candidates from `draws`
      in order; `None` when the supply runs out before the loop ends. With `icapDirect`
      the loop ends at the first candidate that is not passed over: it is the wallet when
      its address starts with a zero byte, and otherwise `privateToAddress` has thrown. */
  method Generate(prims: Primitives, icapDirect: bool, draws: seq<Bytes>) returns (r: Option<Result<Wallet>>)
    ensures !icapDirect ==> r == if |draws| > 0 then Some(Success(Wallet(draws[0]))) else None
    ensures icapDirect && r.Some? ==>
      exists k :: (0 <= k < |draws| && !Passed(prims, draws[k])
                   && (forall j :: 0 <= j < k ==> Passed(prims, draws[j]))
                   && r.value == if IcapDirect(prims, draws[k]) then Success(Wallet(draws[k])) else Failure(InvalidSecretKey))
    ensures icapDirect && r.Some? && r.value.Success? ==> IcapDirect(prims, r.value.value.privKey)
    ensures icapDirect && r.None? ==> forall j :: 0 <= j < |draws| ==> Passed(prims, draws[j])
  {
    if !icapDirect {
      return if |draws| > 0 then Some(Success(Wallet(draws[0]))) else None;
    }
    var i := 0;
    while i < |draws|
      invariant 0 <= i <= |draws|
      invariant forall j :: 0 <= j < i ==> Passed(prims, draws[j])
    {
      match prims.privateToAddress(draws[i]) {
        case None =>
          return Some(Failure(InvalidSecretKey));
        case Some(address) =>
          if |address| > 0 && address[0] == 0 {
            return Some(Success(Wallet(draws[i])));
          }
      }
      i := i + 1;
    }
    return None;
  }
}
