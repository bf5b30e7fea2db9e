/** Properties that relate several operations: what each older format's writer produced
    is read back by its decoder, the MAC is checked before anything is decrypted, and the
    KryptoKit entropy prefix and checksum behave as the format describes. The writers of
    the older formats are not part of the library; `SealV1` and `SealEthSale` are
    reference writers that follow each decoder's derivation. */
module WalletProperties {
  import opened Common
  import opened Hex
  import opened Primitives
  import opened Evp
  import opened LegacyEncoding
  import opened WalletCodec

  // ---------------------------------------------------------------------------------
  // The hypotheses on the primitives can be met
  // ---------------------------------------------------------------------------------

  function Zeros(n: int): (z: Bytes)
    ensures n >= 0 ==> |z| == n
    ensures forall i :: 0 <= i < |z| ==> z[i] == 0
  {
    if n <= 0 then [] else seq(n, _ => 0)
  }

  /** Stand-ins of the right lengths, with the identity as the cipher and secp256k1's
      acceptance of secret keys. */
  function SamplePrimitives(): Primitives {
    Primitives(
      md5 := x => Zeros(16),
      sha3 := x => Zeros(32),
      sha256 := x => Zeros(32),
      scrypt := (pw, salt, n, r, p, dklen) => Zeros(dklen),
      pbkdf2 := (pw, salt, c, dklen) => Zeros(dklen),
      encrypt := (name, key, iv, plain) => Some(plain),
      decrypt := (name, key, iv, ciphertext) => Some(ciphertext),
      ecbDecrypt := (key, block) => block,
      privateToPublic := key => if ValidSecret(key) then Some(Zeros(64)) else None,
      privateToAddress := key => if ValidSecret(key) then Some(Zeros(20)) else None,
      toChecksumAddress := text => text,
      utf8 := text => [],
      toBuffer := text => [],
      hexDecode := text => [],
      base64Decode := text => [],
      keyText := plain => Some(plain),
      uuidV4 := random => "")
  }

  /** `Valid` and `CipherInverse` are satisfiable, so the results that assume them are
      not vacuous. */
  lemma SampleSatisfiesHypotheses()
    ensures SamplePrimitives().Valid() && SamplePrimitives().CipherInverse()
  {
  }

  // ---------------------------------------------------------------------------------
  // Keys secp256k1 refuses
  // ---------------------------------------------------------------------------------

  lemma {:induction false} BigEndianZeros(n: nat)
    ensures BigEndian(Zeros(n)) == 0
  {
    if n > 0 {
      BigEndianZeros(n - 1);
      assert Zeros(n)[..n - 1] == Zeros(n - 1);
    }
  }

  /** A wallet without a key, or with the all-zero key, has no address: `getAddress`
      throws, and so does every operation that needs the address. */
  lemma NoAddressForInvalidKeys(prims: Primitives)
    requires prims.Valid()
    ensures Wallet([]).GetAddress(prims) == Failure(InvalidSecretKey)
    ensures Wallet(Zeros(32)).GetAddress(prims) == Failure(InvalidSecretKey)
  {
    BigEndianZeros(32);
  }

  // ---------------------------------------------------------------------------------
  // Version 1 and version 3
  // ---------------------------------------------------------------------------------

  /** A version 1 key store as go-ethereum writes it; `None` when the cipher refuses the
      key or IV. */
  function SealV1(prims: Primitives, privKey: Bytes, password: string, salt: Bytes, iv: Bytes, params: V1KdfParams)
    : (c: Option<V1Container>)
    ensures c.Some? ==> (c.value.version == JString("1") && c.value.kdf == "scrypt"
                         && c.value.salt == salt && c.value.iv == iv && c.value.kdfParams == params)
  {
    var c := V1Container(JString("1"), "scrypt", params, salt, [], iv, "");
    var dk := V1DerivedKey(prims, c, password);
    match prims.encrypt("aes-128-cbc", V1CipherKey(prims, dk), iv, privKey)
    case None => None
    case Some(ciphertext) => Some(c.(ciphertext := ciphertext, mac := ToHex(MacOf(prims, dk, ciphertext))))
  }

  /** `fromV1` reads back what a version 1 writer sealed under the same password. */
  lemma V1RoundTrip(prims: Primitives, privKey: Bytes, password: string, salt: Bytes, iv: Bytes, params: V1KdfParams)
    requires prims.CipherInverse()
    requires SealV1(prims, privKey, password, salt, iv, params).Some?
    ensures FromV1(prims, SealV1(prims, privKey, password, salt, iv, params).value, password) == Success(Wallet(privKey))
  {
    var c := SealV1(prims, privKey, password, salt, iv, params).value;
    assert V1DerivedKey(prims, c, password) == V1DerivedKey(prims, c.(ciphertext := [], mac := ""), password);
  }

  /** A version 1 file whose MAC does not match is refused without the cipher being
      consulted: replacing the decryption changes nothing. */
  lemma V1MacCheckedBeforeDecrypt(prims: Primitives, c: V1Container, password: string,
                                  decrypt: (string, Bytes, Bytes, Bytes) -> Option<Bytes>)
    requires ToHex(MacOf(prims, V1DerivedKey(prims, c, password), c.ciphertext)) != c.mac
    ensures FromV1(prims, c, password).Failure?
    ensures FromV1(prims, c, password) == FromV1(prims.(decrypt := decrypt), c, password)
  {
    var other := prims.(decrypt := decrypt);
    assert V1DerivedKey(other, c, password) == V1DerivedKey(prims, c, password);
    assert MacOf(other, V1DerivedKey(other, c, password), c.ciphertext) == MacOf(prims, V1DerivedKey(prims, c, password), c.ciphertext);
  }

  /** The same for version 3: an unauthenticated container fails, whatever the cipher. */
  lemma V3MacCheckedBeforeDecrypt(prims: Primitives, c: V3Container, password: string,
                                  decrypt: (string, Bytes, Bytes, Bytes) -> Option<Bytes>)
    requires !V3Authentic(prims, c.crypto, password)
    ensures FromV3(prims, c, password).Failure?
    ensures FromV3(prims, c, password) == FromV3(prims.(decrypt := decrypt), c, password)
  {
    var other := prims.(decrypt := decrypt);
    assert V3DerivedKey(other, c.crypto, password) == V3DerivedKey(prims, c.crypto, password);
    assert !V3Authentic(other, c.crypto, password);
  }

  /** The stored MAC is compared with the lower-case rendering as text, so a container
      whose MAC has an upper-case hex letter is refused under every password. */
  lemma V3UpperCaseMacRefused(prims: Primitives, c: V3Container, password: string, i: nat)
    requires i < |c.crypto.mac| && 'A' <= c.crypto.mac[i] <= 'F'
    ensures FromV3(prims, c, password).Failure?
  {
    var dk := V3DerivedKey(prims, c.crypto, password);
    if dk.Success? {
      ToHexLowerCase(MacOf(prims, dk.value, c.crypto.ciphertext));
    }
  }

  // ---------------------------------------------------------------------------------
  // Presale and MyEtherWallet
  // ---------------------------------------------------------------------------------

  /** A presale file: the IV, then the encrypted seed; the address is that of the
      Keccak-256 of the seed, so there is no file when that hash is no secret key. */
  function SealEthSale(prims: Primitives, seed: Bytes, password: string, iv: Bytes): (c: Option<EthSaleContainer>)
    requires |iv| == 16
    ensures c.Some? ==> |c.value.encseed| >= 16 && c.value.encseed[..16] == iv
  {
    match (prims.encrypt("aes-128-cbc", EthSaleKey(prims, password), iv, seed), prims.privateToAddress(prims.sha3(seed)))
    case (Some(ciphertext), Some(address)) => Some(EthSaleContainer(iv + ciphertext, ToHex(address)))
    case _ => None
  }

  /** `fromEthSale` reads back a sealed presale file, and its key is the hash of the seed. */
  lemma EthSaleRoundTrip(prims: Primitives, seed: Bytes, password: string, iv: Bytes)
    requires prims.CipherInverse() && |iv| == 16
    requires SealEthSale(prims, seed, password, iv).Some?
    ensures FromEthSale(prims, SealEthSale(prims, seed, password, iv).value, Some(password)) == Success(Wallet(prims.sha3(seed)))
  {
    var c := SealEthSale(prims, seed, password, iv).value;
    var ciphertext := prims.encrypt("aes-128-cbc", EthSaleKey(prims, password), iv, seed).value;
    assert c.encseed == iv + ciphertext;
    assert Slice(c.encseed, 0, 16) == iv;
    assert Slice(c.encseed, 16, |c.encseed|) == ciphertext;
  }

  /** An unlocked MyEtherWallet export holding the 64-character hex text of its key is read
      back, given that `new Buffer(text, 'hex')` inverts the rendering. */
  lemma EtherWalletUnlockedRoundTrip(prims: Primitives, privKey: Bytes, encrypted: bool)
    requires prims.Valid() && ValidSecret(privKey) && prims.hexDecode(ToHex(privKey)) == privKey
    ensures var c := EtherWalletContainer(false, encrypted, ToHex(privKey), Wallet(privKey).GetAddressString(prims).value);
      FromEtherWallet(prims, c, None) == Success(Wallet(privKey))
  {
  }

  /** A locked MyEtherWallet export, whose key text CryptoJS encrypted with a salt and the
      password, is read back with that password. */
  lemma EtherWalletLockedRoundTrip(prims: Primitives, privKey: Bytes, password: string,
                                   salt: Bytes, plain: Bytes, ciphertext: Bytes, text: string)
    requires prims.Valid() && prims.CipherInverse() && ValidSecret(privKey)
    requires |password| >= 7 && |salt| == 8
    requires prims.keyText(plain) == Some(privKey)
    requires var evp := EvpKeyIv(prims.md5, 16, prims.utf8(password), salt, EtherWalletEvp);
      prims.encrypt("aes-256-cbc", evp.key, evp.iv, plain) == Some(ciphertext)
    requires prims.base64Decode(text) == EncodeCryptojsSalt(salt, ciphertext)
    ensures var c := EtherWalletContainer(true, false, text, Wallet(privKey).GetAddressString(prims).value);
      FromEtherWallet(prims, c, Some(password)) == Success(Wallet(privKey))
  {
    CryptojsSaltRoundTrip(salt, ciphertext);
  }

  /** A locked export is refused without a password or with one shorter than seven
      characters, before anything is decrypted. */
  lemma EtherWalletPasswordChecks(prims: Primitives, c: EtherWalletContainer, password: Option<string>)
    requires prims.Valid() && c.locked
    requires password.None? || |password.value| < 7
    ensures FromEtherWallet(prims, c, password) == Failure(if password.None? then PasswordRequired else PasswordTooShort)
  {
  }

  // ---------------------------------------------------------------------------------
  // KryptoKit
  // ---------------------------------------------------------------------------------

  /** One leading '#' is optional. */
  lemma KryptoKitHashOptional(prims: Primitives, e: string, password: Option<string>)
    requires |e| == 0 || e[0] != '#'
    ensures FromKryptoKit(prims, "#" + e, password) == FromKryptoKit(prims, e, password)
  {
    assert ("#" + e)[1..] == e;
  }

  /** Only one '#' is removed. */
  lemma KryptoKitSecondHashRefused(prims: Primitives, e: string, password: Option<string>)
    ensures FromKryptoKit(prims, "##" + e, password) == Failure(UnsupportedEntropy)
  {
    assert EntropyBody("##" + e) == "#" + e;
  }

  /** A 'q' entropy carrying the checksum of the key it decrypts to is accepted, and with
      any other 16 characters in its place it is refused. */
  lemma KryptoKitChecksumDecides(prims: Primitives, seed: string, checksum: string, password: string)
    requires |seed| == 30 && |checksum| == 16
    ensures var key := KryptoKitQKey(prims, seed, password);
      FromKryptoKit(prims, "q" + seed + checksum, Some(password)) ==
        if checksum == KryptoKitChecksum(prims, key) then Success(Wallet(key)) else Failure(DecryptFailed)
  {
    var e := "q" + seed + checksum;
    assert EntropyBody(e) == e;
    assert e[1..] == seed + checksum;
    assert Slice(e[1..], 0, 30) == seed;
    assert Slice(e[1..], 30, 46) == checksum;
  }

  /** Without a checksum any password is accepted. */
  lemma KryptoKitWithoutChecksum(prims: Primitives, seed: string, password: string)
    requires |seed| <= 30
    ensures FromKryptoKit(prims, "q" + seed, Some(password)) == Success(Wallet(KryptoKitQKey(prims, seed, password)))
  {
    var e := "q" + seed;
    assert EntropyBody(e) == e;
    assert e[1..] == seed;
  }
}
