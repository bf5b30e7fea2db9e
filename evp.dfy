/** OpenSSL's `EVP_BytesToKey` as `evp_kdf` implements it: blocks
    `D_0 = H^count(data ‖ salt)` and `D_i = H^count(D_(i-1) ‖ data ‖ salt)` are
    concatenated until there are at least `keysize + ivsize` bytes, and the key and the
    IV are the first `keysize` and the next `ivsize` of them. The digest `H` is a
    parameter with a fixed, positive output length. */
module Evp {
  import opened Common

  /** `h` always yields `len` bytes, and `len` is positive. */
  ghost predicate FixedLength(h: Bytes -> Bytes, len: nat) {
    len > 0 && forall x :: |h(x)| == len
  }

  /** The options `count`, `keysize` and `ivsize` (`digest` is the function `h` itself). */
  datatype EvpOptions = EvpOptions(count: Option<nat>, keysize: Option<nat>, ivsize: Option<nat>)

  datatype KeyIv = KeyIv(key: Bytes, iv: Bytes)

  /** `opts.count || 1`: the number of hash applications per block. */
  function Count(opts: EvpOptions): (c: nat)
    ensures c >= 1
    ensures opts.count.None? ==> c == 1
    ensures opts.count == Some(0) ==> c == 1
    ensures opts.count.Some? && opts.count.value != 0 ==> c == opts.count.value
  {
    OrNat(opts.count, 1)
  }

  /** `opts.keysize || 16` */
  function KeySize(opts: EvpOptions): (n: nat)
    ensures n >= 1
    ensures opts.keysize.None? ==> n == 16
    ensures opts.keysize == Some(0) ==> n == 16
    ensures opts.keysize.Some? && opts.keysize.value != 0 ==> n == opts.keysize.value
  {
    OrNat(opts.keysize, 16)
  }

  /** `opts.ivsize || 16` */
  function IvSize(opts: EvpOptions): (n: nat)
    ensures n >= 1
    ensures opts.ivsize.None? ==> n == 16
    ensures opts.ivsize == Some(0) ==> n == 16
    ensures opts.ivsize.Some? && opts.ivsize.value != 0 ==> n == opts.ivsize.value
  {
    OrNat(opts.ivsize, 16)
  }

  /** `b` hashed `k` more times. */
  function Rehash(h: Bytes -> Bytes, b: Bytes, k: nat): Bytes {
    if k == 0 then b else h(Rehash(h, b, k - 1))
  }

  /** What `iter(block)` returns: the digest of `block ‖ data ‖ salt`, rehashed
      `count - 1` times. */
  function IterSpec(h: Bytes -> Bytes, block: Bytes, data: Bytes, salt: Bytes, count: nat): Bytes
    requires count >= 1
  {
    Rehash(h, h(block + data + salt), count - 1)
  }

  /** The block `D_i`; `D_0` is computed from the empty buffer. */
  function Block(h: Bytes -> Bytes, data: Bytes, salt: Bytes, count: nat, i: nat): Bytes
    requires count >= 1
  {
    IterSpec(h, if i == 0 then [] else Block(h, data, salt, count, i - 1), data, salt, count)
  }

  /** `D_0 ‖ … ‖ D_(n-1)` */
  function Stream(h: Bytes -> Bytes, data: Bytes, salt: Bytes, count: nat, n: nat): Bytes
    requires count >= 1
  {
    if n == 0 then [] else Stream(h, data, salt, count, n - 1) + Block(h, data, salt, count, n - 1)
  }

  /** The number of `len`-byte blocks the loop of `evp_kdf` produces to reach `need` bytes. */
  function BlocksNeeded(need: nat, len: nat): (n: nat)
    requires len > 0
    ensures n * len >= need
  {
    if need == 0 then 0 else 1 + BlocksNeeded(if need <= len then 0 else need - len, len)
  }

  /** The loop stops as soon as it has enough: one block fewer would fall short. */
  lemma {:induction false} BlocksNeededLeast(need: nat, len: nat)
    requires len > 0
    ensures var n := BlocksNeeded(need, len); n > 0 ==> (n - 1) * len < need
    decreases need
  {
    if need > len {
      BlocksNeededLeast(need - len, len);
      var m := BlocksNeeded(need - len, len);
      assert BlocksNeeded(need, len) == 1 + m;
      assert m * len == (1 + m - 1) * len;
    }
  }

  /** The key and IV `evp_kdf(data, salt, opts)` returns. */
  function EvpKeyIv(h: Bytes -> Bytes, len: nat, data: Bytes, salt: Bytes, opts: EvpOptions): (r: KeyIv)
    requires FixedLength(h, len)
    ensures |r.key| == KeySize(opts) && |r.iv| == IvSize(opts)
  {
    var keysize, ivsize := KeySize(opts), IvSize(opts);
    var n := BlocksNeeded(keysize + ivsize, len);
    StreamLength(h, len, data, salt, Count(opts), n);
    var s := Stream(h, data, salt, Count(opts), n);
    KeyIv(s[..keysize], s[keysize..keysize + ivsize])
  }

  lemma {:induction false} BlockLength(h: Bytes -> Bytes, len: nat, data: Bytes, salt: Bytes, count: nat, i: nat)
    requires FixedLength(h, len) && count >= 1
    ensures |Block(h, data, salt, count, i)| == len
  {
    var first := h((if i == 0 then [] else Block(h, data, salt, count, i - 1)) + data + salt);
    if count > 1 {
      assert Rehash(h, first, count - 1) == h(Rehash(h, first, count - 2));
    }
  }

  /** Every block has the digest's length, so `n` blocks make `n * len` bytes. */
  lemma {:induction false} StreamLength(h: Bytes -> Bytes, len: nat, data: Bytes, salt: Bytes, count: nat, n: nat)
    requires FixedLength(h, len) && count >= 1
    ensures |Stream(h, data, salt, count, n)| == n * len
  {
    if n > 0 {
      StreamLength(h, len, data, salt, count, n - 1);
      BlockLength(h, len, data, salt, count, n - 1);
      assert (n - 1) * len + len == n * len;
    }
  }

  /** A shorter run of blocks is a prefix of a longer one. */
  lemma {:induction false} StreamPrefix(h: Bytes -> Bytes, data: Bytes, salt: Bytes, count: nat, m: nat, n: nat)
    requires count >= 1 && m <= n
    ensures Stream(h, data, salt, count, m) <= Stream(h, data, salt, count, n)
  {
    if m < n {
      StreamPrefix(h, data, salt, count, m, n - 1);
    }
  }

  /** The key and the IV are the slices `[0, keysize)` and `[keysize, keysize + ivsize)`
      of the block stream, however many blocks beyond the needed ones are produced. */
  lemma EvpKeyIvIsStreamPrefix(h: Bytes -> Bytes, len: nat, data: Bytes, salt: Bytes, opts: EvpOptions, n: nat)
    requires FixedLength(h, len)
    requires |Stream(h, data, salt, Count(opts), n)| >= KeySize(opts) + IvSize(opts)
    ensures var s := Stream(h, data, salt, Count(opts), n);
      && EvpKeyIv(h, len, data, salt, opts).key == s[..KeySize(opts)]
      && EvpKeyIv(h, len, data, salt, opts).iv == s[KeySize(opts)..KeySize(opts) + IvSize(opts)]
  {
    var count, need := Count(opts), KeySize(opts) + IvSize(opts);
    var b := BlocksNeeded(need, len);
    StreamLength(h, len, data, salt, count, b);
    var s, t := Stream(h, data, salt, count, n), Stream(h, data, salt, count, b);
    if n <= b {
      StreamPrefix(h, data, salt, count, n, b);
    } else {
      StreamPrefix(h, data, salt, count, b, n);
    }
    PrefixSlice(s, t, 0, KeySize(opts));
    PrefixSlice(s, t, KeySize(opts), need);
    assert EvpKeyIv(h, len, data, salt, opts) == KeyIv(t[..KeySize(opts)], t[KeySize(opts)..need]);
  }

  /** `iter(block)`: one digest of `block ‖ data ‖ salt`, then `count - 1` rehashes. */
  method Iter(h: Bytes -> Bytes, block: Bytes, data: Bytes, salt: Bytes, count: nat) returns (d: Bytes)
    requires count >= 1
    ensures d == IterSpec(h, block, data, salt, count)
  {
    var first := h(block + data + salt);
    d := first;
    for i := 1 to count
      invariant d == Rehash(h, first, i - 1)
    {
      d := h(d);
    }
  }

  /** `D_0 ‖ … ‖ D_(k-1)` for the list of blocks `ret` the loop builds. */
  function Concat(blocks: seq<Bytes>): Bytes {
    if blocks == [] then [] else Concat(blocks[..|blocks| - 1]) + blocks[|blocks| - 1]
  }

  /** One turn of the loop of `evp_kdf`: appending the next block extends the stream by
      one block of `len` bytes. */
  lemma AppendBlock(h: Bytes -> Bytes, len: nat, data: Bytes, salt: Bytes, count: nat, ret: seq<Bytes>, d: Bytes)
    requires FixedLength(h, len) && count >= 1
    requires Concat(ret) == Stream(h, data, salt, count, |ret|)
    requires d == Block(h, data, salt, count, |ret|)
    ensures Concat(ret + [d]) == Stream(h, data, salt, count, |ret| + 1)
    ensures |Concat(ret + [d])| == |Concat(ret)| + len
  {
    ConcatHalves(ret, [d]);
    BlockLength(h, len, data, salt, count, |ret|);
  }

  /** `evp_kdf(data, salt, opts)` */
  method EvpKdf(h: Bytes -> Bytes, len: nat, data: Bytes, salt: Bytes, opts: EvpOptions)
    returns (key: Bytes, iv: Bytes)
    requires FixedLength(h, len)
    ensures KeyIv(key, iv) == EvpKeyIv(h, len, data, salt, opts)
    ensures |key| == KeySize(opts) && |iv| == IvSize(opts)
  {
    var count := Count(opts);
    var keysize := KeySize(opts);
    var ivsize := IvSize(opts);
    var ret: seq<Bytes> := [];
    var i := 0;
    while |Concat(ret)| < keysize + ivsize
      invariant |ret| == i
      invariant i > 0 ==> ret[i - 1] == Block(h, data, salt, count, i - 1)
      invariant Concat(ret) == Stream(h, data, salt, count, i)
      decreases keysize + ivsize - |Concat(ret)|
    {
      var prev := if i == 0 then [] else ret[i - 1];
      var d := Iter(h, prev, data, salt, count);
      AppendBlock(h, len, data, salt, count, ret, d);
      ret := ret + [d];
      i := i + 1;
    }
    var tmp := Concat(ret);
    EvpKeyIvIsStreamPrefix(h, len, data, salt, opts, i);
    key := tmp[..keysize];
    iv := tmp[keysize..keysize + ivsize];
  }
}
