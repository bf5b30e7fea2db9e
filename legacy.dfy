/** Two historical encodings the legacy import formats depend on: the CryptoJS
    "Salted__" framing of an OpenSSL-style ciphertext, and the lossy text round trip that
    an old `js-scrypt` applied to a KryptoKit salt. */
module LegacyEncoding {
  import opened Common
  import opened Utf8

  // ---------------------------------------------------------------------------------
  // CryptoJS salted prefix (`decodeCryptojsSalt`)
  // ---------------------------------------------------------------------------------

  /** The ASCII bytes of "Salted__". */
  const SaltedMarker: Bytes := [0x53, 0x61, 0x6C, 0x74, 0x65, 0x64, 0x5F, 0x5F]

  /** The parsed container: `salt` is absent when the marker is. */
  datatype SaltedCiphertext = SaltedCiphertext(salt: Option<Bytes>, ciphertext: Bytes)

  /** `decodeCryptojsSalt` applied to the base64-decoded input. A salt is present exactly
      when the first eight bytes spell the marker; it is then the next (at most) eight
      bytes and the ciphertext is everything after them, and otherwise the ciphertext is
      the whole input. */
  function DecodeCryptojsSalt(raw: Bytes): (r: SaltedCiphertext)
    ensures r.salt.Some? <==> |raw| >= 8 && raw[..8] == SaltedMarker
    ensures r.salt.Some? ==> |r.salt.value| == Min(8, |raw| - 8)
    ensures r.salt.Some? ==> raw == SaltedMarker + r.salt.value + r.ciphertext
    ensures r.salt.Some? && |raw| >= 16 ==> r.salt.value == raw[8..16] && r.ciphertext == raw[16..]
    ensures r.salt.None? ==> r.ciphertext == raw
  {
    if |raw| >= 8 && raw[..8] == SaltedMarker then
      var salt, ciphertext := Slice(raw, 8, 16), Slice(raw, 16, |raw|);
      assert raw == raw[..8] + salt + ciphertext;
      SaltedCiphertext(Some(salt), ciphertext)
    else
      SaltedCiphertext(None, raw)
  }

  /** What CryptoJS writes for an OpenSSL-compatible encryption with an 8-byte salt. */
  function EncodeCryptojsSalt(salt: Bytes, ciphertext: Bytes): Bytes {
    SaltedMarker + salt + ciphertext
  }

  lemma CryptojsSaltRoundTrip(salt: Bytes, ciphertext: Bytes)
    requires |salt| == 8
    ensures DecodeCryptojsSalt(EncodeCryptojsSalt(salt, ciphertext)) == SaltedCiphertext(Some(salt), ciphertext)
  {
    var raw := EncodeCryptojsSalt(salt, ciphertext);
    assert raw[..8] == SaltedMarker;
    assert raw[8..16] == salt;
    assert raw[16..] == ciphertext;
  }

  // ---------------------------------------------------------------------------------
  // KryptoKit broken UTF-8 salt (`kryptoKitBrokenScryptSeed`)
  // ---------------------------------------------------------------------------------

  /** U+FFFD encoded as UTF-8. */
  const Replacement: Bytes := [0xEF, 0xBF, 0xBD]

  /** `decodeUtf8Char` on the percent-escaped run, re-encoded by the final `new Buffer`:
      a run that is well-formed UTF-8 decodes to characters whose encoding is the run
      itself; any other run makes `decodeURIComponent` throw and becomes U+FFFD. */
  function DecodeGroup(run: Bytes): (g: Bytes)
    ensures g == run <==> WellFormed(run)
    ensures !WellFormed(run) ==> g == Replacement
    ensures WellFormed(g)
  {
    if WellFormed(run) then run else ReplacementWellFormed(); Replacement
  }

  lemma ReplacementWellFormed()
    ensures WellFormed(Replacement)
  {
    assert CharLength(Replacement) == 3 && Replacement[3..] == [];
  }

  /** A run of high bytes is rewritten as high bytes only. */
  lemma DecodeGroupHigh(run: Bytes)
    requires forall k :: 0 <= k < |run| ==> High(run[k])
    ensures forall k :: 0 <= k < |DecodeGroup(run)| ==> High(DecodeGroup(run)[k])
  {
  }

  /** The length of the maximal run of bytes above 0x7F at the start of `s`. */
  function HighRun(s: Bytes): (n: nat)
    ensures n <= |s|
    ensures n < |s| ==> !High(s[n])
    ensures |s| > 0 && High(s[0]) ==> n >= 1
  {
    if |s| == 0 || !High(s[0]) then 0 else 1 + HighRun(s[1..])
  }

  lemma {:induction false} HighRunIsHigh(s: Bytes)
    ensures forall k :: 0 <= k < HighRun(s) ==> High(s[k])
    decreases |s|
  {
    if |s| > 0 && High(s[0]) {
      HighRunIsHigh(s[1..]);
      forall k | 1 <= k < HighRun(s)
        ensures High(s[k])
      {
        assert s[k] == s[1..][k - 1];
      }
    }
  }

  /** The reference definition of the rewrite: bytes up to 0x7F are kept, and every
      maximal run of bytes above 0x7F is replaced by its `DecodeGroup`. */
  function BrokenUtf8Seed(s: Bytes): Bytes
    decreases |s|
  {
    if |s| == 0 then []
    else if !High(s[0]) then [s[0]] + BrokenUtf8Seed(s[1..])
    else
      var n := HighRun(s);
      DecodeGroup(s[..n]) + BrokenUtf8Seed(s[n..])
  }

  lemma {:induction false} HighRunAfter(t: Bytes, u: Bytes)
    requires forall k :: 0 <= k < |t| ==> High(t[k])
    ensures HighRun(t + u) == |t| + HighRun(u)
  {
    if |t| > 0 {
      assert (t + u)[1..] == t[1..] + u;
      HighRunAfter(t[1..], u);
    } else {
      assert t + u == u;
    }
  }

  /** A run of high bytes that ends where `u` starts is rewritten as one group. */
  lemma BrokenSeedAfterRun(t: Bytes, u: Bytes)
    requires |t| > 0 && forall k :: 0 <= k < |t| ==> High(t[k])
    requires |u| == 0 || !High(u[0])
    ensures BrokenUtf8Seed(t + u) == DecodeGroup(t) + BrokenUtf8Seed(u)
  {
    HighRunAfter(t, u);
    ConcatHalves(t, u);
  }

  /** A pending run of high bytes followed by a byte up to 0x7F: the run is rewritten as
      one group and the byte is kept. */
  lemma PendingThenLow(tmp: Bytes, rest: Bytes)
    requires forall k :: 0 <= k < |tmp| ==> High(tmp[k])
    requires |rest| > 0 && !High(rest[0])
    ensures BrokenUtf8Seed(tmp + rest) == DecodeGroup(tmp) + ([rest[0]] + BrokenUtf8Seed(rest[1..]))
  {
    if |tmp| > 0 {
      BrokenSeedAfterRun(tmp, rest);
    } else {
      assert tmp + rest == rest;
    }
  }

  /** The loop of `kryptoKitBrokenScryptSeed` meets a byte up to 0x7F: the pending run
      `tmp` is closed and the byte is kept. */
  lemma CloseRun(done: Bytes, tmp: Bytes, rest: Bytes, whole: Bytes)
    requires forall k :: 0 <= k < |tmp| ==> High(tmp[k])
    requires |rest| > 0 && !High(rest[0])
    requires done + BrokenUtf8Seed(tmp + rest) == whole
    ensures (done + DecodeGroup(tmp) + [rest[0]]) + BrokenUtf8Seed(rest[1..]) == whole
  {
    PendingThenLow(tmp, rest);
    Regroup(done, DecodeGroup(tmp), [rest[0]], BrokenUtf8Seed(rest[1..]));
  }

  /** The loop is over: the pending run `tmp` is closed by the end of the buffer. */
  lemma CloseLastRun(done: Bytes, tmp: Bytes, whole: Bytes)
    requires forall k :: 0 <= k < |tmp| ==> High(tmp[k])
    requires done + BrokenUtf8Seed(tmp + []) == whole
    ensures done + DecodeGroup(tmp) == whole
  {
    AppendEmpty(tmp);
    if |tmp| > 0 {
      BrokenSeedAfterRun(tmp, []);
      AppendEmpty(DecodeGroup(tmp));
    }
  }

  /** `kryptoKitBrokenScryptSeed(buf)`. `tmp` holds the pending run of high bytes (the
      source keeps them as the `%xx` escapes of the same bytes), and `res` holds the UTF-8
      encoding of the text produced so far. */
  method KryptoKitBrokenScryptSeed(buf: Bytes) returns (seed: Bytes)
    ensures seed == BrokenUtf8Seed(buf)
  {
    var res: Bytes := [];
    var tmp: Bytes := [];
    assert tmp + buf[0..] == buf;
    for i := 0 to |buf|
      invariant forall k :: 0 <= k < |tmp| ==> High(tmp[k])
      invariant res + BrokenUtf8Seed(tmp + buf[i..]) == BrokenUtf8Seed(buf)
    {
      ShiftOne(tmp, buf, i);
      if buf[i] <= 0x7F {
        CloseRun(res, tmp, buf[i..], BrokenUtf8Seed(buf));
        assert [] + buf[i + 1..] == buf[i + 1..];
        res := res + DecodeGroup(tmp) + [buf[i]];
        tmp := [];
      } else {
        tmp := tmp + [buf[i]];
      }
    }
    assert buf[|buf|..] == [];
    CloseLastRun(res, tmp, BrokenUtf8Seed(buf));
    seed := res + DecodeGroup(tmp);
  }

  /** A buffer of bytes up to 0x7F only is returned unchanged. */
  lemma {:induction false} BrokenSeedAscii(s: Bytes)
    requires forall k :: 0 <= k < |s| ==> !High(s[k])
    ensures BrokenUtf8Seed(s) == s
  {
    if |s| > 0 {
      BrokenSeedAscii(s[1..]);
    }
  }

  /** The leading character of `s`, on its own, is well-formed. */
  lemma LeadingCharWellFormed(s: Bytes)
    requires CharLength(s) > 0
    ensures WellFormed(s[..CharLength(s)])
  {
    var l := CharLength(s);
    CharLengthOfPrefix(s, s[..l]);
    assert s[..l][l..] == [];
  }

  /** The induction step of `WellFormedRunSplit`: a high character `c` in front of `rest`
      joins the leading run of `rest`. */
  lemma HighCharThenRun(c: Bytes, rest: Bytes)
    requires |c| > 0 && High(c[0]) && CharLength(c + rest) == |c|
    requires WellFormed(rest[..HighRun(rest)]) && WellFormed(rest[HighRun(rest)..])
    ensures WellFormed((c + rest)[..HighRun(c + rest)]) && WellFormed((c + rest)[HighRun(c + rest)..])
  {
    var s := c + rest;
    ConcatHalves(c, rest);
    CharIsHigh(s);
    forall k | 0 <= k < |c|
      ensures High(c[k])
    {
      assert c[k] == s[k];
    }
    HighRunAfter(c, rest);
    var m := HighRun(rest);
    LeadingCharWellFormed(s);
    WellFormedConcat(c, rest[..m]);
    SliceConcat(c, rest, m);
    var n := HighRun(s);
    assert n == |c| + m;
    var front, back := s[..n], s[n..];
    assert front == c + rest[..m];
    assert back == rest[m..];
  }

  /** A well-formed run of high bytes ends at a character boundary. */
  lemma {:induction false} WellFormedRunSplit(s: Bytes)
    requires WellFormed(s)
    ensures WellFormed(s[..HighRun(s)]) && WellFormed(s[HighRun(s)..])
    decreases |s|
  {
    if |s| > 0 && High(s[0]) {
      var l := CharLength(s);
      WellFormedRunSplit(s[l..]);
      TakeDrop(s, l);
      HighCharThenRun(s[..l], s[l..]);
    } else {
      assert s[..0] == [] && s[0..] == s;
    }
  }

  /** The induction step of `BrokenSeedWellFormed`: a well-formed run of high bytes in
      front of a kept tail is kept. */
  lemma WellFormedRunKept(run: Bytes, tail: Bytes)
    requires |run| > 0 && forall k :: 0 <= k < |run| ==> High(run[k])
    requires |tail| == 0 || !High(tail[0])
    requires WellFormed(run) && BrokenUtf8Seed(tail) == tail
    ensures BrokenUtf8Seed(run + tail) == run + tail
  {
    BrokenSeedAfterRun(run, tail);
  }

  /** Bytes that already are well-formed UTF-8 pass through unchanged; buffers of bytes up
      to 0x7F are a special case. */
  lemma {:induction false} BrokenSeedWellFormed(s: Bytes)
    requires WellFormed(s)
    ensures BrokenUtf8Seed(s) == s
    decreases |s|
  {
    if |s| > 0 {
      if !High(s[0]) {
        assert CharLength(s) == 1;
        BrokenSeedWellFormed(s[1..]);
      } else {
        var n := HighRun(s);
        WellFormedRunSplit(s);
        BrokenSeedWellFormed(s[n..]);
        HighRunIsHigh(s);
        TakeDrop(s, n);
        WellFormedRunKept(s[..n], s[n..]);
      }
    }
  }

  lemma {:induction false} WellFormedConcat(a: Bytes, b: Bytes)
    requires WellFormed(a) && WellFormed(b)
    ensures WellFormed(a + b)
    decreases |a|
  {
    if |a| == 0 {
      assert a + b == b;
    } else {
      var l := CharLength(a);
      CharLengthOfPrefix(a, a + b);
      assert (a + b)[l..] == a[l..] + b;
      WellFormedConcat(a[l..], b);
    }
  }

  /** The rewrite always yields well-formed UTF-8 (it is the encoding of a string). */
  lemma {:induction false} BrokenSeedIsWellFormed(s: Bytes)
    ensures WellFormed(BrokenUtf8Seed(s))
    decreases |s|
  {
    if |s| > 0 {
      if !High(s[0]) {
        BrokenSeedIsWellFormed(s[1..]);
        var one := [s[0]];
        assert CharLength(one) == 1 && one[1..] == [];
        WellFormedConcat(one, BrokenUtf8Seed(s[1..]));
      } else {
        var n := HighRun(s);
        BrokenSeedIsWellFormed(s[n..]);
        WellFormedConcat(DecodeGroup(s[..n]), BrokenUtf8Seed(s[n..]));
      }
    }
  }

  /** Applying the rewrite a second time changes nothing. */
  lemma BrokenSeedIdempotent(s: Bytes)
    ensures BrokenUtf8Seed(BrokenUtf8Seed(s)) == BrokenUtf8Seed(s)
  {
    BrokenSeedIsWellFormed(s);
    BrokenSeedWellFormed(BrokenUtf8Seed(s));
  }

  /** The bytes up to 0x7F of `s`, in order. */
  function AsciiBytes(s: Bytes): Bytes {
    if |s| == 0 then [] else (if High(s[0]) then [] else [s[0]]) + AsciiBytes(s[1..])
  }

  lemma {:induction false} AsciiBytesConcat(a: Bytes, b: Bytes)
    ensures AsciiBytes(a + b) == AsciiBytes(a) + AsciiBytes(b)
    decreases |a|
  {
    if |a| == 0 {
      assert a + b == b;
    } else {
      assert (a + b)[1..] == a[1..] + b;
      AsciiBytesConcat(a[1..], b);
    }
  }

  lemma {:induction false} AsciiBytesOfHigh(s: Bytes)
    requires forall k :: 0 <= k < |s| ==> High(s[k])
    ensures AsciiBytes(s) == []
    decreases |s|
  {
    if |s| > 0 {
      AsciiBytesOfHigh(s[1..]);
    }
  }

  /** Every byte up to 0x7F of the input appears in the output, in its original order,
      and the output has no others: only the runs of high bytes are rewritten. */
  lemma {:induction false} BrokenSeedKeepsAscii(s: Bytes)
    ensures AsciiBytes(BrokenUtf8Seed(s)) == AsciiBytes(s)
    decreases |s|
  {
    if |s| > 0 {
      if !High(s[0]) {
        BrokenSeedKeepsAscii(s[1..]);
        AsciiBytesConcat([s[0]], BrokenUtf8Seed(s[1..]));
        assert [s[0]][1..] == [];
      } else {
        var n := HighRun(s);
        HighRunIsHigh(s);
        DecodeGroupHigh(s[..n]);
        BrokenSeedKeepsAscii(s[n..]);
        AsciiBytesConcat(DecodeGroup(s[..n]), BrokenUtf8Seed(s[n..]));
        AsciiBytesOfHigh(DecodeGroup(s[..n]));
        AsciiBytesOfHigh(s[..n]);
        assert s == s[..n] + s[n..];
        AsciiBytesConcat(s[..n], s[n..]);
      }
    }
  }
}
