/** Byte strings, optional values and the JavaScript idioms the wallet code leans on:
    `Buffer.slice`, which clamps its bounds, and `x || default`, which replaces every
    falsy option value (absent, `0`, `''`) by a default. */
module Common {

  newtype Byte = b: int | 0 <= b < 256

  type Bytes = seq<Byte>

  datatype Option<+T> = None | Some(value: T)

  function Min(a: int, b: int): int { if a <= b then a else b }

  /** `s.slice(lo, hi)` for non-negative bounds: both bounds are clamped to the length,
      and an empty slice results when `lo` lies at or beyond the clamped `hi`. */
  function Slice<T>(s: seq<T>, lo: nat, hi: nat): (r: seq<T>)
    ensures |r| == if lo < Min(hi, |s|) then Min(hi, |s|) - lo else 0
    ensures forall k :: 0 <= k < |r| ==> r[k] == s[lo + k]
    ensures lo <= hi <= |s| ==> r == s[lo..hi]
    ensures lo <= |s| <= hi ==> r == s[lo..]
  {
    var end := Min(hi, |s|);
    if lo < end then s[lo..end] else []
  }

  /** `opts.x || d` for a numeric option: absent and `0` fall back to `d`. */
  function OrNumber(o: Option<int>, d: int): (r: int)
    ensures o.None? ==> r == d
    ensures o == Some(0) ==> r == d
    ensures o.Some? && o.value != 0 ==> r == o.value
    ensures r == d || (o.Some? && r == o.value)
  {
    if o.Some? && o.value != 0 then o.value else d
  }

  /** `opts.x || d` for a count or a size, which the callers only ever give as naturals. */
  function OrNat(o: Option<nat>, d: nat): (r: nat)
    ensures o.None? ==> r == d
    ensures o == Some(0) ==> r == d
    ensures o.Some? && o.value != 0 ==> r == o.value
    ensures r == d || (o.Some? && r == o.value)
  {
    OrNumber(if o.Some? then Some(o.value as int) else None, d)
  }

  /** `opts.x || d` for a string option: absent and the empty string fall back to `d`. */
  function OrText(o: Option<string>, d: string): (r: string)
    ensures o.None? ==> r == d
    ensures o == Some("") ==> r == d
    ensures o.Some? && o.value != "" ==> r == o.value
    ensures r == d || (o.Some? && r == o.value)
  {
    if o.Some? && o.value != "" then o.value else d
  }

  /** `opts.x || d` for a `Buffer` option: every Buffer is truthy, even an empty one. */
  function OrBytes(o: Option<Bytes>, d: Bytes): (r: Bytes)
    ensures o.None? ==> r == d
    ensures o.Some? ==> r == o.value
  {
    if o.Some? then o.value else d
  }

  // Facts about slices of concatenations, proved here, away from any recursive
  // definition over sequences, so that callers only use them by congruence.

  lemma TakeDrop<T>(s: seq<T>, n: nat)
    requires n <= |s|
    ensures s[..n] + s[n..] == s
  {
  }

  lemma ConsHead<T>(s: seq<T>)
    requires |s| > 0
    ensures [s[0]] + s[1..] == s
  {
  }

  lemma AppendEmpty<T>(s: seq<T>)
    ensures s + [] == s && [] + s == s
  {
  }

  lemma Regroup<T>(a: seq<T>, b: seq<T>, c: seq<T>, d: seq<T>)
    ensures a + (b + (c + d)) == ((a + b) + c) + d
  {
  }

  /** Of two sequences one of which is a prefix of the other, a slice within both is
      the same. */
  lemma PrefixSlice<T>(s: seq<T>, t: seq<T>, lo: nat, hi: nat)
    requires s <= t || t <= s
    requires lo <= hi <= |s| && hi <= |t|
    ensures s[lo..hi] == t[lo..hi]
  {
  }

  lemma ConcatHalves<T>(a: seq<T>, b: seq<T>)
    ensures (a + b)[..|a|] == a && (a + b)[|a|..] == b
  {
  }

  lemma SliceConcat<T>(a: seq<T>, b: seq<T>, m: nat)
    requires m <= |b|
    ensures (a + b)[..|a| + m] == a + b[..m]
    ensures (a + b)[|a| + m..] == b[m..]
  {
  }

  /** One element moves from the front of `s[i..]` to the end of `a`. */
  lemma ShiftOne<T>(a: seq<T>, s: seq<T>, i: nat)
    requires i < |s|
    ensures (a + [s[i]]) + s[i + 1..] == a + s[i..]
    ensures s[i..][1..] == s[i + 1..]
    ensures s[i..][0] == s[i]
  {
  }
}
