/** HKDF expansion over an abstract HMAC. */
module Hkdf {
  import opened Common

  const DIGEST_SIZE := 32

  type Digest = d: Bytes | |d| == DIGEST_SIZE witness seq(DIGEST_SIZE, i => 0)

  /** HMAC of a message under a key. */
  type Hmac = (Bytes, Bytes) -> Digest

  /** T(i) of section 2.3 of RFC 5869; T(0) is empty. */
  function T(hmac: Hmac, prk: Bytes, info: Bytes, i: nat): (t: Bytes)
    requires i <= 255
    ensures |t| == if i == 0 then 0 else DIGEST_SIZE
  {
    if i == 0 then [] else hmac(prk, T(hmac, prk, info, i - 1) + info + [i])
  }

  /** T(1) | ... | T(n). */
  function Blocks(hmac: Hmac, prk: Bytes, info: Bytes, n: nat): (s: Bytes)
    requires n <= 255
    ensures |s| == n * DIGEST_SIZE
  {
    if n == 0 then [] else Blocks(hmac, prk, info, n - 1) + T(hmac, prk, info, n)
  }

  /** The first `len` bytes of the sequence of blocks. */
  function Okm(hmac: Hmac, prk: Bytes, info: Bytes, len: nat): (s: Bytes)
    requires len <= 255 * DIGEST_SIZE
    ensures |s| == len
  {
    Blocks(hmac, prk, info, 255)[..len]
  }

  lemma {:induction false} BlocksPrefix(hmac: Hmac, prk: Bytes, info: Bytes, m: nat, n: nat)
    requires m <= n <= 255
    ensures Blocks(hmac, prk, info, m) == Blocks(hmac, prk, info, n)[..m * DIGEST_SIZE]
    decreases n
  {
    if m < n { BlocksPrefix(hmac, prk, info, m, n - 1); }
  }

  /** Shorter outputs are prefixes of longer ones. */
  lemma OkmPrefix(hmac: Hmac, prk: Bytes, info: Bytes, a: nat, b: nat)
    requires a <= b <= 255 * DIGEST_SIZE
    ensures Okm(hmac, prk, info, a) == Okm(hmac, prk, info, b)[..a]
  {
  }

  /** Block `k` of the output, cut where the output ends. */
  ghost function BlockAt(out: Bytes, k: nat): Bytes
    requires 32 * k < |out|
  {
    out[32 * k..if 32 * k + 32 < |out| then 32 * k + 32 else |out|]
  }

  /** Block `k` is the HMAC of the block before it, the info and the block's number from 1 on. */
  ghost predicate Chained(hmac: Hmac, prk: Bytes, info: Bytes, out: Bytes, k: nat)
    requires 32 * k < |out| <= 255 * 32
  {
    BlockAt(out, k) <= hmac(prk, (if k == 0 then [] else out[32 * (k - 1)..32 * k]) + info + [k + 1])
  }

  lemma OkmBlock(hmac: Hmac, prk: Bytes, info: Bytes, len: nat, k: nat, n: nat)
    requires len <= 255 * DIGEST_SIZE && DIGEST_SIZE * k + n <= len && n <= DIGEST_SIZE && k < 255
    ensures Okm(hmac, prk, info, len)[DIGEST_SIZE * k..DIGEST_SIZE * k + n] == T(hmac, prk, info, k + 1)[..n]
  {
    BlocksPrefix(hmac, prk, info, k + 1, 255);
    var all := Blocks(hmac, prk, info, 255);
    var b := Blocks(hmac, prk, info, k + 1);
    assert b[DIGEST_SIZE * k..] == T(hmac, prk, info, k + 1);
    assert all[..DIGEST_SIZE * (k + 1)][DIGEST_SIZE * k..] == T(hmac, prk, info, k + 1);
  }

  /** The output follows the chain of section 2.3 of RFC 5869. */
  lemma OkmChained(hmac: Hmac, prk: Bytes, info: Bytes, len: nat, k: nat)
    requires len <= 255 * DIGEST_SIZE && 32 * k < len
    ensures Chained(hmac, prk, info, Okm(hmac, prk, info, len), k)
  {
    hide Okm, T;
    OkmBlock(hmac, prk, info, len, k, if 32 * k + 32 < len then 32 else len - 32 * k);
    TStep(hmac, prk, info, k + 1);
    if k > 0 {
      OkmBlock(hmac, prk, info, len, k - 1, 32);
      assert T(hmac, prk, info, k)[..32] == T(hmac, prk, info, k);
    }
  }

  lemma TStep(hmac: Hmac, prk: Bytes, info: Bytes, i: nat)
    requires 0 < i <= 255
    ensures T(hmac, prk, info, i) == hmac(prk, T(hmac, prk, info, i - 1) + info + [i])
    ensures i == 1 ==> T(hmac, prk, info, i - 1) == []
  {
  }

  /** Copies a digest, or as much of it as is wanted, into the output. */
  method Emit(out: array<byte>, at: nat, d: Digest, n: nat)
    requires n <= DIGEST_SIZE && at + n <= out.Length
    modifies out
    ensures out[..at + n] == old(out[..at]) + d[..n]
  {
    for k := 0 to n
      invariant out[..at + k] == old(out[..at]) + d[..k]
    {
      out[at + k] := d[k];
    }
  }

  /** Fills the output block by block; the counter is a single byte. */
  method Expand(hmac: Hmac, prk: Bytes, info: Bytes, out: array<byte>) returns (ok: bool)
    modifies out
    ensures ok <==> out.Length <= 255 * DIGEST_SIZE
    ensures ok ==> out[..] == Okm(hmac, prk, info, out.Length)
    ensures ok ==> forall k: nat :: 32 * k < out.Length ==> Chained(hmac, prk, info, out[..], k)
    ensures !ok ==> out[..] == old(out[..])
  {
    hide Blocks, Chained;
    if out.Length > 255 * DIGEST_SIZE {
      return false;
    }
    var i: nat, j: nat := 0, 0;
    var counter: byte := 1;
    ghost var n := 0;
    while i + j < out.Length
      invariant i + j <= out.Length && n <= 255
      invariant i + j < out.Length ==> i + j == n * DIGEST_SIZE && out[i..i + j] == T(hmac, prk, info, n)
      invariant i + j < out.Length ==> counter as int == n + 1
      invariant out[..i + j] == Okm(hmac, prk, info, i + j)
      decreases out.Length - i - j
    {
      var digest := hmac(prk, out[i..i + j] + info + [counter]);
      n := n + 1;
      counter := (counter as int + 1) % 256;
      var small := if out.Length - i - j < DIGEST_SIZE then out.Length - i - j else DIGEST_SIZE;
      Emit(out, i + j, digest, small);
      NextBlock(hmac, prk, info, n, small);
      i := i + j;
      j := small;
    }
    assert out[..] == out[..i + j];
    forall k: nat | 32 * k < out.Length ensures Chained(hmac, prk, info, out[..], k) {
      OkmChained(hmac, prk, info, out.Length, k);
    }
    ok := true;
  }

  lemma NextBlock(hmac: Hmac, prk: Bytes, info: Bytes, n: nat, small: nat)
    requires 0 < n <= 255 && small <= DIGEST_SIZE
    ensures Okm(hmac, prk, info, (n - 1) * DIGEST_SIZE + small)
            == Okm(hmac, prk, info, (n - 1) * DIGEST_SIZE) + T(hmac, prk, info, n)[..small]
  {
    BlocksPrefix(hmac, prk, info, n, 255);
    BlocksPrefix(hmac, prk, info, n - 1, 255);
  }

  /** Of two outputs expanded from the same key and info, the shorter is a prefix of the longer. */
  method ExpandTwice(hmac: Hmac, prk: Bytes, info: Bytes, short: array<byte>, long: array<byte>) returns (ok: bool)
    requires short != long && short.Length <= long.Length
    modifies short, long
    ensures ok <==> long.Length <= 255 * DIGEST_SIZE
    ensures ok ==> short[..] == long[..short.Length]
  {
    var first := Expand(hmac, prk, info, short);
    ok := Expand(hmac, prk, info, long);
    if ok { OkmPrefix(hmac, prk, info, short.Length, long.Length); }
  }

  /** Derives key material; the extraction step is taken only if there is a salt. */
  method Derive(hmac: Hmac, key: Bytes, salt: Bytes, info: Bytes, out: array<byte>) returns (ok: bool)
    modifies out
    ensures ok <==> out.Length <= 255 * DIGEST_SIZE
    ensures ok ==> out[..] == Okm(hmac, if salt == [] then key else hmac(salt, key), info, out.Length)
    ensures !ok ==> out[..] == old(out[..])
  {
    if salt != [] {
      var distilled := hmac(salt, key);
      ok := Expand(hmac, distilled, info, out);
    } else {
      ok := Expand(hmac, key, info, out);
    }
  }
}
