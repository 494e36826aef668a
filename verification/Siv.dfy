/** AES-SIV over an abstract CMAC and an abstract CTR keystream. */
module Siv {
  import opened Common
  import opened Xor
  import opened Doubling

  /** A CMAC under a fixed key. */
  type Mac = Bytes -> Block

  /** The byte at a position of the CTR keystream that starts from a given counter block. */
  type Keystream = (Block, nat) -> byte

  const ZERO_BLOCK: Block := [0, 0, 0, 0, 0, 0, 0, 0, 0, 0, 0, 0, 0, 0, 0, 0]

  // --- S2V as section 2.4 of RFC 5297 defines it ------------------------------------------------

  /** The last 16 bytes of `s` masked with `d`. */
  function XorEnd(s: Bytes, d: Block): (r: Bytes)
    requires |s| >= 16
    ensures |r| == |s|
  {
    s[..|s| - 16] + XorSeq(s[|s| - 16..], d)
  }

  /** A short string extended by a one bit and zeros to a block. */
  function Pad(s: Bytes): Block
    requires |s| < 16
  {
    s + [0x80] + ZERO_BLOCK[..15 - |s|]
  }

  /** The running value after all strings but the last. */
  function Fold(mac: Mac, d: Block, strings: seq<Bytes>): Block
    decreases |strings|
  {
    if strings == [] then d else Fold(mac, XorSeq(Dbl(d), mac(strings[0])), strings[1..])
  }

  function S2V(mac: Mac, strings: seq<Bytes>): Block
    requires strings != []
  {
    var d := Fold(mac, mac(ZERO_BLOCK), strings[..|strings| - 1]);
    var last := strings[|strings| - 1];
    mac(if |last| >= 16 then XorEnd(last, d) else XorSeq(Dbl(d), Pad(last)))
  }

  /** The vector a call authenticates: associated data counts only if there is any. */
  function Vector(text: Bytes, ad: Bytes): seq<Bytes> {
    if ad == [] then [text] else [ad, text]
  }

  /** The synthetic IV, computed in place in block buffers. */
  method ComputeS2V(mac: Mac, text: Bytes, ad: Bytes) returns (iv: Block)
    ensures iv == S2V(mac, Vector(text, ad))
  {
    var d := new byte[16](i requires 0 <= i < 16 => mac(ZERO_BLOCK)[i]);
    assert d[..] == mac(ZERO_BLOCK);
    if ad != [] {
      SivDbl(d);
      XorBuf(d, mac(ad));
    }
    FoldPrefix(mac, text, ad);
    if |text| >= 16 {
      iv := mac(text[..|text| - 16] + XorSeq(text[|text| - 16..], d[..]));
    } else {
      SivDbl(d);
      var padded := PadBlock(text);
      XorBuf(d, padded);
      iv := mac(d[..]);
    }
  }

  lemma FoldPrefix(mac: Mac, text: Bytes, ad: Bytes)
    ensures var v := Vector(text, ad);
            && v[|v| - 1] == text
            && Fold(mac, mac(ZERO_BLOCK), v[..|v| - 1])
               == if ad == [] then mac(ZERO_BLOCK) else XorSeq(Dbl(mac(ZERO_BLOCK)), mac(ad))
  {
    var v, d := Vector(text, ad), mac(ZERO_BLOCK);
    if ad == [] {
      assert v[..0] == [];
    } else {
      assert v[..1] == [ad] && [ad][1..] == [];
      assert Fold(mac, d, [ad]) == Fold(mac, XorSeq(Dbl(d), mac(ad)), []);
    }
  }

  method PadBlock(text: Bytes) returns (padded: Block)
    requires |text| < 16
    ensures padded == Pad(text)
  {
    var buf := new byte[16](i requires 0 <= i < 16 => if i < |text| then text[i] else 0);
    buf[|text|] := 0x80;
    for i := |text| + 1 to 16
      invariant buf[..i] == text + [0x80] + ZERO_BLOCK[..i - |text| - 1]
    {
      buf[i] := 0;
    }
    padded := buf[..];
  }

  // --- Encryption and decryption ----------------------------------------------------------------

  /** The counter block: the IV with the top bits of its last two 32-bit words cleared. */
  function Counter(iv: Block): Block {
    iv[8 := iv[8] as int % 128][12 := iv[12] as int % 128]
  }

  function Stream(ks: Keystream, counter: Block, n: nat): (r: Bytes)
    ensures |r| == n
  {
    seq<byte>(n, i requires 0 <= i < n => ks(counter, i))
  }

  function Apply(ks: Keystream, iv: Block, text: Bytes): (r: Bytes)
    ensures |r| == |text|
  {
    XorSeq(text, Stream(ks, Counter(iv), |text|))
  }

  lemma ApplyTwice(ks: Keystream, iv: Block, text: Bytes)
    ensures Apply(ks, iv, Apply(ks, iv, text)) == text
  {
    XorSeqTwice(text, Stream(ks, Counter(iv), |text|));
  }

  /** `q` is the IV with the top bits of bytes 8 and 12 cleared. */
  ghost predicate Cleared(iv: Block, q: Block) {
    && q[8] as int == iv[8] as int % 128 && q[12] as int == iv[12] as int % 128
    && forall i :: 0 <= i < 16 && i != 8 && i != 12 ==> q[i] == iv[i]
  }

  /** Byte for byte, `to` is `from` masked with the keystream that starts from the cleared IV. */
  ghost predicate Streamed(ks: Keystream, iv: Block, from: Bytes, to: Bytes) {
    && |to| == |from|
    && exists q {:trigger Cleared(iv, q)} :: Cleared(iv, q) && forall i :: 0 <= i < |from| ==> to[i] == XorByte(from[i], ks(q, i))
  }

  lemma ClearedOnce(iv: Block, q: Block)
    ensures Cleared(iv, q) <==> q == Counter(iv)
  {
    if Cleared(iv, q) { assert forall i :: 0 <= i < 16 ==> q[i] == Counter(iv)[i]; }
  }

  lemma StreamedIff(ks: Keystream, iv: Block, from: Bytes, to: Bytes)
    ensures Streamed(ks, iv, from, to) <==> to == Apply(ks, iv, from)
  {
    ClearedOnce(iv, Counter(iv));
    if Streamed(ks, iv, from, to) {
      var q :| Cleared(iv, q) && forall i :: 0 <= i < |from| ==> to[i] == XorByte(from[i], ks(q, i));
      ClearedOnce(iv, q);
    }
  }

  /** IVs that differ in the two cleared bits only give the same keystream. */
  lemma SameKeystream(ks: Keystream, a: Block, b: Block, text: Bytes)
    requires a[8] as int % 128 == b[8] as int % 128 && a[12] as int % 128 == b[12] as int % 128
    requires forall i :: 0 <= i < 16 && i != 8 && i != 12 ==> a[i] == b[i]
    ensures Apply(ks, a, text) == Apply(ks, b, text)
  {
    ClearedOnce(a, Counter(a));
    ClearedOnce(b, Counter(a));
  }

  method EncryptAndAuthenticate(mac: Mac, ks: Keystream, text: Bytes, ad: Bytes) returns (cipher: Bytes, siv: Block)
    ensures siv == S2V(mac, Vector(text, ad)) && Streamed(ks, siv, text, cipher)
  {
    siv := ComputeS2V(mac, text, ad);
    cipher := Apply(ks, siv, text);
    StreamedIff(ks, siv, text, cipher);
  }

  method DecryptAndVerify(mac: Mac, ks: Keystream, cipher: Bytes, ad: Bytes, siv: Block)
    returns (ok: bool, text: Bytes)
    ensures Streamed(ks, siv, cipher, text)
    ensures ok <==> siv == S2V(mac, Vector(text, ad))
  {
    text := Apply(ks, siv, cipher);
    StreamedIff(ks, siv, cipher, text);
    var again := ComputeS2V(mac, text, ad);
    ok := siv == again;
  }

  /** Decryption accepts what encryption produces, and gives back what was encrypted. */
  method RoundTrip(mac: Mac, ks: Keystream, text: Bytes, ad: Bytes) returns (ok: bool, back: Bytes)
    ensures ok && back == text
  {
    var cipher, siv := EncryptAndAuthenticate(mac, ks, text, ad);
    ok, back := DecryptAndVerify(mac, ks, cipher, ad, siv);
    StreamedIff(ks, siv, text, cipher);
    StreamedIff(ks, siv, cipher, back);
    ApplyTwice(ks, siv, text);
  }

  ghost predicate Encrypts(mac: Mac, ks: Keystream, text: Bytes, ad: Bytes, cipher: Bytes, siv: Block) {
    siv == S2V(mac, Vector(text, ad)) && cipher == Apply(ks, siv, text)
  }

  ghost predicate Accepts(mac: Mac, ks: Keystream, cipher: Bytes, ad: Bytes, siv: Block, text: Bytes) {
    text == Apply(ks, siv, cipher) && siv == S2V(mac, Vector(text, ad))
  }

  /** What is accepted with a plaintext is exactly what that plaintext encrypts to. */
  lemma AcceptedIffEncrypted(mac: Mac, ks: Keystream, text: Bytes, ad: Bytes, cipher: Bytes, siv: Block)
    ensures Accepts(mac, ks, cipher, ad, siv, text) <==> Encrypts(mac, ks, text, ad, cipher, siv)
  {
    ApplyTwice(ks, siv, text);
    ApplyTwice(ks, siv, cipher);
  }
}
