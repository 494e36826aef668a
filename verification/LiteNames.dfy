/** Encrypted paths of the lite format. */
module LiteNames {
  import opened Common
  import opened Doubling
  import opened Siv
  import Base32
  import opened LitePaths

  const MAX_COMPONENT := 2000
  const BUFFER_SIZE := 2032

  /** The fewest characters of the text form of an IV. */
  const MIN_ENCRYPTED := 26

  /** A component as the base-32 text of its synthetic IV and ciphertext. */
  function EncryptComponent(mac: Mac, ks: Keystream, c: Bytes): Outcome {
    if |c| > MAX_COMPONENT then Err(NameTooLong)
    else
      var siv := S2V(mac, Vector(c, []));
      Ok(Base32.Encode(siv + Apply(ks, siv, c)))
  }

  /** A decoded text shorter than an IV is read behind its end. */
  function DecryptComponent(mac: Mac, ks: Keystream, s: Bytes): Outcome {
    var d := Base32.Decode(s);
    if d.None? then Err(NotBase32)
    else if |d.value| >= BUFFER_SIZE then Err(NameTooLong)
    else if |d.value| < 16 then Err(OutOfBounds)
    else
      var siv: Block := d.value[..16];
      var text := Apply(ks, siv, d.value[16..]);
      if siv == S2V(mac, Vector(text, [])) then Ok(text) else Err(InvalidFilename)
  }

  function Encryptor(mac: Mac, ks: Keystream): Translator {
    c => EncryptComponent(mac, ks, c)
  }

  function Decryptor(mac: Mac, ks: Keystream): Translator {
    s => DecryptComponent(mac, ks, s)
  }

  /** One component encrypted as the path loop does it. The text decodes to the synthetic IV of the
      component, followed by the component masked with the keystream of that IV. */
  method EncryptSlice(mac: Mac, ks: Keystream, c: Bytes) returns (r: Outcome)
    ensures r == Encryptor(mac, ks)(c)
    ensures if |c| > 2000 then r == Err(NameTooLong)
            else r.Ok? && exists cipher {:trigger Streamed(ks, S2V(mac, [c]), c, cipher)} ::
              Streamed(ks, S2V(mac, [c]), c, cipher) && Base32.Decode(r.value) == Some(S2V(mac, [c]) + cipher)
  {
    if |c| > MAX_COMPONENT {
      return Err(NameTooLong);
    }
    var cipher, siv := EncryptAndAuthenticate(mac, ks, c, []);
    StreamedIff(ks, siv, c, cipher);
    var text := Base32.EncodeLoop(siv + cipher);
    Base32.RoundTrip(siv + cipher);
    r := Ok(text);
  }

  /** One component decrypted as the path loop does it: accepted exactly if its first 16 bytes are the
      synthetic IV of what the rest unmasks to. */
  method DecryptSlice(mac: Mac, ks: Keystream, s: Bytes) returns (r: Outcome)
    ensures r == Decryptor(mac, ks)(s)
    ensures var d := Base32.Decode(s);
            if d.None? then r == Err(NotBase32)
            else if |d.value| >= 2032 then r == Err(NameTooLong)
            else if |d.value| < 16 then r == Err(OutOfBounds)
            else exists text {:trigger Streamed(ks, d.value[..16], d.value[16..], text)} ::
              Streamed(ks, d.value[..16], d.value[16..], text)
              && r == if d.value[..16] == S2V(mac, [text]) then Ok(text) else Err(InvalidFilename)
  {
    var d := Base32.DecodeLoop(s);
    if d.None? {
      return Err(NotBase32);
    }
    if |d.value| >= BUFFER_SIZE {
      return Err(NameTooLong);
    }
    if |d.value| < 16 {
      return Err(OutOfBounds);
    }
    var ok, text := DecryptAndVerify(mac, ks, d.value[16..], [], d.value[..16]);
    StreamedIff(ks, d.value[..16], d.value[16..], text);
    r := if ok then Ok(text) else Err(InvalidFilename);
  }

  method EncryptPath(mac: Mac, ks: Keystream, path: Bytes) returns (r: Outcome)
    ensures r == Translate(Encryptor(mac, ks), path)
  {
    r := TranslatePath(Encryptor(mac, ks), path);
  }

  method DecryptPath(mac: Mac, ks: Keystream, path: Bytes) returns (r: Outcome)
    ensures r == Translate(Decryptor(mac, ks), path)
  {
    r := TranslatePath(Decryptor(mac, ks), path);
  }

  lemma ComponentBack(mac: Mac, ks: Keystream, c: Bytes)
    requires c != [] && |c| <= MAX_COMPONENT
    ensures EncryptComponent(mac, ks, c).Ok?
    ensures var s := EncryptComponent(mac, ks, c).value;
            |s| >= MIN_ENCRYPTED && SlashFree(s) && DecryptComponent(mac, ks, s) == Ok(c)
  {
    var siv := S2V(mac, Vector(c, []));
    var d := siv + Apply(ks, siv, c);
    Base32.RoundTrip(d);
    Base32.PlainText(d);
    assert d[..16] == siv && d[16..] == Apply(ks, siv, c);
    ApplyTwice(ks, siv, c);
  }

  lemma ComponentsUndone(mac: Mac, ks: Keystream)
    ensures Undoes(Encryptor(mac, ks), Decryptor(mac, ks))
  {
    var f, g := Encryptor(mac, ks), Decryptor(mac, ks);
    forall c | c != [] && SlashFree(c) && f(c).Ok?
      ensures f(c).value != [] && SlashFree(f(c).value) && g(f(c).value) == Ok(c)
    {
      ComponentBack(mac, ks, c);
    }
  }

  /** Some component is longer than 2000 bytes. */
  ghost predicate TooLong(path: Bytes)
    decreases |path|
  {
    var k := FirstSlash(path);
    k > MAX_COMPONENT || (k < |path| && TooLong(path[k + 1..]))
  }

  lemma {:induction false} FailsIfTooLong(mac: Mac, ks: Keystream, path: Bytes)
    ensures SomeFails(Encryptor(mac, ks), path) <==> TooLong(path)
    decreases |path|
  {
    var k := FirstSlash(path);
    if k < |path| { FailsIfTooLong(mac, ks, path[k + 1..]); }
  }

  /** Encryption fails exactly on overlong components; otherwise decryption gives the path back. */
  lemma PathRoundTrip(mac: Mac, ks: Keystream, path: Bytes)
    ensures Translate(Encryptor(mac, ks), path).Err? <==> TooLong(path)
    ensures !TooLong(path) ==>
              Translate(Decryptor(mac, ks), Translate(Encryptor(mac, ks), path).value) == Ok(path)
  {
    FailsExactly(Encryptor(mac, ks), path);
    FailsIfTooLong(mac, ks, path);
    ComponentsUndone(mac, ks);
    if !TooLong(path) { TranslateBack(Encryptor(mac, ks), Decryptor(mac, ks), path); }
  }

  /** The buffer is overrun exactly by components of base-32 characters that are too few for an IV. */
  lemma OverrunExactly(mac: Mac, ks: Keystream, s: Bytes)
    ensures DecryptComponent(mac, ks, s) == Err(OutOfBounds) <==> Base32.Decode(s).Some? && |s| < MIN_ENCRYPTED
  {
  }

  /** A path is decrypted without overrun if its components are empty or long enough, and so are all
      the paths that encryption gives. */
  lemma NoOverrun(mac: Mac, ks: Keystream, path: Bytes)
    ensures LongComponents(path, MIN_ENCRYPTED) ==> Translate(Decryptor(mac, ks), path) != Err(OutOfBounds)
    ensures var c := Translate(Encryptor(mac, ks), path);
            !TooLong(path) ==> c.Ok? && LongComponents(c.value, MIN_ENCRYPTED)
  {
    FailsWith(Decryptor(mac, ks), path, OutOfBounds);
    forall c | |c| >= MIN_ENCRYPTED ensures Decryptor(mac, ks)(c) != Err(OutOfBounds) {
      OverrunExactly(mac, ks, c);
    }
    LongNeverFails(Decryptor(mac, ks), path, MIN_ENCRYPTED, OutOfBounds);
    if !TooLong(path) {
      PathRoundTrip(mac, ks, path);
      ComponentsUndone(mac, ks);
      forall c | c != [] && Encryptor(mac, ks)(c).Ok? ensures |Encryptor(mac, ks)(c).value| >= MIN_ENCRYPTED {
        ComponentBack(mac, ks, c);
      }
      TranslatesLong(Encryptor(mac, ks), Decryptor(mac, ks), path, MIN_ENCRYPTED);
    }
  }

  /** Encryption keeps slashes where they are: it works on the two sides of a slash independently. */
  lemma PathJoin(mac: Mac, ks: Keystream, a: Bytes, b: Bytes)
    requires !TooLong(a) && !TooLong(b)
    ensures var f := Encryptor(mac, ks);
            && Translate(f, a).Ok? && Translate(f, b).Ok?
            && Translate(f, a + [SLASH] + b) == Ok(Translate(f, a).value + [SLASH] + Translate(f, b).value)
  {
    PathRoundTrip(mac, ks, a);
    PathRoundTrip(mac, ks, b);
    TranslateJoin(Encryptor(mac, ks), a, b);
  }
}
