/**
 `crypto.py`: data keys wrapped by a master key, content sealed into a prefixed base64 envelope,
 and the memory id bound into both as associated data. Nonces are drawn by the caller.
 */
module Cipher {
  import opened Options
  import opened Encodings
  import opened Aead

  /** A memory's UUID in its canonical text form. */
  type Id = string

  type Nonce = n: Bytes | |n| == 12 witness [0, 0, 0, 0, 0, 0, 0, 0, 0, 0, 0, 0]

  const PREFIX := "enc:v1:"

  /** The text, or why there is none: it did not authenticate, or it is not an envelope at all. */
  datatype Read = Text(text: string) | Failed | Malformed

  function Aad(id: Id): Bytes {
    EncodeUtf8(id)
  }

  function Wrap(a: Aead, master: Bytes, key: Bytes, id: Id, nonce: Nonce): Bytes {
    nonce + a.seal(master, nonce, key, Aad(id))
  }

  function Unwrap(a: Aead, master: Bytes, wrapped: Bytes, id: Id): Option<Bytes> {
    if |wrapped| < 12 then None else a.open(master, wrapped[..12], wrapped[12..], Aad(id))
  }

  predicate IsEncrypted(value: string) {
    PREFIX <= value
  }

  function Encrypt(a: Aead, text: string, key: Bytes, id: Id, nonce: Nonce): string {
    PREFIX + EncodeBase64(nonce + a.seal(key, nonce, EncodeUtf8(text), Aad(id)))
  }

  function Decrypt(a: Aead, envelope: string, key: Bytes, id: Id): Read {
    if !IsEncrypted(envelope) then Text(envelope)
    else
      match DecodeBase64(envelope[|PREFIX|..])
      case None => Malformed
      case Some(raw) =>
        if |raw| < 8 then Malformed
        else if |raw| < 12 then Failed
        else
          match a.open(key, raw[..12], raw[12..], Aad(id))
          case None => Failed
          case Some(plain) =>
            match DecodeUtf8(plain)
            case None => Malformed
            case Some(text) => Text(text)
  }

  /** A wrapped key opens under its master key for its memory, and under no other for no other. */
  lemma UnwrapWrap(a: Aead, master: Bytes, key: Bytes, id: Id, nonce: Nonce, master': Bytes, id': Id)
    requires Ideal(a)
    ensures Unwrap(a, master', Wrap(a, master, key, id, nonce), id') ==
              if master' == master && id' == id then Some(key) else None
  {
    var wrapped := Wrap(a, master, key, id, nonce);
    assert wrapped[..12] == nonce && wrapped[12..] == a.seal(master, nonce, key, Aad(id));
    OpensExactly(a, master, nonce, key, Aad(id), master', nonce, Aad(id'));
    if Aad(id) == Aad(id') {
      Utf8IsInjective(id, id');
    }
  }

  /** An envelope decrypts to its text with its key in its memory, and fails for any other pair. */
  lemma DecryptEncrypt(a: Aead, text: string, key: Bytes, id: Id, nonce: Nonce, key': Bytes, id': Id)
    requires Ideal(a)
    ensures IsEncrypted(Encrypt(a, text, key, id, nonce))
    ensures Decrypt(a, Encrypt(a, text, key, id, nonce), key', id') ==
              if key' == key && id' == id then Text(text) else Failed
  {
    var sealed := a.seal(key, nonce, EncodeUtf8(text), Aad(id));
    var raw := nonce + sealed;
    var envelope := Encrypt(a, text, key, id, nonce);
    assert envelope[|PREFIX|..] == EncodeBase64(raw);
    Base64RoundTrip(raw);
    assert raw[..12] == nonce && raw[12..] == sealed;
    OpensExactly(a, key, nonce, EncodeUtf8(text), Aad(id), key', nonce, Aad(id'));
    Utf8RoundTrip(text);
    if Aad(id) == Aad(id') {
      Utf8IsInjective(id, id');
    }
  }

  /** The bytes inside the envelope are the text sealed with this key, memory and nonce. */
  predicate Sealing(a: Aead, envelope: string, text: string, key: Bytes, id: Id, nonce: Nonce)
    requires IsEncrypted(envelope)
  {
    DecodeBase64(envelope[|PREFIX|..]) == Some(nonce + a.seal(key, nonce, EncodeUtf8(text), Aad(id)))
  }

  /**
   An envelope is the prefix and, in base64, the nonce's twelve bytes before what opens, under the memory's
   id, to the text in UTF-8.
   */
  lemma EnvelopeLayout(a: Aead, text: string, key: Bytes, id: Id, nonce: Nonce) returns (raw: Bytes)
    requires Ideal(a)
    ensures "enc:v1:" <= Encrypt(a, text, key, id, nonce)
    ensures Encrypt(a, text, key, id, nonce)[7..] == EncodeBase64(raw)
    ensures |raw| >= 12 && raw[..12] == nonce
    ensures a.open(key, nonce, raw[12..], EncodeUtf8(id)) == Some(EncodeUtf8(text))
  {
    raw := nonce + a.seal(key, nonce, EncodeUtf8(text), Aad(id));
    var envelope := Encrypt(a, text, key, id, nonce);
    assert envelope[7..] == EncodeBase64(raw) && envelope[..7] == "enc:v1:";
    assert raw[12..] == a.seal(key, nonce, EncodeUtf8(text), Aad(id));
  }

  /** A wrapped key is the nonce before what opens, under the memory's id, to the key; nothing else unwraps. */
  lemma UnwrapsIff(a: Aead, master: Bytes, wrapped: Bytes, id: Id, key: Bytes)
    requires Ideal(a)
    ensures Unwrap(a, master, wrapped, id) == Some(key)
       <==> exists nonce: Nonce :: wrapped == Wrap(a, master, key, id, nonce)
    ensures forall nonce: Nonce :: Wrap(a, master, key, id, nonce) == nonce + a.seal(master, nonce, key, EncodeUtf8(id))
  {
    if Unwrap(a, master, wrapped, id) == Some(key) {
      var nonce: Nonce := wrapped[..12];
      assert wrapped == Wrap(a, master, key, id, nonce);
    }
    if nonce: Nonce :| wrapped == Wrap(a, master, key, id, nonce) {
      UnwrapWrap(a, master, key, id, nonce, master, id);
    }
  }

  /** What comes after the prefix of an envelope that opens: twelve bytes of nonce, and a sealed text. */
  ghost predicate OpensTo(a: Aead, envelope: string, key: Bytes, id: Id, text: string) {
    && "enc:v1:" <= envelope && DecodeBase64(envelope[7..]).Some?
    && var raw := DecodeBase64(envelope[7..]).value;
       |raw| >= 12 && a.open(key, raw[..12], raw[12..], EncodeUtf8(id)) == Some(EncodeUtf8(text))
  }

  /** A stored value reads as itself without the prefix, and with it as the text it opens to. */
  lemma DecryptsIff(a: Aead, envelope: string, key: Bytes, id: Id, text: string)
    ensures Decrypt(a, envelope, key, id) == Text(text) <==>
              if "enc:v1:" <= envelope then OpensTo(a, envelope, key, id, text) else text == envelope
    ensures Decrypt(a, envelope, key, id) == Failed <==>
              && "enc:v1:" <= envelope && DecodeBase64(envelope[7..]).Some?
              && var raw := DecodeBase64(envelope[7..]).value;
                 |raw| >= 8 && (|raw| >= 12 ==> a.open(key, raw[..12], raw[12..], EncodeUtf8(id)).None?)
  {
    if OpensTo(a, envelope, key, id, text) {
      Utf8RoundTrip(text);
    } else if "enc:v1:" <= envelope && Decrypt(a, envelope, key, id) == Text(text) {
      var raw := DecodeBase64(envelope[7..]).value;
      Utf8IsCanonical(a.open(key, raw[..12], raw[12..], EncodeUtf8(id)).value);
    }
  }

  /** Whatever decrypts was sealed with that key for that memory: no altered envelope is believed. */
  lemma OnlySealedTextDecrypts(a: Aead, envelope: string, key: Bytes, id: Id)
    requires Ideal(a) && IsEncrypted(envelope) && Decrypt(a, envelope, key, id).Text?
    ensures exists nonce: Nonce :: Sealing(a, envelope, Decrypt(a, envelope, key, id).text, key, id, nonce)
  {
    var raw := DecodeBase64(envelope[|PREFIX|..]).value;
    var nonce: Nonce := raw[..12];
    var plain := a.open(key, nonce, raw[12..], Aad(id)).value;
    Utf8IsCanonical(plain);
    assert raw == nonce + a.seal(key, nonce, plain, Aad(id));
    assert Sealing(a, envelope, Decrypt(a, envelope, key, id).text, key, id, nonce);
  }

  /** Envelopes remember everything about how they were made. */
  lemma EnvelopesDiffer(a: Aead, text: string, key: Bytes, id: Id, nonce: Nonce,
                                           text': string, key': Bytes, id': Id, nonce': Nonce)
    requires Ideal(a) && Encrypt(a, text, key, id, nonce) == Encrypt(a, text', key', id', nonce')
    ensures text == text' && key == key' && id == id'
  {
    DecryptEncrypt(a, text, key, id, nonce, key, id);
    DecryptEncrypt(a, text', key', id', nonce', key, id);
  }
}
